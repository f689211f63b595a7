/** Byte sequences, zero filling, and the bytewise order of `Buffer.compare`. */
module Bytes {
  type byte = b: int | 0 <= b < 256
  type Bytes = seq<byte>

  const SLASH: byte := 0x2f

  function Zeros(n: nat): (z: Bytes)
    ensures |z| == n && AllZero(z)
  {
    seq(n, _ => 0)
  }

  predicate AllZero(s: Bytes) {
    forall i :: 0 <= i < |s| ==> s[i] == 0
  }

  lemma AllZeroIsZeros(s: Bytes)
    requires AllZero(s)
    ensures s == Zeros(|s|)
  {
  }

  /** The bytes of a text that holds ASCII characters only. */
  function Ascii(s: string): (r: Bytes)
    requires forall i :: 0 <= i < |s| ==> s[i] as int < 128
    ensures |r| == |s| && forall i :: 0 <= i < |s| ==> r[i] == s[i] as int
  {
    seq(|s|, i requires 0 <= i < |s| => s[i] as int)
  }

  lemma SliceOfTake(s: Bytes, n: nat, i: nat, j: nat)
    requires i <= j <= n <= |s|
    ensures s[i..j] == s[..n][i..j]
  {
  }

  lemma SliceOfDrop(s: Bytes, n: nat, i: nat, j: nat)
    requires n <= i <= j <= |s|
    ensures s[i..j] == s[n..][i - n..j - n]
  {
  }

  lemma DropOfDrop(s: Bytes, n: nat, k: nat)
    requires n + k <= |s|
    ensures s[n..][k..] == s[n + k..]
  {
  }

  predicate StartsWith(s: Bytes, prefix: Bytes) {
    prefix <= s
  }

  /** Position of the first `b` in `s`, or `|s|` when there is none. */
  function FirstIndex(s: Bytes, b: byte): (k: nat)
    ensures k <= |s|
    ensures k < |s| ==> s[k] == b
    ensures forall i :: 0 <= i < k ==> s[i] != b
  {
    if s == [] || s[0] == b then 0
    else
      var k := FirstIndex(s[1..], b);
      assert forall i :: 1 <= i < k + 1 ==> s[i] == s[1..][i - 1];
      k + 1
  }

  lemma FirstIndexIs(s: Bytes, b: byte, k: nat)
    requires k <= |s|
    requires k < |s| ==> s[k] == b
    requires forall i :: 0 <= i < k ==> s[i] != b
    ensures FirstIndex(s, b) == k
  {
  }

  /** The parts between the separators `b`. */
  function SplitOn(s: Bytes, b: byte): (parts: seq<Bytes>)
    ensures |parts| > 0
  {
    var k := FirstIndex(s, b);
    if k == |s| then [s] else [s[..k]] + SplitOn(s[k + 1..], b)
  }

  /** `Buffer.compare`: lexicographic on unsigned bytes, a proper prefix first. */
  function Compare(a: Bytes, b: Bytes): int {
    if a == [] then (if b == [] then 0 else -1)
    else if b == [] then 1
    else if a[0] != b[0] then (if a[0] < b[0] then -1 else 1)
    else Compare(a[1..], b[1..])
  }

  /** At the first difference `a` has the lower byte, or ends. */
  ghost predicate LexLower(a: Bytes, b: Bytes) {
    exists m :: 0 <= m <= |a| && m < |b| && a[..m] == b[..m] && (m == |a| || a[m] < b[m])
  }

  /** The comparison is the order of a dictionary of bytes. */
  lemma {:induction false} CompareIs(a: Bytes, b: Bytes)
    ensures Compare(a, b) < 0 <==> LexLower(a, b)
    ensures Compare(a, b) in {-1, 0, 1}
  {
    if a != [] && b != [] && a[0] == b[0] {
      CompareIs(a[1..], b[1..]);
      if LexLower(a[1..], b[1..]) {
        var m :| 0 <= m <= |a[1..]| && m < |b[1..]| && a[1..][..m] == b[1..][..m] && (m == |a[1..]| || a[1..][m] < b[1..][m]);
        assert a[..m + 1] == [a[0]] + a[1..][..m] && b[..m + 1] == [b[0]] + b[1..][..m];
      }
      if LexLower(a, b) {
        var m :| 0 <= m <= |a| && m < |b| && a[..m] == b[..m] && (m == |a| || a[m] < b[m]);
        assert a[1..][..m - 1] == a[..m][1..] && b[1..][..m - 1] == b[..m][1..];
      }
    } else if a == [] && b != [] {
      assert a[..0] == b[..0];
    } else if a != [] && b != [] {
      assert a[..0] == b[..0];
      assert forall m :: 0 < m <= |a| && m < |b| ==> a[..m][0] != b[..m][0];
    }
  }

  lemma {:induction false} CompareZero(a: Bytes, b: Bytes)
    ensures Compare(a, b) == 0 <==> a == b
  {
    if a != [] && b != [] && a[0] == b[0] {
      CompareZero(a[1..], b[1..]);
      assert a == [a[0]] + a[1..] && b == [b[0]] + b[1..];
    }
  }

  lemma {:induction false} CompareAntisymmetric(a: Bytes, b: Bytes)
    ensures Compare(a, b) == -Compare(b, a)
  {
    if a != [] && b != [] && a[0] == b[0] {
      CompareAntisymmetric(a[1..], b[1..]);
    }
  }

  lemma {:induction false} CompareTransitive(a: Bytes, b: Bytes, c: Bytes)
    requires Compare(a, b) <= 0 && Compare(b, c) <= 0
    ensures Compare(a, c) <= 0
    ensures Compare(a, b) < 0 || Compare(b, c) < 0 ==> Compare(a, c) < 0
  {
    if a != [] && b != [] && c != [] && a[0] == b[0] && b[0] == c[0] {
      CompareTransitive(a[1..], b[1..], c[1..]);
    }
  }
}
