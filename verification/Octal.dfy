/** The numeric fields of a USTAR header: zero-padded octal text. */
module Octal {
  import opened Bytes

  const ZERO_DIGIT: byte := 0x30

  /** `value.toString(8)`. */
  function OctalString(value: nat): (s: Bytes)
    ensures |s| > 0
  {
    if value < 8 then [ZERO_DIGIT + value] else OctalString(value / 8) + [ZERO_DIGIT + value % 8]
  }

  /** `padStart(width, "0")`. */
  function PadStart(s: Bytes, width: nat): (r: Bytes)
    ensures |r| == if |s| >= width then |s| else width
  {
    if |s| >= width then s else seq(width - |s|, _ => ZERO_DIGIT) + s
  }

  function Padded(value: nat, width: nat): Bytes {
    PadStart(OctalString(value), width)
  }

  predicate IsOctal(s: Bytes) {
    forall i :: 0 <= i < |s| ==> ZERO_DIGIT <= s[i] <= 0x37
  }

  /** `Number.parseInt(text, 8)` on octal digits. */
  function ParseOctal(s: Bytes): nat
    requires IsOctal(s)
  {
    if s == [] then 0 else 8 * ParseOctal(s[..|s| - 1]) + (s[|s| - 1] - ZERO_DIGIT)
  }

  function Pow8(n: nat): (p: nat)
    ensures p > 0
  {
    if n == 0 then 1 else 8 * Pow8(n - 1)
  }

  /** Padding commutes with taking the last digit. */
  lemma PaddedStep(value: nat, width: nat)
    requires width >= 2 && value < Pow8(width)
    ensures Padded(value, width) == Padded(value / 8, width - 1) + [ZERO_DIGIT + value % 8]
  {
    if value < 8 {
      assert OctalString(value / 8) == [ZERO_DIGIT];
    }
  }

  /** A value below `8^width` takes exactly `width` digits, and they parse back. */
  lemma {:induction false} PaddedParses(value: nat, width: nat)
    requires width >= 1 && value < Pow8(width)
    ensures |Padded(value, width)| == width && IsOctal(Padded(value, width))
    ensures ParseOctal(Padded(value, width)) == value
  {
    var s := Padded(value, width);
    if width == 1 {
      assert Pow8(1) == 8 * Pow8(0) == 8;
      assert s == [ZERO_DIGIT + value];
      assert s[..0] == [];
    } else {
      PaddedStep(value, width);
      PaddedParses(value / 8, width - 1);
      assert s[..|s| - 1] == Padded(value / 8, width - 1);
    }
  }

  /** A value from `8^width` on needs more digits: the field overflows. */
  lemma {:induction false} PaddedOverflows(value: nat, width: nat)
    requires value >= Pow8(width)
    ensures |Padded(value, width)| > width
  {
    if width > 0 {
      PaddedOverflows(value / 8, width - 1);
      assert value >= 8;
    }
  }

  /** Only one digit string of a given width denotes a value. */
  lemma {:induction false} OctalUnique(s: Bytes)
    requires |s| >= 1 && IsOctal(s)
    ensures ParseOctal(s) < Pow8(|s|)
    ensures s == Padded(ParseOctal(s), |s|)
  {
    var n := |s|;
    var init := s[..n - 1];
    assert s == init + [s[n - 1]];
    var v := ParseOctal(s);
    if n == 1 {
      assert Pow8(1) == 8 * Pow8(0) == 8;
      assert ParseOctal(init) == 0;
    } else {
      OctalUnique(init);
      assert v / 8 == ParseOctal(init) && v % 8 == s[n - 1] - ZERO_DIGIT;
      PaddedStep(v, n);
    }
  }

  lemma Powers()
    ensures Pow8(6) == 0x4_0000 && Pow8(7) == 0x20_0000 && Pow8(11) == 0x2_0000_0000
  {
    assert Pow8(2) == 64 && Pow8(4) == 4096;
    assert Pow8(5) == 8 * Pow8(4) && Pow8(6) == 8 * Pow8(5) && Pow8(7) == 8 * Pow8(6);
    assert Pow8(8) == 8 * Pow8(7) && Pow8(9) == 8 * Pow8(8) && Pow8(10) == 8 * Pow8(9) && Pow8(11) == 8 * Pow8(10);
  }
}
