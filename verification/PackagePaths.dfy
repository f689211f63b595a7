/** Package paths (`src/registry/package-paths.ts`). A path is the UTF-8 byte
    sequence of its text, so every length below is a `Buffer.byteLength`. */
module PackagePaths {
  import opened Wrappers
  import opened Bytes

  const MAXIMUM_FILES := 9_999
  const MAXIMUM_ARCHIVE_BYTES := 320 * 1024 * 1024
  const MAXIMUM_FILE_BYTES := 64 * 1024 * 1024
  const MAXIMUM_TOTAL_PAYLOAD_BYTES := 256 * 1024 * 1024
  const MAXIMUM_ARCHIVE_PATH_BYTES := 255
  const MAXIMUM_PATH_BYTES := 240
  const MAXIMUM_PATH_SEGMENT_BYTES := 100
  const MAXIMUM_MANIFEST_BYTES := 4 * 1024 * 1024

  const USTAR_NAME_BYTES := 100
  const USTAR_PREFIX_BYTES := 155
  const ARCHIVE_ROOT: Bytes := Ascii("dokion-package/")
  const BOM: Bytes := [0xef, 0xbb, 0xbf]

  datatype Error =
    | PathInvalid
    | PathDuplicate
    | CaseCollision
    | TooManyFiles
    | FileTooLarge
    | TooLarge
    | ArchiveInvalid
    | EntryTypeUnsupported
    | CompressionUnsupported
    | ManifestInvalid
    | IdMismatch
    | VersionMismatch
    | DeclaredFileMissing
    | UndeclaredFile
    | SizeMismatch
    | DigestMismatch
    | LifecycleScript
    | Incompatible
    | ConfigInvalid

  /** The text services of the JavaScript runtime: which byte sequences the fatal
      UTF-8 decoder accepts, `normalize("NFC")`, and `toLowerCase()`. */
  datatype Unicode = Unicode(
    decodable: Bytes -> bool,
    nfc: Bytes -> Bytes,
    fold: Bytes -> Bytes)

  /** What the model relies on: normalization is idempotent and yields well-formed
      text; well-formedness is decided separately on both sides of a slash and after
      a byte order mark. */
  ghost predicate Lawful(u: Unicode) {
    && (forall s: Bytes :: u.nfc(u.nfc(s)) == u.nfc(s))
    && (forall s: Bytes :: u.decodable(s) ==> u.decodable(u.nfc(s)))
    && (forall a: Bytes, b: Bytes :: u.decodable(a + [SLASH] + b) <==> u.decodable(a) && u.decodable(b))
    && (forall s: Bytes :: u.decodable(BOM + s) ==> u.decodable(s))
    && u.decodable(Ascii("dokion-package"))
    && u.decodable([])
  }

  datatype Split = Split(name: Bytes, prefix: Bytes)

  /** The archive path a header's two fields stand for. */
  function Joined(s: Split): Bytes {
    if s.prefix == [] then s.name else s.prefix + [SLASH] + s.name
  }

  /** A slash at which the path may legally be cut into prefix and name. */
  predicate LegalCut(path: Bytes, i: int) {
    && 0 < i < |path|
    && path[i] == SLASH
    && i <= USTAR_PREFIX_BYTES
    && |path| - i - 1 <= USTAR_NAME_BYTES
  }

  /** The rightmost legal cut below `bound`. */
  function RightmostCut(path: Bytes, bound: nat): (cut: Option<nat>)
    requires bound <= |path|
    ensures cut.Some? ==> cut.value < bound && LegalCut(path, cut.value)
    ensures cut.Some? ==> forall j :: cut.value < j < bound ==> !LegalCut(path, j)
    ensures cut.None? ==> forall j :: 0 <= j < bound ==> !LegalCut(path, j)
  {
    if bound == 0 then None
    else if LegalCut(path, bound - 1) then Some(bound - 1)
    else RightmostCut(path, bound - 1)
  }

  function SplitUstar(path: Bytes): (r: Result<Split, Error>)
    ensures r.Ok? ==> Joined(r.value) == path
    ensures r.Ok? ==> |r.value.name| <= USTAR_NAME_BYTES && |r.value.prefix| <= USTAR_PREFIX_BYTES
    ensures r.Ok? ==> forall j :: |r.value.prefix| < j && |path| > USTAR_NAME_BYTES ==> !LegalCut(path, j)
    ensures r.Err? <==> |path| > USTAR_NAME_BYTES && forall j :: !LegalCut(path, j)
  {
    if |path| <= USTAR_NAME_BYTES then Ok(Split(path, []))
    else
      match RightmostCut(path, |path|)
      case Some(i) =>
        assert path == path[..i] + [SLASH] + path[i + 1..];
        assert LegalCut(path, i);
        Ok(Split(path[i + 1..], path[..i]))
      case None => Err(PathInvalid)
  }

  /** `lastIndexOf("/", from)`. */
  method LastSlash(path: Bytes, from: int) returns (index: int)
    requires from < |path|
    ensures -1 <= index <= from || index == -1
    ensures index >= 0 ==> path[index] == SLASH
    ensures forall j :: index < j <= from && 0 <= j ==> path[j] != SLASH
  {
    index := if from < 0 then -1 else from;
    while index >= 0 && path[index] != SLASH
      invariant -1 <= index && (from >= 0 ==> index <= from) && (from < 0 ==> index == -1)
      invariant forall j :: index < j <= from && 0 <= j ==> path[j] != SLASH
    {
      index := index - 1;
    }
  }

  /** The scan from the last slash leftwards. */
  method SplitUstarPath(path: Bytes) returns (r: Result<Split, Error>)
    ensures r == SplitUstar(path)
  {
    if |path| <= USTAR_NAME_BYTES { return Ok(Split(path, [])); }
    var index := LastSlash(path, |path| - 1);
    while index > 0
      invariant -1 <= index < |path|
      invariant index >= 0 ==> path[index] == SLASH
      invariant forall j :: index < j < |path| ==> !LegalCut(path, j)
    {
      var prefix, name := path[..index], path[index + 1..];
      if |prefix| <= USTAR_PREFIX_BYTES && |name| <= USTAR_NAME_BYTES {
        assert LegalCut(path, index);
        return Ok(Split(name, prefix));
      }
      index := LastSlash(path, index - 1);
    }
    assert forall j :: 0 <= j < |path| ==> !LegalCut(path, j);
    return Err(PathInvalid);
  }

  /** Cutting the joined path again gives the same pair. */
  lemma ResplitIsStable(path: Bytes)
    requires SplitUstar(path).Ok?
    ensures SplitUstar(Joined(SplitUstar(path).value)) == SplitUstar(path)
  {
  }

  /** `split("/")`. */
  function Segments(path: Bytes): (segments: seq<Bytes>)
    ensures |segments| > 0
  {
    SplitOn(path, SLASH)
  }

  predicate SegmentsFit(path: Bytes) {
    forall segment :: segment in Segments(path) ==> 0 < |segment| <= MAXIMUM_PATH_SEGMENT_BYTES
  }

  lemma SegmentsFitTail(path: Bytes)
    requires SegmentsFit(path) && FirstIndex(path, SLASH) < |path|
    ensures SegmentsFit(path[FirstIndex(path, SLASH) + 1..])
    ensures 0 < FirstIndex(path, SLASH) <= MAXIMUM_PATH_SEGMENT_BYTES
  {
    var k := FirstIndex(path, SLASH);
    assert path[..k] in Segments(path);
    forall segment | segment in Segments(path[k + 1..])
      ensures 0 < |segment| <= MAXIMUM_PATH_SEGMENT_BYTES
    {
      assert segment in Segments(path);
    }
  }

  /** Any 101 consecutive bytes of a path with short segments hold a slash. */
  lemma {:induction false} SlashInWindow(path: Bytes, w: nat) returns (i: nat)
    requires SegmentsFit(path)
    requires w + MAXIMUM_PATH_SEGMENT_BYTES < |path|
    ensures w <= i <= w + MAXIMUM_PATH_SEGMENT_BYTES && path[i] == SLASH
    decreases |path|
  {
    var k := FirstIndex(path, SLASH);
    assert path[..k] == Segments(path)[0];
    if k < |path| {
      SegmentsFitTail(path);
      if w <= k {
        i := k;
      } else {
        var j := SlashInWindow(path[k + 1..], w - k - 1);
        i := j + k + 1;
      }
    }
  }

  lemma {:induction false} LastByteIsNoSlash(path: Bytes)
    requires SegmentsFit(path)
    ensures |path| > 0 && path[0] != SLASH && path[|path| - 1] != SLASH
    decreases |path|
  {
    var k := FirstIndex(path, SLASH);
    if k == |path| {
      assert path in Segments(path);
    } else {
      SegmentsFitTail(path);
      LastByteIsNoSlash(path[k + 1..]);
    }
  }

  /** Paths of at most 157 bytes always split, whatever their segments. */
  lemma ShortPathsSplit(path: Bytes)
    requires SegmentsFit(path) && |path| <= 157
    ensures SplitUstar(path).Ok?
  {
    if |path| > USTAR_NAME_BYTES {
      LastByteIsNoSlash(path);
      var i := SlashInWindow(path, |path| - 101);
      assert LegalCut(path, i);
    }
  }

  function Repeat(b: byte, n: nat): (r: Bytes)
    ensures |r| == n && forall i :: 0 <= i < n ==> r[i] == b
  {
    seq(n, _ => b)
  }

  /** 157 is the exact bound: this rooted path of 158 bytes has short segments
      and no legal cut. */
  function Unsplittable(): (path: Bytes)
    ensures |path| == 158
  {
    ARCHIVE_ROOT + (Repeat(0x61, 40) + [SLASH] + (Repeat(0x61, 100) + [SLASH] + [0x61]))
  }

  lemma UnsplittableSegmentsFit()
    ensures SegmentsFit(Unsplittable())
  {
    var a, b, c := Repeat(0x61, 40), Repeat(0x61, 100), [0x61];
    hide SegmentsFit;
    assert SegmentsFit(c) by { OneSegmentFits(c); }
    JoinFits(b, c);
    var tail := b + [SLASH] + c;
    JoinFits(a, tail);
    RootedFits(a + [SLASH] + tail);
  }

  lemma OneSegmentFits(segment: Bytes)
    requires SLASH !in segment && 0 < |segment| <= MAXIMUM_PATH_SEGMENT_BYTES
    ensures SegmentsFit(segment)
  {
    FirstIndexIs(segment, SLASH, |segment|);
  }

  lemma BoundIsExact()
    ensures SegmentsFit(Unsplittable()) && ARCHIVE_ROOT <= Unsplittable()
    ensures SplitUstar(Unsplittable()).Err?
  {
    UnsplittableSegmentsFit();
    var path := Unsplittable();
    assert forall j :: 55 < j < 156 ==> path[j] == 0x61;
    assert forall j :: !LegalCut(path, j);
  }

  lemma SegmentsOfJoin(head: Bytes, tail: Bytes)
    requires SLASH !in head
    ensures Segments(head + [SLASH] + tail) == [head] + Segments(tail)
  {
    var path := head + [SLASH] + tail;
    FirstIndexIs(path, SLASH, |head|);
    assert path[..|head|] == head && path[|head| + 1..] == tail;
  }

  lemma JoinFits(head: Bytes, tail: Bytes)
    requires SLASH !in head && 0 < |head| <= MAXIMUM_PATH_SEGMENT_BYTES && SegmentsFit(tail)
    ensures SegmentsFit(head + [SLASH] + tail)
  {
    SegmentsOfJoin(head, tail);
  }

  lemma RootedFits(path: Bytes)
    requires SegmentsFit(path)
    ensures SegmentsFit(ARCHIVE_ROOT + path)
  {
    var head := Ascii("dokion-package");
    JoinFits(head, path);
    assert ARCHIVE_ROOT + path == head + [SLASH] + path;
  }

  function Lower(b: byte): byte {
    if 0x41 <= b <= 0x5a then b + 32 else b
  }

  /** `/^[A-Za-z]:/`. */
  predicate WindowsAbsolute(s: Bytes) {
    |s| >= 2 && 0x61 <= Lower(s[0]) <= 0x7a && s[1] == 0x3a
  }

  /** `/%(?:00|2e|2f|5c)/i`. */
  predicate EncodedSeparatorOrTraversal(s: Bytes) {
    exists i :: 0 <= i && i + 2 < |s| && s[i] == 0x25 &&
      [Lower(s[i + 1]), Lower(s[i + 2])] in [Ascii("00"), Ascii("2e"), Ascii("2f"), Ascii("5c")]
  }

  /** `normalizePackagePath`. */
  function NormalizePackagePath(u: Unicode, input: Bytes): (r: Result<Bytes, Error>)
    ensures r.Ok? ==> r.value == u.nfc(input)
    ensures r.Ok? ==> input != [] && 0 !in input && input[0] != SLASH
    ensures r.Ok? ==> |r.value| <= MAXIMUM_PATH_BYTES && SplitUstar(ARCHIVE_ROOT + r.value).Ok?
  {
    if input == [] then Err(PathInvalid)
    else if 0 in input || 0x5c in input || input[0] == SLASH || WindowsAbsolute(input) then Err(PathInvalid)
    else if EncodedSeparatorOrTraversal(input) then Err(PathInvalid)
    else if exists segment | segment in Segments(input) :: segment in [[], Ascii("."), Ascii("..")] then Err(PathInvalid)
    else
      var normalized := u.nfc(input);
      if exists segment | segment in Segments(normalized) :: |segment| > MAXIMUM_PATH_SEGMENT_BYTES then Err(PathInvalid)
      else if |normalized| > MAXIMUM_PATH_BYTES then Err(PathInvalid)
      else if |ARCHIVE_ROOT + normalized| > MAXIMUM_ARCHIVE_PATH_BYTES then Err(PathInvalid)
      else
        var _ :- SplitUstar(ARCHIVE_ROOT + normalized);
        Ok(normalized)
  }

  /** A path the writer stores unchanged. */
  predicate Canonical(u: Unicode, path: Bytes) {
    NormalizePackagePath(u, path) == Ok(path)
  }

  function PackagePathFromArchiveEntry(u: Unicode, entryPath: Bytes): Result<Bytes, Error> {
    if !StartsWith(entryPath, ARCHIVE_ROOT) || entryPath == ARCHIVE_ROOT then Err(PathInvalid)
    else NormalizePackagePath(u, entryPath[|ARCHIVE_ROOT|..])
  }

  function ArchivePathForPackageFile(u: Unicode, path: Bytes): Result<Bytes, Error> {
    var normalized :- NormalizePackagePath(u, path);
    Ok(ARCHIVE_ROOT + normalized)
  }

  /** A canonical path of at most 142 bytes always has a canonical split. */
  lemma CanonicalPathsSplitBelow143(u: Unicode, input: Bytes)
    requires input != [] && u.nfc(input) == input && |input| <= 142
    requires 0 !in input && 0x5c !in input && input[0] != SLASH
    requires !WindowsAbsolute(input) && !EncodedSeparatorOrTraversal(input)
    requires forall segment | segment in Segments(input) :: segment !in [[], Ascii("."), Ascii("..")]
    requires forall segment | segment in Segments(input) :: |segment| <= MAXIMUM_PATH_SEGMENT_BYTES
    ensures Canonical(u, input)
  {
    assert SegmentsFit(input);
    hide SegmentsFit, SplitUstar;
    RootedFits(input);
    ShortPathsSplit(ARCHIVE_ROOT + input);
  }

  /** The paths a registry accepts after `taken`: new, and new after case folding. */
  function Register(u: Unicode, taken: seq<Bytes>, input: Bytes): Result<Bytes, Error> {
    var path :- NormalizePackagePath(u, input);
    if path in taken then Err(PathDuplicate)
    else if exists t | t in taken :: u.fold(t) == u.fold(path) then Err(CaseCollision)
    else Ok(path)
  }

  datatype Folded = Folded(path: Bytes, index: nat)

  /** `PackagePathRegistry`. */
  class PackagePathRegistry {
    var exact: map<Bytes, nat>
    var caseFolded: map<Bytes, Folded>
    var size: nat
    ghost var paths: seq<Bytes>

    ghost predicate Valid(u: Unicode)
      reads this
    {
      && size == |paths|
      && (forall p :: p in exact <==> p in paths)
      && (forall p :: p in exact ==> exact[p] < size && paths[exact[p]] == p)
      && (forall f :: f in caseFolded ==> caseFolded[f].path in paths && u.fold(caseFolded[f].path) == f)
      && (forall p :: p in paths ==> u.fold(p) in caseFolded)
    }

    constructor ()
      ensures paths == [] && forall u :: Valid(u)
    {
      exact, caseFolded, size, paths := map[], map[], 0, [];
    }

    method Add(u: Unicode, input: Bytes) returns (r: Result<Bytes, Error>)
      requires Valid(u)
      modifies this
      ensures Valid(u)
      ensures r == Register(u, old(paths), input)
      ensures paths == if r.Ok? then old(paths) + [r.value] else old(paths)
    {
      hide NormalizePackagePath, SplitUstar;
      var path :- NormalizePackagePath(u, input);
      var index := size;
      if path in exact { return Err(PathDuplicate); }
      var folded := u.fold(path);
      if folded in caseFolded && caseFolded[folded].path != path { return Err(CaseCollision); }
      exact := exact[path := index];
      caseFolded := caseFolded[folded := Folded(path, index)];
      size := size + 1;
      paths := paths + [path];
      return Ok(path);
    }
  }
}
