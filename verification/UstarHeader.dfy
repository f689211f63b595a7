/** The 512-byte entry header of `src/registry/package-tar.ts`: what the writer
    prints, what the reader checks, and that the two agree on every byte. */
module UstarHeader {
  import opened Wrappers
  import opened Bytes
  import opened Octal
  import opened PackagePaths

  const BLOCK_SIZE := 512
  const FILE_MODE := 420  // 0o644
  const USTAR_MAGIC: Bytes := Ascii("ustar") + [0]
  const USTAR_VERSION: Bytes := Ascii("00")
  const CHECKSUM_BLANK: Bytes := [0x20, 0x20, 0x20, 0x20, 0x20, 0x20, 0x20, 0x20]

  function Sum(s: Bytes): (total: nat)
    ensures total <= 255 * |s|
  {
    if s == [] then 0 else Sum(s[..|s| - 1]) + s[|s| - 1]
  }

  /** A text field: the text and then zeros. */
  function TextField(text: Bytes, length: nat): (f: Bytes)
    requires |text| <= length
    ensures |f| == length
  {
    text + Zeros(length - |text|)
  }

  /** A numeric field: `length - 1` octal digits and a zero byte. */
  function OctalField(value: nat, length: nat): Bytes
    requires length >= 1
  {
    Padded(value, length - 1) + [0]
  }

  function ChecksumField(checksum: nat): Bytes {
    Padded(checksum, 6) + [0, 0x20]
  }

  predicate FitsHeader(split: Split, size: nat) {
    |split.name| <= 100 && |split.prefix| <= 155 && |OctalField(size, 12)| == 12
  }

  /** Every byte of a header but the checksum, field by field. */
  ghost predicate HasFields(block: Bytes, split: Split, size: nat)
    requires FitsHeader(split, size)
  {
    && |block| == BLOCK_SIZE
    && block[0..100] == TextField(split.name, 100)
    && block[100..108] == OctalField(FILE_MODE, 8)
    && block[108..116] == OctalField(0, 8)
    && block[116..124] == OctalField(0, 8)
    && block[124..136] == OctalField(size, 12)
    && block[136..148] == OctalField(0, 12)
    && block[156] == 0x30
    && block[157..257] == Zeros(100)
    && block[257..263] == USTAR_MAGIC
    && block[263..265] == USTAR_VERSION
    && block[265..329] == Zeros(64)
    && block[329..337] == OctalField(0, 8)
    && block[337..345] == OctalField(0, 8)
    && block[345..500] == TextField(split.prefix, 155)
    && block[500..512] == Zeros(12)
  }

  function LeftFields(split: Split, size: nat): Bytes
    requires FitsHeader(split, size)
  {
    TextField(split.name, 100) + OctalField(FILE_MODE, 8) + OctalField(0, 8) + OctalField(0, 8)
    + OctalField(size, 12) + OctalField(0, 12)
  }

  function RightFields(split: Split, size: nat): Bytes
    requires FitsHeader(split, size)
  {
    [0x30] + Zeros(100) + USTAR_MAGIC + USTAR_VERSION + Zeros(64) + OctalField(0, 8) + OctalField(0, 8)
    + TextField(split.prefix, 155) + Zeros(12)
  }

  function Blank(split: Split, size: nat): Bytes
    requires FitsHeader(split, size)
  {
    LeftFields(split, size) + CHECKSUM_BLANK + RightFields(split, size)
  }

  /** The header the writer prints. */
  function HeaderBytes(split: Split, size: nat): Bytes
    requires FitsHeader(split, size)
  {
    LeftFields(split, size) + ChecksumField(Sum(Blank(split, size))) + RightFields(split, size)
  }

  /** The byte sum of any block fits the six digits of the checksum field, so the
      overflow branch of the writer cannot be taken. */
  lemma ChecksumFits(block: Bytes)
    requires |block| == BLOCK_SIZE
    ensures |ChecksumField(Sum(block))| == 8
    ensures IsOctal(Padded(Sum(block), 6)) && ParseOctal(Padded(Sum(block), 6)) == Sum(block)
  {
    Powers();
    PaddedParses(Sum(block), 6);
  }

  /** Any size the program allows fits the eleven digits of the size field. */
  lemma AllowedSizeFits(size: nat)
    requires size <= MAXIMUM_FILE_BYTES
    ensures |OctalField(size, 12)| == 12
  {
    Powers();
    PaddedParses(size, 11);
  }

  lemma ConstantFields()
    ensures |OctalField(FILE_MODE, 8)| == 8 && |OctalField(0, 8)| == 8 && |OctalField(0, 12)| == 12
  {
    Powers();
    PaddedParses(FILE_MODE, 7);
    PaddedParses(0, 7);
    PaddedParses(0, 11);
  }

  lemma FieldLengths(split: Split, size: nat)
    requires FitsHeader(split, size)
    ensures |LeftFields(split, size)| == 148 && |RightFields(split, size)| == 356
    ensures |Blank(split, size)| == BLOCK_SIZE && |HeaderBytes(split, size)| == BLOCK_SIZE
  {
    ConstantFields();
    ChecksumFits(Blank(split, size));
  }

  lemma LeftSlices(s: Bytes, split: Split, size: nat)
    requires FitsHeader(split, size) && LeftFields(split, size) <= s
    ensures |s| >= 148
    ensures s[0..100] == TextField(split.name, 100)
    ensures s[100..108] == OctalField(FILE_MODE, 8)
    ensures s[108..116] == OctalField(0, 8) && s[116..124] == OctalField(0, 8)
    ensures s[124..136] == OctalField(size, 12)
    ensures s[136..148] == OctalField(0, 12)
  {
    ConstantFields();
    var a, b, c, d, e := TextField(split.name, 100), OctalField(FILE_MODE, 8), OctalField(0, 8), OctalField(size, 12), OctalField(0, 12);
    assert LeftFields(split, size) == a + b + c + c + d + e;
    SixSlices(s, a, b, c, d, e);
  }

  lemma SixSlices(s: Bytes, a: Bytes, b: Bytes, c: Bytes, d: Bytes, e: Bytes)
    requires |a| == 100 && |b| == 8 && |c| == 8 && |d| == 12 && |e| == 12
    requires a + b + c + c + d + e <= s
    ensures |s| >= 148
    ensures s[0..100] == a && s[100..108] == b && s[108..116] == c && s[116..124] == c
    ensures s[124..136] == d && s[136..148] == e
  {
    assert s[..148] == a + b + c + c + d + e;
  }

  lemma RightSlices(r: Bytes, split: Split, size: nat)
    requires FitsHeader(split, size) && r == RightFields(split, size)
    ensures |r| == 356
    ensures r[0] == 0x30 && r[1..101] == Zeros(100)
    ensures r[101..107] == USTAR_MAGIC && r[107..109] == USTAR_VERSION
    ensures r[109..173] == Zeros(64)
    ensures r[173..181] == OctalField(0, 8) && r[181..189] == OctalField(0, 8)
    ensures r[189..344] == TextField(split.prefix, 155)
    ensures r[344..356] == Zeros(12)
  {
    ConstantFields();
    NineSlices(r, [0x30], Zeros(100), USTAR_MAGIC, USTAR_VERSION, Zeros(64), OctalField(0, 8), TextField(split.prefix, 155), Zeros(12));
  }

  lemma NineSlices(r: Bytes, a: Bytes, b: Bytes, c: Bytes, d: Bytes, e: Bytes, f: Bytes, g: Bytes, h: Bytes)
    requires |a| == 1 && |b| == 100 && |c| == 6 && |d| == 2 && |e| == 64 && |f| == 8 && |g| == 155 && |h| == 12
    requires r == a + b + c + d + e + f + f + g + h
    ensures |r| == 356
    ensures r[0] == a[0] && r[1..101] == b && r[101..107] == c && r[107..109] == d && r[109..173] == e
    ensures r[173..181] == f && r[181..189] == f && r[189..344] == g && r[344..356] == h
  {
  }

  /** Shifts the slices of the right part into the block. */
  lemma RightInBlock(block: Bytes, split: Split, size: nat)
    requires FitsHeader(split, size) && |block| == BLOCK_SIZE
    requires block[156..] == RightFields(split, size)
    requires LeftFields(split, size) <= block
    ensures HasFields(block, split, size)
  {
    LeftSlices(block, split, size);
    var r := block[156..];
    RightSlices(r, split, size);
    assert block[156] == r[0];
    assert block[157..257] == r[1..101] && block[257..263] == r[101..107] && block[263..265] == r[107..109];
    assert block[265..329] == r[109..173] && block[329..337] == r[173..181] && block[337..345] == r[181..189];
    assert block[345..500] == r[189..344] && block[500..512] == r[344..356];
  }

  lemma HeaderHasFields(split: Split, size: nat)
    requires FitsHeader(split, size)
    ensures HasFields(HeaderBytes(split, size), split, size)
    ensures HasFields(Blank(split, size), split, size)
    ensures HeaderBytes(split, size)[148..156] == ChecksumField(Sum(Blank(split, size)))
    ensures Blank(split, size)[148..156] == CHECKSUM_BLANK
  {
    FieldLengths(split, size);
    ChecksumFits(Blank(split, size));
    var l, r := LeftFields(split, size), RightFields(split, size);
    var h, b, c := HeaderBytes(split, size), Blank(split, size), ChecksumField(Sum(Blank(split, size)));
    assert h == l + c + r && b == l + CHECKSUM_BLANK + r;
    assert h[156..] == r && b[156..] == r;
    RightInBlock(h, split, size);
    RightInBlock(b, split, size);
  }

  /** The fields and the checksum bytes determine the block. */
  lemma FieldsDetermineBlock(a: Bytes, b: Bytes, split: Split, size: nat)
    requires FitsHeader(split, size) && HasFields(a, split, size) && HasFields(b, split, size)
    requires a[148..156] == b[148..156]
    ensures a == b
  {
    Reassemble(a);
    Reassemble(b);
  }

  lemma Reassemble(b: Bytes)
    requires |b| == BLOCK_SIZE
    ensures b == b[0..100] + b[100..108] + b[108..116] + b[116..124] + b[124..136] + b[136..148] + b[148..156]
              + [b[156]] + b[157..257] + b[257..263] + b[263..265] + b[265..329] + b[329..337] + b[337..345]
              + b[345..500] + b[500..512]
  {
  }

  /** `headerFor`, as the bytes it returns. */
  function Header(path: Bytes, size: nat): (r: Result<Bytes, Error>)
    ensures r.Ok? ==> SplitUstar(path).Ok? && FitsHeader(SplitUstar(path).value, size)
  {
    var split :- SplitUstar(path);
    if |OctalField(size, 12)| != 12 then Err(TooLarge) else Ok(HeaderBytes(split, size))
  }

  /** A block written up to some point and zero from there on. */
  ghost predicate Filled(block: Bytes, done: Bytes) {
    && |block| == BLOCK_SIZE
    && done <= block
    && AllZero(block[|done|..])
  }

  lemma SkipZeros(block: Bytes, done: Bytes, n: nat)
    requires Filled(block, done) && |done| + n <= BLOCK_SIZE
    ensures Filled(block, done + Zeros(n))
  {
    assert block[..|done|] == done;
    assert block[|done|..|done| + n] == Zeros(n);
    assert block[..|done| + n] == done + Zeros(n);
  }

  /** `putText`: the length check and then `block.set(value, offset)`. */
  method PutText(block: array<byte>, offset: nat, length: nat, value: Bytes) returns (r: Result<(), Error>)
    requires offset + length <= block.Length
    modifies block
    ensures r == if |value| > length then Err(PathInvalid) else Ok(())
    ensures r.Ok? ==> block[offset..offset + |value|] == value
    ensures forall k :: 0 <= k < block.Length && !(r.Ok? && offset <= k < offset + |value|) ==>
              block[k] == old(block[k])
  {
    if |value| > length { return Err(PathInvalid); }
    SetBytes(block, offset, value);
    return Ok(());
  }

  /** `putText` where the block is still zero, so what remains of the field stays zero. */
  method PutNextText(block: array<byte>, offset: nat, length: nat, value: Bytes, ghost done: Bytes)
    returns (r: Result<(), Error>)
    requires offset + length <= block.Length == BLOCK_SIZE
    requires offset == |done| && Filled(block[..], done)
    modifies block
    ensures r == if |value| > length then Err(PathInvalid) else Ok(())
    ensures r.Ok? ==> Filled(block[..], done + TextField(value, length))
  {
    r := PutText(block, offset, length, value);
    if r.Ok? {
      assert block[..offset] == done;
      assert block[offset..offset + length] == TextField(value, length);
      assert block[..offset + length] == done + TextField(value, length);
    }
  }

  /** `block.set(value, offset)`. */
  method SetBytes(block: array<byte>, offset: nat, value: Bytes)
    requires offset + |value| <= block.Length
    modifies block
    ensures block[offset..offset + |value|] == value
    ensures forall k :: 0 <= k < block.Length && !(offset <= k < offset + |value|) ==> block[k] == old(block[k])
  {
    for i := 0 to |value|
      invariant forall k :: 0 <= k < i ==> block[offset + k] == value[k]
      invariant forall k :: 0 <= k < block.Length && !(offset <= k < offset + i) ==> block[k] == old(block[k])
    {
      block[offset + i] := value[i];
    }
  }

  /** `putOctal`. */
  method PutOctal(block: array<byte>, offset: nat, length: nat, value: nat) returns (r: Result<(), Error>)
    requires length >= 1 && offset + length <= block.Length
    modifies block
    ensures r == if |OctalField(value, length)| != length then Err(TooLarge) else Ok(())
    ensures r.Ok? ==> block[offset..offset + length] == OctalField(value, length)
    ensures forall k :: 0 <= k < block.Length && !(r.Ok? && offset <= k < offset + length) ==> block[k] == old(block[k])
  {
    var encoded := OctalField(value, length);
    if |encoded| != length { return Err(TooLarge); }
    r := PutText(block, offset, length, encoded);
  }

  /** `putOctal` where the block is still zero. */
  method PutNextOctal(block: array<byte>, offset: nat, length: nat, value: nat, ghost done: Bytes)
    returns (r: Result<(), Error>)
    requires length >= 1 && offset + length <= block.Length == BLOCK_SIZE
    requires offset == |done| && Filled(block[..], done)
    modifies block
    ensures r == if |OctalField(value, length)| != length then Err(TooLarge) else Ok(())
    ensures r.Ok? ==> Filled(block[..], done + OctalField(value, length))
  {
    hide OctalField;
    r := PutOctal(block, offset, length, value);
    if r.Ok? {
      assert block[..offset] == done;
      assert block[..offset + length] == done + OctalField(value, length);
    }
  }

  /** The fields before the checksum. Only the size field can overflow. */
  method PutLeftFields(block: array<byte>, split: Split, size: nat) returns (r: Result<(), Error>)
    requires block.Length == BLOCK_SIZE && Filled(block[..], [])
    requires |split.name| <= 100 && |split.prefix| <= 155
    modifies block
    ensures r == if FitsHeader(split, size) then Ok(()) else Err(TooLarge)
    ensures r.Ok? ==> Filled(block[..], LeftFields(split, size))
  {
    ConstantFields();
    ghost var done := TextField(split.name, 100);
    assert [] + done == done;
    var fits := PutNextText(block, 0, 100, split.name, []);
    fits := PutNextOctal(block, 100, 8, FILE_MODE, done);
    done := done + OctalField(FILE_MODE, 8);
    fits := PutNextOctal(block, 108, 8, 0, done);
    done := done + OctalField(0, 8);
    fits := PutNextOctal(block, 116, 8, 0, done);
    done := done + OctalField(0, 8);
    var _ :- PutNextOctal(block, 124, 12, size, done);
    done := done + OctalField(size, 12);
    r := PutNextOctal(block, 136, 12, 0, done);
  }

  /** The fields after the checksum; those the writer skips stay zero. */
  method PutRightFields(block: array<byte>, split: Split, size: nat, ghost left: Bytes)
    requires block.Length == BLOCK_SIZE && |left| == 156 && Filled(block[..], left)
    requires FitsHeader(split, size)
    modifies block
    ensures block[..] == left + RightFields(split, size)
  {
    ConstantFields();
    ghost var right: Bytes := [0x30];
    var fits := PutNextText(block, 156, 1, [0x30], left);
    assert TextField([0x30], 1) == right;
    SkipZeros(block[..], left + right, 100);
    right := Extend(left, right, Zeros(100));
    fits := PutNextText(block, 257, 6, USTAR_MAGIC, left + right);
    right := Extend(left, right, TextField(USTAR_MAGIC, 6));
    fits := PutNextText(block, 263, 2, USTAR_VERSION, left + right);
    right := Extend(left, right, TextField(USTAR_VERSION, 2));
    SkipZeros(block[..], left + right, 64);
    right := Extend(left, right, Zeros(64));
    fits := PutNextOctal(block, 329, 8, 0, left + right);
    right := Extend(left, right, OctalField(0, 8));
    fits := PutNextOctal(block, 337, 8, 0, left + right);
    right := Extend(left, right, OctalField(0, 8));
    fits := PutNextText(block, 345, 155, split.prefix, left + right);
    right := Extend(left, right, TextField(split.prefix, 155));
    SkipZeros(block[..], left + right, 12);
    right := Extend(left, right, Zeros(12));
    assert block[..] == left + right;
    assert TextField(USTAR_MAGIC, 6) == USTAR_MAGIC && TextField(USTAR_VERSION, 2) == USTAR_VERSION;
  }

  lemma Extend(left: Bytes, right: Bytes, field: Bytes) returns (longer: Bytes)
    ensures longer == right + field
    ensures left + longer == left + right + field
  {
    longer := right + field;
  }

  /** `headerFor`: fill a zeroed block field by field, sum it with a blank checksum,
      then print the checksum over the blank. */
  method HeaderFor(path: Bytes, size: nat) returns (r: Result<Bytes, Error>)
    ensures r == Header(path, size)
  {
    var split :- SplitUstarPath(path);
    var block := new byte[BLOCK_SIZE](_ => 0);
    var _ :- PutLeftFields(block, split, size);
    ghost var left := LeftFields(split, size);
    FieldLengths(split, size);
    var fits := PutNextText(block, 148, 8, CHECKSUM_BLANK, left);
    assert TextField(CHECKSUM_BLANK, 8) == CHECKSUM_BLANK;
    PutRightFields(block, split, size, left + CHECKSUM_BLANK);
    PutChecksum(block, split, size);
    return Ok(block[..]);
  }

  /** Sums the block, then prints the sum over the blank checksum. */
  method PutChecksum(block: array<byte>, ghost split: Split, ghost size: nat)
    requires FitsHeader(split, size) && block.Length == BLOCK_SIZE && block[..] == Blank(split, size)
    modifies block
    ensures block[..] == HeaderBytes(split, size)
  {
    ghost var before := block[..];
    hide Blank, HeaderBytes, ChecksumField, FitsHeader;
    var checksum := SumBlock(block);
    ChecksumFits(before);
    var encoded := ChecksumField(checksum);
    SetBytes(block, 148, encoded);
    ChecksumPatched(before, block[..], split, size);
  }

  /** Printing the checksum over the blank turns the blank header into the header. */
  lemma ChecksumPatched(before: Bytes, after: Bytes, split: Split, size: nat)
    requires FitsHeader(split, size) && before == Blank(split, size) && |after| == |before| == BLOCK_SIZE
    requires after[148..156] == ChecksumField(Sum(before))
    requires forall k :: 0 <= k < BLOCK_SIZE && !(148 <= k < 156) ==> after[k] == before[k]
    ensures after == HeaderBytes(split, size)
  {
    hide LeftFields, RightFields, ChecksumField, Sum, FitsHeader;
    FieldLengths(split, size);
    assert after[..148] == before[..148] == LeftFields(split, size);
    assert after[156..] == before[156..] == RightFields(split, size);
    assert after == after[..148] + after[148..156] + after[156..];
  }

  /** `block.reduce((sum, byte) => sum + byte, 0)`. */
  method SumBlock(block: array<byte>) returns (sum: nat)
    ensures sum == Sum(block[..])
  {
    sum := 0;
    for i := 0 to block.Length
      invariant sum == Sum(block[..i])
    {
      assert block[..i + 1][..i] == block[..i];
      sum := sum + block[i];
    }
    assert block[..block.Length] == block[..];
  }
}
