/** The header checks of the archive reader (`src/registry/package-tar.ts`), and
    the proof that they pin every byte of a header. */
module HeaderReader {
  import opened Wrappers
  import opened Bytes
  import opened Octal
  import opened PackagePaths
  import opened UstarHeader

  /** The content of a text field: everything before its first zero byte. */
  function RawText(block: Bytes, offset: nat, length: nat): (t: Bytes)
    requires offset + length <= |block|
    ensures |t| <= length && 0 !in t
  {
    var field := block[offset..offset + length];
    field[..FirstIndex(field, 0)]
  }

  /** `TextDecoder.decode`: the fatal decoder also drops one leading byte order mark. */
  function Decode(u: Unicode, content: Bytes): Result<Bytes, Error> {
    if !u.decodable(content) then Err(ArchiveInvalid)
    else Ok(if StartsWith(content, BOM) then content[3..] else content)
  }

  /** `canonicalText`. */
  function CanonicalText(u: Unicode, block: Bytes, offset: nat, length: nat): Result<Bytes, Error>
    requires offset + length <= |block|
  {
    var field := block[offset..offset + length];
    if !AllZero(field[FirstIndex(field, 0)..]) then Err(ArchiveInvalid)
    else Decode(u, RawText(block, offset, length))
  }

  /** `canonicalOctal`. The fields hold at most eleven digits, so every value is a
      safe integer. */
  function CanonicalOctal(block: Bytes, offset: nat, length: nat): Result<nat, Error>
    requires length >= 1 && offset + length <= |block|
  {
    var field := block[offset..offset + length];
    if field[length - 1] != 0 || !IsOctal(field[..length - 1]) then Err(ArchiveInvalid)
    else Ok(ParseOctal(field[..length - 1]))
  }

  function RequireOctal(block: Bytes, offset: nat, length: nat, expected: nat): Result<(), Error>
    requires length >= 1 && offset + length <= |block|
  {
    var value :- CanonicalOctal(block, offset, length);
    if value != expected then Err(ArchiveInvalid) else Ok(())
  }

  function RequireBytes(block: Bytes, offset: nat, expected: Bytes): Result<(), Error>
    requires offset + |expected| <= |block|
  {
    if block[offset..offset + |expected|] != expected then Err(ArchiveInvalid) else Ok(())
  }

  function RequireZero(block: Bytes, offset: nat, length: nat): Result<(), Error>
    requires offset + length <= |block|
  {
    if !AllZero(block[offset..offset + length]) then Err(ArchiveInvalid) else Ok(())
  }

  function BlankChecksum(block: Bytes): (copy: Bytes)
    requires |block| == BLOCK_SIZE
    ensures |copy| == BLOCK_SIZE
  {
    block[..148] + CHECKSUM_BLANK + block[156..]
  }

  /** `verifyChecksum`. */
  function VerifyChecksum(block: Bytes): Result<(), Error>
    requires |block| == BLOCK_SIZE
  {
    var encoded := block[148..156];
    if encoded[6] != 0 || encoded[7] != 0x20 || !IsOctal(encoded[..6]) then Err(ArchiveInvalid)
    else if ParseOctal(encoded[..6]) != Sum(BlankChecksum(block)) then Err(ArchiveInvalid)
    else Ok(())
  }

  /** `validateHeader`: the entry's size. */
  function ValidateHeader(block: Bytes): Result<nat, Error>
    requires |block| == BLOCK_SIZE
  {
    var _ :- RequireOctal(block, 100, 8, FILE_MODE);
    var _ :- RequireOctal(block, 108, 8, 0);
    var _ :- RequireOctal(block, 116, 8, 0);
    var size :- CanonicalOctal(block, 124, 12);
    var _ :- RequireOctal(block, 136, 12, 0);
    if block[156] != 0x30 then Err(EntryTypeUnsupported)
    else
      var _ :- RequireZero(block, 157, 100);
      var _ :- RequireBytes(block, 257, USTAR_MAGIC);
      var _ :- RequireBytes(block, 263, USTAR_VERSION);
      var _ :- RequireZero(block, 265, 32);
      var _ :- RequireZero(block, 297, 32);
      var _ :- RequireOctal(block, 329, 8, 0);
      var _ :- RequireOctal(block, 337, 8, 0);
      var _ :- RequireZero(block, 500, 12);
      Ok(size)
  }

  lemma {:induction false} SumOfJoin(a: Bytes, b: Bytes)
    ensures Sum(a + b) == Sum(a) + Sum(b)
  {
    if b == [] {
      assert a + b == a;
    } else {
      assert (a + b)[..|a + b| - 1] == a + b[..|b| - 1];
      SumOfJoin(a, b[..|b| - 1]);
    }
  }

  /** An octal field is accepted with a value exactly when it is that value's field. */
  lemma OctalFieldPinned(block: Bytes, offset: nat, length: nat, value: nat)
    requires 2 <= length && offset + length <= |block|
    ensures CanonicalOctal(block, offset, length) == Ok(value)
            <==> value < Pow8(length - 1) && block[offset..offset + length] == OctalField(value, length)
    ensures value < Pow8(length - 1) ==> |OctalField(value, length)| == length
  {
    var field := block[offset..offset + length];
    var digits := field[..length - 1];
    if CanonicalOctal(block, offset, length) == Ok(value) {
      OctalUnique(digits);
      assert field == digits + [field[length - 1]];
    }
    if value < Pow8(length - 1) {
      PaddedParses(value, length - 1);
      if field == OctalField(value, length) {
        assert digits == Padded(value, length - 1);
      }
    }
  }

  lemma TextFieldPinned(block: Bytes, offset: nat, length: nat, text: Bytes)
    requires offset + length <= |block|
    ensures AllZero(block[offset..offset + length][FirstIndex(block[offset..offset + length], 0)..])
              && RawText(block, offset, length) == text
            <==> 0 !in text && |text| <= length && block[offset..offset + length] == TextField(text, length)
  {
    var field := block[offset..offset + length];
    var k := FirstIndex(field, 0);
    if AllZero(field[k..]) && RawText(block, offset, length) == text {
      assert field == field[..k] + field[k..];
      AllZeroIsZeros(field[k..]);
    }
    if 0 !in text && |text| <= length && field == TextField(text, length) {
      FirstIndexIs(field, 0, |text|);
      assert field[..|text|] == text && field[|text|..] == Zeros(length - |text|);
    }
  }

  lemma RequireOctalPinned(block: Bytes, offset: nat, length: nat, value: nat)
    requires 2 <= length && offset + length <= |block| && value < Pow8(length - 1)
    ensures RequireOctal(block, offset, length, value).Ok?
            <==> block[offset..offset + length] == OctalField(value, length)
  {
    OctalFieldPinned(block, offset, length, value);
  }

  lemma ConstantFieldsPinned(block: Bytes)
    requires |block| == BLOCK_SIZE
    ensures RequireOctal(block, 100, 8, FILE_MODE).Ok? <==> block[100..108] == OctalField(FILE_MODE, 8)
    ensures RequireOctal(block, 108, 8, 0).Ok? <==> block[108..116] == OctalField(0, 8)
    ensures RequireOctal(block, 116, 8, 0).Ok? <==> block[116..124] == OctalField(0, 8)
    ensures RequireOctal(block, 136, 12, 0).Ok? <==> block[136..148] == OctalField(0, 12)
    ensures RequireOctal(block, 329, 8, 0).Ok? <==> block[329..337] == OctalField(0, 8)
    ensures RequireOctal(block, 337, 8, 0).Ok? <==> block[337..345] == OctalField(0, 8)
  {
    Powers();
    hide RequireOctal, OctalField, Pow8;
    RequireOctalPinned(block, 100, 8, FILE_MODE);
    RequireOctalPinned(block, 108, 8, 0);
    RequireOctalPinned(block, 116, 8, 0);
    RequireOctalPinned(block, 136, 12, 0);
    RequireOctalPinned(block, 329, 8, 0);
    RequireOctalPinned(block, 337, 8, 0);
  }

  /** The fixed fields of an accepted header are the writer's. */
  lemma ValidatedFields(block: Bytes, split: Split, size: nat)
    requires |block| == BLOCK_SIZE && size < Pow8(11)
    requires |split.name| <= 100 && block[0..100] == TextField(split.name, 100)
    requires |split.prefix| <= 155 && block[345..500] == TextField(split.prefix, 155)
    ensures FitsHeader(split, size)
    ensures ValidateHeader(block) == Ok(size) <==> HasFields(block, split, size)
  {
    hide RequireOctal, CanonicalOctal, OctalField, TextField, Pow8;
    OctalFieldPinned(block, 124, 12, size);
    ConstantFieldsPinned(block);
    ZeroFields(block);
  }

  lemma ZeroFields(block: Bytes)
    requires |block| == BLOCK_SIZE
    ensures AllZero(block[157..157 + 100]) <==> block[157..257] == Zeros(100)
    ensures AllZero(block[265..265 + 32]) && AllZero(block[297..297 + 32]) <==> block[265..329] == Zeros(64)
    ensures AllZero(block[500..500 + 12]) <==> block[500..512] == Zeros(12)
  {
    if AllZero(block[157..257]) { AllZeroIsZeros(block[157..257]); }
    if AllZero(block[500..512]) { AllZeroIsZeros(block[500..512]); }
    assert block[265..329] == block[265..297] + block[297..329];
    if AllZero(block[265..297]) && AllZero(block[297..329]) { AllZeroIsZeros(block[265..329]); }
    if block[265..329] == Zeros(64) {
      assert block[265..297] == block[265..329][..32] && block[297..329] == block[265..329][32..];
    }
  }

  lemma ChecksumPinned(block: Bytes)
    requires |block| == BLOCK_SIZE
    ensures VerifyChecksum(block) == Ok(())
            <==> block[148..156] == ChecksumField(Sum(BlankChecksum(block)))
  {
    var sum := Sum(BlankChecksum(block));
    var encoded := block[148..156];
    ChecksumFits(BlankChecksum(block));
    if VerifyChecksum(block) == Ok(()) {
      OctalUnique(encoded[..6]);
      assert encoded == encoded[..6] + [encoded[6], encoded[7]];
    }
    if encoded == ChecksumField(sum) {
      assert encoded[..6] == Padded(sum, 6);
    }
  }

  lemma BlankOfFields(block: Bytes, split: Split, size: nat)
    requires FitsHeader(split, size) && HasFields(block, split, size)
    ensures BlankChecksum(block) == Blank(split, size)
  {
    var copy := BlankChecksum(block);
    HeaderHasFields(split, size);
    BlankKeepsFields(block, split, size);
    FieldsDetermineBlock(copy, Blank(split, size), split, size);
  }

  lemma BlankKeepsFields(block: Bytes, split: Split, size: nat)
    requires FitsHeader(split, size) && HasFields(block, split, size)
    ensures HasFields(BlankChecksum(block), split, size)
    ensures BlankChecksum(block)[148..156] == CHECKSUM_BLANK
  {
    var copy := BlankChecksum(block);
    LeftPart(copy, block);
    RightPart(copy, block);
  }

  lemma LeftPart(copy: Bytes, block: Bytes)
    requires |block| == |copy| == BLOCK_SIZE && copy[..148] == block[..148]
    ensures copy[0..100] == block[0..100] && copy[100..108] == block[100..108] && copy[108..116] == block[108..116]
    ensures copy[116..124] == block[116..124] && copy[124..136] == block[124..136] && copy[136..148] == block[136..148]
  {
    forall i, j | 0 <= i <= j <= 148
      ensures copy[i..j] == block[i..j]
    {
      SliceOfTake(copy, 148, i, j);
      SliceOfTake(block, 148, i, j);
    }
  }

  lemma RightPart(copy: Bytes, block: Bytes)
    requires |block| == |copy| == BLOCK_SIZE && copy[156..] == block[156..]
    ensures copy[156] == block[156] && copy[157..257] == block[157..257] && copy[257..263] == block[257..263]
    ensures copy[263..265] == block[263..265] && copy[265..329] == block[265..329] && copy[329..337] == block[329..337]
    ensures copy[337..345] == block[337..345] && copy[345..500] == block[345..500] && copy[500..512] == block[500..512]
  {
    assert copy[156] == copy[156..][0];
    forall i, j | 156 <= i <= j <= BLOCK_SIZE
      ensures copy[i..j] == block[i..j]
    {
      SliceOfDrop(copy, 156, i, j);
      SliceOfDrop(block, 156, i, j);
    }
  }

  /** A block passes both checks with raw texts and a size exactly when it is the
      header the writer prints for them: all 512 bytes are pinned. */
  lemma HeaderPinned(block: Bytes, split: Split, size: nat)
    requires |block| == BLOCK_SIZE && size < Pow8(11)
    requires 0 !in split.name && |split.name| <= 100 && 0 !in split.prefix && |split.prefix| <= 155
    ensures FitsHeader(split, size)
    ensures && VerifyChecksum(block) == Ok(())
            && ValidateHeader(block) == Ok(size)
            && block[0..100] == TextField(split.name, 100)
            && block[345..500] == TextField(split.prefix, 155)
            <==> block == HeaderBytes(split, size)
  {
    PaddedParses(size, 11);
    HeaderHasFields(split, size);
    if block[0..100] == TextField(split.name, 100) && block[345..500] == TextField(split.prefix, 155) {
      ValidatedFields(block, split, size);
      ChecksumPinned(block);
      if HasFields(block, split, size) {
        BlankOfFields(block, split, size);
        if VerifyChecksum(block) == Ok(()) {
          FieldsDetermineBlock(block, HeaderBytes(split, size), split, size);
        }
      }
    }
  }

  /** Any size the reader reads off a field is below the field's capacity. */
  lemma ReadSizeFits(block: Bytes)
    requires |block| == BLOCK_SIZE && ValidateHeader(block).Ok?
    ensures ValidateHeader(block).value < Pow8(11)
  {
    OctalUnique(block[124..136][..11]);
  }
}
