/**
 The structure of a KELF container, and finding its length again in a
 sector-padded image.
 */
module Kelf {
  import opened Words

  const FIXED_HEADER: nat := 32
  const BIT_BLOCK: nat := 16
  const MAX_BITS: nat := 63
  const OPTIONAL_AREA: nat := 8
  const KEY_AREA: nat := 32

  datatype Validation =
    | Valid | TooSmall | PlainElf | HeaderSize | BitCount | FileSize | BitTable | VariableSection | KeyArea

  datatype ImageError = ImageTooSmall | SizeFields | CalculatedSize | Layout

  datatype ImageSize = Size(bytes: nat) | Bad(error: ImageError)

  function ElfSize(data: seq<byte>): u32
    requires |data| >= FIXED_HEADER
  {
    Le32(data, 0x10)
  }

  function HeaderBytes(data: seq<byte>): u16
    requires |data| >= FIXED_HEADER
  {
    Le16(data, 0x14)
  }

  function Flags(data: seq<byte>): u16
    requires |data| >= FIXED_HEADER
  {
    Le16(data, 0x18)
  }

  function Bits(data: seq<byte>): u16
    requires |data| >= FIXED_HEADER
  {
    Le16(data, 0x1a)
  }

  /** Where the BIT table ends. */
  function TableEnd(data: seq<byte>): nat
    requires |data| >= FIXED_HEADER
  {
    FIXED_HEADER + Bits(data) * 16
  }

  /** The bytes of the length-prefixed section after the table, its length byte included. */
  function VariableBytes(data: seq<byte>): nat
    requires |data| >= FIXED_HEADER
  {
    if Flags(data) % 2 == 1 && TableEnd(data) < |data| then (var length: int := data[TableEnd(data)]; length + 1) else 0
  }

  function OptionalBytes(data: seq<byte>): nat
    requires |data| >= FIXED_HEADER
  {
    if Flags(data) < 0x1000 then OPTIONAL_AREA else 0
  }

  predicate IsPlainElf(data: seq<byte>)
    requires |data| >= FIXED_HEADER
  {
    data[0] == 0x7f && data[1] == 0x45 && data[2] == 0x4c && data[3] == 0x46
  }

  /**
   A well-formed container: the header and the payload make up the whole file,
   and all the areas the header announces fit into the header.
   */
  predicate IsKelf(data: seq<byte>) {
    && |data| >= FIXED_HEADER && !IsPlainElf(data)
    && FIXED_HEADER <= HeaderBytes(data) && ElfSize(data) > 0 && HeaderBytes(data) + ElfSize(data) == |data|
    && Bits(data) <= MAX_BITS
    && TableEnd(data) + VariableBytes(data) + OptionalBytes(data) + KEY_AREA <= HeaderBytes(data)
  }

  method ValidateLayout(data: seq<byte>) returns (v: Validation)
    requires |data| < TWO_32
    ensures v.Valid? <==> IsKelf(data)
    ensures v.TooSmall? <==> |data| < FIXED_HEADER
    ensures v.PlainElf? <==> |data| >= FIXED_HEADER && IsPlainElf(data)
    ensures v.FileSize? ==> HeaderBytes(data) + ElfSize(data) != |data| || ElfSize(data) == 0
    ensures v in {BitTable, VariableSection, KeyArea} ==>
              && HeaderBytes(data) + ElfSize(data) == |data|
              && TableEnd(data) + VariableBytes(data) + OptionalBytes(data) + KEY_AREA > HeaderBytes(data)
  {
    if |data| < FIXED_HEADER {
      return TooSmall;
    }
    if IsPlainElf(data) {
      return PlainElf;
    }
    var elfSize, headerSize, flags, bitCount := Le32(data, 0x10), Le16(data, 0x14), Le16(data, 0x18), Le16(data, 0x1a);
    if headerSize < FIXED_HEADER || headerSize > |data| {
      return HeaderSize;
    }
    if bitCount > MAX_BITS {
      return BitCount;
    }
    if elfSize == 0 || elfSize > |data| - headerSize || headerSize + elfSize != |data| {
      return FileSize;
    }
    var offset := FIXED_HEADER + bitCount * BIT_BLOCK;
    if offset > headerSize {
      return BitTable;
    }
    if flags % 2 != 0 {
      if offset >= headerSize {
        return VariableSection;
      }
      offset := offset + data[offset] + 1;
    }
    if flags / 0x1000 == 0 {
      offset := offset + OPTIONAL_AREA;
    }
    if offset > headerSize || KEY_AREA > headerSize - offset {
      return KeyArea;
    }
    return Valid;
  }

  /** The prefix of the image that is a container has its length written in it, so there is at most one. */
  lemma KelfLength(image: seq<byte>, n: nat)
    requires n <= |image| && IsKelf(image[..n])
    ensures |image| >= FIXED_HEADER && n == HeaderBytes(image) + ElfSize(image)
  {
  }

  /** Finds the container at the start of a padded image, exactly when there is one. */
  method SizeFromDiskImage(image: seq<byte>) returns (size: ImageSize)
    requires |image| < TWO_32
    ensures forall n: nat :: n <= |image| ==> (size == Size(n) <==> IsKelf(image[..n]))
    ensures size.Size? ==> size.bytes <= |image|
  {
    if |image| < FIXED_HEADER {
      return Bad(ImageTooSmall);
    }
    var elfSize, headerSize := Le32(image, 0x10), Le16(image, 0x14);
    forall n: nat | n <= |image| && IsKelf(image[..n]) ensures n == headerSize + elfSize {
      KelfLength(image, n);
    }
    if elfSize > |image| || headerSize > |image| - elfSize {
      return Bad(SizeFields);
    }
    var calculated := headerSize + elfSize;
    if calculated == 0 || calculated > |image| {
      return Bad(CalculatedSize);
    }
    var v := ValidateLayout(image[..calculated]);
    if !v.Valid? {
      return Bad(Layout);
    }
    return Size(calculated);
  }

  /** What a container needs of its header, given the numbers written in it. */
  lemma WrittenHeader(data: seq<byte>, elf: u32, header: u16, flags: u16, bits: u16)
    requires |data| >= 32 && data[0x10..0x14] == LeBytes32(elf) && data[0x14..0x16] == [header % 256, header / 256]
    requires data[0x18..0x1a] == [flags % 256, flags / 256] && data[0x1a..0x1c] == [bits % 256, bits / 256]
    ensures IsKelf(data) <==>
            && data[..4] != [0x7f, 0x45, 0x4c, 0x46]
            && elf > 0 && header + elf == |data| && bits <= 63
            && var table := 32 + 16 * bits;
               var low := if flags < 0x1000 then 8 else 0;
               if flags % 2 == 0 then table + low + 32 <= header
               else table < |data| && table + 1 + data[table] + low + 32 <= header
  {
    Le32OfBytes(elf, data, 0x10);
    assert data[0x14] == data[0x14..0x16][0] && data[0x15] == data[0x14..0x16][1];
    assert data[0x18] == data[0x18..0x1a][0] && data[0x19] == data[0x18..0x1a][1];
    assert data[0x1a] == data[0x1a..0x1c][0] && data[0x1b] == data[0x1a..0x1c][1];
    assert data[..4] == [data[0], data[1], data[2], data[3]];
  }
}
