/**
 The 1024-byte APA partition header as its 256 little-endian words, and the
 raw disk it is read from. A sector absent from the disk map cannot be read.
 */
module Apa {
  import opened Words

  const HEADER_WORDS: nat := 256
  const SECTOR_WORDS: nat := 128

  type Sector = s: seq<u32> | |s| == SECTOR_WORDS witness seq(SECTOR_WORDS, _ => 0)
  type Header = h: seq<u32> | |h| == HEADER_WORDS witness seq(HEADER_WORDS, _ => 0)
  type Disk = map<int, Sector>

  // Word positions of the fields (byte offset / 4).
  const CHECKSUM_WORD := 0
  const MAGIC_WORD := 1
  const NEXT_WORD := 2
  const PREV_WORD := 3
  const ID_WORD := 4
  const START_WORD := 16
  const LENGTH_WORD := 17
  const TYPE_WORD := 18
  const NSUB_WORD := 19
  const MAIN_WORD := 22
  const SONY_WORD := 64
  const VERSION_WORD := 72
  const OSD_START_WORD := 76
  const OSD_SIZE_WORD := 77
  const SIGNATURE_WORD := 127
  const SUBS_WORD := 128

  const ID_SIZE: nat := 32
  const MAX_SUBS := 64
  const APA_MAGIC: u32 := 0x00415041

  function TypeOf(h: Header): u16 { h[TYPE_WORD] % TWO_16 }

  function FlagsOf(h: Header): u16 { h[TYPE_WORD] / TWO_16 }

  /** Byte `i` of the identifier field. */
  function IdByte(h: Header, i: nat): byte
    requires i < ID_SIZE
  {
    LeBytes32(h[ID_WORD + i / 4])[i % 4]
  }

  /** First sector of sub-partition `k`, from the table in the second sector. */
  function SubStart(h: Header, k: nat): u32
    requires k < MAX_SUBS
  {
    h[SUBS_WORD + 2 * k]
  }

  function WordSum(h: seq<u32>, from: nat): nat
    requires from <= |h|
    decreases |h| - from
  {
    if from == |h| then 0 else h[from] + WordSum(h, from + 1)
  }

  /** The sum of words 1 to 255, modulo 2^32. */
  function Checksum(h: Header): u32 {
    WordSum(h, 1) % TWO_32
  }

  predicate ChecksumOk(h: Header) {
    h[CHECKSUM_WORD] == Checksum(h)
  }

  lemma {:induction false} WordSumUpdate(h: seq<u32>, k: nat, v: u32, from: nat)
    requires k < |h| && from <= |h|
    ensures WordSum(h[k := v], from) == WordSum(h, from) + if from <= k then v - h[k] else 0
    decreases |h| - from
  {
    if from < |h| {
      WordSumUpdate(h, k, v, from + 1);
    }
  }

  /** Adding word by word with 32-bit wrap-around gives the same checksum. */
  method ApaChecksum(h: Header) returns (sum: u32)
    ensures sum == Checksum(h)
  {
    sum := 0;
    var i := 1;
    while i < HEADER_WORDS
      invariant 1 <= i <= HEADER_WORDS
      invariant (sum + WordSum(h, i)) % TWO_32 == Checksum(h)
    {
      sum := Add32(sum, h[i]);
      i := i + 1;
    }
  }

  /** The checksum ignores the word it is stored in. */
  lemma ChecksumIgnoresItself(h: Header, v: u32)
    ensures Checksum(h[CHECKSUM_WORD := v]) == Checksum(h)
  {
    WordSumUpdate(h, CHECKSUM_WORD, v, 1);
  }

  // ----- two-sector reads and writes

  ghost predicate Readable(disk: Disk, lba: int) {
    lba in disk && lba + 1 in disk
  }

  ghost function HeaderAt(disk: Disk, lba: int): Header
    requires Readable(disk, lba)
  {
    var first: seq<u32>, second: seq<u32> := disk[lba], disk[lba + 1];
    first + second
  }

  function FirstSector(h: Header): Sector { h[..SECTOR_WORDS] }

  function SecondSector(h: Header): Sector { h[SECTOR_WORDS..] }

  /** The disk after header `h` is written at `lba`. */
  ghost function PutHeader(disk: Disk, lba: int, h: Header): Disk {
    disk[lba := FirstSector(h)][lba + 1 := SecondSector(h)]
  }
}
