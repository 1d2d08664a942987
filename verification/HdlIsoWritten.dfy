/**
 Root directories as the standard has them written (ECMA-119, section 9.1), and
 what the walk for SYSTEM.CNF returns on them.
 */
module HdlIsoWritten {
  import opened Words
  import opened HdlIso

  /** What a directory record says; `date` to `rest` are fields the walk passes over. */
  datatype Record = Record(
    extAttributes: byte, extent: u32, bytes: u32, dateToVolume: seq<byte>, name: seq<byte>, rest: seq<byte>)

  predicate Writable(r: Record) {
    |r.dateToVolume| == 14 && 1 <= |r.name| && 33 + |r.name| + |r.rest| <= 255
  }

  function LengthOf(r: Record): (n: nat)
    requires Writable(r)
    ensures 34 <= n <= 255
  {
    33 + |r.name| + |r.rest|
  }

  /** Most significant byte first. */
  function BeBytes32(v: u32): (r: seq<byte>)
    ensures |r| == 4
  {
    var le := LeBytes32(v);
    [le[3], le[2], le[1], le[0]]
  }

  /** Length, extent and size in both byte orders, and name; the fields are those of section 9.1. */
  function Written(r: Record): (w: seq<byte>)
    requires Writable(r)
    ensures |w| == LengthOf(r)
  {
    [LengthOf(r), r.extAttributes] + LeBytes32(r.extent) + BeBytes32(r.extent) + LeBytes32(r.bytes) +
    BeBytes32(r.bytes) + r.dateToVolume + [|r.name|] + r.name + r.rest
  }

  /** Records one after another. */
  function AllWritten(rs: seq<Record>): (w: seq<byte>)
    requires forall i :: 0 <= i < |rs| ==> Writable(rs[i])
  {
    if rs == [] then [] else Written(rs[0]) + AllWritten(rs[1..])
  }

  /** A name byte that stands for a letter of the wanted name, in either case. */
  predicate Spells(b: byte, c: char) {
    b == c as int || ('A' <= c <= 'Z' && b == c as int + 0x20)
  }

  predicate IsSystemCnf(name: seq<byte>) {
    |name| == 12 && forall i :: 0 <= i < 12 ==> Spells(name[i], "SYSTEM.CNF;1"[i])
  }

  /** The extent and size of the first record named SYSTEM.CNF;1; an empty file is none. */
  function FirstNamed(rs: seq<Record>): Walk {
    if rs == [] then Missing
    else if !IsSystemCnf(rs[0].name) then FirstNamed(rs[1..])
    else if rs[0].bytes == 0 then InvalidRoot
    else Found(Entry(rs[0].extent, rs[0].bytes))
  }

  /** The bytes from `p` on are `w`. */
  predicate HasAt(sector: Sector, p: nat, w: seq<byte>) {
    p + |w| <= SECTOR_BYTES && sector[p..p + |w|] == w
  }

  lemma PartHeld(sector: Sector, p: nat, w: seq<byte>, i: nat, j: nat)
    requires HasAt(sector, p, w) && i <= j <= |w|
    ensures HasAt(sector, p + i, w[i..j])
  {
    forall k | 0 <= k < j - i ensures sector[p + i..p + j][k] == w[i..j][k] {
      assert sector[p..p + |w|][i + k] == w[i + k];
    }
  }

  lemma HasPart(sector: Sector, p: nat, a: seq<byte>, b: seq<byte>)
    requires HasAt(sector, p, a + b)
    ensures HasAt(sector, p, a) && HasAt(sector, p + |a|, b)
  {
    var w := a + b;
    assert w[0..|a|] == a && w[|a|..|w|] == b;
    PartHeld(sector, p, w, 0, |a|);
    PartHeld(sector, p, w, |a|, |w|);
  }

  lemma HasLe32(sector: Sector, p: nat, v: u32)
    requires HasAt(sector, p, LeBytes32(v))
    ensures Le32(sector, p) == v
  {
    Le32OfBytes(v, sector, p);
  }

  lemma HasBe32(sector: Sector, p: nat, v: u32)
    requires HasAt(sector, p, BeBytes32(v))
    ensures Be32(sector, p) == v
  {
    var b, le := sector[p..p + 4], LeBytes32(v);
    assert sector[p] == b[0] && sector[p + 1] == b[1] && sector[p + 2] == b[2] && sector[p + 3] == b[3];
    assert le[0..4] == le;
    Le32OfBytes(v, le, 0);
  }

  lemma WrittenParts(r: Record)
    requires Writable(r)
    ensures var w := Written(r);
            && w[2..6] == LeBytes32(r.extent) && w[6..10] == BeBytes32(r.extent)
            && w[10..14] == LeBytes32(r.bytes) && w[14..18] == BeBytes32(r.bytes)
            && w[0] == LengthOf(r) && w[32] == |r.name| && w[33..33 + |r.name|] == r.name
  {
  }

  /** The numbers of a written record. */
  lemma WrittenNumbers(sector: Sector, p: nat, r: Record)
    requires Writable(r) && HasAt(sector, p, Written(r))
    ensures sector[p] == LengthOf(r) && sector[p + 32] == |r.name|
    ensures Le32(sector, p + 2) == r.extent == Be32(sector, p + 6)
    ensures Le32(sector, p + 10) == r.bytes == Be32(sector, p + 14)
  {
    var w := Written(r);
    WrittenParts(r);
    PartHeld(sector, p, w, 2, 6);
    PartHeld(sector, p, w, 6, 10);
    PartHeld(sector, p, w, 10, 14);
    PartHeld(sector, p, w, 14, 18);
    HasLe32(sector, p + 2, r.extent);
    HasBe32(sector, p + 6, r.extent);
    HasLe32(sector, p + 10, r.bytes);
    HasBe32(sector, p + 14, r.bytes);
    assert sector[p] == sector[p..p + |w|][0] && sector[p + 32] == sector[p..p + |w|][32];
  }

  lemma WrittenName(sector: Sector, p: nat, r: Record)
    requires Writable(r) && HasAt(sector, p, Written(r))
    ensures HasAt(sector, p + 33, r.name)
  {
    WrittenParts(r);
    PartHeld(sector, p, Written(r), 33, 33 + |r.name|);
  }

  lemma UpperSpells(b: byte, c: char)
    requires ' ' <= c <= 'Z'
    ensures Upper(b) == c as int <==> Spells(b, c)
  {
  }

  lemma CnfName(i: nat)
    requires i < 12
    ensures CNF_NAME[i] == "SYSTEM.CNF;1"[i] as int && ' ' <= "SYSTEM.CNF;1"[i] <= 'Z'
  {
  }

  lemma NameIsCnf(name: seq<byte>)
    requires |name| == 12
    ensures UpperAll(name) == CNF_NAME <==> IsSystemCnf(name)
  {
    forall i | 0 <= i < 12 ensures UpperAll(name)[i] == CNF_NAME[i] <==> Spells(name[i], "SYSTEM.CNF;1"[i]) {
      CnfName(i);
      UpperSpells(name[i], "SYSTEM.CNF;1"[i]);
    }
  }

  /** What the walk reads of a written record. */
  lemma WrittenFits(sector: Sector, available: nat, p: nat, r: Record)
    requires Writable(r) && HasAt(sector, p, Written(r)) && p + LengthOf(r) <= available <= SECTOR_BYTES
    ensures RecordFits(sector, available, p) && sector[p] == LengthOf(r)
    ensures IsCnf(sector, available, p) <==> IsSystemCnf(r.name)
    ensures EntryAgrees(sector, p) <==> r.bytes != 0
    ensures EntryAt(sector, p) == Entry(r.extent, r.bytes)
  {
    WrittenNumbers(sector, p, r);
    WrittenName(sector, p, r);
    if |r.name| == 12 {
      assert sector[p + 33..p + 45] == r.name;
      NameIsCnf(r.name);
    }
  }

  /** `available` bytes of a sector that hold these records, then nothing or a zero byte. */
  predicate SectorWritten(sector: Sector, available: nat, p: nat, rs: seq<Record>)
    requires available <= SECTOR_BYTES && forall i :: 0 <= i < |rs| ==> Writable(rs[i])
  {
    var w := AllWritten(rs);
    HasAt(sector, p, w) && p + |w| <= available && (p + |w| < available ==> sector[p + |w|] == 0)
  }

  /** On a written sector the walk returns exactly the first record named SYSTEM.CNF;1. */
  lemma {:induction false} WalkOfWritten(sector: Sector, available: nat, p: nat, rs: seq<Record>)
    requires available <= SECTOR_BYTES && forall i :: 0 <= i < |rs| ==> Writable(rs[i])
    requires SectorWritten(sector, available, p, rs)
    ensures WalkSector(sector, available, p) == FirstNamed(rs)
    decreases |rs|
  {
    if rs != [] {
      var first, others := Written(rs[0]), AllWritten(rs[1..]);
      assert AllWritten(rs) == first + others;
      HasPart(sector, p, first, others);
      WrittenFits(sector, available, p, rs[0]);
      WalkOfWritten(sector, available, p + |first|, rs[1..]);
    }
  }

  // ----- the whole directory

  predicate AllWritable(sectors: seq<seq<Record>>) {
    forall i, k :: 0 <= i < |sectors| && 0 <= k < |sectors[i]| ==> Writable(sectors[i][k])
  }

  /** Sector `i` of the directory can be read and holds its records. */
  predicate WrittenAt(source: Source, start: nat, rootBytes: u32, sectors: seq<seq<Record>>, i: nat)
    requires AllWritable(sectors) && i < |sectors|
  {
    && i * 2048 < rootBytes && CanRead(source, start + i * 2048, SECTOR_BYTES, i)
    && SectorWritten(SectorAt(source, start + i * 2048), Available(rootBytes, i * 2048), 0, sectors[i])
  }

  ghost predicate DirectoryWritten(source: Source, start: nat, rootBytes: u32, sectors: seq<seq<Record>>) {
    && AllWritable(sectors) && |sectors| * 2048 >= rootBytes
    && forall i {:trigger WrittenAt(source, start, rootBytes, sectors, i)} ::
         0 <= i < |sectors| ==> WrittenAt(source, start, rootBytes, sectors, i)
  }

  /** The first record with the name, sector by sector from sector `j` on. */
  function FirstInSectors(sectors: seq<seq<Record>>, j: nat): Walk
    requires j <= |sectors|
    decreases |sectors| - j
  {
    if j == |sectors| then Missing
    else if FirstNamed(sectors[j]).Missing? then FirstInSectors(sectors, j + 1)
    else FirstNamed(sectors[j])
  }

  lemma WalkFromSector(source: Source, start: nat, rootBytes: u32, sectors: seq<seq<Record>>, j: nat)
    requires AllWritable(sectors) && j < |sectors| && WrittenAt(source, start, rootBytes, sectors, j)
    ensures WalkDirectory(source, start, rootBytes, j * 2048, j) ==
            if FirstNamed(sectors[j]).Missing? then WalkDirectory(source, start, rootBytes, (j + 1) * 2048, j + 1)
            else FirstNamed(sectors[j])
  {
    WalkOfWritten(SectorAt(source, start + j * 2048), Available(rootBytes, j * 2048), 0, sectors[j]);
    assert (j + 1) * 2048 == j * 2048 + SECTOR_BYTES;
  }

  lemma {:induction false} WalkOfDirectory(source: Source, start: nat, rootBytes: u32, sectors: seq<seq<Record>>,
                                           j: nat)
    requires DirectoryWritten(source, start, rootBytes, sectors) && j <= |sectors|
    ensures WalkDirectory(source, start, rootBytes, j * 2048, j) == FirstInSectors(sectors, j)
    decreases |sectors| - j
  {
    if j < |sectors| {
      assert WrittenAt(source, start, rootBytes, sectors, j);
      WalkFromSector(source, start, rootBytes, sectors, j);
      WalkOfDirectory(source, start, rootBytes, sectors, j + 1);
    }
  }

  /**
   What the search for SYSTEM.CNF comes to on a written directory. It ends, and
   the pass that ends it gives the extent and size of the first record of that
   name in directory order. Only for a directory that is too long for the byte
   counter and has no such record, nothing is promised.
   */
  lemma SearchOfDirectory(source: Source, rootExtent: u32, rootBytes: u32, sectors: seq<seq<Record>>)
    requires DirectoryWritten(source, rootExtent * 2048, rootBytes, sectors)
    requires rootBytes <= 0x1_0000_0000 - 2048 || !FirstInSectors(sectors, 0).Missing?
    ensures exists n: nat :: Stops(source, rootExtent * 2048, rootBytes, n)
    ensures forall n: nat :: FirstStop(source, rootExtent * 2048, rootBytes, n) ==>
              PassResult(source, rootExtent * 2048, rootBytes, n) == FirstInSectors(sectors, 0)
  {
    var start := rootExtent * 2048;
    WalkOfDirectory(source, start, rootBytes, sectors, 0);
    WalkEnds(source, start, rootBytes);
    forall n: nat | FirstStop(source, start, rootBytes, n)
      ensures PassResult(source, start, rootBytes, n) == FirstInSectors(sectors, 0)
    {
      StopIsWalk(source, start, rootBytes, n, 0);
    }
  }
}
