/**
 Installing a bootstrap payload: the payload is written, flushed and compared
 before the master header is made to point at it.
 */
module Bootstrap {
  import opened Words
  import opened Apa
  import ApaLayout
  import opened ApaRepair
  import opened CachedDisk
  import Kelf

  const SECTOR_BYTES: nat := 512
  const TRANSFER_SECTORS: nat := 2
  const MAX_PAYLOAD: nat := 0x40_0000

  type Block = b: seq<byte> | |b| == SECTOR_BYTES witness seq(SECTOR_BYTES, _ => 0)

  /** Sectors that `bytes` bytes take. */
  function SectorCount(bytes: nat): nat {
    (bytes + 511) / 512
  }

  /** Block `i` of the payload, filled up with zeros. */
  function PayloadBlock(payload: seq<byte>, i: nat): Block
    requires i < SectorCount(|payload|)
  {
    if 512 * i + 512 <= |payload| then payload[512 * i..512 * i + 512]
    else payload[512 * i..] + Zeros(512 * i + 512 - |payload|)
  }

  /** Every byte of the payload has its place in the blocks, and the rest of the last one is zero. */
  lemma BlockBytes(payload: seq<byte>, i: nat, k: nat)
    requires i < SectorCount(|payload|) && k < 512
    ensures |payload| <= 512 * SectorCount(|payload|) < |payload| + 512
    ensures PayloadBlock(payload, i)[k] == if 512 * i + k < |payload| then payload[512 * i + k] else 0
  {
  }

  /** Blocks `from` to `to` of the payload. */
  function Blocks(payload: seq<byte>, from: nat, to: nat): (r: seq<Block>)
    requires from <= to <= SectorCount(|payload|)
    ensures |r| == to - from && forall i :: 0 <= i < |r| ==> r[i] == PayloadBlock(payload, from + i)
  {
    if from == to then [] else Blocks(payload, from, to - 1) + [PayloadBlock(payload, to - 1)]
  }

  /** Payload block `i` is on the medium, and nothing is waiting to overwrite it. */
  predicate BlockDurable(image: Image<Block>, payload: seq<byte>, start: int, i: nat)
    requires i < SectorCount(|payload|)
  {
    start + i in image.durable && image.durable[start + i] == PayloadBlock(payload, i) && start + i !in image.cache
  }

  predicate PayloadDurable(image: Image<Block>, payload: seq<byte>, start: int) {
    forall i :: 0 <= i < SectorCount(|payload|) ==> BlockDurable(image, payload, start, i)
  }

  /** Block `i` of the payload can be read back. */
  predicate BlockReads(view: map<int, Block>, payload: seq<byte>, start: int, i: nat)
    requires i < SectorCount(|payload|)
  {
    start + i in view && view[start + i] == PayloadBlock(payload, i)
  }

  predicate BlocksRead(view: map<int, Block>, payload: seq<byte>, start: int, n: nat)
    requires n <= SectorCount(|payload|)
  {
    forall i :: 0 <= i < n ==> BlockReads(view, payload, start, i)
  }

  /** That many sectors from `start` on do not run past the last 32-bit address. */
  predicate Unwrapped(start: int, sectors: int) {
    start + sectors <= 0x1_0000_0000
  }

  predicate Fits(payload: seq<byte>, start: int) {
    Unwrapped(start, SectorCount(|payload|))
  }

  /** The address of sector `n` from `start` on, in 32 bits. */
  function SectorAt(start: u32, n: nat): u32 {
    (start + n) % 0x1_0000_0000
  }

  predicate InPayload(payload: seq<byte>, start: int, s: int) {
    start <= s < start + SectorCount(|payload|)
  }

  /** The same disk, on which at most the given sectors were written. */
  ghost predicate SettlesOutside(before: Image<Block>, after: Image<Block>, from: int, count: nat) {
    && after.durable.Keys == before.durable.Keys
    && forall s :: !(from <= s < from + count) ==> Settles(before, after, s)
  }

  /** The sectors exist. */
  predicate OnDisk(i: Image<Block>, lba: int, count: nat) {
    Sectors(lba, count) <= i.durable.Keys
  }

  datatype Code = Success | WriteFailed | FlushFailed | ReadFailed | CompareFailed

  // ----- single commands

  lemma WriteOutside(before: Image<Block>, outcome: Outcome, lba: int, data: seq<Block>, from: int, count: nat)
    requires Sound(before) && from <= lba && lba + |data| <= from + count
    ensures Sound(AfterWrite(before, outcome, lba, data))
    ensures SettlesOutside(before, AfterWrite(before, outcome, lba, data), from, count)
  {
  }

  lemma OutsideTransitive(a: Image<Block>, b: Image<Block>, c: Image<Block>, from: int, count: nat)
    requires SettlesOutside(a, b, from, count) && SettlesOutside(b, c, from, count)
    ensures SettlesOutside(a, c, from, count)
  {
    forall s | !(from <= s < from + count) ensures Settles(a, c, s) {
      SettlesTransitive(a, b, c, s);
    }
  }

  lemma FlushSettles(before: Image<Block>, outcome: Outcome, from: int, count: nat)
    requires Sound(before)
    ensures Sound(AfterFlush(before, outcome)) && SettlesOutside(before, AfterFlush(before, outcome), from, count)
    ensures View(AfterFlush(before, outcome)) == View(before)
  {
  }

  /** `after` is `before` with `data` written from `lba` on. */
  ghost predicate Overlaid(before: map<int, Block>, after: map<int, Block>, lba: int, data: seq<Block>) {
    forall s :: OverlaidAt(before, after, lba, data, s)
  }

  predicate OverlaidAt(before: map<int, Block>, after: map<int, Block>, lba: int, data: seq<Block>, s: int) {
    if lba <= s < lba + |data| then s in after && after[s] == data[s - lba]
    else (s in after <==> s in before) && (s in after ==> after[s] == before[s])
  }

  lemma WriteViews(before: Image<Block>, outcome: Outcome, lba: int, data: seq<Block>)
    requires Sound(before) && outcome.ok && Sectors(lba, |data|) <= before.durable.Keys
    ensures Overlaid(View(before), View(AfterWrite(before, outcome, lba, data)), lba, data)
  {
    var settled, run := Evicted(before, outcome.evicted), Run(lba, data);
    EvictionKeepsView(before, outcome.evicted);
    MergeAssociates(settled, run);
    assert View(AfterWrite(before, outcome, lba, data)) == settled.durable + (settled.cache + run);
    RunOverlays(View(before), lba, data);
  }

  lemma RunOverlays(before: map<int, Block>, lba: int, data: seq<Block>)
    ensures Overlaid(before, before + Run(lba, data), lba, data)
  {
    var after := before + Run(lba, data);
    forall s ensures OverlaidAt(before, after, lba, data, s) {
      assert s in Sectors(lba, |data|) <==> lba <= s < lba + |data|;
    }
  }

  lemma EvictionKeepsView(i: Image<Block>, sectors: set<int>)
    requires Sound(i)
    ensures View(Evicted(i, sectors)) == View(i)
  {
  }

  lemma MergeAssociates(i: Image<Block>, run: map<int, Block>)
    ensures i.durable + (i.cache + run) == View(i) + run
  {
  }

  /** A write that stays within sectors `from` to `from + count`. */
  method WriteSectors(dev: Device<Block>, lba: int, data: seq<Block>, ghost from: int, ghost count: nat)
    returns (ok: bool)
    requires Sound(dev.Now()) && from <= lba && lba + |data| <= from + count
    modifies dev
    ensures Sound(dev.Now()) && dev.history == old(dev.history) + [dev.Now()] && dev.tick == old(dev.tick) + 1
    ensures SettlesOutside(old(dev.Now()), dev.Now(), from, count)
    ensures ok ==> Overlaid(View(old(dev.Now())), View(dev.Now()), lba, data)
    ensures ok <==> dev.outcomes(old(dev.tick)).ok && OnDisk(old(dev.Now()), lba, |data|)
  {
    ghost var image, outcome := dev.Now(), dev.outcomes(dev.tick);
    ok := dev.Write(lba, data);
    WriteOutside(image, outcome, lba, data, from, count);
    if ok {
      WriteViews(image, outcome, lba, data);
    }
  }

  lemma PacketReads(before: map<int, Block>, after: map<int, Block>, payload: seq<byte>, start: int, n: nat, m: nat,
                    data: seq<Block>)
    requires n <= m <= SectorCount(|payload|) && BlocksRead(before, payload, start, n)
    requires data == Blocks(payload, n, m) && Overlaid(before, after, start + n, data)
    ensures BlocksRead(after, payload, start, m)
  {
    forall i | 0 <= i < m ensures BlockReads(after, payload, start, i) {
      assert OverlaidAt(before, after, start + n, data, start + i);
      if i < n {
        assert BlockReads(before, payload, start, i);
      } else {
        assert data[i - n] == PayloadBlock(payload, n + (i - n));
      }
    }
  }

  // ----- the payload

  function Bytes(payload: seq<byte>, offset: nat): nat
    requires offset <= |payload|
  {
    if |payload| - offset > 1024 then 1024 else |payload| - offset
  }

  /** Clears the packet and copies the next piece of the payload into it. */
  method FillPacket(payload: seq<byte>, offset: nat, packet: array<byte>)
    requires packet.Length == 1024 && offset <= |payload|
    modifies packet
    ensures var n := Bytes(payload, offset); packet[..] == payload[offset..offset + n] + Zeros(1024 - n)
  {
    var n := Bytes(payload, offset);
    forall i | 0 <= i < 1024 {
      packet[i] := 0;
    }
    forall i | 0 <= i < n {
      packet[i] := payload[offset + i];
    }
  }

  /** The packet's sectors are the payload's next blocks. */
  lemma PacketBlocks(payload: seq<byte>, n: nat, packet: seq<byte>)
    requires 512 * n < |payload| && |packet| == 1024
    requires var k := Bytes(payload, 512 * n); packet == payload[512 * n..512 * n + k] + Zeros(1024 - k)
    ensures var m := SectorCount(Bytes(payload, 512 * n));
            && 1 <= m <= 2 && n + m <= SectorCount(|payload|)
            && [packet[..512], packet[512..]][..m] == Blocks(payload, n, n + m)
            && (Bytes(payload, 512 * n) == |payload| - 512 * n ==> n + m == SectorCount(|payload|))
            && (Bytes(payload, 512 * n) < |payload| - 512 * n ==> m == 2)
  {
    var k := Bytes(payload, 512 * n);
    var m := SectorCount(k);
    assert packet[..512] == PayloadBlock(payload, n);
    if m == 2 {
      assert packet[512..] == PayloadBlock(payload, n + 1);
    }
  }

  ghost predicate HistorySettles(history: seq<Image<Block>>, from: nat, before: Image<Block>, lba: int, count: nat) {
    forall j :: from <= j < |history| ==> SettlesOutside(before, history[j], lba, count)
  }

  /** The sectors of the next packet. */
  method NextPacket(payload: seq<byte>, n: nat, packet: array<byte>) returns (data: seq<Block>)
    requires packet.Length == 1024 && 512 * n < |payload|
    modifies packet
    ensures n + SectorCount(Bytes(payload, 512 * n)) <= SectorCount(|payload|)
    ensures data == Blocks(payload, n, n + SectorCount(Bytes(payload, 512 * n)))
  {
    FillPacket(payload, 512 * n, packet);
    PacketBlocks(payload, n, packet[..]);
    return [packet[..512], packet[512..]][..SectorCount(Bytes(payload, 512 * n))];
  }

  /** One packet of the payload. */
  method WriteNext(dev: Device<Block>, payload: seq<byte>, start: u32, packet: array<byte>, sectorOffset: nat)
    returns (ok: bool)
    requires packet.Length == 1024 && Sound(dev.Now()) && 512 * sectorOffset < |payload|
    requires Fits(payload, start) ==> BlocksRead(View(dev.Now()), payload, start, sectorOffset)
    modifies dev, packet
    ensures Sound(dev.Now()) && dev.history == old(dev.history) + [dev.Now()] && dev.tick == old(dev.tick) + 1
    ensures Fits(payload, start) ==> SettlesOutside(old(dev.Now()), dev.Now(), start, SectorCount(|payload|))
    ensures (&& Fits(payload, start) && dev.outcomes(old(dev.tick)).ok
             && OnDisk(old(dev.Now()), start, SectorCount(|payload|))) ==> ok
    ensures ok && Fits(payload, start) ==>
              BlocksRead(View(dev.Now()), payload, start,
                         sectorOffset + SectorCount(Bytes(payload, 512 * sectorOffset)))
  {
    var data := NextPacket(payload, sectorOffset, packet);
    ghost var view, to := View(dev.Now()), sectorOffset + SectorCount(Bytes(payload, 512 * sectorOffset));
    var lba := SectorAt(start, sectorOffset);
    ghost var from: int, count := lba, |data|;
    if Fits(payload, start) {
      from, count := start, SectorCount(|payload|);
    }
    ok := WriteSectors(dev, lba, data, from, count);
    if ok && Fits(payload, start) {
      PacketReads(view, View(dev.Now()), payload, start, sectorOffset, to, data);
    }
  }

  /** The history has grown. */
  ghost predicate Grown(dev: Device<Block>, h: seq<Image<Block>>)
    reads dev
  {
    Sound(dev.Now()) && |dev.history| >= |h| && dev.history[..|h|] == h
  }

  /** Every image since `from` is that of `before`, up to writing back, outside the given sectors. */
  ghost predicate Trace(dev: Device<Block>, h: seq<Image<Block>>, before: Image<Block>, lba: int, count: nat)
    reads dev
  {
    && Grown(dev, h)
    && SettlesOutside(before, dev.Now(), lba, count)
    && HistorySettles(dev.history, |h|, before, lba, count)
  }

  /** Writes the payload, two sectors at a time. */
  method WriteBlocks(dev: Device<Block>, payload: seq<byte>, start: u32, packet: array<byte>) returns (ok: bool)
    requires packet.Length == 1024 && Sound(dev.Now())
    modifies dev, packet
    ensures Grown(dev, old(dev.history)) && old(dev.tick) <= dev.tick
    ensures Fits(payload, start) ==> Trace(dev, old(dev.history), old(dev.Now()), start, SectorCount(|payload|))
    ensures ok && Fits(payload, start) ==> BlocksRead(View(dev.Now()), payload, start, SectorCount(|payload|))
    ensures (&& Fits(payload, start) && Working(dev.outcomes, old(dev.tick))
             && OnDisk(old(dev.Now()), start, SectorCount(|payload|))) ==> ok
  {
    ghost var before, h, total := dev.Now(), dev.history, SectorCount(|payload|);
    var offset, sectorOffset := 0, 0;
    while offset < |payload|
      invariant 0 <= offset <= |payload| && 0 <= sectorOffset <= total
      invariant if offset < |payload| then offset == 512 * sectorOffset else sectorOffset == total
      invariant Grown(dev, h) && old(dev.tick) <= dev.tick
      invariant Fits(payload, start) ==>
        Trace(dev, h, before, start, total) && BlocksRead(View(dev.Now()), payload, start, sectorOffset)
    {
      var bytes := Bytes(payload, offset);
      ghost var image := dev.Now();
      NextOffset(payload, sectorOffset);
      ok := WriteNext(dev, payload, start, packet, sectorOffset);
      if Fits(payload, start) {
        OutsideTransitive(before, image, dev.Now(), start, total);
      }
      if !ok {
        return;
      }
      offset := offset + bytes;
      sectorOffset := sectorOffset + SectorCount(bytes);
    }
    return true;
  }

  lemma NextOffset(payload: seq<byte>, n: nat)
    requires 512 * n < |payload|
    ensures var k := Bytes(payload, 512 * n); var m := n + SectorCount(k);
            && m <= SectorCount(|payload|)
            && if 512 * n + k < |payload| then 512 * n + k == 512 * m else m == SectorCount(|payload|)
  {
  }

  predicate ShowsAt(view: map<int, Block>, s: int, block: Block) {
    s in view && view[s] == block
  }

  /** The sectors from `lba` on read as `data`. */
  predicate Shows(view: map<int, Block>, lba: int, data: seq<Block>) {
    forall i {:trigger data[i]} :: 0 <= i < |data| ==> ShowsAt(view, lba + i, data[i])
  }

  lemma FetchShows(view: map<int, Block>, lba: int, data: seq<Block>)
    ensures Sectors(lba, |data|) <= view.Keys && Fetch(view, lba, |data|) == data <==> Shows(view, lba, data)
  {
    if Sectors(lba, |data|) <= view.Keys && Fetch(view, lba, |data|) == data {
      forall i | 0 <= i < |data| ensures ShowsAt(view, lba + i, data[i]) {
        assert lba + i in Sectors(lba, |data|) && Fetch(view, lba, |data|)[i] == view[lba + i];
      }
    }
    if Shows(view, lba, data) {
      forall s | s in Sectors(lba, |data|) ensures s in view {
        assert ShowsAt(view, lba + (s - lba), data[s - lba]);
      }
      forall i | 0 <= i < |data| ensures Fetch(view, lba, |data|)[i] == data[i] {
        assert ShowsAt(view, lba + i, data[i]);
      }
    }
  }

  /** What the comparison of blocks `n` to `m` tells. */
  lemma Compared(view: map<int, Block>, payload: seq<byte>, start: int, n: nat, m: nat, data: seq<Block>)
    requires n <= m <= SectorCount(|payload|) && BlocksRead(view, payload, start, n)
    requires data == Blocks(payload, n, m)
    ensures Shows(view, start + n, data) ==> BlocksRead(view, payload, start, m)
    ensures BlocksRead(view, payload, start, SectorCount(|payload|)) ==> Shows(view, start + n, data)
  {
    if Shows(view, start + n, data) {
      forall i | 0 <= i < m ensures BlockReads(view, payload, start, i) {
        if i < n {
          assert BlockReads(view, payload, start, i);
        } else {
          assert ShowsAt(view, start + n + (i - n), data[i - n]);
        }
      }
    }
    if BlocksRead(view, payload, start, SectorCount(|payload|)) {
      forall i | 0 <= i < |data| ensures ShowsAt(view, start + n + i, data[i]) {
        assert BlockReads(view, payload, start, n + i);
      }
    }
  }

  /** Reads sectors and compares them. */
  method CompareSectors(dev: Device<Block>, lba: int, data: seq<Block>) returns (code: Code)
    modifies dev`tick
    ensures code in {Success, ReadFailed, CompareFailed} && dev.tick == old(dev.tick) + 1
    ensures code.Success? <==> dev.outcomes(old(dev.tick)).ok && Shows(View(dev.Now()), lba, data)
  {
    FetchShows(View(dev.Now()), lba, data);
    var got := dev.Read(lba, |data|);
    if got.None? {
      return ReadFailed;
    }
    return if got.value == data then Success else CompareFailed;
  }

  /** Reads the payload back and compares it, packet by packet. */
  method VerifyBlocks(dev: Device<Block>, payload: seq<byte>, start: u32, packet: array<byte>) returns (code: Code)
    requires packet.Length == 1024
    modifies dev`tick, packet
    ensures code in {Success, ReadFailed, CompareFailed} && old(dev.tick) <= dev.tick
    ensures code.Success? && Fits(payload, start) ==>
              BlocksRead(View(dev.Now()), payload, start, SectorCount(|payload|))
    ensures (&& Fits(payload, start) && Working(dev.outcomes, old(dev.tick))
             && BlocksRead(View(dev.Now()), payload, start, SectorCount(|payload|))) ==> code.Success?
  {
    var offset, sectorOffset := 0, 0;
    while offset < |payload|
      invariant 0 <= offset <= |payload| && 0 <= sectorOffset <= SectorCount(|payload|)
      invariant if offset < |payload| then offset == 512 * sectorOffset else sectorOffset == SectorCount(|payload|)
      invariant old(dev.tick) <= dev.tick
      invariant Fits(payload, start) ==> BlocksRead(View(dev.Now()), payload, start, sectorOffset)
    {
      var bytes := Bytes(payload, offset);
      NextOffset(payload, sectorOffset);
      var data := NextPacket(payload, sectorOffset, packet);
      if Fits(payload, start) {
        Compared(View(dev.Now()), payload, start, sectorOffset, sectorOffset + SectorCount(bytes), data);
      }
      code := CompareSectors(dev, SectorAt(start, sectorOffset), data);
      if !code.Success? {
        return;
      }
      offset := offset + bytes;
      sectorOffset := sectorOffset + SectorCount(bytes);
    }
    return Success;
  }

  lemma ReadsDurable(image: Image<Block>, payload: seq<byte>, start: int)
    requires image.cache == map[] && BlocksRead(View(image), payload, start, SectorCount(|payload|))
    ensures PayloadDurable(image, payload, start)
  {
    forall i | 0 <= i < SectorCount(|payload|) ensures BlockDurable(image, payload, start, i) {
      assert BlockReads(View(image), payload, start, i);
    }
  }

  /**
   Writes the payload, flushes, and compares what can be read back. Nothing
   outside the payload's sectors is written; on success the payload is durable;
   on a working drive that has those sectors it succeeds. All this is for areas
   that do not run past the last 32-bit address.
   */
  method WritePayloadVerified(dev: Device<Block>, payload: seq<byte>, start: u32, packet: array<byte>)
    returns (code: Code)
    requires packet.Length == 1024 && Sound(dev.Now())
    modifies dev, packet
    ensures Grown(dev, old(dev.history)) && old(dev.tick) <= dev.tick
    ensures Fits(payload, start) ==> Trace(dev, old(dev.history), old(dev.Now()), start, SectorCount(|payload|))
    ensures code.Success? ==> dev.cache == map[] && (Fits(payload, start) ==> PayloadDurable(dev.Now(), payload, start))
    ensures (&& Fits(payload, start) && Working(dev.outcomes, old(dev.tick))
             && OnDisk(old(dev.Now()), start, SectorCount(|payload|))) ==> code.Success?
  {
    ghost var before, total := dev.Now(), SectorCount(|payload|);
    var ok := WriteBlocks(dev, payload, start, packet);
    if !ok {
      return WriteFailed;
    }
    ghost var image, outcome := dev.Now(), dev.outcomes(dev.tick);
    ok := dev.Flush();
    FlushSettles(image, outcome, start, total);
    if Fits(payload, start) {
      OutsideTransitive(before, image, dev.Now(), start, total);
    }
    if !ok {
      return FlushFailed;
    }
    code := VerifyBlocks(dev, payload, start, packet);
    if code.Success? && Fits(payload, start) {
      ReadsDurable(dev.Now(), payload, start);
    }
  }

  // ----- the pointer

  function HeaderOf(first: Block, second: Block): Header {
    WordsOf(first + second)
  }

  predicate IsStandard(h: Header) {
    Canonical(h, ApaMagic) && Canonical(h, MbrId) && Canonical(h, SonyMagic) && ChecksumOk(h)
  }

  /** A standard master header that points at the payload. */
  predicate Points(first: Block, second: Block, start: int, size: int) {
    var h := HeaderOf(first, second);
    IsStandard(h) && h[OSD_START_WORD] == start && h[OSD_SIZE_WORD] == size
  }

  /** The same, byte by byte: the marks of a standard master, its checksum, and the pointer in two words. */
  lemma PointsBytes(first: Block, second: Block, start: int, size: int)
    ensures var b: seq<byte> := first + second;
            Points(first, second, start, size) <==>
            && ApaLayout.Spelled(b, 4, "APA\0") && ApaLayout.Spelled(b, 16, "__mbr")
            && ApaLayout.Spelled(b, 0x100, "Sony Computer Entertainment Inc.")
            && Le32(b, 0) == Checksum(HeaderOf(first, second))
            && Le32(b, 0x130) == start && Le32(b, 0x134) == size
  {
    ApaLayout.FieldOffsets(first + second);
    ApaLayout.MasterBytes(first + second);
  }

  /** The master header that can be read is such a one. */
  predicate PointsAt(view: map<int, Block>, start: int, size: int) {
    0 in view && 1 in view && Points(view[0], view[1], start, size)
  }

  datatype PointerCode = PointerSet | SetFailed | HeaderReadFailed | HeaderInvalid | StartMismatch | SizeMismatch

  /** The two sectors of the master can be read back. */
  predicate MasterReads(view: map<int, Block>, master: seq<Block>)
    requires |master| == 2
  {
    0 in view && 1 in view && view[0] == master[0] && view[1] == master[1]
  }

  /** Has the disk driver write the master header, here given as the sectors it writes; then flushes. */
  method SetOsdMbr(dev: Device<Block>, master: seq<Block>) returns (ok: bool)
    requires |master| == 2 && Sound(dev.Now())
    modifies dev
    ensures Trace(dev, old(dev.history), old(dev.Now()), 0, 2) && old(dev.tick) <= dev.tick
    ensures ok ==> dev.cache == map[] && MasterReads(View(dev.Now()), master)
    ensures Working(dev.outcomes, old(dev.tick)) && OnDisk(old(dev.Now()), 0, 2) ==> ok
  {
    ghost var before := dev.Now();
    ok := WriteSectors(dev, 0, master, 0, 2);
    if !ok {
      return;
    }
    assert OverlaidAt(View(before), View(dev.Now()), 0, master, 0);
    assert OverlaidAt(View(before), View(dev.Now()), 0, master, 1);
    ghost var image, outcome := dev.Now(), dev.outcomes(dev.tick);
    ok := dev.Flush();
    FlushSettles(image, outcome, 0, 2);
    OutsideTransitive(before, image, dev.Now(), 0, 2);
  }

  method IsStandardHeader(h: Header) returns (standard: bool)
    ensures standard == IsStandard(h)
  {
    if h[MAGIC_WORD] != APA_MAGIC || h[ID_WORD] != MBR_ID || h[ID_WORD + 1] % 0x100 != MBR_ID_LAST ||
       h[SONY_WORD..SONY_WORD + 8] != SONY {
      return false;
    }
    var sum := ApaChecksum(h);
    return h[CHECKSUM_WORD] == sum;
  }

  lemma MasterFetched(view: map<int, Block>)
    requires Sectors(0, 2) <= view.Keys
    ensures 0 in view && 1 in view && Fetch(view, 0, 2) == [view[0], view[1]]
  {
    assert 0 in Sectors(0, 2) && 1 in Sectors(0, 2);
  }

  /** Reads the master back: the pointer is set exactly when the read works and shows it. */
  method VerifyOsdMbr(dev: Device<Block>, start: u32, size: u32) returns (code: PointerCode)
    modifies dev`tick
    ensures code.PointerSet? <==> dev.outcomes(old(dev.tick)).ok && PointsAt(View(dev.Now()), start, size)
    ensures !code.SetFailed?
  {
    if 0 in View(dev.Now()) && 1 in View(dev.Now()) {
      assert Sectors(0, 2) <= View(dev.Now()).Keys;
    }
    var got := dev.Read(0, 2);
    if got.None? {
      return HeaderReadFailed;
    }
    MasterFetched(View(dev.Now()));
    var h := HeaderOf(got.value[0], got.value[1]);
    var standard := IsStandardHeader(h);
    if !standard {
      return HeaderInvalid;
    }
    if h[OSD_START_WORD] != start {
      return StartMismatch;
    }
    if h[OSD_SIZE_WORD] != size {
      return SizeMismatch;
    }
    return PointerSet;
  }

  method SetPointer(dev: Device<Block>, master: seq<Block>, start: u32, size: u32) returns (code: PointerCode)
    requires |master| == 2 && Sound(dev.Now())
    modifies dev
    ensures Trace(dev, old(dev.history), old(dev.Now()), 0, 2)
    ensures code.PointerSet? ==> PointsAt(View(dev.Now()), start, size) && dev.cache == map[]
    ensures (&& Working(dev.outcomes, old(dev.tick)) && OnDisk(old(dev.Now()), 0, 2)
             && Points(master[0], master[1], start, size)) ==> code.PointerSet?
  {
    var ok := SetOsdMbr(dev, master);
    if !ok {
      return SetFailed;
    }
    code := VerifyOsdMbr(dev, start, size);
  }

  // ----- activation

  ghost predicate SettlesBeyond(before: Image<Block>, after: Image<Block>, payload: seq<byte>, start: int) {
    forall s :: s != 0 && s != 1 && !InPayload(payload, start, s) ==> Settles(before, after, s)
  }

  /** Either the master header has not been touched, or the whole payload is durable. */
  ghost predicate Ordered(before: Image<Block>, image: Image<Block>, payload: seq<byte>, start: int) {
    || SettlesOutside(before, image, start, SectorCount(|payload|))
    || (PayloadDurable(image, payload, start) && SettlesBeyond(before, image, payload, start))
  }

  /** Writing the master header leaves a durable payload durable. */
  lemma PointerStep(before: Image<Block>, mid: Image<Block>, image: Image<Block>, payload: seq<byte>, start: int)
    requires SettlesOutside(before, mid, start, SectorCount(|payload|)) && SettlesOutside(mid, image, 0, 2)
    requires PayloadDurable(mid, payload, start) && start >= 2
    ensures PayloadDurable(image, payload, start) && SettlesBeyond(before, image, payload, start)
  {
    forall i | 0 <= i < SectorCount(|payload|) ensures BlockDurable(image, payload, start, i) {
      assert BlockDurable(mid, payload, start, i);
      assert Settles(mid, image, start + i);
    }
    forall s | s != 0 && s != 1 && !InPayload(payload, start, s) ensures Settles(before, image, s) {
      SettlesTransitive(before, mid, image, s);
    }
  }

  datatype Activation = Activated | NoPayload | PayloadFailed(code: Code) | PointerFailed(pointer: PointerCode)

  ghost predicate AllOrdered(history: seq<Image<Block>>, from: nat, before: Image<Block>, payload: seq<byte>,
                             start: int) {
    forall j :: from <= j < |history| ==> Ordered(before, history[j], payload, start)
  }

  /**
   Writes and verifies the payload, and only then sets and verifies the pointer.
   On a working drive that has the sectors it succeeds.
   */
  method Activate(dev: Device<Block>, payload: seq<byte>, start: u32, size: u32, master: seq<Block>,
                  packet: array<byte>)
    returns (result: Activation)
    requires packet.Length == 1024 && |master| == 2 && Sound(dev.Now())
    modifies dev, packet
    ensures |dev.history| >= |old(dev.history)| && dev.history[..|old(dev.history)|] == old(dev.history)
    ensures start >= 2 && Fits(payload, start) ==>
              && AllOrdered(dev.history, |old(dev.history)|, old(dev.Now()), payload, start)
              && Ordered(old(dev.Now()), dev.Now(), payload, start)
    ensures result.Activated? ==>
              && (start >= 2 && Fits(payload, start) ==> PayloadDurable(dev.Now(), payload, start))
              && PointsAt(dev.durable, start, size) && dev.cache == map[]
    ensures (&& Fits(payload, start) && Working(dev.outcomes, old(dev.tick))
             && 0 < |payload| && OnDisk(old(dev.Now()), 0, 2)
             && OnDisk(old(dev.Now()), start, SectorCount(|payload|)) && Points(master[0], master[1], start, size))
            ==> result.Activated?
    ensures result.NoPayload? <==> |payload| == 0
    ensures (result.PayloadFailed? || result.NoPayload?) && Fits(payload, start) ==>
              SettlesOutside(old(dev.Now()), dev.Now(), start, SectorCount(|payload|))
  {
    if |payload| == 0 {
      return NoPayload;
    }
    ghost var before, h := dev.Now(), dev.history;
    var code := WritePayloadVerified(dev, payload, start, packet);
    if !code.Success? {
      return PayloadFailed(code);
    }
    ghost var mid, g := dev.Now(), dev.history;
    var pointer := SetPointer(dev, master, start, size);
    if start >= 2 && Fits(payload, start) {
      PointerTrace(before, mid, h, g, dev.history, dev.Now(), payload, start);
    }
    if !pointer.PointerSet? {
      return PointerFailed(pointer);
    }
    assert View(dev.Now()) == dev.durable;
    return Activated;
  }

  lemma PointerTrace(before: Image<Block>, mid: Image<Block>, h: seq<Image<Block>>, g: seq<Image<Block>>,
                     history: seq<Image<Block>>, now: Image<Block>, payload: seq<byte>, start: int)
    requires |h| <= |g| <= |history| && history[..|g|] == g && start >= 2
    requires HistorySettles(g, |h|, before, start, SectorCount(|payload|))
    requires SettlesOutside(before, mid, start, SectorCount(|payload|)) && PayloadDurable(mid, payload, start)
    requires HistorySettles(history, |g|, mid, 0, 2) && SettlesOutside(mid, now, 0, 2)
    ensures AllOrdered(history, |h|, before, payload, start)
    ensures PayloadDurable(now, payload, start) && Ordered(before, now, payload, start)
  {
    PointerStep(before, mid, now, payload, start);
    forall j | |h| <= j < |history| ensures Ordered(before, history[j], payload, start) {
      if j < |g| {
        assert history[j] == g[j];
      } else {
        PointerStep(before, mid, history[j], payload, start);
      }
    }
  }

  /**
   Payload before pointer. At every crash point, a master sector that holds
   anything it could not have held before the transaction means that the whole
   zero-padded payload is on the medium; and no sector but the payload's and
   the master's can hold anything new.
   */
  lemma PointerMeansPayload(before: Image<Block>, image: Image<Block>, x: map<int, Block>, payload: seq<byte>,
                            start: int, s: int)
    requires Ordered(before, image, payload, start) && CrashImage(image, x) && start >= 2 && s in x
    requires s in before.durable ==> x[s] != before.durable[s] && (s in before.cache ==> x[s] != before.cache[s])
    ensures s == 0 || s == 1 || InPayload(payload, start, s)
    ensures s == 0 || s == 1 ==> BlocksRead(x, payload, start, SectorCount(|payload|))
  {
    if Settles(before, image, s) {
      SettledCrash(before, image, x, s);
      assert false;
    }
    if s == 0 || s == 1 {
      assert !SettlesOutside(before, image, start, SectorCount(|payload|));
      forall i | 0 <= i < SectorCount(|payload|) ensures BlockReads(x, payload, start, i) {
        assert BlockDurable(image, payload, start, i);
      }
    }
  }

  // ----- the check that callers make first

  const RESERVED_START: u32 := 0x2000

  datatype Bounds = Accepted | EmptyPointer | TooLarge | BeforeReservedArea | OutsideMbr

  /**
   Accepts a pointer exactly if its area lies within the reserved part of the
   master partition; such an area is past the master and does not wrap.
   */
  method ValidateBounds(start: u32, sectors: u32, mbrStart: u32, mbrSize: u32) returns (bounds: Bounds)
    ensures bounds.Accepted? <==>
            mbrStart == 0 && 0 < sectors <= 0x2000 <= start && start + sectors <= mbrSize
    ensures bounds.Accepted? ==> start >= 2 && Unwrapped(start, sectors)
    ensures bounds.EmptyPointer? <==> start == 0 || sectors == 0
  {
    if start == 0 || sectors == 0 {
      return EmptyPointer;
    }
    if sectors > MAX_PAYLOAD / 512 {
      return TooLarge;
    }
    if start < RESERVED_START {
      return BeforeReservedArea;
    }
    if mbrStart != 0 || start >= mbrSize || sectors > mbrSize - start {
      return OutsideMbr;
    }
    return Accepted;
  }

  // ----- reading the payload back

  /** The image is the concatenation of `n` sectors from `start` on. */
  predicate IsImage(image: seq<byte>, view: map<int, Block>, start: int, n: nat) {
    |image| == 512 * n && forall i :: 0 <= i < n ==> ImageBlock(image, view, start, i)
  }

  predicate ImageBlock(image: seq<byte>, view: map<int, Block>, start: int, i: nat)
    requires 512 * i + 512 <= |image|
  {
    start + i in view && image[512 * i..512 * i + 512] == view[start + i]
  }

  lemma ImageGrows(image: seq<byte>, view: map<int, Block>, start: int, n: nat, block: Block)
    requires IsImage(image, view, start, n) && start + n in view && view[start + n] == block
    ensures IsImage(image + block, view, start, n + 1)
  {
    var grown := image + block;
    forall i | 0 <= i < n + 1 ensures ImageBlock(grown, view, start, i) {
      if i < n {
        assert ImageBlock(image, view, start, i);
        assert grown[512 * i..512 * i + 512] == image[512 * i..512 * i + 512];
      } else {
        assert grown[512 * n..512 * n + 512] == block;
      }
    }
  }

  /** One transfer of the read. */
  method ReadNext(dev: Device<Block>, payload: seq<byte>, start: u32, ghost sectors: u32, n: nat, chunk: nat)
    returns (more: Option<seq<byte>>)
    requires 0 < chunk && n + chunk <= sectors && |payload| == 512 * n
    modifies dev`tick
    ensures dev.tick == old(dev.tick) + 1
    ensures more.Some? ==> |more.value| == 512 * (n + chunk)
    ensures more.Some? && Unwrapped(start, sectors) && IsImage(payload, View(dev.Now()), start, n) ==>
              IsImage(more.value, View(dev.Now()), start, n + chunk)
    ensures (&& Unwrapped(start, sectors) && dev.outcomes(old(dev.tick)).ok
             && Sectors(start, sectors) <= View(dev.Now()).Keys) ==> more.Some?
  {
    SectorsWithin(View(dev.Now()), start, sectors, n, chunk);
    var got := dev.Read(SectorAt(start, n), chunk);
    if got.None? {
      return None;
    }
    if Unwrapped(start, sectors) && IsImage(payload, View(dev.Now()), start, n) {
      ImageAppends(payload, got.value, View(dev.Now()), start, n);
    }
    var joined := AppendBlocks(payload, got.value);
    return Some(joined);
  }

  /**
   Reads the payload's sectors, two at a time; a size of zero or more than the
   limit is refused, and anything else is read if the drive works and has it.
   */
  method ReadPayloadImage(dev: Device<Block>, start: u32, sectors: u32) returns (image: Option<seq<byte>>)
    modifies dev`tick
    ensures image.Some? ==> 0 < sectors <= 0x2000 && |image.value| == 512 * sectors
    ensures image.Some? && Unwrapped(start, sectors) ==>
              IsImage(image.value, View(dev.Now()), start, sectors)
    ensures (&& 0 < sectors <= 0x2000 && Unwrapped(start, sectors)
             && Working(dev.outcomes, old(dev.tick)) && Sectors(start, sectors) <= View(dev.Now()).Keys) ==> image.Some?
  {
    if sectors == 0 || sectors > MAX_PAYLOAD / 512 {
      return None;
    }
    ghost var view := View(dev.Now());
    var payload: seq<byte> := [];
    var sectorOffset := 0;
    while sectorOffset < sectors
      invariant 0 <= sectorOffset <= sectors && view == View(dev.Now()) && old(dev.tick) <= dev.tick
      invariant |payload| == 512 * sectorOffset
      invariant Unwrapped(start, sectors) ==> IsImage(payload, view, start, sectorOffset)
    {
      var chunk := if sectors - sectorOffset > TRANSFER_SECTORS then TRANSFER_SECTORS else sectors - sectorOffset;
      var more := ReadNext(dev, payload, start, sectors, sectorOffset, chunk);
      if more.None? {
        return None;
      }
      payload := more.value;
      sectorOffset := sectorOffset + chunk;
    }
    return Some(payload);
  }

  lemma SectorsWithin(view: map<int, Block>, start: int, sectors: nat, n: nat, count: nat)
    requires n + count <= sectors
    ensures Sectors(start, sectors) <= view.Keys ==> Sectors(start + n, count) <= view.Keys
  {
    if Sectors(start, sectors) <= view.Keys {
      forall s | s in Sectors(start + n, count) ensures s in view {
        assert s in Sectors(start, sectors);
      }
    }
  }

  function Flattened(blocks: seq<Block>): (b: seq<byte>)
    ensures |b| == 512 * |blocks|
  {
    if blocks == [] then [] else
      var block: seq<byte> := blocks[|blocks| - 1];
      Flattened(blocks[..|blocks| - 1]) + block
  }

  /** Copies the sectors of one transfer behind what has been read so far. */
  method AppendBlocks(payload: seq<byte>, blocks: seq<Block>) returns (more: seq<byte>)
    ensures more == payload + Flattened(blocks)
  {
    more := payload;
    var k := 0;
    while k < |blocks|
      invariant 0 <= k <= |blocks| && more == payload + Flattened(blocks[..k])
    {
      assert blocks[..k + 1][..k] == blocks[..k];
      more := more + blocks[k];
      k := k + 1;
    }
    assert blocks[..k] == blocks;
  }

  lemma {:induction false} ImageAppends(payload: seq<byte>, blocks: seq<Block>, view: map<int, Block>, start: int,
                                        n: nat)
    requires IsImage(payload, view, start, n) && Sectors(start + n, |blocks|) <= view.Keys
    requires forall k :: 0 <= k < |blocks| ==> start + n + k in view && blocks[k] == view[start + n + k]
    ensures IsImage(payload + Flattened(blocks), view, start, n + |blocks|)
  {
    if blocks == [] {
      assert payload + Flattened(blocks) == payload;
    } else {
      var last := |blocks| - 1;
      SectorsWithin(view, start + n, |blocks|, 0, last);
      ImageAppends(payload, blocks[..last], view, start, n);
      ImageGrows(payload + Flattened(blocks[..last]), view, start, n + last, blocks[last]);
      assert payload + Flattened(blocks) == payload + Flattened(blocks[..last]) + blocks[last];
    }
  }

  /** An installed payload comes back at the start of the image. */
  lemma ImageHoldsPayload(payload: seq<byte>, image: seq<byte>, view: map<int, Block>, start: int)
    requires BlocksRead(view, payload, start, SectorCount(|payload|))
    requires IsImage(image, view, start, SectorCount(|payload|))
    ensures |payload| <= |image| && image[..|payload|] == payload
  {
    forall k | 0 <= k < |payload| ensures image[k] == payload[k] {
      var i := k / 512;
      assert BlockReads(view, payload, start, i) && ImageBlock(image, view, start, i);
      assert image[512 * i..512 * i + 512][k - 512 * i] == image[k];
    }
  }

  /**
   Install round trip. Reading back the sectors of an installed container gives
   an image whose only well-formed prefix is that container, so that sizing
   the image returns exactly the installed length.
   */
  lemma InstalledLength(payload: seq<byte>, image: seq<byte>, view: map<int, Block>, start: int)
    requires Kelf.IsKelf(payload) && BlocksRead(view, payload, start, SectorCount(|payload|))
    requires IsImage(image, view, start, SectorCount(|payload|))
    ensures |payload| <= |image| && image[..|payload|] == payload
    ensures forall n: nat :: n <= |image| ==> (Kelf.IsKelf(image[..n]) <==> n == |payload|)
  {
    ImageHoldsPayload(payload, image, view, start);
    forall n: nat | n <= |image| && Kelf.IsKelf(image[..n]) ensures n == |payload| {
      Kelf.KelfLength(image, n);
      Kelf.KelfLength(image, |payload|);
    }
  }
}
