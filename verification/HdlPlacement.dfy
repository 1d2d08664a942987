/**
 Where the payload lands: the stream writes each part of an image on the very
 sector that the metadata block advertises for it.
 */
module HdlPlacement {
  import opened Words
  import opened HdlPartition
  import opened HdlMetadata
  import HdlStream

  function Bytes(sectors: int): int {
    sectors * 512
  }

  /** The partitions that were created are as long as the plan asked for. */
  predicate AsPlanned(lengths: seq<u32>, slices: seq<Slice>) {
    |lengths| == |slices| && forall i :: 0 <= i < |slices| ==> Bytes(lengths[i]) == slices[i].allocation
  }

  lemma PlannedOpens(lengths: seq<u32>, slices: seq<Slice>, image: int, largest: int)
    requires Standard(largest) && Greedy(slices, image, largest) && |slices| <= HdlPartition.MAX_PARTITIONS
    requires AsPlanned(lengths, slices)
    ensures HdlStream.Opened(lengths)
  {
    forall i | 0 <= i < |lengths| ensures HdlStream.Holds(lengths, i) {
      assert Standard(slices[i].allocation);
    }
  }

  lemma {:induction false} PlannedBase(lengths: seq<u32>, slices: seq<Slice>, image: int, largest: int, n: nat)
    requires Greedy(slices, image, largest) && AsPlanned(lengths, slices) && n < |slices|
    ensures Bytes(HdlStream.Base(lengths, n)) == PayloadSum(slices[..n])
  {
    if n > 0 {
      PlannedBase(lengths, slices, image, largest, n - 1);
      assert slices[..n][..n - 1] == slices[..n - 1];
    }
  }

  lemma {:induction false} SliceOf(slices: seq<Slice>, x: int, n: nat) returns (k: nat)
    requires n <= |slices| && 0 <= x < PayloadSum(slices[..n])
    ensures k < n && PayloadSum(slices[..k]) <= x < PayloadSum(slices[..k]) + slices[k].payload
  {
    assert slices[..n][..n - 1] == slices[..n - 1];
    if x < PayloadSum(slices[..n - 1]) {
      k := SliceOf(slices, x, n - 1);
    } else {
      k := n - 1;
    }
  }

  /** Entry `k` of the block covers byte `x` of the image. */
  predicate Covers(metadata: seq<byte>, k: nat, x: int)
    requires |metadata| == METADATA_SIZE
  {
    && k < Le32(metadata, COUNT_AT) && k < HdlPartition.MAX_PARTITIONS
    && EntryImageOffset(metadata, k) <= x < EntryImageOffset(metadata, k) + EntryBytes(metadata, k)
  }

  /** The disk sector that entry `k` advertises for byte `x` of the image. */
  function Advertised(metadata: seq<byte>, k: nat, x: int): int
    requires |metadata| == METADATA_SIZE && k < HdlPartition.MAX_PARTITIONS
  {
    EntryDataStart(metadata, k) + (x - EntryImageOffset(metadata, k)) / 512
  }

  /** The disk sector that the stream writes for byte `x` of the image. */
  function Written(lengths: seq<u32>, starts: seq<u32>, x: int): int
    requires HdlStream.Opened(lengths) && |starts| == |lengths| && 0 <= x / 512 < HdlStream.Total(lengths)
  {
    var p := HdlStream.PlaceOf(lengths, x / 512);
    starts[p.part] + p.sector
  }

  /** The stream puts byte `x` of slice `k` into partition `k`, past its overhead. */
  lemma PlaceInSlice(lengths: seq<u32>, slices: seq<Slice>, image: int, largest: int, k: nat, x: int)
    requires Standard(largest) && Greedy(slices, image, largest) && AsPlanned(lengths, slices)
    requires HdlStream.Opened(lengths) && image % 2048 == 0
    requires k < |slices| && PayloadSum(slices[..k]) <= x < PayloadSum(slices[..k]) + slices[k].payload
    ensures 0 <= x / 512 < HdlStream.Total(lengths)
    ensures HdlStream.PlaceOf(lengths, x / 512) ==
            HdlStream.Place(k, Overhead(k) / 512 + (x - PayloadSum(slices[..k])) / 512)
  {
    PlannedBase(lengths, slices, image, largest, k);
    PlannerPayload(slices, image, largest, k);
    var base := HdlStream.Base(lengths, k);
    var p := HdlStream.Place(k, Overhead(k) / 512 + (x - PayloadSum(slices[..k])) / 512);
    InsideSlice(x, base, slices[k].payload, slices[k].allocation, Overhead(k), lengths[k]);
    assert HdlStream.IsData(lengths, p) && HdlStream.Index(lengths, p) == x / 512;
    HdlStream.IndexIsInjective(lengths, p, p);
    HdlStream.IndexIsInjective(lengths, p, HdlStream.PlaceOf(lengths, x / 512));
  }

  lemma InsideSlice(x: int, base: int, payload: int, allocation: int, overhead: int, length: int)
    requires base * 512 <= x < base * 512 + payload && payload <= allocation - overhead && length * 512 == allocation
    requires overhead == 4 * MIB || overhead == MIB
    ensures 0 <= (x - base * 512) / 512 < length - overhead / 512
    ensures (x - base * 512) / 512 == x / 512 - base
  {
  }

  /**
   Placement agreement. For every byte of a planned image exactly one metadata
   entry covers it, and the sector the stream writes is the one it advertises.
   */
  lemma PlacementAgrees(plan: Plan, starts: seq<u32>, lengths: seq<u32>, options: Options, largest: int, x: int)
    requires Standard(largest) && Greedy(plan.slices, plan.imageBytes, largest) && plan.imageBytes % 2048 == 0
    requires Buildable(plan, starts, options) && AsPlanned(lengths, plan.slices) && 0 <= x < plan.imageBytes
    ensures HdlStream.Opened(lengths) && x / 512 < HdlStream.Total(lengths)
    ensures var block := Block(plan, starts, options);
            && (exists k :: Covers(block, k, x))
            && forall k :: Covers(block, k, x) ==>
                 && k == HdlStream.PlaceOf(lengths, x / 512).part
                 && Advertised(block, k, x) == Written(lengths, starts, x)
  {
    PlannedOpens(lengths, plan.slices, plan.imageBytes, largest);
    var block := Block(plan, starts, options);
    CountInBlock(plan, starts, options);
    assert plan.slices[..|plan.slices|] == plan.slices;
    var k := SliceOf(plan.slices, x, |plan.slices|);
    BlockEntry(plan, starts, options, k);
    assert Covers(block, k, x);
    forall k | Covers(block, k, x)
      ensures 0 <= x / 512 < HdlStream.Total(lengths) && k == HdlStream.PlaceOf(lengths, x / 512).part
      ensures Advertised(block, k, x) == Written(lengths, starts, x)
    {
      BlockEntry(plan, starts, options, k);
      PlaceInSlice(lengths, plan.slices, plan.imageBytes, largest, k, x);
    }
  }

  lemma CountInBlock(plan: Plan, starts: seq<u32>, options: Options)
    requires Buildable(plan, starts, options)
    ensures Le32(Block(plan, starts, options), COUNT_AT) == |plan.slices|
  {
    EntriesInRange(plan, starts);
    var fields := Fields(options, |plan.slices|);
    var block := Block(plan, starts, options);
    forall i | 0 <= i < ENTRIES_AT ensures block[i] == fields[i] {
      EntriesKeepFields(fields, plan.slices, starts, |plan.slices|, i);
    }
    FixedFields(options, |plan.slices|);
    assert Le32(block, COUNT_AT) == Le32(fields, COUNT_AT);
  }

  // ----- a whole image, transfer by transfer

  /** Two writes, one right after the other, are one write of both. */
  lemma RunsJoin<S(!new)>(lengths: seq<u32>, a: map<HdlStream.Place, S>, b: map<HdlStream.Place, S>,
                          c: map<HdlStream.Place, S>, k: int, first: seq<S>, second: seq<S>)
    requires HdlStream.WritesRun(lengths, a, b, k, first, k + |first|)
    requires HdlStream.WritesRun(lengths, b, c, k + |first|, second, k + |first| + |second|)
    ensures HdlStream.WritesRun(lengths, a, c, k, first + second, k + |first| + |second|)
  {
  }

  function Joined<S>(pieces: seq<seq<S>>, n: nat): seq<S>
    requires n <= |pieces|
  {
    if n == 0 then [] else Joined(pieces, n - 1) + pieces[n - 1]
  }

  /** Transfer `i` took the stream from `maps[i]` to `maps[i + 1]`, each one going on where the last one ended. */
  ghost predicate WrittenInTurn<S(!new)>(lengths: seq<u32>, maps: seq<map<HdlStream.Place, S>>, pieces: seq<seq<S>>) {
    |maps| == |pieces| + 1 && forall i :: 0 <= i < |pieces| ==> WrittenNext(lengths, maps, pieces, i)
  }

  ghost predicate WrittenNext<S(!new)>(lengths: seq<u32>, maps: seq<map<HdlStream.Place, S>>, pieces: seq<seq<S>>,
                                       i: nat)
    requires |maps| == |pieces| + 1 && i < |pieces|
  {
    var k := |Joined(pieces, i)|;
    HdlStream.WritesRun(lengths, maps[i], maps[i + 1], k, pieces[i], k + |pieces[i]|)
  }

  lemma {:induction false} TransfersJoin<S(!new)>(lengths: seq<u32>, maps: seq<map<HdlStream.Place, S>>,
                                                  pieces: seq<seq<S>>, n: nat)
    requires WrittenInTurn(lengths, maps, pieces) && n <= |pieces|
    ensures HdlStream.WritesRun(lengths, maps[0], maps[n], 0, Joined(pieces, n), |Joined(pieces, n)|)
  {
    if n > 0 {
      TransfersJoin(lengths, maps, pieces, n - 1);
      assert WrittenNext(lengths, maps, pieces, n - 1);
      RunsJoin(lengths, maps[0], maps[n - 1], maps[n], 0, Joined(pieces, n - 1), pieces[n - 1]);
    }
  }

  /**
   The install path by plain writes: once a planned image has been written to
   the stream from its start, by any number of transfers one after another, the
   disk sector that the metadata advertises for an image byte holds that byte's
   sector of the image.
   */
  lemma ImageIsWhereAdvertised<S(!new)>(plan: Plan, starts: seq<u32>, lengths: seq<u32>, options: Options, largest: int,
                                  maps: seq<map<HdlStream.Place, S>>, pieces: seq<seq<S>>, k: nat, x: int)
    requires Standard(largest) && Greedy(plan.slices, plan.imageBytes, largest) && plan.imageBytes % 2048 == 0
    requires Buildable(plan, starts, options) && AsPlanned(lengths, plan.slices) && HdlStream.Opened(lengths)
    requires WrittenInTurn(lengths, maps, pieces) && Bytes(|Joined(pieces, |pieces|)|) == plan.imageBytes
    requires forall p :: HdlStream.IsData(lengths, p) ==> p in maps[0]
    requires 0 <= x < plan.imageBytes && Covers(Block(plan, starts, options), k, x)
    ensures k < |starts|
    ensures var p := HdlStream.Place(k, Advertised(Block(plan, starts, options), k, x) - starts[k]);
            p in maps[|pieces|] && maps[|pieces|][p] == Joined(pieces, |pieces|)[x / 512]
  {
    TransfersJoin(lengths, maps, pieces, |pieces|);
    AdvertisedPlace(plan, starts, lengths, options, largest, k, x);
    var p := HdlStream.PlaceOf(lengths, x / 512);
    assert p in maps[0] && p in maps[|pieces|];
  }

  /** The place that the metadata advertises for an image byte is that of its stream position. */
  lemma AdvertisedPlace(plan: Plan, starts: seq<u32>, lengths: seq<u32>, options: Options, largest: int, k: nat, x: int)
    requires Standard(largest) && Greedy(plan.slices, plan.imageBytes, largest) && plan.imageBytes % 2048 == 0
    requires Buildable(plan, starts, options) && AsPlanned(lengths, plan.slices) && HdlStream.Opened(lengths)
    requires 0 <= x < plan.imageBytes && Covers(Block(plan, starts, options), k, x)
    ensures k < |starts| && 0 <= x / 512 < HdlStream.Total(lengths)
    ensures HdlStream.Place(k, Advertised(Block(plan, starts, options), k, x) - starts[k]) ==
            HdlStream.PlaceOf(lengths, x / 512)
  {
    PlacementAgrees(plan, starts, lengths, options, largest, x);
    CountInBlock(plan, starts, options);
    BlockEntry(plan, starts, options, k);
    PlaceInSlice(lengths, plan.slices, plan.imageBytes, largest, k, x);
  }
}
