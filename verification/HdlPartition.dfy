/**
 The HDLoader slice planner: an image is cut into a main partition and up to
 64 sub-partitions of standard sizes, and no layout does better.
 */
module HdlPartition {
  import opened Words

  const MIB: int := 0x10_0000
  const MAIN_DATA_OFFSET: int := 4 * MIB
  const SUB_DATA_OFFSET: int := MIB
  const MAX_PARTITIONS: nat := 65

  const SIZES: seq<u64> := [128 * MIB, 256 * MIB, 512 * MIB, 1024 * MIB, 2048 * MIB, 4096 * MIB]

  predicate Standard(size: int) {
    || size == 128 * MIB || size == 256 * MIB || size == 512 * MIB
    || size == 1024 * MIB || size == 2048 * MIB || size == 4096 * MIB
  }

  lemma SizesAreStandard()
    ensures |SIZES| == 6
    ensures forall i :: 0 <= i < 6 ==> Standard(SIZES[i])
    ensures forall size :: Standard(size) ==> exists i :: 0 <= i < 6 && SIZES[i] == size
    ensures forall i, j :: 0 <= i < j < 6 ==> SIZES[i] < SIZES[j]
  {
    assert SIZES[0] == 128 * MIB && SIZES[1] == 256 * MIB && SIZES[2] == 512 * MIB;
    assert SIZES[3] == 1024 * MIB && SIZES[4] == 2048 * MIB && SIZES[5] == 4096 * MIB;
  }

  /** 128 MiB to 4 GiB, doubling. */
  lemma StandardSizes(size: int)
    ensures Standard(size) <==>
            size in {0x800_0000, 0x1000_0000, 0x2000_0000, 0x4000_0000, 0x8000_0000, 0x1_0000_0000}
  {
  }

  /** The largest standard size within `maximum`. */
  ghost predicate IsLargest(size: int, maximum: int) {
    Standard(size) && size <= maximum && forall s :: Standard(s) && s <= maximum ==> s <= size
  }

  /** The least standard size that holds `required` and stays within `maximum`. */
  ghost predicate IsLeastFitting(size: int, required: int, maximum: int) {
    && Standard(size) && required <= size <= maximum
    && forall s :: Standard(s) && required <= s <= maximum ==> size <= s
  }

  method ChooseAllocation(required: u64, maximum: u64) returns (allocation: u64)
    ensures (exists s :: Standard(s) && required <= s <= maximum) ==> IsLeastFitting(allocation, required, maximum)
    ensures !(exists s :: Standard(s) && required <= s <= maximum) && maximum >= 128 * MIB ==>
              IsLargest(allocation, maximum)
    ensures maximum < 128 * MIB ==> allocation == 0
  {
    SizesAreStandard();
    var i := 0;
    while i < 6
      invariant 0 <= i <= 6
      invariant forall k :: 0 <= k < i ==> !(required <= SIZES[k] <= maximum)
    {
      if SIZES[i] >= required && SIZES[i] <= maximum {
        return SIZES[i];
      }
      i := i + 1;
    }
    i := 6;
    while i > 0
      invariant 0 <= i <= 6
      invariant forall k :: i <= k < 6 ==> SIZES[k] > maximum
    {
      if SIZES[i - 1] <= maximum {
        return SIZES[i - 1];
      }
      i := i - 1;
    }
    assert SIZES[0] > maximum;
    return 0;
  }

  // ----- layouts

  datatype Slice = Slice(allocation: u64, payloadOffset: u64, payload: u32)

  datatype Plan = Plan(imageBytes: u64, allocationBytes: u64, slices: seq<Slice>)

  datatype PlanError = InvalidArgument | ImageAlignment | TooMany | MaxSizeInvalid

  datatype PlanOutcome = Planned(plan: Plan) | Refused(error: PlanError)

  function Overhead(i: nat): int {
    if i == 0 then MAIN_DATA_OFFSET else SUB_DATA_OFFSET
  }

  function PayloadSum(slices: seq<Slice>): nat {
    if slices == [] then 0 else PayloadSum(slices[..|slices| - 1]) + slices[|slices| - 1].payload
  }

  function AllocationSum(slices: seq<Slice>): nat {
    if slices == [] then 0 else AllocationSum(slices[..|slices| - 1]) + slices[|slices| - 1].allocation
  }

  /** Any way to put an image into standard partitions within the maximum. */
  predicate Layout(slices: seq<Slice>, image: int, maximum: int) {
    && (forall i :: 0 <= i < |slices| ==>
          Standard(slices[i].allocation) && slices[i].allocation <= maximum
          && slices[i].payload <= slices[i].allocation - Overhead(i))
    && PayloadSum(slices) == image
  }

  /** Each slice continues the image where the one before it stopped. */
  predicate Tiles(slices: seq<Slice>) {
    forall i {:trigger Continues(slices, i)} :: 0 <= i < |slices| ==> Continues(slices, i)
  }

  predicate Continues(slices: seq<Slice>, i: nat)
    requires i < |slices|
  {
    slices[i].payloadOffset == PayloadSum(slices[..i])
  }

  /** Bytes that `n` partitions of size `m` hold, and their total size. */
  function FullCapacity(m: int, n: nat): int {
    if n == 0 then 0 else FullCapacity(m, n - 1) + m - Overhead(n - 1)
  }

  function FullSize(m: int, n: nat): int {
    if n == 0 then 0 else FullSize(m, n - 1) + m
  }

  lemma {:induction false} FullSizeIs(m: int, n: nat)
    ensures FullSize(m, n) == n * m
    ensures FullCapacity(m, n) == n * m - if n == 0 then 0 else (n + 3) * 0x10_0000
  {
    if n > 0 {
      FullSizeIs(m, n - 1);
      assert n * m == (n - 1) * m + m;
    }
  }

  ghost predicate LastFits(s: Slice, i: nat, largest: int) {
    s.payload > 0 && IsLeastFitting(s.allocation, s.payload + Overhead(i), largest)
  }

  /** What the greedy planner produces: full slices of the largest size, then the least that fits. */
  ghost predicate Greedy(slices: seq<Slice>, image: int, largest: int) {
    && |slices| > 0
    && (forall i :: 0 <= i < |slices| - 1 ==>
          slices[i].allocation == largest && slices[i].payload == largest - Overhead(i))
    && LastFits(slices[|slices| - 1], |slices| - 1, largest)
    && PayloadSum(slices) == image
  }

  // ----- no layout is better

  lemma {:induction false} LayoutCapacity(slices: seq<Slice>, largest: int, n: nat)
    requires n <= |slices|
    requires forall i :: 0 <= i < |slices| ==>
      slices[i].allocation <= largest && slices[i].payload <= slices[i].allocation - Overhead(i)
    ensures PayloadSum(slices[..n]) <= FullCapacity(largest, n)
    ensures PayloadSum(slices[..n]) + FullSize(largest, n) <= AllocationSum(slices[..n]) + FullCapacity(largest, n)
  {
    if n > 0 {
      LayoutCapacity(slices, largest, n - 1);
      assert slices[..n][..n - 1] == slices[..n - 1];
    }
  }

  lemma {:induction false} GreedyCapacity(slices: seq<Slice>, image: int, largest: int, n: nat)
    requires Greedy(slices, image, largest) && n < |slices|
    ensures PayloadSum(slices[..n]) == FullCapacity(largest, n)
    ensures AllocationSum(slices[..n]) == FullSize(largest, n)
  {
    if n > 0 {
      GreedyCapacity(slices, image, largest, n - 1);
      assert slices[..n][..n - 1] == slices[..n - 1];
    }
  }

  lemma {:induction false} CapacityGrows(m: int, a: nat, b: nat)
    requires Standard(m) && a <= b
    ensures FullCapacity(m, a) <= FullCapacity(m, b)
  {
    if a < b {
      CapacityGrows(m, a, b - 1);
    }
  }

  /** Fewest slices: no layout of the same image has fewer partitions. */
  lemma GreedyIsFewest(slices: seq<Slice>, other: seq<Slice>, image: int, largest: int)
    requires Standard(largest) && Greedy(slices, image, largest)
    requires forall i :: 0 <= i < |other| ==>
      other[i].allocation <= largest && other[i].payload <= other[i].allocation - Overhead(i)
    requires PayloadSum(other) == image
    ensures |slices| <= |other|
  {
    LayoutCapacity(other, largest, |other|);
    assert other[..|other|] == other;
    var last := |slices| - 1;
    GreedyCapacity(slices, image, largest, last);
    if |other| <= last {
      CapacityGrows(largest, |other|, last);
    }
  }

  /**
   A sum of standard sizes is that of all-largest partitions, or that with one
   of them replaced by a smaller size, or at most that with one left out.
   */
  lemma {:induction false} SumsOfSizes(slices: seq<Slice>, largest: int, n: nat) returns (odd: int)
    requires n <= |slices| && Standard(largest)
    requires forall i :: 0 <= i < |slices| ==> Standard(slices[i].allocation) && slices[i].allocation <= largest
    ensures var sum := AllocationSum(slices[..n]);
            || sum == FullSize(largest, n)
            || (n > 0 && sum <= FullSize(largest, n - 1))
            || (n > 0 && Standard(odd) && odd < largest && sum == FullSize(largest, n - 1) + odd)
  {
    odd := 0;
    if n > 0 {
      odd := SumsOfSizes(slices, largest, n - 1);
      assert slices[..n][..n - 1] == slices[..n - 1];
      var size := slices[n - 1].allocation;
      if AllocationSum(slices[..n - 1]) == FullSize(largest, n - 1) && size < largest {
        odd := size;
      }
    }
  }

  /** Least space: no layout with as many partitions allocates less. */
  lemma GreedyIsLeast(slices: seq<Slice>, other: seq<Slice>, image: int, largest: int)
    requires Standard(largest) && Greedy(slices, image, largest)
    requires Layout(other, image, largest) && |other| == |slices|
    ensures AllocationSum(slices) <= AllocationSum(other)
  {
    var n, last := |slices|, |slices| - 1;
    GreedyCapacity(slices, image, largest, last);
    LayoutCapacity(other, largest, n);
    assert other[..n] == other;
    assert FullSize(largest, n) == FullSize(largest, last) + largest;
    assert FullCapacity(largest, n) == FullCapacity(largest, last) + largest - Overhead(last);
    var required := slices[last].payload + Overhead(last);
    assert AllocationSum(other) >= FullSize(largest, last) + required;
    var odd := SumsOfSizes(other, largest, n);
  }

  /** Whatever fits into 65 partitions fits the limit the planner accepts. */
  lemma LayoutFits(other: seq<Slice>, image: int, largest: int)
    requires Standard(largest) && Layout(other, image, largest) && |other| <= MAX_PARTITIONS
    ensures image <= 65 * largest - 68 * MIB
  {
    LayoutCapacity(other, largest, |other|);
    assert other[..|other|] == other;
    CapacityGrows(largest, |other|, MAX_PARTITIONS);
    FullSizeIs(largest, MAX_PARTITIONS);
  }

  lemma GreedyIsLayout(slices: seq<Slice>, image: int, maximum: int, largest: int)
    requires IsLargest(largest, maximum) && Greedy(slices, image, largest)
    ensures Layout(slices, image, maximum)
  {
  }

  /**
   Planner optimality. A greedy plan is a layout of its image; every layout
   has at least as many partitions, and those with as many allocate at least
   as much. And only images that fit the planner's limit have a layout.
   */
  lemma PlanIsOptimal(slices: seq<Slice>, image: int, maximum: int, largest: int)
    requires IsLargest(largest, maximum) && Greedy(slices, image, largest)
    ensures Layout(slices, image, maximum)
    ensures forall other :: Layout(other, image, maximum) ==>
              |slices| <= |other| && (|other| == |slices| ==> AllocationSum(slices) <= AllocationSum(other))
    ensures forall other :: Layout(other, image, maximum) && |other| <= MAX_PARTITIONS ==>
              image <= 65 * largest - 68 * MIB
  {
    GreedyIsLayout(slices, image, maximum, largest);
    forall other | Layout(other, image, maximum)
      ensures |slices| <= |other| && (|other| == |slices| ==> AllocationSum(slices) <= AllocationSum(other))
      ensures |other| <= MAX_PARTITIONS ==> image <= 65 * largest - 68 * MIB
    {
      GreedyIsFewest(slices, other, image, largest);
      if |other| == |slices| {
        GreedyIsLeast(slices, other, image, largest);
      }
      if |other| <= MAX_PARTITIONS {
        LayoutFits(other, image, largest);
      }
    }
  }

  // ----- the planner

  lemma OneMoreSlice(slices: seq<Slice>, s: Slice)
    ensures PayloadSum(slices + [s]) == PayloadSum(slices) + s.payload
    ensures AllocationSum(slices + [s]) == AllocationSum(slices) + s.allocation
  {
    assert (slices + [s])[..|slices|] == slices;
  }

  /** Slices planned so far, all of them full ones of the largest size. */
  ghost predicate FullSlices(slices: seq<Slice>, largest: int) {
    && |slices| <= MAX_PARTITIONS
    && (forall i :: 0 <= i < |slices| ==> slices[i].allocation == largest && slices[i].payload == largest - Overhead(i))
    && PayloadSum(slices) == FullCapacity(largest, |slices|)
    && AllocationSum(slices) == FullSize(largest, |slices|)
    && Tiles(slices)
  }

  lemma TilesGrows(slices: seq<Slice>, s: Slice)
    requires Tiles(slices) && s.payloadOffset == PayloadSum(slices)
    ensures Tiles(slices + [s])
  {
    var grown := slices + [s];
    forall i {:trigger Continues(grown, i)} | 0 <= i < |grown| ensures Continues(grown, i) {
      assert grown[..i] == slices[..i];
      assert i < |slices| ==> Continues(slices, i);
      assert slices[..|slices|] == slices;
    }
  }

  /** The slice the planner takes next, `remaining` bytes being left. */
  ghost predicate GreedyChoice(s: Slice, i: nat, remaining: int, largest: int) {
    if remaining + Overhead(i) <= largest then
      s.payload == remaining && IsLeastFitting(s.allocation, remaining + Overhead(i), largest)
    else
      s.allocation == largest && s.payload == largest - Overhead(i)
  }

  /** A last slice completes the greedy shape. */
  lemma PlanEnds(slices: seq<Slice>, s: Slice, image: int, largest: int)
    requires Standard(largest) && FullSlices(slices, largest) && |slices| < MAX_PARTITIONS
    requires s.payload > 0 && PayloadSum(slices) + s.payload == image
    requires GreedyChoice(s, |slices|, s.payload, largest) && s.payloadOffset == PayloadSum(slices)
    ensures var grown := slices + [s];
            Greedy(grown, image, largest) && Tiles(grown) && PayloadSum(grown) <= FullCapacity(largest, |grown|)
  {
    OneMoreSlice(slices, s);
    TilesGrows(slices, s);
    var grown := slices + [s];
    assert LastFits(grown[|grown| - 1], |grown| - 1, largest);
  }

  /** Any other slice keeps all slices full. */
  lemma PlanGoesOn(slices: seq<Slice>, s: Slice, largest: int, remaining: int)
    requires Standard(largest) && FullSlices(slices, largest) && |slices| < MAX_PARTITIONS
    requires remaining > 0 && s.payload != remaining
    requires GreedyChoice(s, |slices|, remaining, largest) && s.payloadOffset == PayloadSum(slices)
    ensures FullSlices(slices + [s], largest)
  {
    OneMoreSlice(slices, s);
    TilesGrows(slices, s);
  }

  method NextSlice(count: nat, remaining: u64, payloadOffset: u64, maximum: u64, ghost largest: int)
    returns (s: Slice)
    requires 128 * MIB <= maximum <= 4096 * MIB && IsLargest(largest, maximum)
    requires count < MAX_PARTITIONS && remaining > 0
    ensures s.payloadOffset == payloadOffset && s.allocation <= 4096 * MIB
    ensures 0 < s.payload <= remaining && s.payload <= s.allocation
    ensures remaining + Overhead(count) < TWO_64 ==> GreedyChoice(s, count, remaining, largest)
  {
    var overhead := if count == 0 then MAIN_DATA_OFFSET else SUB_DATA_OFFSET;
    var allocation := ChooseAllocation((remaining + overhead) % TWO_64, maximum);
    var capacity := allocation - overhead;
    var payload := if remaining < capacity then remaining else capacity;
    s := Slice(allocation, payloadOffset, payload);
  }

  lemma {:induction false} AllocationBound(slices: seq<Slice>)
    requires forall i :: 0 <= i < |slices| ==> slices[i].allocation <= 4096 * MIB
    ensures AllocationSum(slices) <= |slices| * 0x1_0000_0000
  {
    if slices != [] {
      AllocationBound(slices[..|slices| - 1]);
    }
  }

  lemma AllocationFits(slices: seq<Slice>)
    requires |slices| <= MAX_PARTITIONS
    requires forall i :: 0 <= i < |slices| ==> slices[i].allocation <= 4096 * MIB
    ensures AllocationSum(slices) <= 0x41_0000_0000 && AllocationSum(slices) % TWO_64 == AllocationSum(slices)
  {
    AllocationBound(slices);
  }

  /** The planner's loop, with `remaining` bytes left: full slices, or the greedy shape when nothing is left. */
  ghost predicate Planning(slices: seq<Slice>, image: int, remaining: int, largest: int) {
    && |slices| <= MAX_PARTITIONS && (forall i :: 0 <= i < |slices| ==> slices[i].allocation <= 4096 * MIB)
    && 0 <= remaining && PayloadSum(slices) + remaining == image && PayloadSum(slices) <= AllocationSum(slices)
    && if image + MAIN_DATA_OFFSET >= TWO_64 then remaining > 0
       else if remaining > 0 then FullSlices(slices, largest)
       else Greedy(slices, image, largest) && Tiles(slices) && PayloadSum(slices) <= FullCapacity(largest, |slices|)
  }

  lemma PlanStep(slices: seq<Slice>, s: Slice, image: int, remaining: int, largest: int)
    requires Standard(largest) && Planning(slices, image, remaining, largest)
    requires |slices| < MAX_PARTITIONS && 0 < remaining
    requires s.payloadOffset == PayloadSum(slices) && s.allocation <= 4096 * MIB
    requires 0 < s.payload <= remaining && s.payload <= s.allocation
    requires remaining + Overhead(|slices|) < TWO_64 ==> GreedyChoice(s, |slices|, remaining, largest)
    ensures Planning(slices + [s], image, remaining - s.payload, largest)
    ensures PayloadSum(slices + [s]) == PayloadSum(slices) + s.payload
    ensures (AllocationSum(slices) + s.allocation) % 0x1_0000_0000_0000_0000 == AllocationSum(slices + [s])
  {
    OneMoreSlice(slices, s);
    AllocationFits(slices + [s]);
    if image + MAIN_DATA_OFFSET < TWO_64 {
      if remaining == s.payload {
        PlanEnds(slices, s, image, largest);
      } else {
        PlanGoesOn(slices, s, largest, remaining);
      }
    }
  }

  /** The next slice of a plan, `remaining` bytes being left, and the total allocation then. */
  method PlanNext(slices: seq<Slice>, ghost image: u64, remaining: u64, payloadOffset: u64, allocationBytes: u64,
                  maximum: u64, ghost largest: int) returns (s: Slice, total: u64)
    requires 128 * MIB <= maximum <= 4096 * MIB && IsLargest(largest, maximum)
    requires Planning(slices, image, remaining, largest) && |slices| < MAX_PARTITIONS && 0 < remaining
    requires payloadOffset == PayloadSum(slices) && allocationBytes == AllocationSum(slices)
    ensures Planning(slices + [s], image, remaining - s.payload, largest) && 0 < s.payload <= remaining
    ensures PayloadSum(slices + [s]) == payloadOffset + s.payload && AllocationSum(slices + [s]) == total
  {
    s := NextSlice(|slices|, remaining, payloadOffset, maximum, largest);
    PlanStep(slices, s, image, remaining, largest);
    total := (allocationBytes + s.allocation) % 0x1_0000_0000_0000_0000;
  }

  /** Slice by slice, until nothing is left or there are too many. */
  method PlanSlices(image: u64, maximum: u64, ghost largest: int)
    returns (ok: bool, slices: seq<Slice>, allocationBytes: u64)
    requires 0 < image && 128 * MIB <= maximum <= 4096 * MIB && IsLargest(largest, maximum)
    ensures allocationBytes == AllocationSum(slices)
    ensures if ok then Planning(slices, image, 0, largest)
            else |slices| == MAX_PARTITIONS && exists left :: left > 0 && Planning(slices, image, left, largest)
  {
    slices := [];
    var remaining: u64, payloadOffset: u64 := image, 0;
    allocationBytes := 0;
    FullSizeIs(largest, 0);
    while remaining != 0
      invariant Planning(slices, image, remaining, largest)
      invariant payloadOffset == PayloadSum(slices) && allocationBytes == AllocationSum(slices)
      decreases MAX_PARTITIONS - |slices|
    {
      if |slices| >= MAX_PARTITIONS {
        return false, slices, allocationBytes;
      }
      var slice, total := PlanNext(slices, image, remaining, payloadOffset, allocationBytes, maximum, largest);
      slices, allocationBytes := slices + [slice], total;
      payloadOffset := payloadOffset + slice.payload;
      remaining := remaining - slice.payload;
    }
    return true, slices, allocationBytes;
  }

  /** What it means that the planner ran out of image, or of partitions. */
  lemma PlanningEnds(slices: seq<Slice>, image: u64, largest: int, ok: bool)
    requires Standard(largest)
    requires if ok then Planning(slices, image, 0, largest)
             else |slices| == MAX_PARTITIONS && exists left :: left > 0 && Planning(slices, image, left, largest)
    ensures ok <==> image <= 65 * largest - 68 * MIB
    ensures ok ==> Greedy(slices, image, largest) && Tiles(slices)
  {
    FullSizeIs(largest, MAX_PARTITIONS);
    if ok {
      CapacityGrows(largest, |slices|, MAX_PARTITIONS);
    }
  }

  /**
   Plans an image. A plan exists exactly when the image fits into 65
   partitions of the largest allowed size, and then it tiles the image with
   the greedy shape. The two remaining error returns of the code cannot occur.
   */
  method PlanPartitions(image: u64, maxSectors: u32) returns (outcome: PlanOutcome)
    ensures image == 0 ==> outcome == Refused(InvalidArgument)
    ensures image != 0 && image % 2048 != 0 ==> outcome == Refused(ImageAlignment)
    ensures image != 0 && image % 2048 == 0 && maxSectors * 512 < 128 * MIB ==> outcome == Refused(MaxSizeInvalid)
    ensures image != 0 && image % 2048 == 0 && maxSectors * 512 >= 128 * MIB ==>
      exists largest :: IsLargest(largest, maxSectors * 512) &&
        if image <= 65 * largest - 68 * MIB then
          && outcome.Planned?
          && outcome.plan.imageBytes == image
          && outcome.plan.allocationBytes == AllocationSum(outcome.plan.slices)
          && |outcome.plan.slices| <= MAX_PARTITIONS
          && Greedy(outcome.plan.slices, image, largest)
          && Tiles(outcome.plan.slices)
        else outcome == Refused(TooMany)
  {
    if image == 0 {
      return Refused(InvalidArgument);
    }
    if image % 2048 != 0 {
      return Refused(ImageAlignment);
    }
    var maximum: u64 := maxSectors * 512;
    if maximum < 128 * MIB {
      return Refused(MaxSizeInvalid);
    }
    if maximum > 4096 * MIB {
      maximum := 4096 * MIB;
    }
    ghost var largest: int := LargestOf(maxSectors * 512);
    assert IsLargest(largest, maximum);
    var ok, slices, allocationBytes := PlanSlices(image, maximum, largest);
    PlanningEnds(slices, image, largest, ok);
    return if ok then Planned(Plan(image, allocationBytes, slices)) else Refused(TooMany);
  }

  ghost function LargestOf(maximum: int): (largest: int)
    requires maximum >= 128 * MIB
    ensures IsLargest(largest, maximum)
  {
    if maximum >= 4096 * MIB then 4096 * MIB
    else if maximum >= 2048 * MIB then 2048 * MIB
    else if maximum >= 1024 * MIB then 1024 * MIB
    else if maximum >= 512 * MIB then 512 * MIB
    else if maximum >= 256 * MIB then 256 * MIB
    else 128 * MIB
  }
}
