/**
 Candidate chain orders over the nodes of a scan, and their evaluation.
 An order lists node indices, the master first.
 */
module ForensicMaps {
  import opened Words
  import opened Apa
  import opened Forensic

  datatype MapKind = Forward | Reverse | Geometry

  datatype ChainMap = ChainMap(
    kind: MapKind, order: seq<nat>, reciprocal: nat, inferred: nat, conflicts: nat,
    overlaps: nat, confidence: nat, repairable: bool)

  datatype ScanResult = ScanResult(
    total: u32, nodes: seq<Node>, maps: seq<ChainMap>, truncated: bool, dormantFree: nat,
    gridReads: nat, referenceReads: nat, unreadableReads: nat)

  predicate ValidOrder(nodes: seq<Node>, order: seq<nat>) {
    forall k :: 0 <= k < |order| ==> order[k] < |nodes|
  }

  ghost predicate NoRepeat<T>(s: seq<T>) {
    forall i, j :: 0 <= i < j < |s| ==> s[i] != s[j]
  }

  function OrderLbas(nodes: seq<Node>, order: seq<nat>): (lbas: seq<u32>)
    requires ValidOrder(nodes, order)
    ensures |lbas| == |order|
    ensures forall k :: 0 <= k < |order| ==> lbas[k] == nodes[order[k]].lba
  {
    if order == [] then [] else
      var last := |order| - 1;
      OrderLbas(nodes, order[..last]) + [nodes[order[last]].lba]
  }

  // ----- the three orders

  function LinkOf(n: Node, matchPrev: bool): u32 { if matchPrev then n.Prev() else n.Next() }

  predicate LinkCandidate(nodes: seq<Node>, excluded: seq<nat>, lba: int, matchPrev: bool, i: int) {
    0 <= i < |nodes| && i !in excluded && nodes[i].confidence >= 55 && LinkOf(nodes[i], matchPrev) == lba
  }

  ghost predicate OnlyCandidate(nodes: seq<Node>, excluded: seq<nat>, lba: int, matchPrev: bool, i: int) {
    && LinkCandidate(nodes, excluded, lba, matchPrev, i)
    && forall j :: LinkCandidate(nodes, excluded, lba, matchPrev, j) ==> j == i
  }

  /** The only node outside `excluded` whose link is `lba`, if there is exactly one. */
  ghost function UniqueLink(nodes: seq<Node>, excluded: seq<nat>, lba: int, matchPrev: bool): (r: Option<nat>)
    ensures r.Some? ==> OnlyCandidate(nodes, excluded, lba, matchPrev, r.value)
    ensures r.None? ==> forall i :: !OnlyCandidate(nodes, excluded, lba, matchPrev, i)
  {
    if exists i :: OnlyCandidate(nodes, excluded, lba, matchPrev, i) then
      var i :| OnlyCandidate(nodes, excluded, lba, matchPrev, i);
      Some(i)
    else None
  }

  ghost function Fresh(candidate: Option<nat>, order: seq<nat>): Option<nat> {
    if candidate.Some? && candidate.value !in order then candidate else None
  }

  /** The node that continues a forward order, following `next` or a unique `prev`. */
  ghost function ForwardStep(nodes: seq<Node>, order: seq<nat>): (r: Option<nat>)
    requires |order| > 0 && ValidOrder(nodes, order)
    ensures r.Some? ==> r.value < |nodes| && r.value !in order
  {
    var current := order[|order| - 1];
    var next := nodes[current].Next();
    if next == 0 && current != order[0] then None
    else
      var linked := if next == 0 then None else Fresh(Find(nodes, next), order);
      if linked.Some? then linked else UniqueLink(nodes, order, nodes[current].lba, true)
  }

  ghost predicate IsForwardOrder(nodes: seq<Node>, order: seq<nat>) {
    match Find(nodes, 0)
    case None => order == []
    case Some(master) =>
      && 1 <= |order| <= MAX_NODES
      && ValidOrder(nodes, order)
      && order[0] == master
      && (forall k {:trigger order[..k]} :: 1 <= k < |order| ==> ForwardStep(nodes, order[..k]) == Some(order[k]))
      && (|order| < MAX_NODES ==> ForwardStep(nodes, order) == None)
  }

  ghost function FindOrUnique(nodes: seq<Node>, excluded: seq<nat>, link: u32, lba: int): (r: Option<nat>)
    ensures r.Some? ==> r.value < |nodes|
  {
    if link != 0 && HasLba(nodes, link) then Find(nodes, link)
    else UniqueLink(nodes, excluded, lba, false)
  }

  /** The node that continues a walk back from the tail. */
  ghost function ReverseStep(nodes: seq<Node>, walk: seq<nat>): (r: Option<nat>)
    requires |walk| > 0 && ValidOrder(nodes, walk)
    ensures r.Some? ==> r.value < |nodes| && r.value !in walk
  {
    var current := walk[|walk| - 1];
    if nodes[current].Prev() == 0 then None
    else Fresh(FindOrUnique(nodes, walk, nodes[current].Prev(), nodes[current].lba), walk)
  }

  /** The walk from the master's `prev`, or else from the only node without a `next`. */
  ghost predicate IsReverseWalk(nodes: seq<Node>, master: nat, walk: seq<nat>)
    requires master < |nodes|
  {
    && |walk| < MAX_NODES
    && ValidOrder(nodes, walk)
    && FindOrUnique(nodes, [], nodes[master].Prev(), 0) == (if walk == [] then None else Some(walk[0]))
    && (forall k {:trigger walk[..k]} :: 1 <= k < |walk| ==> ReverseStep(nodes, walk[..k]) == Some(walk[k]))
    && (0 < |walk| < MAX_NODES - 1 ==> ReverseStep(nodes, walk) == None)
  }

  ghost predicate IsReversal(s: seq<nat>, r: seq<nat>) {
    |r| == |s| && forall k :: 0 <= k < |s| ==> r[k] == s[|s| - 1 - k]
  }

  ghost predicate ReverseOrderFrom(nodes: seq<Node>, master: nat, walk: seq<nat>, order: seq<nat>)
  {
    && master < |nodes|
    && IsReverseWalk(nodes, master, walk)
    && |order| == |walk| + 1
    && order[0] == master
    && IsReversal(walk, order[1..])
  }

  ghost predicate IsReverseOrder(nodes: seq<Node>, order: seq<nat>) {
    match Find(nodes, 0)
    case None => order == []
    case Some(master) => exists walk :: ReverseOrderFrom(nodes, master, walk, order)
  }

  predicate GeometryEligible(n: Node) {
    && !n.evidence.dormant
    && (n.lba == 0 || (n.confidence >= 50 && n.evidence.selfStart && n.evidence.length))
  }

  ghost predicate AscendingLbas(nodes: seq<Node>, order: seq<nat>)
    requires ValidOrder(nodes, order)
  {
    forall i, j :: 0 <= i < j < |order| ==> nodes[order[i]].lba < nodes[order[j]].lba
  }

  ghost predicate IsGeometryOrder(nodes: seq<Node>, order: seq<nat>) {
    && ValidOrder(nodes, order)
    && AscendingLbas(nodes, order)
    && (forall i :: 0 <= i < |nodes| ==> (i in order <==> GeometryEligible(nodes[i])))
  }

  // ----- dormant free-space remnants

  /** A checksum-valid, canonical `__empty` header. */
  predicate CanonicalEmpty(n: Node) {
    && TypeOf(n.header) == 0 && FlagsOf(n.header) == 0 && n.Length() != 0
    && n.header[ID_WORD] == 0x6d65_5f5f && n.header[ID_WORD + 1] == 0x0079_7470
    && n.Stored() == n.calculated
    && n.evidence.magic && n.evidence.selfStart && n.evidence.checksum
    && n.evidence.length && n.evidence.typ && n.evidence.id
  }

  predicate CoversRemnant(container: Node, n: Node) {
    && CanonicalEmpty(container)
    && container.Start() < n.Start()
    && n.Start() + n.Length() <= container.Start() + container.Length()
  }

  predicate DormantFree(nodes: seq<Node>, forward: seq<nat>, i: nat)
    requires ValidOrder(nodes, forward) && i < |nodes|
  {
    && i !in forward && CanonicalEmpty(nodes[i])
    && exists j :: 0 <= j < |forward| && CoversRemnant(nodes[forward[j]], nodes[i])
  }

  ghost predicate DormantMarked(nodes: seq<Node>, forward: seq<nat>) {
    && ValidOrder(nodes, forward)
    && forall i :: 0 <= i < |nodes| ==> nodes[i].evidence.dormant == DormantFree(nodes, forward, i)
  }

  // ----- evaluation

  /** The `prev` and `next` that position `i` of a chain of LBAs should hold. */
  function DesiredPrev(lbas: seq<u32>, i: nat): u32
    requires i < |lbas|
  {
    if i == 0 then (if |lbas| > 1 then lbas[|lbas| - 1] else 0)
    else if i == 1 then 0 else lbas[i - 1]
  }

  function DesiredNext(lbas: seq<u32>, i: nat): u32
    requires i < |lbas|
  {
    if i == 0 then (if |lbas| > 1 then lbas[1] else 0)
    else if i + 1 < |lbas| then lbas[i + 1] else 0
  }

  datatype Tally = Tally(reciprocal: nat, inferred: nat, conflicts: nat, overlaps: nat, weak: nat) {
    function Plus(t: Tally): Tally {
      Tally(reciprocal + t.reciprocal, inferred + t.inferred, conflicts + t.conflicts,
            overlaps + t.overlaps, weak + t.weak)
    }
  }

  ghost predicate Conflicting(nodes: seq<Node>, link: u32, desired: u32) {
    link != desired && link != 0 && HasLba(nodes, link)
  }

  /** What position `i` of an order adds to the tally of its map. */
  ghost function PositionTally(nodes: seq<Node>, order: seq<nat>, i: nat): Tally
    requires ValidOrder(nodes, order) && i < |order|
  {
    var n := nodes[order[i]];
    var lbas := OrderLbas(nodes, order);
    var prev, next := DesiredPrev(lbas, i), DesiredNext(lbas, i);
    Tally(
      Points(i + 1 < |order| && n.Next() == lbas[i + 1] && nodes[order[i + 1]].Prev() == n.lba, 1),
      Points(n.Prev() != prev, 1) + Points(n.Next() != next, 1),
      Points(Conflicting(nodes, n.Prev(), prev), 1) + Points(Conflicting(nodes, n.Next(), next), 1),
      Points(0 < i && i + 1 < |order| && n.Start() + n.Length() > nodes[order[i + 1]].Start(), 1),
      Points(n.confidence < 60, 1))
  }

  ghost function TallyTo(nodes: seq<Node>, order: seq<nat>, k: nat): Tally
    requires ValidOrder(nodes, order) && k <= |order|
  {
    if k == 0 then Tally(0, 0, 0, 0, 0)
    else TallyTo(nodes, order, k - 1).Plus(PositionTally(nodes, order, k - 1))
  }

  function Strong(n: Node): bool { n.confidence >= 60 && !n.evidence.dormant }

  function StrongCount(nodes: seq<Node>, k: nat): nat
    requires k <= |nodes|
  {
    if k == 0 then 0 else StrongCount(nodes, k - 1) + Points(Strong(nodes[k - 1]), 1)
  }

  function Clamp(score: int): nat {
    if score < 0 then 0 else if score > 100 then 100 else score
  }

  function MapScore(t: Tally, strong: nat, count: nat, truncated: bool): nat {
    Clamp(100 - 15 * t.conflicts - 30 * t.overlaps - 2 * t.inferred - 4 * t.weak
          - (if strong > count then 5 * (strong - count) else 0)
          - (if truncated then 10 else 0))
  }

  predicate CoreEvidence(n: Node) {
    n.evidence.magic && n.evidence.selfStart && n.evidence.length
  }

  ghost function Evaluated(nodes: seq<Node>, truncated: bool, kind: MapKind, order: seq<nat>): ChainMap
    requires ValidOrder(nodes, order)
  {
    if order == [] then ChainMap(kind, [], 0, 0, 0, 0, 0, false)
    else
      var t := TallyTo(nodes, order, |order|);
      var score := MapScore(t, StrongCount(nodes, |nodes|), |order|, truncated);
      ChainMap(kind, order, t.reciprocal, t.inferred, t.conflicts, t.overlaps, score,
               && !truncated && |order| >= 2 && nodes[order[0]].lba == 0
               && score >= 85 && t.conflicts == 0 && t.overlaps == 0
               && forall k :: 0 <= k < |order| ==> CoreEvidence(nodes[order[k]]))
  }

  function AddUnique(maps: seq<ChainMap>, candidate: ChainMap): seq<ChainMap> {
    if candidate.order == [] || |maps| >= MAX_MAPS || exists i :: 0 <= i < |maps| && maps[i].order == candidate.order
    then maps else maps + [candidate]
  }

  /** The distinct ones among the evaluated forward, reverse and geometry orders. */
  ghost predicate ThreeMaps(nodes: seq<Node>, truncated: bool, maps: seq<ChainMap>,
                            forward: seq<nat>, reverse: seq<nat>, geometry: seq<nat>) {
    && ValidOrder(nodes, forward)
    && ValidOrder(nodes, reverse) && IsReverseOrder(nodes, reverse)
    && IsGeometryOrder(nodes, geometry)
    && maps == AddUnique(AddUnique(AddUnique([],
                 Evaluated(nodes, truncated, Forward, forward)),
                 Evaluated(nodes, truncated, Reverse, reverse)),
                 Evaluated(nodes, truncated, Geometry, geometry))
  }

  ghost predicate MapsFrom(r: ScanResult, forward: seq<nat>, reverse: seq<nat>, geometry: seq<nat>) {
    && IsForwardOrder(r.nodes, forward)
    && DormantMarked(r.nodes, forward)
    && ThreeMaps(r.nodes, r.truncated, r.maps, forward, reverse, geometry)
  }

  /** What a finished scan of `disk` is. */
  ghost predicate ScanOf(disk: Disk, total: u32, r: ScanResult) {
    && r.total == total
    && SoundNodes(disk, total, r.nodes, r.truncated)
    && (!r.truncated ==> GridComplete(disk, total, r.nodes, total) && ReferenceClosed(disk, total, r.nodes))
    && exists forward, reverse, geometry :: MapsFrom(r, forward, reverse, geometry)
  }

  lemma ForwardOrderIsValid(nodes: seq<Node>, order: seq<nat>)
    requires IsForwardOrder(nodes, order)
    ensures ValidOrder(nodes, order)
  {
  }
}
