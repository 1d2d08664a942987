/**
 Repair plans: which links of a repairable map change, and the headers that
 result. Only the next, prev and checksum words of a header may differ.
 */
module ForensicPlan {
  import opened Words
  import opened Apa
  import opened Forensic
  import opened ForensicMaps

  const MAX_PATCHES: nat := MAX_NODES

  datatype Patch = Patch(
    nodeIndex: nat, lba: u32, oldNext: u32, oldPrev: u32, newNext: u32, newPrev: u32, corroborated: bool)

  datatype RepairPlan = RepairPlan(
    mapIndex: nat, patches: seq<Patch>, corroborated: nat, speculative: nat, confidence: nat,
    automaticSafe: bool, manualAllowed: bool)

  datatype PlanOutcome = NoSuchMap | TooManyPatches | Planned(plan: RepairPlan)

  datatype PatchOutcome = NoSuchNode | StalePatch | Rebuilt(header: Header)

  function WithLinks(h: Header, next: u32, prev: u32): Header {
    h[NEXT_WORD := next][PREV_WORD := prev]
  }

  function Sealed(h: Header): Header {
    h[CHECKSUM_WORD := Checksum(h)]
  }

  function PatchedHeader(h: Header, p: Patch): Header {
    Sealed(WithLinks(h, p.newNext, p.newPrev))
  }

  /** Restoring these links gives a header with the checksum the node still stores. */
  predicate Corroborated(n: Node, next: u32, prev: u32) {
    Checksum(WithLinks(n.header, next, prev)) == n.Stored()
  }

  function PatchAt(nodes: seq<Node>, order: seq<nat>, i: nat): Patch
    requires ValidOrder(nodes, order) && i < |order|
  {
    var n := nodes[order[i]];
    var lbas := OrderLbas(nodes, order);
    var next, prev := DesiredNext(lbas, i), DesiredPrev(lbas, i);
    Patch(order[i], n.lba, n.Next(), n.Prev(), next, prev, Corroborated(n, next, prev))
  }

  predicate Linked(nodes: seq<Node>, order: seq<nat>, i: nat)
    requires ValidOrder(nodes, order) && i < |order|
  {
    var lbas := OrderLbas(nodes, order);
    nodes[order[i]].Next() == DesiredNext(lbas, i) && nodes[order[i]].Prev() == DesiredPrev(lbas, i)
  }

  /** The patches for the first `k` positions: one for each position that is not linked. */
  function PatchesTo(nodes: seq<Node>, order: seq<nat>, k: nat): (ps: seq<Patch>)
    requires ValidOrder(nodes, order) && k <= |order|
    ensures |ps| <= k
  {
    if k == 0 then []
    else PatchesTo(nodes, order, k - 1) +
         if Linked(nodes, order, k - 1) then [] else [PatchAt(nodes, order, k - 1)]
  }

  function CorroboratedCount(ps: seq<Patch>): (count: nat)
    ensures count <= |ps|
  {
    if ps == [] then 0
    else CorroboratedCount(ps[..|ps| - 1]) + Points(ps[|ps| - 1].corroborated, 1)
  }

  function PlanOf(r: ScanResult, mapIndex: nat): RepairPlan
    requires mapIndex < |r.maps| && ValidOrder(r.nodes, r.maps[mapIndex].order)
  {
    var m := r.maps[mapIndex];
    if r.truncated || !m.repairable then
      RepairPlan(mapIndex, [], 0, 0, m.confidence, false, false)
    else
      var ps := PatchesTo(r.nodes, m.order, |m.order|);
      var corroborated := CorroboratedCount(ps);
      RepairPlan(mapIndex, ps, corroborated, |ps| - corroborated, m.confidence,
                 |ps| > 0 && corroborated == |ps| && m.confidence >= 90,
                 |ps| > 0 && m.confidence >= 90 && m.conflicts == 0 && m.overlaps == 0)
  }

  lemma {:induction false} AllCorroborated(ps: seq<Patch>)
    ensures CorroboratedCount(ps) == |ps| <==> forall p :: p in ps ==> p.corroborated
  {
    if ps != [] {
      var last := |ps| - 1;
      AllCorroborated(ps[..last]);
      assert ps == ps[..last] + [ps[last]];
    }
  }

  method PatchChecksumCorroborated(n: Node, next: u32, prev: u32) returns (same: bool)
    ensures same == Corroborated(n, next, prev)
  {
    var repaired := WithLinks(n.header, next, prev);
    var sum := ApaChecksum(repaired);
    same := sum == n.Stored();
  }

  /** The patch of position `i`, if its links are not as the chain wants them. */
  method PatchFor(nodes: seq<Node>, order: seq<nat>, lbas: seq<u32>, i: nat) returns (needed: Option<Patch>)
    requires ValidOrder(nodes, order) && i < |order| && lbas == OrderLbas(nodes, order)
    ensures needed == if Linked(nodes, order, i) then None else Some(PatchAt(nodes, order, i))
  {
    var n := nodes[order[i]];
    var prev, next := DesiredPrev(lbas, i), DesiredNext(lbas, i);
    if n.Prev() == prev && n.Next() == next {
      return None;
    }
    var same := PatchChecksumCorroborated(n, next, prev);
    needed := Some(Patch(order[i], n.lba, n.Next(), n.Prev(), next, prev, same));
  }

  method BuildRepairPlan(r: ScanResult, mapIndex: nat) returns (outcome: PlanOutcome)
    requires forall k :: 0 <= k < |r.maps| ==> ValidOrder(r.nodes, r.maps[k].order)
    ensures mapIndex >= |r.maps| <==> outcome.NoSuchMap?
    ensures outcome.Planned? ==> outcome.plan == PlanOf(r, mapIndex)
    ensures outcome.TooManyPatches? ==>
      var order := r.maps[mapIndex].order;
      |PatchesTo(r.nodes, order, |order|)| > MAX_PATCHES
  {
    if mapIndex >= |r.maps| {
      return NoSuchMap;
    }
    var m := r.maps[mapIndex];
    if r.truncated || !m.repairable {
      return Planned(RepairPlan(mapIndex, [], 0, 0, m.confidence, false, false));
    }
    var patches, corroborated, speculative, tooMany := CollectPatches(r.nodes, m.order);
    if tooMany {
      return TooManyPatches;
    }
    outcome := Planned(RepairPlan(mapIndex, patches, corroborated, speculative, m.confidence,
                                  |patches| > 0 && speculative == 0 && m.confidence >= 90,
                                  |patches| > 0 && m.confidence >= 90 && m.conflicts == 0 && m.overlaps == 0));
  }

  lemma CountLast(ps: seq<Patch>, p: Patch)
    ensures CorroboratedCount(ps + [p]) == CorroboratedCount(ps) + Points(p.corroborated, 1)
  {
    assert (ps + [p])[..|ps|] == ps;
  }

  method CollectPatches(nodes: seq<Node>, order: seq<nat>)
    returns (patches: seq<Patch>, corroborated: nat, speculative: nat, tooMany: bool)
    requires ValidOrder(nodes, order)
    ensures tooMany <==> |PatchesTo(nodes, order, |order|)| > MAX_PATCHES
    ensures !tooMany ==> patches == PatchesTo(nodes, order, |order|)
    ensures !tooMany ==> corroborated == CorroboratedCount(patches) && corroborated + speculative == |patches|
  {
    patches, corroborated, speculative, tooMany := [], 0, 0, false;
    var lbas := OrderLbas(nodes, order);
    var i := 0;
    while i < |order|
      invariant 0 <= i <= |order|
      invariant patches == PatchesTo(nodes, order, i) && |patches| <= MAX_PATCHES
      invariant corroborated == CorroboratedCount(patches) && corroborated + speculative == |patches|
    {
      var needed := PatchFor(nodes, order, lbas, i);
      if needed.Some? {
        if |patches| >= MAX_PATCHES {
          PatchesGrow(nodes, order, i + 1);
          return patches, corroborated, speculative, true;
        }
        CountLast(patches, needed.value);
        patches := patches + [needed.value];
        if needed.value.corroborated {
          corroborated := corroborated + 1;
        } else {
          speculative := speculative + 1;
        }
      }
      i := i + 1;
    }
  }

  lemma {:induction false} PatchesGrow(nodes: seq<Node>, order: seq<nat>, k: nat)
    requires ValidOrder(nodes, order) && k <= |order|
    ensures |PatchesTo(nodes, order, k)| <= |PatchesTo(nodes, order, |order|)|
    decreases |order| - k
  {
    if k < |order| {
      PatchesGrow(nodes, order, k + 1);
    }
  }

  method BuildPatchedHeader(r: ScanResult, p: Patch) returns (outcome: PatchOutcome)
    ensures outcome.NoSuchNode? <==> p.nodeIndex >= |r.nodes|
    ensures outcome.Rebuilt? <==> PatchFits(r.nodes, p)
    ensures outcome.Rebuilt? ==> outcome.header == PatchedHeader(r.nodes[p.nodeIndex].header, p)
  {
    if p.nodeIndex >= |r.nodes| {
      return NoSuchNode;
    }
    var n := r.nodes[p.nodeIndex];
    if n.lba != p.lba || n.Next() != p.oldNext || n.Prev() != p.oldPrev {
      return StalePatch;
    }
    var repaired := WithLinks(n.header, p.newNext, p.newPrev);
    var sum := ApaChecksum(repaired);
    outcome := Rebuilt(repaired[CHECKSUM_WORD := sum]);
  }

  /** The patch was derived from the node it names. */
  predicate PatchFits(nodes: seq<Node>, p: Patch) {
    && p.nodeIndex < |nodes|
    && nodes[p.nodeIndex].lba == p.lba
    && nodes[p.nodeIndex].Next() == p.oldNext
    && nodes[p.nodeIndex].Prev() == p.oldPrev
  }

  /** Which patches a plan holds: exactly those of the positions that are not linked. */
  lemma {:induction false} PatchesAre(nodes: seq<Node>, order: seq<nat>, k: nat)
    requires ValidOrder(nodes, order) && k <= |order|
    ensures forall i :: 0 <= i < k && !Linked(nodes, order, i) ==>
              PatchAt(nodes, order, i) in PatchesTo(nodes, order, k)
    ensures forall p :: p in PatchesTo(nodes, order, k) ==>
              exists i :: 0 <= i < k && !Linked(nodes, order, i) && p == PatchAt(nodes, order, i)
  {
    if k > 0 {
      PatchesAre(nodes, order, k - 1);
    }
  }

  /** A patched header differs from the original in at most the three allowed words. */
  lemma PatchChangesOnlyLinks(h: Header, p: Patch)
    ensures ChecksumOk(PatchedHeader(h, p))
    ensures NextOf(PatchedHeader(h, p)) == p.newNext && PrevOf(PatchedHeader(h, p)) == p.newPrev
    ensures forall w :: 0 <= w < HEADER_WORDS && w !in {CHECKSUM_WORD, NEXT_WORD, PREV_WORD} ==>
              PatchedHeader(h, p)[w] == h[w]
  {
    ChecksumIgnoresItself(WithLinks(h, p.newNext, p.newPrev), Checksum(WithLinks(h, p.newNext, p.newPrev)));
  }

  function NextOf(h: Header): u32 { h[NEXT_WORD] }

  function PrevOf(h: Header): u32 { h[PREV_WORD] }
}
