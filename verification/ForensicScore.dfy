/**
 What the score of a map allows: a repairable map has a budget of 15 points for
 changed links, weak members and strong nodes it leaves out, and one that may
 be applied a budget of 10.
 */
module ForensicScore {
  import opened Words
  import opened Apa
  import opened Forensic
  import opened ForensicMaps
  import opened ForensicShape

  function StrongNodes(nodes: seq<Node>): (s: set<nat>) {
    set i: nat | i < |nodes| && nodes[i].confidence >= 60 && !nodes[i].evidence.dormant
  }

  function Members(order: seq<nat>): set<nat> {
    set i | i in order
  }

  /** Nodes as good as members that the map has no place for. */
  function LeftOut(nodes: seq<Node>, order: seq<nat>): set<nat> {
    StrongNodes(nodes) - Members(order)
  }

  function Excess(strong: nat, count: nat): nat {
    if strong > count then strong - count else 0
  }

  /** How many points changed links, weak members and surplus strong nodes cost a map. */
  ghost function Cost(nodes: seq<Node>, order: seq<nat>): nat
    requires ValidOrder(nodes, order)
  {
    var t := TallyTo(nodes, order, |order|);
    2 * t.inferred + 4 * t.weak + 5 * Excess(|StrongNodes(nodes)|, |order|)
  }

  lemma {:induction false} StrongCountIs(nodes: seq<Node>)
    ensures StrongCount(nodes, |nodes|) == |StrongNodes(nodes)|
  {
    if nodes != [] {
      var last := |nodes| - 1;
      StrongCountIs(nodes[..last]);
      StrongCountOfPrefix(nodes, last, last);
      var before := StrongNodes(nodes[..last]);
      assert StrongNodes(nodes) == before + if Strong(nodes[last]) then {last} else {};
      assert last !in before;
    }
  }

  lemma {:induction false} StrongCountOfPrefix(nodes: seq<Node>, n: nat, k: nat)
    requires k <= n <= |nodes|
    ensures StrongCount(nodes[..n], k) == StrongCount(nodes, k)
  {
    if k > 0 {
      StrongCountOfPrefix(nodes, n, k - 1);
    }
  }

  /**
   The budget of a repairable map. A map is repairable exactly if it is a
   complete chain from LBA 0 without conflicts and overlaps whose cost is at
   most 15; its confidence is 90 or more exactly if the cost is at most 10.
   A map that is not repairable also pays for what else is wrong with it.
   */
  lemma RepairableBudget(nodes: seq<Node>, truncated: bool, m: ChainMap)
    requires IsMapOf(nodes, truncated, m)
    ensures m.repairable <==>
            && !truncated && |m.order| >= 2 && nodes[m.order[0]].lba == 0
            && m.conflicts == 0 && m.overlaps == 0
            && (forall k :: 0 <= k < |m.order| ==> CoreEvidence(nodes[m.order[k]]))
            && Cost(nodes, m.order) <= 15
    ensures m.repairable ==> (m.confidence >= 90 <==> Cost(nodes, m.order) <= 10)
    ensures var lost := 15 * m.conflicts + 30 * m.overlaps + Cost(nodes, m.order) + if truncated then 10 else 0;
            m.confidence == if lost < 100 then 100 - lost else 0
  {
    StrongCountIs(nodes);
  }

  // ----- what may be left out

  lemma {:induction false} DistinctMembers(order: seq<nat>)
    requires NoRepeat(order)
    ensures |Members(order)| == |order|
  {
    if order != [] {
      var last := |order| - 1;
      DistinctMembers(order[..last]);
      assert order[last] !in order[..last];
      assert Members(order) == Members(order[..last]) + {order[last]};
    }
  }

  function WeakMembers(nodes: seq<Node>, order: seq<nat>, k: nat): set<nat>
    requires ValidOrder(nodes, order) && k <= |order|
  {
    set i | i in order[..k] && nodes[i].confidence < 60
  }

  lemma WeakAt(nodes: seq<Node>, order: seq<nat>, k: nat)
    requires ValidOrder(nodes, order) && k < |order|
    ensures TallyTo(nodes, order, k + 1).weak ==
            TallyTo(nodes, order, k).weak + if nodes[order[k]].confidence < 60 then 1 else 0
  {
  }

  lemma WeakGrows(nodes: seq<Node>, order: seq<nat>, k: nat)
    requires ValidOrder(nodes, order) && k < |order|
    ensures WeakMembers(nodes, order, k + 1) ==
            WeakMembers(nodes, order, k) + if nodes[order[k]].confidence < 60 then {order[k]} else {}
  {
    assert order[..k + 1] == order[..k] + [order[k]];
  }

  lemma {:induction false} WeakMembersCounted(nodes: seq<Node>, order: seq<nat>, k: nat)
    requires ValidOrder(nodes, order) && k <= |order|
    ensures |WeakMembers(nodes, order, k)| <= TallyTo(nodes, order, k).weak
  {
    if k == 0 {
      assert WeakMembers(nodes, order, 0) == {};
    } else {
      WeakMembersCounted(nodes, order, k - 1);
      OneMoreWeak(nodes, order, k - 1, |WeakMembers(nodes, order, k - 1)|);
      WeakAt(nodes, order, k - 1);
    }
  }

  lemma OneMoreWeak(nodes: seq<Node>, order: seq<nat>, k: nat, count: nat)
    requires ValidOrder(nodes, order) && k < |order| && |WeakMembers(nodes, order, k)| == count
    ensures |WeakMembers(nodes, order, k + 1)| <= count + if nodes[order[k]].confidence < 60 then 1 else 0
  {
    WeakGrows(nodes, order, k);
  }

  lemma LeftOutBound(strong: set<nat>, members: set<nat>, weak: set<nat>)
    requires members - strong <= weak
    ensures |strong - members| <= |strong| - |members| + |weak|
  {
    var both := strong * members;
    assert strong == (strong - members) + both && members == (members - strong) + both;
    assert |members - strong| <= |weak| by {
      assert weak == (members - strong) + (weak - (members - strong));
    }
  }

  lemma CostCoversLeftOut(nodes: seq<Node>, order: seq<nat>)
    requires ValidOrder(nodes, order) && NoRepeat(order)
    requires forall k :: 0 <= k < |order| ==> !nodes[order[k]].evidence.dormant
    ensures 4 * |LeftOut(nodes, order)| <= Cost(nodes, order)
  {
    DistinctMembers(order);
    WeakMembersCounted(nodes, order, |order|);
    assert order[..|order|] == order;
    var weak := WeakMembers(nodes, order, |order|);
    forall i | i in Members(order) - StrongNodes(nodes) ensures i in weak {
      var k :| 0 <= k < |order| && order[k] == i;
    }
    LeftOutBound(StrongNodes(nodes), Members(order), weak);
  }

  /**
   A repairable forward or geometry map leaves out at most three strong nodes,
   and one that may be applied at most two.
   */
  lemma FewLeftOut(disk: Disk, total: u32, r: ScanResult, k: nat)
    requires ScanOf(disk, total, r) && k < |r.maps| && r.maps[k].repairable && !r.maps[k].kind.Reverse?
    ensures |LeftOut(r.nodes, r.maps[k].order)| <= 3
    ensures r.maps[k].confidence >= 90 ==> |LeftOut(r.nodes, r.maps[k].order)| <= 2
  {
    var m := r.maps[k];
    RetainedMaps(disk, total, r);
    assert IsMapOf(r.nodes, r.truncated, m);
    RepairableBudget(r.nodes, r.truncated, m);
    MembersAreActive(disk, total, r, k);
    CostCoversLeftOut(r.nodes, m.order);
  }

  lemma ForwardIsActive(nodes: seq<Node>, forward: seq<nat>)
    requires IsForwardOrder(nodes, forward) && DormantMarked(nodes, forward)
    ensures NoRepeat(forward) && forall i :: 0 <= i < |forward| ==> !nodes[forward[i]].evidence.dormant
  {
    ForwardNeverRepeats(nodes, forward);
    forall i | 0 <= i < |forward| ensures !nodes[forward[i]].evidence.dormant {
      assert !DormantFree(nodes, forward, forward[i]);
    }
  }

  lemma GeometryIsActive(nodes: seq<Node>, geometry: seq<nat>)
    requires IsGeometryOrder(nodes, geometry)
    ensures NoRepeat(geometry) && forall i :: 0 <= i < |geometry| ==> !nodes[geometry[i]].evidence.dormant
  {
    GeometryNeverRepeats(nodes, geometry);
    forall i | 0 <= i < |geometry| ensures !nodes[geometry[i]].evidence.dormant {
      assert geometry[i] in geometry;
    }
  }

  lemma OrderOfKind(f: ChainMap, v: ChainMap, g: ChainMap, k: nat)
    requires k < |AddUnique(AddUnique(AddUnique([], f), v), g)|
    requires f.kind.Forward? && v.kind.Reverse? && g.kind.Geometry?
    ensures var m := AddUnique(AddUnique(AddUnique([], f), v), g)[k];
            (m.kind.Forward? ==> m.order == f.order) && (m.kind.Geometry? ==> m.order == g.order)
  {
  }

  lemma EvaluatedKeeps(nodes: seq<Node>, truncated: bool, kind: MapKind, order: seq<nat>)
    requires ValidOrder(nodes, order)
    ensures var m := Evaluated(nodes, truncated, kind, order); m.kind == kind && m.order == order
  {
  }

  lemma ForwardMapOrder(r: ScanResult, forward: seq<nat>, reverse: seq<nat>, geometry: seq<nat>, k: nat)
    requires MapsFrom(r, forward, reverse, geometry) && k < |r.maps|
    ensures r.maps[k].kind.Forward? ==> r.maps[k].order == forward
    ensures r.maps[k].kind.Geometry? ==> r.maps[k].order == geometry
  {
    EvaluatedKeeps(r.nodes, r.truncated, Forward, forward);
    EvaluatedKeeps(r.nodes, r.truncated, Reverse, reverse);
    EvaluatedKeeps(r.nodes, r.truncated, Geometry, geometry);
    OrderOfKind(Evaluated(r.nodes, r.truncated, Forward, forward), Evaluated(r.nodes, r.truncated, Reverse, reverse),
                Evaluated(r.nodes, r.truncated, Geometry, geometry), k);
  }

  /** No forward or geometry map repeats a node or has a dormant one as a member. */
  lemma MembersAreActive(disk: Disk, total: u32, r: ScanResult, k: nat)
    requires ScanOf(disk, total, r) && k < |r.maps| && !r.maps[k].kind.Reverse?
    requires ValidOrder(r.nodes, r.maps[k].order)
    ensures NoRepeat(r.maps[k].order)
    ensures forall i :: 0 <= i < |r.maps[k].order| ==> !r.nodes[r.maps[k].order[i]].evidence.dormant
  {
    var forward, reverse, geometry :| MapsFrom(r, forward, reverse, geometry);
    ForwardMapOrder(r, forward, reverse, geometry, k);
    if r.maps[k].kind.Forward? {
      ForwardIsActive(r.nodes, forward);
    } else {
      GeometryIsActive(r.nodes, geometry);
    }
  }

  // ----- which maps a scan keeps

  ghost predicate HasOrder(maps: seq<ChainMap>, order: seq<nat>) {
    exists k :: 0 <= k < |maps| && maps[k].order == order
  }

  /** The retained maps are the different ones among the three orders that are not empty. */
  lemma MapsAreTheOrders(r: ScanResult, forward: seq<nat>, reverse: seq<nat>, geometry: seq<nat>)
    requires MapsFrom(r, forward, reverse, geometry)
    ensures |r.maps| <= 3 && forall i, j :: 0 <= i < j < |r.maps| ==> r.maps[i].order != r.maps[j].order
    ensures forall order :: HasOrder(r.maps, order) <==> order in {forward, reverse, geometry} && order != []
  {
    EvaluatedKeeps(r.nodes, r.truncated, Forward, forward);
    EvaluatedKeeps(r.nodes, r.truncated, Reverse, reverse);
    EvaluatedKeeps(r.nodes, r.truncated, Geometry, geometry);
    DistinctOrders(Evaluated(r.nodes, r.truncated, Forward, forward), Evaluated(r.nodes, r.truncated, Reverse, reverse),
                   Evaluated(r.nodes, r.truncated, Geometry, geometry), r.maps);
  }

  lemma DistinctOrders(f: ChainMap, v: ChainMap, g: ChainMap, maps: seq<ChainMap>)
    requires maps == AddUnique(AddUnique(AddUnique([], f), v), g)
    ensures |maps| <= 3 && forall i, j :: 0 <= i < j < |maps| ==> maps[i].order != maps[j].order
    ensures forall order :: HasOrder(maps, order) <==> order in {f.order, v.order, g.order} && order != []
  {
    AddedOrders([], f);
    AddedOrders(AddUnique([], f), v);
    AddedOrders(AddUnique(AddUnique([], f), v), g);
  }

  lemma AddedOrders(maps: seq<ChainMap>, m: ChainMap)
    requires |maps| < 3 && forall i, j :: 0 <= i < j < |maps| ==> maps[i].order != maps[j].order
    ensures var more := AddUnique(maps, m);
            && |more| <= |maps| + 1
            && (forall i, j :: 0 <= i < j < |more| ==> more[i].order != more[j].order)
            && (forall order :: HasOrder(more, order) <==> HasOrder(maps, order) || (order == m.order && order != []))
  {
    var more := AddUnique(maps, m);
    forall order | HasOrder(maps, order) ensures HasOrder(more, order) {
      var k :| 0 <= k < |maps| && maps[k].order == order;
      assert more[k] == maps[k];
    }
    if m.order != [] && more != maps {
      assert more[|maps|] == m;
    }
  }

  // ----- reciprocal links

  /** The next member confirms the link that leads to it. */
  predicate Reciprocated(nodes: seq<Node>, order: seq<nat>, i: nat)
    requires ValidOrder(nodes, order) && i + 1 < |order|
  {
    nodes[order[i]].Next() == nodes[order[i + 1]].lba && nodes[order[i + 1]].Prev() == nodes[order[i]].lba
  }

  lemma ReciprocalAt(nodes: seq<Node>, order: seq<nat>, k: nat)
    requires ValidOrder(nodes, order) && k < |order|
    ensures TallyTo(nodes, order, k + 1).reciprocal ==
            TallyTo(nodes, order, k).reciprocal +
            if k + 1 < |order| && Reciprocated(nodes, order, k) then 1 else 0
  {
  }

  /** How many of the first `k` members are confirmed by the next one. */
  function Confirmed(nodes: seq<Node>, order: seq<nat>, k: nat): (n: nat)
    requires ValidOrder(nodes, order) && k < |order|
    ensures n <= k && (n == k <==> forall i :: 0 <= i < k ==> Reciprocated(nodes, order, i))
  {
    if k == 0 then 0
    else Confirmed(nodes, order, k - 1) + if Reciprocated(nodes, order, k - 1) then 1 else 0
  }

  lemma {:induction false} ReciprocalIsConfirmed(nodes: seq<Node>, order: seq<nat>, k: nat)
    requires ValidOrder(nodes, order) && k < |order|
    ensures TallyTo(nodes, order, k).reciprocal == Confirmed(nodes, order, k)
  {
    if k > 0 {
      ReciprocalIsConfirmed(nodes, order, k - 1);
      ReciprocalAt(nodes, order, k - 1);
    }
  }

  /** A map counts as many reciprocal links as it has pairs of neighbours exactly if all of them agree. */
  lemma AllReciprocal(nodes: seq<Node>, truncated: bool, m: ChainMap)
    requires IsMapOf(nodes, truncated, m)
    ensures m.reciprocal < |m.order|
    ensures m.reciprocal == |m.order| - 1 <==> forall i :: 0 <= i < |m.order| - 1 ==> Reciprocated(nodes, m.order, i)
  {
    ReciprocalIsConfirmed(nodes, m.order, |m.order| - 1);
    ReciprocalAt(nodes, m.order, |m.order| - 1);
  }
}
