/**
 The shape of the candidate maps: which orders may repeat a node, and what
 the repairability gate guarantees about the extents of a map.
 */
module ForensicShape {
  import opened Words
  import opened Apa
  import opened Forensic
  import opened ForensicMaps

  /** A retained map is the evaluation of the order of its kind. */
  ghost predicate IsMapOf(nodes: seq<Node>, truncated: bool, m: ChainMap) {
    && m.order != []
    && ValidOrder(nodes, m.order)
    && m == Evaluated(nodes, truncated, m.kind, m.order)
    && match m.kind {
       case Forward => IsForwardOrder(nodes, m.order)
       case Reverse => IsReverseOrder(nodes, m.order)
       case Geometry => IsGeometryOrder(nodes, m.order)
     }
  }

  lemma RetainedMaps(disk: Disk, total: u32, r: ScanResult)
    requires ScanOf(disk, total, r)
    ensures forall k :: 0 <= k < |r.maps| ==> IsMapOf(r.nodes, r.truncated, r.maps[k])
  {
    var forward, reverse, geometry :| MapsFrom(r, forward, reverse, geometry);
    AllMapsOf(r.nodes, r.truncated, r.maps, forward, reverse, geometry);
  }

  lemma AllMapsOf(nodes: seq<Node>, truncated: bool, maps: seq<ChainMap>,
                  forward: seq<nat>, reverse: seq<nat>, geometry: seq<nat>)
    requires IsForwardOrder(nodes, forward) && ThreeMaps(nodes, truncated, maps, forward, reverse, geometry)
    ensures forall k :: 0 <= k < |maps| ==> IsMapOf(nodes, truncated, maps[k])
  {
    var f := Evaluated(nodes, truncated, Forward, forward);
    var v := Evaluated(nodes, truncated, Reverse, reverse);
    var g := Evaluated(nodes, truncated, Geometry, geometry);
    assert f.order != [] ==> IsMapOf(nodes, truncated, f);
    assert v.order != [] ==> IsMapOf(nodes, truncated, v);
    assert g.order != [] ==> IsMapOf(nodes, truncated, g);
    AddedMap(nodes, truncated, [], f);
    AddedMap(nodes, truncated, AddUnique([], f), v);
    AddedMap(nodes, truncated, AddUnique(AddUnique([], f), v), g);
  }

  lemma AddedMap(nodes: seq<Node>, truncated: bool, maps: seq<ChainMap>, candidate: ChainMap)
    requires forall k :: 0 <= k < |maps| ==> IsMapOf(nodes, truncated, maps[k])
    requires candidate.order != [] ==> IsMapOf(nodes, truncated, candidate)
    ensures forall k :: 0 <= k < |AddUnique(maps, candidate)| ==>
              IsMapOf(nodes, truncated, AddUnique(maps, candidate)[k])
  {
  }

  lemma {:induction false} TallyCoversPosition(nodes: seq<Node>, order: seq<nat>, i: nat, k: nat)
    requires ValidOrder(nodes, order) && i < k <= |order|
    ensures PositionTally(nodes, order, i).conflicts <= TallyTo(nodes, order, k).conflicts
    ensures PositionTally(nodes, order, i).overlaps <= TallyTo(nodes, order, k).overlaps
    ensures PositionTally(nodes, order, i).inferred <= TallyTo(nodes, order, k).inferred
  {
    if i < k - 1 {
      TallyCoversPosition(nodes, order, i, k - 1);
    }
  }

  lemma ForwardNeverRepeats(nodes: seq<Node>, order: seq<nat>)
    requires IsForwardOrder(nodes, order)
    ensures NoRepeat(order)
  {
    forall i, j | 0 <= i < j < |order| ensures order[i] != order[j] {
      assert ForwardStep(nodes, order[..j]) == Some(order[j]);
      assert order[i] == order[..j][i];
    }
  }

  lemma GeometryNeverRepeats(nodes: seq<Node>, order: seq<nat>)
    requires IsGeometryOrder(nodes, order)
    ensures NoRepeat(order)
  {
    forall i, j | 0 <= i < j < |order| ensures order[i] != order[j] {
      assert nodes[order[i]].lba < nodes[order[j]].lba;
    }
  }

  lemma WalkNeverRepeats(nodes: seq<Node>, master: nat, walk: seq<nat>)
    requires master < |nodes| && IsReverseWalk(nodes, master, walk)
    ensures NoRepeat(walk)
  {
    forall i, j | 0 <= i < j < |walk| ensures walk[i] != walk[j] {
      assert ReverseStep(nodes, walk[..j]) == Some(walk[j]);
      assert walk[i] == walk[..j][i];
    }
  }

  lemma UnlessExcluded(nodes: seq<Node>, excluded: seq<nat>, lba: int, matchPrev: bool, i: int)
    requires LinkCandidate(nodes, excluded, lba, matchPrev, i)
    ensures LinkCandidate(nodes, [], lba, matchPrev, i)
  {
  }

  /** A walk that reaches the master ends there: its way on leads back to the tail. */
  lemma MasterEndsWalk(nodes: seq<Node>, master: nat, walk: seq<nat>, k: nat)
    requires DistinctLbas(nodes) && master < |nodes| && nodes[master].lba == 0
    requires IsReverseWalk(nodes, master, walk) && k < |walk| && walk[k] == master
    ensures k == |walk| - 1
  {
    if k < |walk| - 1 {
      var sofar := walk[..k + 1];
      assert ReverseStep(nodes, sofar) == Some(walk[k + 1]);
      assert sofar[0] == walk[0] && sofar[k] == master;
      var link := nodes[master].Prev();
      if !HasLba(nodes, link) {
        assert OnlyCandidate(nodes, [], 0, false, walk[0]);
        assert LinkCandidate(nodes, sofar, 0, false, walk[k + 1]);
        UnlessExcluded(nodes, sofar, 0, false, walk[k + 1]);
      }
    }
  }

  /** The reverse order can only repeat the master, and only right after itself. */
  lemma ReverseRepeatsOnlyMaster(nodes: seq<Node>, order: seq<nat>)
    requires DistinctLbas(nodes) && IsReverseOrder(nodes, order)
    ensures forall i, j :: 0 <= i < j < |order| && order[i] == order[j] ==>
              i == 0 && j == 1 && nodes[order[0]].lba == 0
  {
    if order != [] {
      var master := Find(nodes, 0).value;
      var walk :| ReverseOrderFrom(nodes, master, walk, order);
      WalkNeverRepeats(nodes, master, walk);
      assert forall j :: 1 <= j < |order| ==> order[j] == order[1..][j - 1] == walk[|walk| - j];
      forall i, j | 0 <= i < j < |order| && order[i] == order[j]
        ensures i == 0 && j == 1
      {
        if i == 0 {
          MasterEndsWalk(nodes, master, walk, |walk| - j);
        }
      }
    }
  }

  /** When the walk steps from another node to the master, the master's `next` is that node. */
  lemma MasterAfterNode(nodes: seq<Node>, master: nat, walk: seq<nat>)
    requires DistinctLbas(nodes) && master < |nodes| && nodes[master].lba == 0
    requires IsReverseWalk(nodes, master, walk) && |walk| >= 2 && walk[|walk| - 1] == master
    ensures nodes[master].Next() == nodes[walk[|walk| - 2]].lba != 0
  {
    var k := |walk| - 1;
    var sofar := walk[..k];
    assert ReverseStep(nodes, sofar) == Some(master);
    assert sofar[|sofar| - 1] == walk[k - 1];
    assert OnlyCandidate(nodes, sofar, nodes[walk[k - 1]].lba, false, master);
    WalkNeverRepeats(nodes, master, walk);
  }

  // ----- when the reverse order repeats the master

  /** A link that leads to no node, and the master as the only one that points at `lba`. */
  ghost predicate InfersMaster(nodes: seq<Node>, excluded: seq<nat>, link: u32, lba: int, master: nat) {
    (link == 0 || !HasLba(nodes, link)) && OnlyCandidate(nodes, excluded, lba, false, master)
  }

  /** After `i` steps the walk stands on a node with a lost `prev`, to which only the master points. */
  ghost predicate LosesWayAt(nodes: seq<Node>, master: nat, walk: seq<nat>, i: nat)
    requires ValidOrder(nodes, walk)
  {
    && 1 <= i <= |walk| && i < MAX_NODES - 1
    && nodes[walk[i - 1]].Prev() != 0
    && InfersMaster(nodes, walk[..i], nodes[walk[i - 1]].Prev(), nodes[walk[i - 1]].lba, master)
  }

  lemma InferredStep(nodes: seq<Node>, master: nat, walk: seq<nat>, i: nat)
    requires master < |nodes| && nodes[master].lba == 0 && DistinctLbas(nodes)
    requires IsReverseWalk(nodes, master, walk) && 1 <= i <= |walk| && i < MAX_NODES - 1
    requires NoRepeat(walk)
    ensures LosesWayAt(nodes, master, walk, i) <==> i < |walk| && walk[i] == master
  {
    var sofar := walk[..i];
    assert sofar[|sofar| - 1] == walk[i - 1];
    if i < |walk| {
      assert ReverseStep(nodes, sofar) == Some(walk[i]);
    } else {
      assert sofar == walk;
    }
  }

  /**
   The reverse order repeats the master exactly when the step that led there
   was inferred: at the start from a `prev` of the master that names no node,
   or later from a node whose `prev` is lost and to which only the master points.
   */
  lemma ReverseRepeatsWhenInferred(nodes: seq<Node>, master: nat, walk: seq<nat>, order: seq<nat>)
    requires DistinctLbas(nodes) && Find(nodes, 0) == Some(master) && ReverseOrderFrom(nodes, master, walk, order)
    ensures !NoRepeat(order) <==> InfersMaster(nodes, [], nodes[master].Prev(), 0, master) ||
                                  exists i: nat :: LosesWayAt(nodes, master, walk, i)
  {
    WalkNeverRepeats(nodes, master, walk);
    ReverseRepeatsOnlyMaster(nodes, order);
    assert |walk| > 0 ==> order[1] == order[1..][0] == walk[|walk| - 1];
    if master in walk {
      var k :| 0 <= k < |walk| && walk[k] == master;
      MasterEndsWalk(nodes, master, walk, k);
      assert order[0] == order[1];
      if k > 0 {
        InferredStep(nodes, master, walk, k);
      }
    } else {
      forall i: nat ensures !LosesWayAt(nodes, master, walk, i) {
        if 1 <= i <= |walk| && i < MAX_NODES - 1 {
          InferredStep(nodes, master, walk, i);
        }
      }
    }
  }

  /** The least case: a lone master without links is taken twice. */
  lemma LoneMasterRepeats(n: Node)
    requires n.lba == 0 && n.Prev() == 0 && n.Next() == 0 && n.confidence >= 55
    ensures IsReverseOrder([n], [0, 0]) && !NoRepeat([0, 0])
  {
    var nodes, walk, order: seq<nat> := [n], [0], [0, 0];
    assert HasLba(nodes, 0) && OnlyCandidate(nodes, [], 0, false, 0);
    assert ReverseStep(nodes, walk) == None;
    assert order[1..] == [0];
    assert ReverseOrderFrom(nodes, 0, walk, order);
    assert order[0] == order[1];
  }

  lemma NoConflictAt(nodes: seq<Node>, truncated: bool, m: ChainMap, i: nat)
    requires IsMapOf(nodes, truncated, m) && m.repairable && i < |m.order|
    ensures var n := nodes[m.order[i]]; var lbas := OrderLbas(nodes, m.order);
            && !Conflicting(nodes, n.Prev(), DesiredPrev(lbas, i))
            && !Conflicting(nodes, n.Next(), DesiredNext(lbas, i))
  {
    TallyCoversPosition(nodes, m.order, i, |m.order|);
  }

  /** A repairable map has no repeat, unless it is the master taken twice and nothing else. */
  lemma RepairableRepeat(nodes: seq<Node>, truncated: bool, m: ChainMap)
    requires DistinctLbas(nodes) && IsMapOf(nodes, truncated, m) && m.repairable
    ensures NoRepeat(m.order) || (m.kind.Reverse? && |m.order| == 2 && m.order[0] == m.order[1])
  {
    match m.kind
    case Forward => ForwardNeverRepeats(nodes, m.order);
    case Geometry => GeometryNeverRepeats(nodes, m.order);
    case Reverse =>
      ReverseRepeatsOnlyMaster(nodes, m.order);
      if !NoRepeat(m.order) && |m.order| > 2 {
        var order := m.order;
        var master := Find(nodes, 0).value;
        var walk :| ReverseOrderFrom(nodes, master, walk, order);
        assert order[1] == order[1..][0] == walk[|walk| - 1];
        assert order[2] == order[1..][1] == walk[|walk| - 2];
        MasterAfterNode(nodes, master, walk);
        assert HasLba(nodes, nodes[master].Next());
        NoConflictAt(nodes, truncated, m, 0);
      }
  }

  /** The header names its own LBA and an extent that lies on the disk. */
  predicate OwnsExtent(n: Node, total: u32) {
    n.Start() == n.lba && n.Length() > 0 && n.lba + n.Length() <= total
  }

  predicate EndsBefore(a: Node, b: Node) { a.lba + a.Length() <= b.lba }

  ghost predicate AscendingExtents(nodes: seq<Node>, order: seq<nat>, total: u32)
    requires ValidOrder(nodes, order)
  {
    && (forall i :: 0 <= i < |order| ==> OwnsExtent(nodes[order[i]], total))
    && (forall i, j :: 1 <= i < j < |order| ==> EndsBefore(nodes[order[i]], nodes[order[j]]))
  }

  lemma MembersHaveCore(nodes: seq<Node>, truncated: bool, m: ChainMap)
    requires IsMapOf(nodes, truncated, m) && m.repairable
    ensures forall i :: 0 <= i < |m.order| ==> CoreEvidence(nodes[m.order[i]])
  {
  }

  /** Core evidence of a sound node is what its header really shows. */
  lemma CoreIsReal(disk: Disk, total: u32, n: Node)
    requires SoundNode(disk, total, n) && CoreEvidence(n)
    ensures MagicOk(n.header) && SelfStart(n.header, n.lba) && LengthOk(n.header, total)
  {
    assert n.OwnEvidence().magic && n.OwnEvidence().selfStart && n.OwnEvidence().length;
  }

  lemma ExtentOfMember(disk: Disk, total: u32, r: ScanResult, m: ChainMap, i: nat)
    requires SoundNodes(disk, total, r.nodes, r.truncated)
    requires IsMapOf(r.nodes, r.truncated, m) && m.repairable && i < |m.order|
    ensures OwnsExtent(r.nodes[m.order[i]], total)
  {
    MembersHaveCore(r.nodes, r.truncated, m);
    CoreIsReal(disk, total, r.nodes[m.order[i]]);
  }

  lemma NoOverlapAt(nodes: seq<Node>, truncated: bool, m: ChainMap, i: nat)
    requires IsMapOf(nodes, truncated, m) && m.repairable && 1 <= i < |m.order| - 1
    ensures nodes[m.order[i]].Start() + nodes[m.order[i]].Length() <= nodes[m.order[i + 1]].Start()
  {
    TallyCoversPosition(nodes, m.order, i, |m.order|);
  }

  lemma {:induction false} AscendFrom(nodes: seq<Node>, order: seq<nat>, total: u32, i: nat, j: nat)
    requires ValidOrder(nodes, order) && 1 <= i < j < |order|
    requires forall k :: 1 <= k < |order| ==> OwnsExtent(nodes[order[k]], total)
    requires forall k {:trigger order[k]} :: 1 <= k < |order| - 1 ==> EndsBefore(nodes[order[k]], nodes[order[k + 1]])
    ensures EndsBefore(nodes[order[i]], nodes[order[j]])
    decreases j - i
  {
    if i + 1 < j {
      AscendFrom(nodes, order, total, i, j - 1);
      assert EndsBefore(nodes[order[j - 1]], nodes[order[j - 1 + 1]]);
    }
  }

  lemma MapShape(disk: Disk, total: u32, r: ScanResult, m: ChainMap)
    requires SoundNodes(disk, total, r.nodes, r.truncated)
    requires IsMapOf(r.nodes, r.truncated, m) && m.repairable
    ensures 2 <= |m.order| && r.nodes[m.order[0]].lba == 0
    ensures AscendingExtents(r.nodes, m.order, total)
  {
    forall i | 0 <= i < |m.order| ensures OwnsExtent(r.nodes[m.order[i]], total) {
      ExtentOfMember(disk, total, r, m, i);
    }
    forall i | 1 <= i < |m.order| - 1 ensures EndsBefore(r.nodes[m.order[i]], r.nodes[m.order[i + 1]]) {
      NoOverlapAt(r.nodes, r.truncated, m, i);
    }
    forall i, j | 1 <= i < j < |m.order| ensures EndsBefore(r.nodes[m.order[i]], r.nodes[m.order[j]]) {
      AscendFrom(r.nodes, m.order, total, i, j);
    }
  }

  /**
   Main result on map shape. Every repairable map starts at LBA 0, from
   position 1 on lists strictly ascending, disjoint extents on the disk, and
   repeats no node, except for the map that is the master taken twice.
   */
  lemma RepairableMapShape(disk: Disk, total: u32, r: ScanResult, k: nat)
    requires ScanOf(disk, total, r) && k < |r.maps| && r.maps[k].repairable
    ensures ValidOrder(r.nodes, r.maps[k].order)
    ensures var order := r.maps[k].order;
            && 2 <= |order|
            && r.nodes[order[0]].lba == 0
            && AscendingExtents(r.nodes, order, total)
            && (NoRepeat(order) || (|order| == 2 && order[0] == order[1]))
  {
    RetainedMaps(disk, total, r);
    RepairableRepeat(r.nodes, r.truncated, r.maps[k]);
    MapShape(disk, total, r, r.maps[k]);
  }
}
