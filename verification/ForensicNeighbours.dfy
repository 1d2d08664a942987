/**
 A disk on which the planner's own plan cannot succeed: two patched headers,
 one sector apart, so that the second sector of one is the first of the other.
 */
module ForensicNeighbours {
  import opened Words
  import opened Apa
  import opened Forensic
  import opened ForensicMaps
  import opened ForensicPlan
  import opened ForensicShape
  import opened ForensicHeal
  import opened ForensicRecovery
  import opened ForensicRepair

  const TOTAL: u32 := 0x8_0000
  const FIRST: u32 := 0x4_0000
  const SECOND: u32 := 0x4_0001
  const LOST: u32 := 7

  function Linking(start: u32, length: u32, next: u32, prev: u32): Header {
    var blank: Header := seq(HEADER_WORDS, _ => 0);
    WithLinks(blank[MAGIC_WORD := APA_MAGIC][START_WORD := start][LENGTH_WORD := length], next, prev)
  }

  /** Three headers, of which the last two have lost their `prev`. */
  function Crowded(): Disk {
    map[0 := FirstSector(Linking(0, FIRST, FIRST, SECOND)), 1 := SecondSector(Linking(0, FIRST, FIRST, SECOND)),
        FIRST := FirstSector(Linking(FIRST, 1, SECOND, LOST)), SECOND := FirstSector(Linking(SECOND, 1, 0, LOST)),
        SECOND + 1 := SecondSector(Linking(SECOND, 1, 0, LOST))]
  }

  function Lbas(): seq<u32> { [0, FIRST, SECOND] }

  /** What a header that begins with the given one shows. */
  ghost predicate ShowsLinks(h: Header, start: u32, next: u32, prev: u32) {
    && MagicOk(h) && SelfStart(h, start) && LengthOk(h, TOTAL) && NextOf(h) == next && PrevOf(h) == prev
    && h[LENGTH_WORD] == (if start == 0 then FIRST else 1)
  }

  lemma FirstWords(disk: Disk, lba: int, h: Header)
    requires Readable(disk, lba) && disk[lba] == FirstSector(h)
    ensures forall w :: 0 <= w < SECTOR_WORDS ==> HeaderAt(disk, lba)[w] == h[w]
  {
    FirstOfHeader(disk, lba);
    assert forall w :: 0 <= w < SECTOR_WORDS ==> FirstSector(h)[w] == h[w];
  }

  lemma CrowdedHeaders()
    ensures var d := Crowded();
            && Readable(d, 0) && ShowsLinks(HeaderAt(d, 0), 0, FIRST, SECOND)
            && Readable(d, FIRST) && ShowsLinks(HeaderAt(d, FIRST), FIRST, SECOND, LOST)
            && Readable(d, SECOND) && ShowsLinks(HeaderAt(d, SECOND), SECOND, 0, LOST)
  {
    FirstWords(Crowded(), 0, Linking(0, FIRST, FIRST, SECOND));
    FirstWords(Crowded(), FIRST, Linking(FIRST, 1, SECOND, LOST));
    FirstWords(Crowded(), SECOND, Linking(SECOND, 1, 0, LOST));
  }

  // ----- what a scan finds

  /** The three nodes and nothing else, each as its header shows it. */
  ghost predicate ThreeNodes(nodes: seq<Node>) {
    && |nodes| <= 3 && DistinctLbas(nodes)
    && HasLba(nodes, 0) && HasLba(nodes, FIRST) && HasLba(nodes, SECOND)
    && forall k :: 0 <= k < |nodes| ==> NodeShows(nodes[k])
  }

  ghost predicate NodeShows(n: Node) {
    && n.confidence >= 60 && CoreEvidence(n)
    && ((n.lba == 0 && ShowsLinks(n.header, 0, FIRST, SECOND)) ||
        (n.lba == FIRST && ShowsLinks(n.header, FIRST, SECOND, LOST)) ||
        (n.lba == SECOND && ShowsLinks(n.header, SECOND, 0, LOST)))
  }

  lemma NothingElseIsThere()
    ensures NothingElse(Crowded(), TOTAL, Lbas())
  {
    forall lba | AdmissibleAt(Crowded(), TOTAL, lba) ensures lba in Lbas() {
      assert lba in Crowded() && lba + 1 in Crowded();
    }
  }

  lemma NodeOfCrowded(n: Node)
    requires SoundNode(Crowded(), TOTAL, n) && n.lba in Lbas()
    ensures NodeShows(n)
  {
    CrowdedHeaders();
    DamagedScores(n.header, n.lba, TOTAL);
    assert n.OwnEvidence().magic && n.OwnEvidence().selfStart && n.OwnEvidence().length;
  }

  lemma OnGridFound(nodes: seq<Node>, lba: u32)
    requires CompleteNodes(Crowded(), TOTAL, nodes) && (lba == 0 || lba == FIRST)
    ensures HasLba(nodes, lba)
  {
    CrowdedHeaders();
    DamagedScores(HeaderAt(Crowded(), lba), lba, TOTAL);
    assert OnGrid(0) && OnGrid(FIRST) by { assert OnGrid(FIRST - SCAN_STEP); }
    assert Covered(Crowded(), TOTAL, nodes, lba, Grid);
  }

  lemma ReferencedFound(nodes: seq<Node>)
    requires CompleteNodes(Crowded(), TOTAL, nodes)
    ensures HasLba(nodes, SECOND)
  {
    CrowdedHeaders();
    OnGridFound(nodes, 0);
    var n := nodes[Find(nodes, 0).value];
    NodeOfCrowded(n);
    assert Chased(Crowded(), TOTAL, nodes, n) && Refers(n, SECOND);
    DamagedScores(HeaderAt(Crowded(), SECOND), SECOND, TOTAL);
    assert Covered(Crowded(), TOTAL, nodes, SECOND, Referenced);
  }

  lemma CrowdedScan(r: ScanResult)
    requires ScanOf(Crowded(), TOTAL, r)
    ensures !r.truncated && ThreeNodes(r.nodes)
  {
    NothingElseIsThere();
    NodesAreInChain(Crowded(), TOTAL, Lbas(), r.nodes, r.truncated);
    OnGridFound(r.nodes, 0);
    OnGridFound(r.nodes, FIRST);
    ReferencedFound(r.nodes);
    forall k | 0 <= k < |r.nodes| ensures NodeShows(r.nodes[k]) {
      NodeOfCrowded(r.nodes[k]);
    }
  }

  // ----- the forward map

  lemma StepTo(nodes: seq<Node>, order: seq<nat>, k: nat, lba: u32)
    requires ValidOrder(nodes, order) && 0 < k <= |order| && lba != 0 && HasLba(nodes, lba)
    requires nodes[order[k - 1]].Next() == lba
    requires forall i :: 0 <= i < k ==> nodes[order[i]].lba != lba
    ensures ForwardStep(nodes, order[..k]) == Find(nodes, lba)
  {
    assert order[..k][|order[..k]| - 1] == order[k - 1];
  }

  lemma GoesOn(nodes: seq<Node>, order: seq<nat>, k: nat)
    requires IsForwardOrder(nodes, order) && 0 < k <= |order| && |order| < MAX_NODES
    requires ForwardStep(nodes, order[..k]).Some?
    ensures k < |order| && ForwardStep(nodes, order[..k]) == Some(order[k])
  {
    assert order[..|order|] == order;
  }

  lemma ForwardOfThree(nodes: seq<Node>, order: seq<nat>)
    requires ThreeNodes(nodes) && IsForwardOrder(nodes, order)
    ensures ValidOrder(nodes, order) && OrderLbas(nodes, order) == Lbas()
  {
    ForwardNeverRepeats(nodes, order);
    NoRepeatBound(order, |nodes|);
    assert NodeShows(nodes[order[0]]);
    StepTo(nodes, order, 1, FIRST);
    GoesOn(nodes, order, 1);
    assert NodeShows(nodes[order[1]]);
    StepTo(nodes, order, 2, SECOND);
    GoesOn(nodes, order, 2);
    assert |order| == 3;
  }

  /** Position `i` of the forward order: what it lost, and that nothing else is wrong with it. */
  lemma PositionOfThree(nodes: seq<Node>, order: seq<nat>, i: nat)
    requires ThreeNodes(nodes) && ValidOrder(nodes, order) && OrderLbas(nodes, order) == Lbas() && i < 3
    ensures var t := PositionTally(nodes, order, i);
            && t.conflicts == 0 && t.overlaps == 0 && t.weak == 0
            && t.inferred == if i == 0 then 0 else 1
    ensures Linked(nodes, order, i) <==> i == 0
  {
    assert NodeShows(nodes[order[i]]);
    if i < 2 {
      assert NodeShows(nodes[order[i + 1]]);
    }
    assert !HasLba(nodes, LOST);
  }

  lemma {:induction false} TallyOfThree(nodes: seq<Node>, order: seq<nat>, k: nat)
    requires ThreeNodes(nodes) && ValidOrder(nodes, order) && OrderLbas(nodes, order) == Lbas()
    requires k <= |order| == 3
    ensures var t := TallyTo(nodes, order, k);
            t.conflicts == 0 && t.overlaps == 0 && t.weak == 0 && t.inferred == if k == 0 then 0 else k - 1
  {
    if k > 0 {
      TallyOfThree(nodes, order, k - 1);
      PositionOfThree(nodes, order, k - 1);
    }
  }

  lemma MapOfThree(nodes: seq<Node>, m: ChainMap)
    requires ThreeNodes(nodes) && IsMapOf(nodes, false, m) && OrderLbas(nodes, m.order) == Lbas()
    ensures m.confidence == 96 && m.repairable && m.conflicts == 0 && m.overlaps == 0
  {
    var order := m.order;
    assert |order| == 3;
    TallyOfThree(nodes, order, |order|);
    StrongCountBound(nodes, |nodes|);
    forall k | 0 <= k < |order| ensures CoreEvidence(nodes[order[k]]) {
      assert NodeShows(nodes[order[k]]);
    }
  }

  lemma PatchesOfThree(nodes: seq<Node>, order: seq<nat>)
    requires ThreeNodes(nodes) && ValidOrder(nodes, order) && OrderLbas(nodes, order) == Lbas()
    ensures PatchesTo(nodes, order, 3) == [PatchAt(nodes, order, 1), PatchAt(nodes, order, 2)]
  {
    PositionOfThree(nodes, order, 0);
    PositionOfThree(nodes, order, 1);
    PositionOfThree(nodes, order, 2);
    assert PatchesTo(nodes, order, 1) == [];
    assert PatchesTo(nodes, order, 2) == [PatchAt(nodes, order, 1)];
  }

  /**
   Every scan of this disk retains a forward map with confidence 96, whose plan
   is not blocked and holds two patches that share a sector.
   */
  lemma NeighboursArePlanned(r: ScanResult)
    requires ScanOf(Crowded(), TOTAL, r)
    ensures |r.maps| > 0 && ValidOrder(r.nodes, r.maps[0].order) && r.maps[0].confidence == 96
    ensures var plan := PlanOf(r, 0);
            && !Blocked(r, plan) && |plan.patches| == 2
            && plan.patches[0].lba == FIRST && plan.patches[1].lba == FIRST + 1
            && !Apart(plan.patches) && !MasterCovered(plan.patches)
  {
    CrowdedScan(r);
    var forward := FirstMapIsForward(Crowded(), TOTAL, r);
    RetainedMaps(Crowded(), TOTAL, r);
    ForwardOfThree(r.nodes, forward);
    MapOfThree(r.nodes, r.maps[0]);
    PatchesOfThree(r.nodes, forward);
    PlanOfThree(r, PlanOf(r, 0));
  }

  lemma PlanOfThree(r: ScanResult, plan: RepairPlan)
    requires |r.maps| > 0 && ValidOrder(r.nodes, r.maps[0].order) && plan == PlanOf(r, 0)
    requires !r.truncated && r.maps[0].repairable && r.maps[0].confidence == 96
    requires r.maps[0].conflicts == 0 && r.maps[0].overlaps == 0
    requires OrderLbas(r.nodes, r.maps[0].order) == Lbas()
    requires PatchesTo(r.nodes, r.maps[0].order, 3) ==
             [PatchAt(r.nodes, r.maps[0].order, 1), PatchAt(r.nodes, r.maps[0].order, 2)]
    ensures !Blocked(r, plan) && |plan.patches| == 2
    ensures plan.patches[0].lba == FIRST && plan.patches[1].lba == FIRST + 1
    ensures !Apart(plan.patches) && !MasterCovered(plan.patches)
  {
    var order := r.maps[0].order;
    assert |order| == 3;
    assert OrderLbas(r.nodes, order)[1] == FIRST && OrderLbas(r.nodes, order)[2] == SECOND;
  }
}
