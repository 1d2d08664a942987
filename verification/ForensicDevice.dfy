/**
 From the scan to the disk: what a transaction that succeeds leaves behind,
 seen as the disk it was planned for.
 */
module ForensicDevice {
  import opened Words
  import opened Apa
  import opened Forensic
  import opened ForensicMaps
  import opened ForensicPlan
  import opened ForensicShape
  import opened ForensicHeal
  import opened ForensicRecovery
  import opened CachedDisk
  import opened ForensicRepair
  import opened ForensicSafety

  // ----- a fresh plan

  /** Nothing has changed since the scan: every header still reads as it was found. */
  lemma FreshPlanIsFavourable(i: Image<Sector>, total: u32, r: ScanResult, k: nat)
    requires ScanOf(View(i), total, r) && k < |r.maps| && ValidOrder(r.nodes, r.maps[k].order)
    requires Apart(PlanOf(r, k).patches)
    ensures IndicesOk(r, PlanOf(r, k).patches) && Favourable(i, r, PlanOf(r, k).patches)
  {
    var ps := PlanOf(r, k).patches;
    PlannerBuildsWell(View(i), total, r, k);
    forall j | 0 <= j < |ps| ensures Scanned(i, r, ps[j]) {
      assert WellBuilt(r, ps[j]) && SoundNode(View(i), total, r.nodes[ps[j].nodeIndex]);
    }
  }

  // ----- a transaction is the patches applied

  lemma {:induction false} AppliedElsewhere(disk: Disk, nodes: seq<Node>, ps: seq<Patch>, s: int)
    requires NameNodes(nodes, ps) && !InFootprint(ps, s)
    ensures var now := ApplyPatches(disk, nodes, ps);
            (s in now <==> s in disk) && (s in disk ==> now[s] == disk[s])
  {
    if ps != [] {
      FootprintSplit(ps, s);
      AppliedElsewhere(disk, nodes, ps[..|ps| - 1], s);
    }
  }

  lemma {:induction false} AppliedAt(disk: Disk, nodes: seq<Node>, ps: seq<Patch>, j: nat)
    requires NameNodes(nodes, ps) && Apart(ps) && j < |ps|
    ensures var now, h := ApplyPatches(disk, nodes, ps), PatchedHeader(nodes[ps[j].nodeIndex].header, ps[j]);
            var lba: int := ps[j].lba;
            && lba in now && lba + 1 in now
            && now[lba] == FirstSector(h) && now[lba + 1] == SecondSector(h)
  {
    var last := |ps| - 1;
    if j < last {
      AppliedAt(disk, nodes, ps[..last], j);
      assert ps[j].lba + 2 <= ps[last].lba || ps[last].lba + 2 <= ps[j].lba;
    }
  }

  /** A transaction that succeeded did to the disk exactly what its plan says. */
  lemma TransactionApplies(before: Image<Sector>, after: Image<Sector>, scan: ScanResult, ps: seq<Patch>)
    requires IndicesOk(scan, ps) && NameNodes(scan.nodes, ps) && Apart(ps)
    requires Sound(before) && Sound(after) && SettlesOutside(before, after, ps) && AllRead(after, scan, ps)
    ensures View(after) == ApplyPatches(View(before), scan.nodes, ps)
  {
    var now := ApplyPatches(View(before), scan.nodes, ps);
    forall s ensures s in View(after) <==> s in now
             ensures s in now ==> View(after)[s] == now[s]
    {
      if InFootprint(ps, s) {
        var j :| 0 <= j < |ps| && (s == ps[j].lba || s == ps[j].lba + 1);
        AppliedAt(View(before), scan.nodes, ps, j);
        ReadSectors(after, ps[j].lba, Target(scan, ps[j]));
      } else {
        AppliedElsewhere(View(before), scan.nodes, ps, s);
        if s in View(before) {
          SettledView(before, after, s);
        }
      }
    }
  }

  // ----- recovery, on the drive

  lemma GridIsApart(disk: Disk, total: u32, chain: seq<u32>, nodes: seq<Node>, order: seq<nat>)
    requires HealthyChain(disk, total, chain) && ValidOrder(nodes, order) && OrderLbas(nodes, order) == chain
    ensures MembersApart(nodes, order)
  {
    forall i, j | 0 <= i < j < |order| ensures nodes[order[i]].lba + 2 <= nodes[order[j]].lba {
      assert GoodMember(disk, total, chain, i) && GoodMember(disk, total, chain, j);
      assert chain[i] < chain[j];
      if chain[j] < chain[i] + SCAN_STEP {
        NothingBetweenGrid(chain[j], chain[i]);
      }
    }
  }

  /** The disk is as it was before the damage. */
  ghost predicate BackTo(disk: Disk, before: Image<Sector>, after: Image<Sector>, r: ScanResult, ps: seq<Patch>)
    requires IndicesOk(r, ps)
  {
    Sound(after) && SettlesOutside(before, after, ps) && AllRead(after, r, ps) ==> View(after) == disk
  }

  /**
   Exact recovery, on the drive. With one to five link words of a healthy chain
   lost, some plan of a scan is automatic, is not refused, succeeds if the drive
   works, and whenever it succeeds the drive shows the original disk again.
   */
  lemma RecoveryOnDevice(disk: Disk, before: Image<Sector>, total: u32, chain: seq<u32>, r: ScanResult)
    returns (k: nat)
    requires Sound(before) && Situation(disk, View(before), total, chain) && ScanOf(View(before), total, r)
    requires 1 <= DamageCount(disk, View(before), chain, |chain|) <= 5 && NoFalseLink(disk, View(before), chain)
    ensures k < |r.maps| && ValidOrder(r.nodes, r.maps[k].order)
    ensures PlanOf(r, k).automaticSafe && !Blocked(r, PlanOf(r, k))
    ensures IndicesOk(r, PlanOf(r, k).patches) && Favourable(before, r, PlanOf(r, k).patches)
    ensures forall after :: BackTo(disk, before, after, r, PlanOf(r, k).patches)
  {
    k := ExactRecovery(disk, View(before), total, chain, r);
    RecoveryIsGated(disk, View(before), total, chain, r, k);
    RecoveryIsSound(disk, before, total, chain, r, k);
  }

  lemma SuccessIsBack(disk: Disk, before: Image<Sector>, after: Image<Sector>, r: ScanResult, ps: seq<Patch>)
    requires IndicesOk(r, ps) && NameNodes(r.nodes, ps) && Apart(ps) && Sound(before)
    requires ApplyPatches(View(before), r.nodes, ps) == disk
    ensures BackTo(disk, before, after, r, ps)
  {
    if Sound(after) && SettlesOutside(before, after, ps) && AllRead(after, r, ps) {
      TransactionApplies(before, after, r, ps);
    }
  }

  /** A plan of the original order is refused unless one to five words were lost and none misleads. */
  lemma RecoveryIsGated(disk: Disk, damaged: Disk, total: u32, chain: seq<u32>, r: ScanResult, k: nat)
    requires Situation(disk, damaged, total, chain) && ScanOf(damaged, total, r)
    requires k < |r.maps| && ValidOrder(r.nodes, r.maps[k].order) && OrderLbas(r.nodes, r.maps[k].order) == chain
    ensures Blocked(r, PlanOf(r, k)) <==>
            !(1 <= DamageCount(disk, damaged, chain, |chain|) <= 5 && NoFalseLink(disk, damaged, chain))
  {
    ChainPlanRecovers(disk, damaged, total, chain, r, k);
    ScanFindsExactly(disk, damaged, total, chain, r);
  }

  /** A plan of the original order that is not refused suits the disk, and its success is the original disk. */
  lemma RecoveryIsSound(disk: Disk, before: Image<Sector>, total: u32, chain: seq<u32>, r: ScanResult, k: nat)
    requires Sound(before) && Situation(disk, View(before), total, chain) && ScanOf(View(before), total, r)
    requires k < |r.maps| && ValidOrder(r.nodes, r.maps[k].order) && OrderLbas(r.nodes, r.maps[k].order) == chain
    requires !Blocked(r, PlanOf(r, k))
    ensures IndicesOk(r, PlanOf(r, k).patches) && Favourable(before, r, PlanOf(r, k).patches)
    ensures forall after :: BackTo(disk, before, after, r, PlanOf(r, k).patches)
  {
    ChainPlanRecovers(disk, View(before), total, chain, r, k);
    RecoveryIsGated(disk, View(before), total, chain, r, k);
    PlanIsApart(disk, total, chain, r, k);
    FreshPlanIsFavourable(before, total, r, k);
    forall after ensures BackTo(disk, before, after, r, PlanOf(r, k).patches) {
      SuccessIsBack(disk, before, after, r, PlanOf(r, k).patches);
    }
  }

  /**
   Recovery from end to end: applies the plan of a map with the original order.
   It is refused, and the drive left alone, exactly when no word was lost, more
   than five were, or one of them names another member. Otherwise success means
   that the drive shows the original disk, and a working drive gives success.
   */
  method ApplyRecovery(dev: Device<Sector>, ghost disk: Disk, ghost total: u32, ghost chain: seq<u32>,
                       scan: ScanResult, ghost k: nat, plan: RepairPlan)
    returns (code: Code)
    requires Sound(dev.Now()) && Situation(disk, View(dev.Now()), total, chain)
    requires ScanOf(View(dev.Now()), total, scan) && k < |scan.maps| && ValidOrder(scan.nodes, scan.maps[k].order)
    requires OrderLbas(scan.nodes, scan.maps[k].order) == chain && plan == PlanOf(scan, k)
    modifies dev
    ensures code.PlanBlocked? <==>
            !(&& 1 <= DamageCount(disk, old(View(dev.Now())), chain, |chain|) <= 5
              && NoFalseLink(disk, old(View(dev.Now())), chain))
    ensures code.PlanBlocked? ==> dev.Now() == old(dev.Now()) && dev.history == old(dev.history)
    ensures code.Success? ==> View(dev.Now()) == disk
    ensures !code.PlanBlocked? && Working(dev.outcomes, old(dev.tick)) ==> code.Success?
  {
    ghost var before := dev.Now();
    PlannerBuildsWell(View(before), total, scan, k);
    RecoveryIsGated(disk, View(before), total, chain, scan, k);
    if !Blocked(scan, plan) {
      RecoveryIsSound(disk, before, total, chain, scan, k);
    }
    code := ApplyVerified(dev, scan, plan);
    assert BackTo(disk, before, dev.Now(), scan, plan.patches) || Blocked(scan, plan);
  }

  lemma PlanIsApart(disk: Disk, total: u32, chain: seq<u32>, r: ScanResult, k: nat)
    requires HealthyChain(disk, total, chain) && k < |r.maps| && ValidOrder(r.nodes, r.maps[k].order)
    requires OrderLbas(r.nodes, r.maps[k].order) == chain && PlanOf(r, k).automaticSafe
    ensures Apart(PlanOf(r, k).patches)
  {
    var order := r.maps[k].order;
    GridIsApart(disk, total, chain, r.nodes, order);
    assert chain[0] == r.nodes[order[0]].lba;
    PatchesApart(r.nodes, order);
  }

  // ----- healing, on the drive

  /**
   Scan, plan, apply, scan again: when the transaction succeeds on a map without
   repeats, the next complete scan starts with the chain that was planned and
   has nothing left to patch.
   */
  lemma TransactionHeals(before: Image<Sector>, after: Image<Sector>, total: u32, r: ScanResult, k: nat,
                         rescan: ScanResult)
    requires Sound(before) && ScanOf(View(before), total, r) && k < |r.maps| && r.maps[k].repairable
    requires ValidOrder(r.nodes, r.maps[k].order) && NoRepeat(r.maps[k].order)
    requires IndicesOk(r, PlanOf(r, k).patches)
    requires SettlesOutside(before, after, PlanOf(r, k).patches) && AllRead(after, r, PlanOf(r, k).patches)
    requires ScanOf(View(after), total, rescan) && !rescan.truncated
    ensures |rescan.maps| > 0 && ValidOrder(rescan.nodes, rescan.maps[0].order)
    ensures OrderLbas(rescan.nodes, rescan.maps[0].order) == OrderLbas(r.nodes, r.maps[k].order)
    ensures PlanOf(rescan, 0).patches == []
  {
    SuccessRepairs(before, after, total, r, k);
    RepairHeals(View(before), total, r, k, View(after), rescan);
  }

  // ----- how a transaction ends

  /** A plan for the disk as it is can be foretold: it is up to date, or it patches the master twice. */
  lemma PlanCanBeForetold(i: Image<Sector>, total: u32, r: ScanResult, k: nat)
    requires ScanOf(View(i), total, r) && k < |r.maps| && ValidOrder(r.nodes, r.maps[k].order)
    requires PlanOf(r, k).patches != []
    ensures IndicesOk(r, PlanOf(r, k).patches)
    ensures UpToDate(i, r, PlanOf(r, k).patches) ||
            (MasterTwice(r, PlanOf(r, k).patches) && MasterScanned(i, r, PlanOf(r, k).patches, 0))
  {
    PlannerBuildsWell(View(i), total, r, k);
    if NoRepeat(r.maps[k].order) {
      PlanIsUpToDate(i, total, r, k);
    } else {
      RepeatedMasterPlan(View(i), total, r, k);
      TwiceIsScanned(i, total, r, PlanOf(r, k).patches);
    }
  }

  lemma TwiceIsScanned(i: Image<Sector>, total: u32, r: ScanResult, ps: seq<Patch>)
    requires SoundNodes(View(i), total, r.nodes, r.truncated) && MasterTwice(r, ps)
    ensures IndicesOk(r, ps) && MasterScanned(i, r, ps, 0)
  {
    forall j | 0 <= j < |ps| ensures Scanned(i, r, ps[j]) {
      assert WellBuilt(r, ps[j]) && SoundNode(View(i), total, r.nodes[ps[j].nodeIndex]);
    }
  }

  /** The second patch of the plan for the master is for it again. */
  predicate MasterAgain(patches: seq<Patch>) {
    |patches| == 2 && patches[0].lba == 0 == patches[1].lba
  }

  /** How a plan that is not blocked ends on a working drive. */
  predicate EndsAs(patches: seq<Patch>, code: Code) {
    && (code.Success? <==> Apart(patches))
    && (code.SourceChanged? <==> MasterAgain(patches) || MasterCovered(patches))
    && (code.Success? || code.SourceChanged? || code.CompareFailed?)
  }

  lemma CoveredIsNotApart(patches: seq<Patch>)
    requires MasterCovered(patches)
    ensures !Apart(patches)
  {
    var i, j :| 0 <= i < |patches| && 0 <= j < |patches| && patches[i].lba == 0 && patches[j].lba == 1;
    assert i != j;
  }

  lemma ExpectedEnds(patches: seq<Patch>)
    requires Ascending(patches)
    ensures EndsAs(patches, Expected(patches))
  {
    if MasterCovered(patches) {
      CoveredIsNotApart(patches);
    }
    if |patches| == 2 {
      assert Below(patches, 0, 1);
    }
  }

  lemma ForetoldEnds(i: Image<Sector>, r: ScanResult, ps: seq<Patch>, code: Code)
    requires IndicesOk(r, ps)
    requires UpToDate(i, r, ps) || (MasterTwice(r, ps) && MasterScanned(i, r, ps, 0))
    requires UpToDate(i, r, ps) ==> code == Expected(ps)
    requires MasterTwice(r, ps) && MasterScanned(i, r, ps, 0) ==> code == SourceChanged
    ensures EndsAs(ps, code)
  {
    if UpToDate(i, r, ps) {
      ExpectedEnds(ps);
    }
  }

  /**
   Applies the plan that was made for the disk as it is. On a working drive a
   plan that is not blocked succeeds exactly if no two of its headers share a
   sector. Otherwise, if the master is patched twice or loses its second sector
   to another header, the transaction stops because the source has changed; and
   in all other cases the final comparison fails.
   */
  method ApplyPlanned(dev: Device<Sector>, ghost total: u32, scan: ScanResult, ghost k: nat, plan: RepairPlan)
    returns (code: Code)
    requires Sound(dev.Now()) && ScanOf(View(dev.Now()), total, scan)
    requires k < |scan.maps| && ValidOrder(scan.nodes, scan.maps[k].order) && plan == PlanOf(scan, k)
    modifies dev
    ensures code.PlanBlocked? <==> Blocked(scan, plan)
    ensures !Blocked(scan, plan) && Working(dev.outcomes, old(dev.tick)) ==> EndsAs(plan.patches, code)
  {
    ghost var before, start := dev.Now(), dev.tick;
    PlannerBuildsWell(View(before), total, scan, k);
    if plan.patches != [] {
      PlanCanBeForetold(before, total, scan, k);
    }
    code := ApplyVerified(dev, scan, plan);
    if !Blocked(scan, plan) && Working(dev.outcomes, start) {
      ForetoldEnds(before, scan, plan.patches, code);
    }
  }
}
