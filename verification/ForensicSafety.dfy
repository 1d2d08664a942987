/**
 What the repair transaction means for the disk: crash points, the way back
 through the snapshot, and the road from a plan to a healed chain.
 */
module ForensicSafety {
  import opened Words
  import opened Apa
  import opened Forensic
  import opened ForensicMaps
  import opened ForensicPlan
  import opened ForensicShape
  import opened ForensicHeal
  import opened CachedDisk
  import opened ForensicRepair

  /** After a crash the sector holds what it could have held before the repair. */
  predicate SectorAsBefore(before: Image<Sector>, x: Disk, s: int) {
    s in x ==> s in before.durable &&
               (x[s] == before.durable[s] || (s in before.cache && x[s] == before.cache[s]))
  }

  /**
   Master last, at every crash point: if the sectors of the master hold
   anything new, every other header of the plan is on the medium, complete.
   */
  lemma NewMasterMeansInteriorDurable(before: Image<Sector>, i: Image<Sector>, x: Disk,
                                      scan: ScanResult, patches: seq<Patch>)
    requires IndicesOk(scan, patches) && MasterLast(before, i, scan, patches) && CrashImage(i, x)
    requires !SectorAsBefore(before, x, 0) || !SectorAsBefore(before, x, 1)
    ensures forall j :: 0 <= j < |patches| && patches[j].lba != 0 ==>
              Readable(x, patches[j].lba) && HeaderAt(x, patches[j].lba) == Target(scan, patches[j])
  {
    if Settles(before, i, 0) && Settles(before, i, 1) {
      if 0 in x { SettledCrash(before, i, x, 0); }
      if 1 in x { SettledCrash(before, i, x, 1); }
    } else {
      forall j | 0 <= j < |patches| && patches[j].lba != 0
        ensures Readable(x, patches[j].lba) && HeaderAt(x, patches[j].lba) == Target(scan, patches[j])
      {
        assert Committed(i, patches[j].lba, Target(scan, patches[j]));
      }
    }
  }

  // ----- the way back

  /** Writing back the headers that the snapshot kept. */
  ghost function Restore(x: Disk, scan: ScanResult, patches: seq<Patch>): Disk
    requires IndicesOk(scan, patches)
  {
    if patches == [] then x
    else
      var last := |patches| - 1;
      PutHeader(Restore(x, scan, patches[..last]), patches[last].lba, scan.nodes[patches[last].nodeIndex].header)
  }

  /** The medium holds the scanned headers, and nothing is waiting to replace them. */
  ghost predicate ScannedOnMedium(before: Image<Sector>, scan: ScanResult, patches: seq<Patch>)
    requires IndicesOk(scan, patches)
  {
    forall j :: 0 <= j < |patches| ==>
      Committed(before, patches[j].lba, scan.nodes[patches[j].nodeIndex].header)
  }

  /** What restoring does to one sector. */
  lemma {:induction false} RestoredSector(before: Image<Sector>, x: Disk, scan: ScanResult, patches: seq<Patch>, s: int)
    requires IndicesOk(scan, patches) && ScannedOnMedium(before, scan, patches)
    requires x.Keys == before.durable.Keys
    ensures var r := Restore(x, scan, patches);
            && r.Keys == x.Keys
            && (s in x && InFootprint(patches, s) ==> s !in before.cache && r[s] == before.durable[s])
            && (s in x && !InFootprint(patches, s) ==> r[s] == x[s])
  {
    if patches != [] {
      var last := |patches| - 1;
      assert ScannedOnMedium(before, scan, patches[..last]);
      RestoredSector(before, x, scan, patches[..last], s);
      assert Committed(before, patches[last].lba, scan.nodes[patches[last].nodeIndex].header);
      FootprintSplit(patches, s);
    }
  }

  lemma FootprintSplit(patches: seq<Patch>, s: int)
    requires patches != []
    ensures var last := |patches| - 1;
            InFootprint(patches, s) <==>
              InFootprint(patches[..last], s) || s == patches[last].lba || s == patches[last].lba + 1
  {
    var last := |patches| - 1;
    assert forall j :: 0 <= j < last ==> patches[..last][j] == patches[j];
    if InFootprint(patches[..last], s) {
      var j :| 0 <= j < last && (s == patches[..last][j].lba || s == patches[..last][j].lba + 1);
      assert s == patches[j].lba || s == patches[j].lba + 1;
    }
  }

  /**
   The way back: from any crash point of the transaction, writing the saved
   headers gives a disk that could have been there before it began.
   */
  lemma SnapshotRestores(before: Image<Sector>, i: Image<Sector>, x: Disk, scan: ScanResult, patches: seq<Patch>)
    requires IndicesOk(scan, patches) && ScannedOnMedium(before, scan, patches)
    requires SettlesOutside(before, i, patches) && CrashImage(i, x)
    ensures CrashImage(before, Restore(x, scan, patches))
    ensures before.cache == map[] ==> Restore(x, scan, patches) == before.durable
  {
    var r := Restore(x, scan, patches);
    RestoredSector(before, x, scan, patches, 0);
    forall s | s in r ensures r[s] == before.durable[s] || (s in before.cache && r[s] == before.cache[s]) {
      RestoredSector(before, x, scan, patches, s);
      if !InFootprint(patches, s) {
        SettledCrash(before, i, x, s);
      }
    }
  }

  // ----- planner-built plans

  /** A plan that the planner built is never refused as invalid. */
  lemma PlannerBuildsWell(disk: Disk, total: u32, r: ScanResult, k: nat)
    requires ScanOf(disk, total, r) && k < |r.maps|
    ensures ValidOrder(r.nodes, r.maps[k].order)
    ensures IndicesOk(r, PlanOf(r, k).patches)
    ensures forall j :: 0 <= j < |PlanOf(r, k).patches| ==> WellBuilt(r, PlanOf(r, k).patches[j])
  {
    RetainedMaps(disk, total, r);
    MapBuildsWell(disk, total, r, k);
  }

  lemma MapBuildsWell(disk: Disk, total: u32, r: ScanResult, k: nat)
    requires SoundNodes(disk, total, r.nodes, r.truncated)
    requires k < |r.maps| && IsMapOf(r.nodes, r.truncated, r.maps[k])
    ensures IndicesOk(r, PlanOf(r, k).patches)
    ensures forall j :: 0 <= j < |PlanOf(r, k).patches| ==> WellBuilt(r, PlanOf(r, k).patches[j])
  {
    var m := r.maps[k];
    if m.repairable {
      MembersHaveCore(r.nodes, r.truncated, m);
      AllWellBuilt(disk, total, r, m.order);
    }
  }

  lemma AllWellBuilt(disk: Disk, total: u32, r: ScanResult, order: seq<nat>)
    requires ValidOrder(r.nodes, order)
    requires forall i :: 0 <= i < |order| ==>
      SoundNode(disk, total, r.nodes[order[i]]) && CoreEvidence(r.nodes[order[i]])
    ensures var ps := PatchesTo(r.nodes, order, |order|);
            IndicesOk(r, ps) && forall j :: 0 <= j < |ps| ==> WellBuilt(r, ps[j])
  {
    var ps := PatchesTo(r.nodes, order, |order|);
    PatchesAre(r.nodes, order, |order|);
    forall j | 0 <= j < |ps| ensures ps[j].nodeIndex < |r.nodes| && WellBuilt(r, ps[j]) {
      assert ps[j] in ps;
      var i :| 0 <= i < |order| && !Linked(r.nodes, order, i) && ps[j] == PatchAt(r.nodes, order, i);
      PatchIsWellBuilt(disk, total, r, order, i);
    }
  }

  lemma PatchIsWellBuilt(disk: Disk, total: u32, r: ScanResult, order: seq<nat>, i: nat)
    requires ValidOrder(r.nodes, order) && i < |order|
    requires SoundNode(disk, total, r.nodes[order[i]]) && CoreEvidence(r.nodes[order[i]])
    ensures WellBuilt(r, PatchAt(r.nodes, order, i))
  {
    CoreIsReal(disk, total, r.nodes[order[i]]);
    PatchChangesOnlyLinks(r.nodes[order[i]].header, PatchAt(r.nodes, order, i));
  }

  /**
   The repairable map that is the master taken twice: it has no patch, or two
   of which the second no longer fits once the first is written.
   */
  lemma RepeatedMasterPlan(disk: Disk, total: u32, r: ScanResult, k: nat)
    requires ScanOf(disk, total, r) && k < |r.maps| && r.maps[k].repairable
    requires ValidOrder(r.nodes, r.maps[k].order) && !NoRepeat(r.maps[k].order)
    ensures PlanOf(r, k).patches == [] || MasterTwice(r, PlanOf(r, k).patches)
  {
    RepairableMapShape(disk, total, r, k);
    PlannerBuildsWell(disk, total, r, k);
    PlanOfTwice(r, k);
  }

  lemma PlanOfTwice(r: ScanResult, k: nat)
    requires k < |r.maps| && ValidOrder(r.nodes, r.maps[k].order) && |r.maps[k].order| == 2
    requires r.maps[k].order[0] == r.maps[k].order[1] && r.nodes[r.maps[k].order[0]].lba == 0
    requires PatchesWellBuilt(r, PlanOf(r, k).patches)
    ensures PlanOf(r, k).patches == [] || MasterTwice(r, PlanOf(r, k).patches)
  {
    var nodes, order := r.nodes, r.maps[k].order;
    TwoPatches(nodes, order);
    PatchChangesOnlyLinks(nodes[order[0]].header, PatchAt(nodes, order, 0));
  }

  lemma TwoPatches(nodes: seq<Node>, order: seq<nat>)
    requires ValidOrder(nodes, order) && |order| == 2 && order[0] == order[1] && nodes[order[0]].lba == 0
    ensures Linked(nodes, order, 0) == Linked(nodes, order, 1)
    ensures PatchesTo(nodes, order, 2) ==
            if Linked(nodes, order, 0) then [] else [PatchAt(nodes, order, 0), PatchAt(nodes, order, 1)]
  {
    assert PatchesTo(nodes, order, 1) == if Linked(nodes, order, 0) then [] else [PatchAt(nodes, order, 0)];
  }

  // ----- when the headers of a plan are apart

  /** The members of an order share no sector. */
  ghost predicate MembersApart(nodes: seq<Node>, order: seq<nat>)
    requires ValidOrder(nodes, order)
  {
    forall i, j :: 0 <= i < j < |order| ==>
      nodes[order[i]].lba + 2 <= nodes[order[j]].lba || nodes[order[j]].lba + 2 <= nodes[order[i]].lba
  }

  /** Each header of the order leaves room for its second sector before the next one. */
  ghost predicate RoomForHeaders(nodes: seq<Node>, order: seq<nat>)
    requires ValidOrder(nodes, order)
  {
    && (|order| > 1 ==> nodes[order[1]].lba >= 2)
    && forall i {:trigger order[i]} :: 1 <= i < |order| - 1 ==> nodes[order[i]].lba + 2 <= nodes[order[i + 1]].lba
  }

  lemma {:induction false} RoomAdds(nodes: seq<Node>, order: seq<nat>, i: nat, j: nat)
    requires ValidOrder(nodes, order) && RoomForHeaders(nodes, order) && 1 <= i < j < |order|
    ensures nodes[order[i]].lba + 2 <= nodes[order[j]].lba
    decreases j - i
  {
    assert nodes[order[j - 1]].lba + 2 <= nodes[order[j - 1 + 1]].lba;
    if i + 1 < j {
      RoomAdds(nodes, order, i, j - 1);
    }
  }

  lemma RoomMeansApart(nodes: seq<Node>, order: seq<nat>)
    requires ValidOrder(nodes, order) && RoomForHeaders(nodes, order)
    requires order != [] ==> nodes[order[0]].lba == 0
    ensures MembersApart(nodes, order)
  {
    forall i, j | 0 <= i < j < |order| ensures nodes[order[i]].lba + 2 <= nodes[order[j]].lba {
      if i > 0 {
        RoomAdds(nodes, order, i, j);
      } else if j > 1 {
        RoomAdds(nodes, order, 1, j);
      }
    }
  }

  lemma ApartLeavesRoom(nodes: seq<Node>, order: seq<nat>, total: u32)
    requires ValidOrder(nodes, order) && MembersApart(nodes, order) && AscendingExtents(nodes, order, total)
    requires order != [] ==> nodes[order[0]].lba == 0
    ensures RoomForHeaders(nodes, order)
  {
    forall i {:trigger order[i]} | 1 <= i < |order| - 1 ensures nodes[order[i]].lba + 2 <= nodes[order[i + 1]].lba {
      assert EndsBefore(nodes[order[i]], nodes[order[i + 1]]);
    }
  }

  /** For the order of a repairable map without repeats, that is exactly what it takes. */
  lemma ApartMeansRoom(disk: Disk, total: u32, r: ScanResult, k: nat)
    requires ScanOf(disk, total, r) && k < |r.maps| && r.maps[k].repairable
    requires ValidOrder(r.nodes, r.maps[k].order) && NoRepeat(r.maps[k].order)
    ensures MembersApart(r.nodes, r.maps[k].order) <==> RoomForHeaders(r.nodes, r.maps[k].order)
  {
    var nodes, order := r.nodes, r.maps[k].order;
    RepairableMapShape(disk, total, r, k);
    if RoomForHeaders(nodes, order) {
      RoomMeansApart(nodes, order);
    }
    if MembersApart(nodes, order) {
      ApartLeavesRoom(nodes, order, total);
    }
  }

  /** Extents of at least two sectors, of which the first begins past the master, give that room. */
  lemma ExtentsGiveRoom(nodes: seq<Node>, order: seq<nat>, total: u32)
    requires ValidOrder(nodes, order) && AscendingExtents(nodes, order, total)
    requires order != [] ==> nodes[order[0]].lba == 0
    requires forall i :: 1 <= i < |order| ==> nodes[order[i]].Length() >= 2
    requires |order| > 1 ==> nodes[order[1]].lba >= 2
    ensures MembersApart(nodes, order)
    ensures Apart(PatchesTo(nodes, order, |order|)) && PastMaster(PatchesTo(nodes, order, |order|))
  {
    forall i {:trigger order[i]} | 1 <= i < |order| - 1 ensures nodes[order[i]].lba + 2 <= nodes[order[i + 1]].lba {
      assert EndsBefore(nodes[order[i]], nodes[order[i + 1]]);
    }
    RoomMeansApart(nodes, order);
    PatchesApart(nodes, order);
  }

  /** Patches stand in the order of their positions. */
  lemma {:induction false} PatchPosition(nodes: seq<Node>, order: seq<nat>, k: nat, j: nat) returns (b: nat)
    requires ValidOrder(nodes, order) && k <= |order| && j < |PatchesTo(nodes, order, k)|
    ensures b < k && !Linked(nodes, order, b) && PatchesTo(nodes, order, k)[j] == PatchAt(nodes, order, b)
    ensures j == |PatchesTo(nodes, order, b)|
  {
    if j < |PatchesTo(nodes, order, k - 1)| {
      b := PatchPosition(nodes, order, k - 1, j);
    } else {
      b := k - 1;
    }
  }

  lemma {:induction false} FewerBefore(nodes: seq<Node>, order: seq<nat>, a: nat, b: nat)
    requires ValidOrder(nodes, order) && a <= b <= |order|
    ensures |PatchesTo(nodes, order, a)| <= |PatchesTo(nodes, order, b)|
  {
    if a < b {
      FewerBefore(nodes, order, a, b - 1);
    }
  }

  /** The plan of an order whose members are apart touches headers that are apart. */
  lemma PatchesApart(nodes: seq<Node>, order: seq<nat>)
    requires ValidOrder(nodes, order) && MembersApart(nodes, order)
    requires order != [] ==> nodes[order[0]].lba == 0
    ensures Apart(PatchesTo(nodes, order, |order|)) && PastMaster(PatchesTo(nodes, order, |order|))
  {
    var ps := PatchesTo(nodes, order, |order|);
    forall i, j | 0 <= i < j < |ps| ensures ps[i].lba + 2 <= ps[j].lba || ps[j].lba + 2 <= ps[i].lba {
      var a := PatchPosition(nodes, order, |order|, i);
      var b := PatchPosition(nodes, order, |order|, j);
      if b <= a {
        FewerBefore(nodes, order, b, a);
      }
    }
    forall i | 0 <= i < |ps| ensures ps[i].lba == 0 || ps[i].lba >= 2 {
      var a := PatchPosition(nodes, order, |order|, i);
    }
  }

  // ----- what a plan for the disk as it is comes to

  lemma PatchChanges(r: ScanResult, order: seq<nat>, i: nat)
    requires ValidOrder(r.nodes, order) && i < |order| && !Linked(r.nodes, order, i)
    ensures Changes(r, PatchAt(r.nodes, order, i))
  {
    var p := PatchAt(r.nodes, order, i);
    var was, will := r.nodes[order[i]].header, Target(r, p);
    PatchChangesOnlyLinks(was, p);
    assert FirstSector(was)[NEXT_WORD] == was[NEXT_WORD] && FirstSector(was)[PREV_WORD] == was[PREV_WORD];
    assert FirstSector(will)[NEXT_WORD] == will[NEXT_WORD] && FirstSector(will)[PREV_WORD] == will[PREV_WORD];
  }

  /** In a map without repeats the members stand in ascending order, the master first. */
  lemma MembersAscend(nodes: seq<Node>, order: seq<nat>, total: u32, a: nat, b: nat)
    requires ValidOrder(nodes, order) && AscendingExtents(nodes, order, total) && DistinctLbas(nodes)
    requires NoRepeat(order) && a < b < |order| && nodes[order[0]].lba == 0
    ensures nodes[order[a]].lba < nodes[order[b]].lba
  {
    assert order[a] != order[b];
    if a > 0 {
      assert EndsBefore(nodes[order[a]], nodes[order[b]]) && OwnsExtent(nodes[order[a]], total);
    }
  }

  lemma PatchesAscend(nodes: seq<Node>, order: seq<nat>, total: u32)
    requires ValidOrder(nodes, order) && AscendingExtents(nodes, order, total) && DistinctLbas(nodes)
    requires NoRepeat(order) && (order != [] ==> nodes[order[0]].lba == 0)
    ensures Ascending(PatchesTo(nodes, order, |order|))
  {
    var ps := PatchesTo(nodes, order, |order|);
    forall i, j | 0 <= i < j < |ps| ensures Below(ps, i, j) {
      var a := PatchPosition(nodes, order, |order|, i);
      var b := PatchPosition(nodes, order, |order|, j);
      if b <= a {
        FewerBefore(nodes, order, b, a);
      }
      MembersAscend(nodes, order, total, a, b);
    }
  }

  /** The plan of a map without repeats is up to date on the disk it was made for. */
  lemma PlanIsUpToDate(i: Image<Sector>, total: u32, r: ScanResult, k: nat)
    requires ScanOf(View(i), total, r) && k < |r.maps| && r.maps[k].repairable
    requires ValidOrder(r.nodes, r.maps[k].order) && NoRepeat(r.maps[k].order)
    ensures IndicesOk(r, PlanOf(r, k).patches) && UpToDate(i, r, PlanOf(r, k).patches)
  {
    RepairableMapShape(View(i), total, r, k);
    RepairableIsPlanned(View(i), total, r, k);
    PatchesAscend(r.nodes, r.maps[k].order, total);
    AllUpToDate(i, total, r, r.maps[k].order);
  }

  lemma RepairableIsPlanned(disk: Disk, total: u32, r: ScanResult, k: nat)
    requires ScanOf(disk, total, r) && k < |r.maps| && r.maps[k].repairable
    requires ValidOrder(r.nodes, r.maps[k].order)
    ensures PlanOf(r, k).patches == PatchesTo(r.nodes, r.maps[k].order, |r.maps[k].order|)
    ensures forall i :: 0 <= i < |r.maps[k].order| ==> CoreEvidence(r.nodes[r.maps[k].order[i]])
    ensures IndicesOk(r, PlanOf(r, k).patches)
  {
    RetainedMaps(disk, total, r);
    assert IsMapOf(r.nodes, r.truncated, r.maps[k]);
    MembersHaveCore(r.nodes, r.truncated, r.maps[k]);
    PlannerBuildsWell(disk, total, r, k);
  }

  lemma AllUpToDate(i: Image<Sector>, total: u32, r: ScanResult, order: seq<nat>)
    requires SoundNodes(View(i), total, r.nodes, r.truncated) && ValidOrder(r.nodes, order)
    requires forall k :: 0 <= k < |order| ==> CoreEvidence(r.nodes[order[k]])
    requires Ascending(PatchesTo(r.nodes, order, |order|))
    ensures IndicesOk(r, PatchesTo(r.nodes, order, |order|)) && UpToDate(i, r, PatchesTo(r.nodes, order, |order|))
  {
    var ps := PatchesTo(r.nodes, order, |order|);
    AllWellBuilt(View(i), total, r, order);
    forall j | 0 <= j < |ps| ensures UpToDateAt(i, r, ps, j) {
      var a := PatchPosition(r.nodes, order, |order|, j);
      PatchChanges(r, order, a);
      assert SoundNode(View(i), total, r.nodes[order[a]]);
    }
  }

  // ----- from a successful transaction to a healed chain

  /** What a transaction that succeeded leaves, on a plan for the disk as it was. */
  ghost predicate Succeeded(before: Image<Sector>, after: Image<Sector>, r: ScanResult, ps: seq<Patch>)
    requires IndicesOk(r, ps)
  {
    && Sound(before) && SettlesOutside(before, after, ps)
    && StillScanned(before, r, ps, 0) && AllRead(after, r, ps)
  }

  /** A sector at which no patched header begins is as it was. */
  lemma SectorStays(before: Image<Sector>, after: Image<Sector>, r: ScanResult, ps: seq<Patch>, s: int)
    requires IndicesOk(r, ps) && Succeeded(before, after, r, ps) && s in View(before)
    requires forall j :: 0 <= j < |ps| ==> ps[j].lba != s
    ensures s in View(after) && View(after)[s] == View(before)[s]
  {
    if InFootprint(ps, s) {
      var j :| 0 <= j < |ps| && (s == ps[j].lba || s == ps[j].lba + 1);
      assert Scanned(before, r, ps[j]) && ReadsAs(after, ps[j].lba, Target(r, ps[j]));
      SecondKept(r, ps[j]);
      ReadSectors(before, ps[j].lba, r.nodes[ps[j].nodeIndex].header);
      ReadSectors(after, ps[j].lba, Target(r, ps[j]));
    } else {
      SettledView(before, after, s);
    }
  }

  /** A sector at which one begins is not. */
  lemma SectorChanges(before: Image<Sector>, after: Image<Sector>, r: ScanResult, ps: seq<Patch>, j: nat)
    requires IndicesOk(r, ps) && Succeeded(before, after, r, ps) && j < |ps| && Changes(r, ps[j])
    ensures var s: int := ps[j].lba; s in View(before) && s in View(after) && View(after)[s] != View(before)[s]
  {
    assert Scanned(before, r, ps[j]) && ReadsAs(after, ps[j].lba, Target(r, ps[j]));
    ReadSectors(before, ps[j].lba, r.nodes[ps[j].nodeIndex].header);
    ReadSectors(after, ps[j].lba, Target(r, ps[j]));
  }

  /** The headers of the order read as the scan found them. */
  ghost predicate MembersRead(i: Image<Sector>, nodes: seq<Node>, order: seq<nat>)
    requires ValidOrder(nodes, order)
  {
    forall k :: 0 <= k < |order| ==> MemberReads(i, nodes[order[k]])
  }

  ghost predicate MemberReads(i: Image<Sector>, n: Node) {
    ReadsAs(i, n.lba, n.header)
  }

  /** No patched header begins where a member that needed no patch does. */
  lemma LinkedIsUnpatched(nodes: seq<Node>, order: seq<nat>, i: nat)
    requires ValidOrder(nodes, order) && DistinctLbas(nodes) && NoRepeat(order)
    requires i < |order| && Linked(nodes, order, i)
    ensures forall j :: 0 <= j < |PatchesTo(nodes, order, |order|)| ==>
              PatchesTo(nodes, order, |order|)[j].lba != nodes[order[i]].lba
  {
    var ps := PatchesTo(nodes, order, |order|);
    forall j | 0 <= j < |ps| ensures ps[j].lba != nodes[order[i]].lba {
      var a := PatchPosition(nodes, order, |order|, j);
      assert a != i && order[a] != order[i];
    }
  }

  /** The first sector of an unpatched member is as it was, even under a written header. */
  lemma LinkedFirstStays(before: Image<Sector>, after: Image<Sector>, r: ScanResult, order: seq<nat>, i: nat)
    requires ValidOrder(r.nodes, order) && DistinctLbas(r.nodes) && NoRepeat(order)
    requires i < |order| && Linked(r.nodes, order, i) && MemberReads(before, r.nodes[order[i]])
    requires IndicesOk(r, PatchesTo(r.nodes, order, |order|))
    requires Succeeded(before, after, r, PatchesTo(r.nodes, order, |order|))
    ensures FirstRepaired(View(after), r.nodes, order, i)
    ensures forall j :: 0 <= j < |PatchesTo(r.nodes, order, |order|)| ==>
              PatchesTo(r.nodes, order, |order|)[j].lba != r.nodes[order[i]].lba
  {
    var ps, n := PatchesTo(r.nodes, order, |order|), r.nodes[order[i]];
    ReadSectors(before, n.lba, n.header);
    LinkedIsUnpatched(r.nodes, order, i);
    SectorStays(before, after, r, ps, n.lba);
    SectorExists(before, after, r, ps, n.lba + 1);
  }

  lemma SectorExists(before: Image<Sector>, after: Image<Sector>, r: ScanResult, ps: seq<Patch>, s: int)
    requires IndicesOk(r, ps) && Succeeded(before, after, r, ps) && s in View(before)
    ensures s in View(after)
  {
    assert s in before.durable.Keys && s in after.durable.Keys;
  }

  lemma PatchedReads(after: Image<Sector>, r: ScanResult, order: seq<nat>, i: nat)
    requires ValidOrder(r.nodes, order) && i < |order| && !Linked(r.nodes, order, i)
    requires IndicesOk(r, PatchesTo(r.nodes, order, |order|)) && AllRead(after, r, PatchesTo(r.nodes, order, |order|))
    ensures ReadsAs(after, r.nodes[order[i]].lba, RepairedHeader(r.nodes, order, i))
  {
    var ps := PatchesTo(r.nodes, order, |order|);
    PatchesAre(r.nodes, order, |order|);
    assert PatchAt(r.nodes, order, i) in ps;
    var j :| 0 <= j < |ps| && ps[j] == PatchAt(r.nodes, order, i);
    assert ReadsAs(after, ps[j].lba, Target(r, ps[j]));
  }

  /** Whatever lies where, the first sector of every member is repaired. */
  lemma FirstsRepair(before: Image<Sector>, after: Image<Sector>, r: ScanResult, order: seq<nat>)
    requires ValidOrder(r.nodes, order) && DistinctLbas(r.nodes) && NoRepeat(order)
    requires MembersRead(before, r.nodes, order) && IndicesOk(r, PatchesTo(r.nodes, order, |order|))
    requires Succeeded(before, after, r, PatchesTo(r.nodes, order, |order|))
    ensures FirstsRepaired(View(after), r.nodes, order)
  {
    forall i | 0 <= i < |order| ensures FirstRepaired(View(after), r.nodes, order, i) {
      if Linked(r.nodes, order, i) {
        LinkedFirstStays(before, after, r, order, i);
      } else {
        PatchedReads(after, r, order, i);
        FirstOfHeader(View(after), r.nodes[order[i]].lba);
      }
    }
  }

  /** No patched header begins on the second sector of a member that needed no patch. */
  ghost predicate UnpatchedClear(nodes: seq<Node>, order: seq<nat>)
    requires ValidOrder(nodes, order)
  {
    forall i :: 0 <= i < |order| && Linked(nodes, order, i) ==> ClearAt(nodes, order, i)
  }

  ghost predicate ClearAt(nodes: seq<Node>, order: seq<nat>, i: nat)
    requires ValidOrder(nodes, order) && i < |order|
  {
    forall j :: 0 <= j < |PatchesTo(nodes, order, |order|)| ==>
      PatchesTo(nodes, order, |order|)[j].lba != nodes[order[i]].lba + 1
  }

  lemma HeaderStays(before: Image<Sector>, after: Image<Sector>, r: ScanResult, ps: seq<Patch>, n: Node)
    requires IndicesOk(r, ps) && Succeeded(before, after, r, ps) && MemberReads(before, n)
    requires forall j :: 0 <= j < |ps| ==> ps[j].lba != n.lba
    requires forall j :: 0 <= j < |ps| ==> ps[j].lba != n.lba + 1
    ensures MemberReads(after, n)
  {
    ReadSectors(before, n.lba, n.header);
    SectorStays(before, after, r, ps, n.lba);
    SectorStays(before, after, r, ps, n.lba + 1);
    SameSectors(View(before), View(after), n.lba);
  }

  lemma HeaderLost(before: Image<Sector>, after: Image<Sector>, r: ScanResult, ps: seq<Patch>, n: Node, j: nat)
    requires IndicesOk(r, ps) && Succeeded(before, after, r, ps) && MemberReads(before, n)
    requires j < |ps| && ps[j].lba == n.lba + 1 && Changes(r, ps[j])
    ensures !MemberReads(after, n)
  {
    SectorChanges(before, after, r, ps, j);
    ReadSectors(before, n.lba, n.header);
    if MemberReads(after, n) {
      ReadSectors(after, n.lba, n.header);
      assert false;
    }
  }

  /** An unpatched member keeps its whole header exactly if its second sector is clear of them. */
  lemma LinkedHeaderStays(before: Image<Sector>, after: Image<Sector>, r: ScanResult, order: seq<nat>, i: nat)
    requires ValidOrder(r.nodes, order) && DistinctLbas(r.nodes) && NoRepeat(order)
    requires i < |order| && Linked(r.nodes, order, i) && MemberReads(before, r.nodes[order[i]])
    requires IndicesOk(r, PatchesTo(r.nodes, order, |order|))
    requires Succeeded(before, after, r, PatchesTo(r.nodes, order, |order|))
    ensures MemberReads(after, r.nodes[order[i]]) <==> ClearAt(r.nodes, order, i)
  {
    var ps, n := PatchesTo(r.nodes, order, |order|), r.nodes[order[i]];
    LinkedIsUnpatched(r.nodes, order, i);
    if ClearAt(r.nodes, order, i) {
      HeaderStays(before, after, r, ps, n);
    } else {
      var j :| 0 <= j < |ps| && ps[j].lba == n.lba + 1;
      var a := PatchPosition(r.nodes, order, |order|, j);
      PatchChanges(r, order, a);
      HeaderLost(before, after, r, ps, n, j);
    }
  }

  lemma HeadersRepair(before: Image<Sector>, after: Image<Sector>, r: ScanResult, order: seq<nat>)
    requires ValidOrder(r.nodes, order) && DistinctLbas(r.nodes) && NoRepeat(order)
    requires MembersRead(before, r.nodes, order) && IndicesOk(r, PatchesTo(r.nodes, order, |order|))
    requires Succeeded(before, after, r, PatchesTo(r.nodes, order, |order|))
    ensures RepairedOn(View(after), r.nodes, order) <==> UnpatchedClear(r.nodes, order)
  {
    forall i | 0 <= i < |order|
      ensures ReadsAs(after, r.nodes[order[i]].lba, RepairedHeader(r.nodes, order, i)) <==>
              (Linked(r.nodes, order, i) ==> ClearAt(r.nodes, order, i))
    {
      if Linked(r.nodes, order, i) {
        LinkedHeaderStays(before, after, r, order, i);
      } else {
        PatchedReads(after, r, order, i);
      }
    }
  }

  /** A plan for the disk as it was, and its members. */
  lemma PlanAndMembers(i: Image<Sector>, total: u32, r: ScanResult, k: nat)
    requires ScanOf(View(i), total, r) && k < |r.maps| && r.maps[k].repairable
    requires ValidOrder(r.nodes, r.maps[k].order) && NoRepeat(r.maps[k].order)
    ensures PlanOf(r, k).patches == PatchesTo(r.nodes, r.maps[k].order, |r.maps[k].order|)
    ensures IndicesOk(r, PlanOf(r, k).patches) && StillScanned(i, r, PlanOf(r, k).patches, 0)
    ensures MembersRead(i, r.nodes, r.maps[k].order)
  {
    RepairableIsPlanned(View(i), total, r, k);
    PlanIsUpToDate(i, total, r, k);
    UpToDateIs(i, r, PlanOf(r, k).patches);
    forall m | 0 <= m < |r.maps[k].order| ensures MemberReads(i, r.nodes[r.maps[k].order[m]]) {
      assert SoundNode(View(i), total, r.nodes[r.maps[k].order[m]]);
    }
  }

  /**
   A transaction that succeeded on the plan of a map leaves the first sector of
   every member repaired; and its whole header, exactly if no patched header
   began on the second sector of a member that needed no patch.
   */
  lemma SuccessRepairs(before: Image<Sector>, after: Image<Sector>, total: u32, r: ScanResult, k: nat)
    requires ScanOf(View(before), total, r) && k < |r.maps| && r.maps[k].repairable && Sound(before)
    requires ValidOrder(r.nodes, r.maps[k].order) && NoRepeat(r.maps[k].order)
    requires IndicesOk(r, PlanOf(r, k).patches) && SettlesOutside(before, after, PlanOf(r, k).patches)
    requires AllRead(after, r, PlanOf(r, k).patches)
    ensures FirstsRepaired(View(after), r.nodes, r.maps[k].order)
    ensures RepairedOn(View(after), r.nodes, r.maps[k].order) <==> UnpatchedClear(r.nodes, r.maps[k].order)
  {
    PlanAndMembers(before, total, r, k);
    FirstsRepair(before, after, r, r.maps[k].order);
    HeadersRepair(before, after, r, r.maps[k].order);
  }
}
