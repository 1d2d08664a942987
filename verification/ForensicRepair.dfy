/**
 The repair transaction: interior headers first, the master last, each header
 checked against the scan, written, flushed and read back before the next.
 */
module ForensicRepair {
  import opened Words
  import opened Apa
  import opened Forensic
  import opened ForensicMaps
  import opened ForensicPlan
  import opened CachedDisk

  datatype Code =
    | Success | PlanBlocked | SourceChanged | PatchInvalid
    | WriteFailed | FlushFailed | ReadbackFailed | CompareFailed

  /** What the header of a patch is to become. */
  function Target(scan: ScanResult, p: Patch): Header
    requires p.nodeIndex < |scan.nodes|
  {
    PatchedHeader(scan.nodes[p.nodeIndex].header, p)
  }

  predicate IndicesOk(scan: ScanResult, patches: seq<Patch>) {
    forall j :: 0 <= j < |patches| ==> patches[j].nodeIndex < |scan.nodes|
  }

  /** The last check before a header is written. */
  predicate HeaderIsSafe(scan: ScanResult, p: Patch, h: Header)
    requires p.nodeIndex < |scan.nodes|
  {
    var n := scan.nodes[p.nodeIndex];
    && n.lba == p.lba && CoreEvidence(n)
    && MagicOk(h) && SelfStart(h, p.lba) && h[LENGTH_WORD] != 0 && ChecksumOk(h)
  }

  /** A patch that the writer cannot refuse as invalid. */
  predicate WellBuilt(scan: ScanResult, p: Patch) {
    && PatchFits(scan.nodes, p)
    && HeaderIsSafe(scan, p, Target(scan, p))
  }

  /** The header is on the medium, and nothing is waiting to overwrite it. */
  predicate Committed(i: Image<Sector>, lba: int, h: Header) {
    && lba in i.durable && lba !in i.cache && i.durable[lba] == FirstSector(h)
    && lba + 1 in i.durable && lba + 1 !in i.cache && i.durable[lba + 1] == SecondSector(h)
  }

  /** Reading at `lba` now gives `h`. */
  ghost predicate ReadsAs(i: Image<Sector>, lba: int, h: Header) {
    Readable(View(i), lba) && HeaderAt(View(i), lba) == h
  }

  /** The same disk, on which at most the two sectors at `lba` were written. */
  ghost predicate SettlesExcept(before: Image<Sector>, after: Image<Sector>, lba: int) {
    && after.durable.Keys == before.durable.Keys
    && forall s :: s != lba && s != lba + 1 ==> Settles(before, after, s)
  }

  predicate InFootprint(patches: seq<Patch>, s: int) {
    exists j :: 0 <= j < |patches| && (s == patches[j].lba || s == patches[j].lba + 1)
  }

  /** The same disk, on which at most the headers of the patches were written. */
  ghost predicate SettlesOutside(before: Image<Sector>, after: Image<Sector>, patches: seq<Patch>) {
    && after.durable.Keys == before.durable.Keys
    && forall s :: !InFootprint(patches, s) ==> Settles(before, after, s)
  }

  lemma HeaderFromFetch(view: map<int, Sector>, lba: int)
    requires Sectors(lba, 2) <= view.Keys
    ensures Readable(view, lba)
    ensures var data := Fetch(view, lba, 2); data[0] == view[lba] && data[1] == view[lba + 1]
  {
    assert lba in Sectors(lba, 2) && lba + 1 in Sectors(lba, 2);
    var data := Fetch(view, lba, 2);
    assert data[0] == view[lba + 0] && data[1] == view[lba + 1];
  }

  lemma ReadableSectors(view: map<int, Sector>, lba: int)
    requires Readable(view, lba)
    ensures Sectors(lba, 2) <= view.Keys
  {
  }

  /** Two sectors read from the device, as one header. */
  method ReadHeader(dev: Device<Sector>, lba: int) returns (r: Option<Header>)
    modifies dev`tick
    ensures dev.tick == old(dev.tick) + 1
    ensures r.Some? ==> ReadsAs(dev.Now(), lba, r.value)
    ensures dev.outcomes(old(dev.tick)).ok && Readable(View(dev.Now()), lba) ==> r.Some?
  {
    if Readable(View(dev.Now()), lba) {
      ReadableSectors(View(dev.Now()), lba);
    }
    var data := dev.Read(lba, 2);
    if data.None? {
      return None;
    }
    HeaderFromFetch(View(dev.Now()), lba);
    var first: seq<u32>, second: seq<u32> := data.value[0], data.value[1];
    return Some(first + second);
  }

  lemma WriteKeepsOthers(before: Image<Sector>, outcome: Outcome, lba: int, h: Header)
    requires Sound(before)
    ensures var after := AfterWrite(before, outcome, lba, [FirstSector(h), SecondSector(h)]);
            SettlesExcept(before, after, lba) && Sound(after)
  {
  }

  lemma FlushKeepsAll(before: Image<Sector>, outcome: Outcome)
    requires Sound(before)
    ensures Sound(AfterFlush(before, outcome)) && AfterFlush(before, outcome).durable.Keys == before.durable.Keys
    ensures forall s :: Settles(before, AfterFlush(before, outcome), s)
  {
  }

  lemma WrittenAndFlushed(before: Image<Sector>, outcome: Outcome, lba: int, h: Header)
    requires Sound(before) && outcome.ok && Sectors(lba, 2) <= before.durable.Keys
    ensures var written := AfterWrite(before, outcome, lba, [FirstSector(h), SecondSector(h)]);
            Committed(Image(View(written), map[]), lba, h)
  {
    var data := [FirstSector(h), SecondSector(h)];
    var written := AfterWrite(before, outcome, lba, data);
    assert lba in Run(lba, data) && lba + 1 in Run(lba, data);
  }

  lemma ExceptTransitive(a: Image<Sector>, b: Image<Sector>, c: Image<Sector>, lba: int)
    requires SettlesExcept(a, b, lba) && SettlesExcept(b, c, lba)
    ensures SettlesExcept(a, c, lba)
  {
    forall s | s != lba && s != lba + 1 ensures Settles(a, c, s) {
      SettlesTransitive(a, b, c, s);
    }
  }

  lemma CommittedReads(i: Image<Sector>, lba: int, h: Header)
    requires Committed(i, lba, h)
    ensures ReadsAs(i, lba, h)
  {
    assert View(i)[lba] == FirstSector(h) && View(i)[lba + 1] == SecondSector(h);
  }

  lemma SettledView(before: Image<Sector>, after: Image<Sector>, s: int)
    requires Settles(before, after, s) && Sound(before) && s in View(before)
    ensures s in View(after) && View(after)[s] == View(before)[s]
  {
  }

  lemma SameSectors(a: Disk, b: Disk, lba: int)
    requires Readable(a, lba) && lba in b && lba + 1 in b && b[lba] == a[lba] && b[lba + 1] == a[lba + 1]
    ensures Readable(b, lba) && HeaderAt(b, lba) == HeaderAt(a, lba)
  {
  }

  /** A header that was not written still reads as before. */
  lemma SettledReads(before: Image<Sector>, after: Image<Sector>, lba: int, h: Header)
    requires Settles(before, after, lba) && Settles(before, after, lba + 1) && Sound(before)
    requires ReadsAs(before, lba, h)
    ensures ReadsAs(after, lba, h)
  {
    SettledView(before, after, lba);
    SettledView(before, after, lba + 1);
    SameSectors(View(before), View(after), lba);
  }

  /** Every image recorded since `from` keeps all sectors but those at `lba` settled. */
  ghost predicate HistoryExcept(before: Image<Sector>, history: seq<Image<Sector>>, from: nat, lba: int) {
    forall k :: from <= k < |history| ==> SettlesExcept(before, history[k], lba)
  }

  method CheckSafe(scan: ScanResult, p: Patch, h: Header) returns (safe: bool)
    requires p.nodeIndex < |scan.nodes|
    ensures safe == HeaderIsSafe(scan, p, h)
  {
    var n := scan.nodes[p.nodeIndex];
    if n.lba != p.lba || !CoreEvidence(n) {
      return false;
    }
    var sum := ApaChecksum(h);
    safe := MagicOk(h) && SelfStart(h, p.lba) && h[LENGTH_WORD] != 0 && h[CHECKSUM_WORD] == sum;
  }

  /** Checks, writes, flushes and reads back one header. */
  method WriteOne(dev: Device<Sector>, scan: ScanResult, p: Patch) returns (code: Code)
    requires p.nodeIndex < |scan.nodes| && Sound(dev.Now())
    modifies dev
    ensures Sound(dev.Now()) && old(dev.tick) < dev.tick
    ensures |old(dev.history)| <= |dev.history| && old(dev.history) == dev.history[..|old(dev.history)|]
    ensures HistoryExcept(old(dev.Now()), dev.history, |old(dev.history)|, p.lba)
    ensures SettlesExcept(old(dev.Now()), dev.Now(), p.lba)
    ensures code.Success? ==> Committed(dev.Now(), p.lba, Target(scan, p))
    ensures WellBuilt(scan, p) ==> !code.PatchInvalid?
    ensures !code.PlanBlocked?
    ensures code.PatchInvalid? || code.SourceChanged? ==> dev.Now() == old(dev.Now())
    ensures code.Success? ==> Scanned(old(dev.Now()), scan, p)
    ensures Working(dev.outcomes, old(dev.tick)) && WellBuilt(scan, p) && Readable(View(old(dev.Now())), p.lba) ==>
              code == if Scanned(old(dev.Now()), scan, p) then Success else SourceChanged
  {
    ghost var before := dev.Now();
    var source := ReadHeader(dev, p.lba);
    if source.None? {
      return ReadbackFailed;
    }
    if source.value != scan.nodes[p.nodeIndex].header {
      return SourceChanged;
    }
    var rebuilt := BuildPatchedHeader(scan, p);
    if !rebuilt.Rebuilt? {
      return PatchInvalid;
    }
    var repaired := rebuilt.header;
    var safe := CheckSafe(scan, p, repaired);
    if !safe {
      return PatchInvalid;
    }
    code := WriteFlushVerify(dev, p.lba, repaired);
  }

  /** The disk shows the header that the scan found for the patch. */
  ghost predicate Scanned(i: Image<Sector>, scan: ScanResult, p: Patch)
    requires p.nodeIndex < |scan.nodes|
  {
    ReadsAs(i, p.lba, scan.nodes[p.nodeIndex].header)
  }

  /** The write and the flush of one header. */
  method WriteAndFlush(dev: Device<Sector>, lba: int, repaired: Header) returns (code: Code)
    requires Sound(dev.Now())
    modifies dev
    ensures Sound(dev.Now()) && old(dev.tick) < dev.tick
    ensures |old(dev.history)| <= |dev.history| && old(dev.history) == dev.history[..|old(dev.history)|]
    ensures HistoryExcept(old(dev.Now()), dev.history, |old(dev.history)|, lba)
    ensures SettlesExcept(old(dev.Now()), dev.Now(), lba)
    ensures code in {Success, WriteFailed, FlushFailed}
    ensures code.Success? ==> Committed(dev.Now(), lba, repaired)
    ensures Working(dev.outcomes, old(dev.tick)) && Sectors(lba, 2) <= old(dev.Now()).durable.Keys ==> code.Success?
  {
    ghost var before := dev.Now();
    ghost var outcome := dev.outcomes(dev.tick);
    var ok := dev.Write(lba, [FirstSector(repaired), SecondSector(repaired)]);
    ghost var written := dev.Now();
    WriteKeepsOthers(before, outcome, lba, repaired);
    if !ok {
      return WriteFailed;
    }
    WrittenAndFlushed(before, outcome, lba, repaired);
    ghost var flush := dev.outcomes(dev.tick);
    ok := dev.Flush();
    FlushKeepsAll(written, flush);
    ExceptTransitive(before, written, dev.Now(), lba);
    return if ok then Success else FlushFailed;
  }

  /** The write, the flush and the read-back of one header. */
  method WriteFlushVerify(dev: Device<Sector>, lba: int, repaired: Header) returns (code: Code)
    requires Sound(dev.Now())
    modifies dev
    ensures Sound(dev.Now()) && old(dev.tick) < dev.tick
    ensures |old(dev.history)| <= |dev.history| && old(dev.history) == dev.history[..|old(dev.history)|]
    ensures HistoryExcept(old(dev.Now()), dev.history, |old(dev.history)|, lba)
    ensures SettlesExcept(old(dev.Now()), dev.Now(), lba)
    ensures code in {Success, WriteFailed, FlushFailed, ReadbackFailed, CompareFailed}
    ensures code.Success? ==> Committed(dev.Now(), lba, repaired)
    ensures Working(dev.outcomes, old(dev.tick)) && Readable(View(old(dev.Now())), lba) ==> code.Success?
  {
    if Readable(View(dev.Now()), lba) {
      ReadableSectors(View(dev.Now()), lba);
    }
    code := WriteAndFlush(dev, lba, repaired);
    if !code.Success? {
      return;
    }
    CommittedReads(dev.Now(), lba, repaired);
    var verify := ReadHeader(dev, lba);
    if verify.None? {
      return ReadbackFailed;
    }
    if verify.value != repaired {
      return CompareFailed;
    }
  }

  // ----- the whole transaction

  /** No two patched headers share a sector. */
  predicate Apart(patches: seq<Patch>) {
    forall i, j :: 0 <= i < j < |patches| ==>
      patches[i].lba + 2 <= patches[j].lba || patches[j].lba + 2 <= patches[i].lba
  }

  /** No patched header but the master's own touches the sectors of the master. */
  predicate PastMaster(patches: seq<Patch>) {
    forall i :: 0 <= i < |patches| ==> patches[i].lba == 0 || patches[i].lba >= 2
  }

  /** The first `k` interior patches are on the medium. */
  ghost predicate InteriorCommitted(i: Image<Sector>, scan: ScanResult, patches: seq<Patch>, k: nat)
    requires IndicesOk(scan, patches) && k <= |patches|
  {
    forall j :: 0 <= j < k && patches[j].lba != 0 ==> Committed(i, patches[j].lba, Target(scan, patches[j]))
  }

  /** The master's sectors have not been written. */
  predicate MasterUntouched(before: Image<Sector>, i: Image<Sector>) {
    Settles(before, i, 0) && Settles(before, i, 1)
  }

  /** Either the master is as it was, or every other patch is already durable. */
  ghost predicate MasterLast(before: Image<Sector>, i: Image<Sector>, scan: ScanResult, patches: seq<Patch>)
    requires IndicesOk(scan, patches)
  {
    MasterUntouched(before, i) || InteriorCommitted(i, scan, patches, |patches|)
  }

  ghost predicate HistoryMasterLast(before: Image<Sector>, history: seq<Image<Sector>>, from: nat,
                                    scan: ScanResult, patches: seq<Patch>)
    requires IndicesOk(scan, patches)
  {
    forall k :: from <= k < |history| ==> MasterLast(before, history[k], scan, patches)
  }

  ghost predicate HistoryUntouched(before: Image<Sector>, history: seq<Image<Sector>>, from: nat) {
    forall k :: from <= k < |history| ==> MasterUntouched(before, history[k])
  }

  ghost predicate HistoryOutside(before: Image<Sector>, history: seq<Image<Sector>>, from: nat, patches: seq<Patch>) {
    forall k :: from <= k < |history| ==> SettlesOutside(before, history[k], patches)
  }

  lemma OutsideExtends(before: Image<Sector>, mid: Image<Sector>, after: Image<Sector>, patches: seq<Patch>, j: nat)
    requires SettlesOutside(before, mid, patches) && j < |patches| && SettlesExcept(mid, after, patches[j].lba)
    ensures SettlesOutside(before, after, patches)
  {
    forall s | !InFootprint(patches, s) ensures Settles(before, after, s) {
      SettlesTransitive(before, mid, after, s);
    }
  }

  lemma HistoryExtends(before: Image<Sector>, mid: Image<Sector>, earlier: seq<Image<Sector>>,
                       history: seq<Image<Sector>>, from: nat, patches: seq<Patch>, j: nat)
    requires SettlesOutside(before, mid, patches) && j < |patches| && HistoryOutside(before, earlier, from, patches)
    requires from <= |earlier| <= |history| && earlier == history[..|earlier|]
    requires HistoryExcept(mid, history, |earlier|, patches[j].lba)
    ensures HistoryOutside(before, history, from, patches)
  {
    forall k | from <= k < |history| ensures SettlesOutside(before, history[k], patches) {
      if k < |earlier| {
        assert history[k] == earlier[k];
      } else {
        OutsideExtends(before, mid, history[k], patches, j);
      }
    }
  }

  lemma CommittedStays(mid: Image<Sector>, after: Image<Sector>, lba: int, h: Header, touched: int)
    requires Committed(mid, lba, h) && SettlesExcept(mid, after, touched)
    requires touched + 2 <= lba || lba + 2 <= touched
    ensures Committed(after, lba, h)
  {
    assert Settles(mid, after, lba) && Settles(mid, after, lba + 1);
  }

  lemma InteriorStays(mid: Image<Sector>, after: Image<Sector>, scan: ScanResult, patches: seq<Patch>, k: nat, j: nat)
    requires IndicesOk(scan, patches) && Apart(patches) && k <= |patches| && j < |patches|
    requires k <= j || patches[j].lba == 0
    requires InteriorCommitted(mid, scan, patches, k) && SettlesExcept(mid, after, patches[j].lba)
    ensures InteriorCommitted(after, scan, patches, k)
  {
    forall i | 0 <= i < k && patches[i].lba != 0
      ensures Committed(after, patches[i].lba, Target(scan, patches[i]))
    {
      assert Committed(mid, patches[i].lba, Target(scan, patches[i]));
      CommittedStays(mid, after, patches[i].lba, Target(scan, patches[i]), patches[j].lba);
    }
  }

  lemma UntouchedStays(before: Image<Sector>, mid: Image<Sector>, after: Image<Sector>, lba: int)
    requires MasterUntouched(before, mid) && SettlesExcept(mid, after, lba) && lba >= 2
    ensures MasterUntouched(before, after)
  {
    SettlesTransitive(before, mid, after, 0);
    SettlesTransitive(before, mid, after, 1);
  }

  predicate PatchesWellBuilt(scan: ScanResult, patches: seq<Patch>) {
    forall j :: 0 <= j < |patches| ==> WellBuilt(scan, patches[j])
  }

  /** Nothing but the drive itself can make the transaction fail. */
  ghost predicate Favourable(i: Image<Sector>, scan: ScanResult, patches: seq<Patch>)
    requires IndicesOk(scan, patches)
  {
    && Apart(patches)
    && PatchesWellBuilt(scan, patches)
    && StillScanned(i, scan, patches, 0)
  }

  /** The master, and the headers from patch `k` on, still read as they were scanned. */
  ghost predicate StillScanned(i: Image<Sector>, scan: ScanResult, patches: seq<Patch>, k: nat)
    requires IndicesOk(scan, patches)
  {
    forall j :: 0 <= j < |patches| && (k <= j || patches[j].lba == 0) ==> Scanned(i, scan, patches[j])
  }

  lemma ScannedStays(mid: Image<Sector>, after: Image<Sector>, scan: ScanResult, patches: seq<Patch>, k: nat)
    requires IndicesOk(scan, patches) && Apart(patches) && k < |patches| && patches[k].lba != 0 && Sound(mid)
    requires StillScanned(mid, scan, patches, k) && SettlesExcept(mid, after, patches[k].lba)
    ensures StillScanned(after, scan, patches, k + 1)
  {
    forall j | 0 <= j < |patches| && (k + 1 <= j || patches[j].lba == 0) ensures Scanned(after, scan, patches[j]) {
      assert Scanned(mid, scan, patches[j]) && j != k;
      SettledReads(mid, after, patches[j].lba, scan.nodes[patches[j].nodeIndex].header);
    }
  }

  // ----- what becomes of an ascending plan

  predicate Below(patches: seq<Patch>, i: nat, j: nat)
    requires i < |patches| && j < |patches|
  {
    patches[i].lba < patches[j].lba
  }

  predicate Ascending(patches: seq<Patch>) {
    forall i, j {:trigger Below(patches, i, j)} :: 0 <= i < j < |patches| ==> Below(patches, i, j)
  }

  /** The patch changes the first sector of its header. */
  predicate Changes(scan: ScanResult, p: Patch)
    requires p.nodeIndex < |scan.nodes|
  {
    FirstSector(Target(scan, p)) != FirstSector(scan.nodes[p.nodeIndex].header)
  }

  /** A plan in ascending order for the disk as it is, in which every patch changes something. */
  ghost predicate UpToDate(i: Image<Sector>, scan: ScanResult, patches: seq<Patch>)
    requires IndicesOk(scan, patches)
  {
    && Ascending(patches)
    && forall j {:trigger UpToDateAt(i, scan, patches, j)} :: 0 <= j < |patches| ==> UpToDateAt(i, scan, patches, j)
  }

  ghost predicate UpToDateAt(i: Image<Sector>, scan: ScanResult, patches: seq<Patch>, j: nat)
    requires IndicesOk(scan, patches) && j < |patches|
  {
    WellBuilt(scan, patches[j]) && Scanned(i, scan, patches[j]) && Changes(scan, patches[j])
  }

  lemma UpToDateIs(i: Image<Sector>, scan: ScanResult, patches: seq<Patch>)
    requires IndicesOk(scan, patches) && UpToDate(i, scan, patches)
    ensures PatchesWellBuilt(scan, patches) && StillScanned(i, scan, patches, 0)
    ensures forall j :: 0 <= j < |patches| ==> Changes(scan, patches[j])
    ensures forall i, j :: 0 <= i < j < |patches| ==> patches[i].lba < patches[j].lba
  {
    forall j | 0 <= j < |patches|
      ensures WellBuilt(scan, patches[j]) && Scanned(i, scan, patches[j]) && Changes(scan, patches[j])
    {
      assert UpToDateAt(i, scan, patches, j);
    }
    forall i, j | 0 <= i < j < |patches| ensures patches[i].lba < patches[j].lba {
      assert Below(patches, i, j);
    }
  }

  /** The master is patched, and its second sector belongs to another patched header. */
  predicate MasterCovered(patches: seq<Patch>) {
    exists i, j :: 0 <= i < |patches| && 0 <= j < |patches| && patches[i].lba == 0 && patches[j].lba == 1
  }

  /** How such a plan ends if the drive works. */
  function Expected(patches: seq<Patch>): Code {
    if MasterCovered(patches) then SourceChanged
    else if Apart(patches) then Success
    else CompareFailed
  }

  lemma ReadSectors(i: Image<Sector>, lba: int, h: Header)
    requires ReadsAs(i, lba, h)
    ensures lba in View(i) && View(i)[lba] == FirstSector(h)
    ensures lba + 1 in View(i) && View(i)[lba + 1] == SecondSector(h)
  {
  }

  /** The second sector of a header is only written back. */
  lemma SecondKept(scan: ScanResult, p: Patch)
    requires p.nodeIndex < |scan.nodes|
    ensures SecondSector(Target(scan, p)) == SecondSector(scan.nodes[p.nodeIndex].header)
  {
    PatchChangesOnlyLinks(scan.nodes[p.nodeIndex].header, p);
  }

  /** What the interior patches among the first `k` make of the disk. */
  ghost function Rewritten(disk: Disk, scan: ScanResult, patches: seq<Patch>, k: nat): Disk
    requires IndicesOk(scan, patches) && k <= |patches|
  {
    if k == 0 then disk
    else
      var d := Rewritten(disk, scan, patches, k - 1);
      if patches[k - 1].lba == 0 then d
      else d[patches[k - 1].lba := FirstSector(Target(scan, patches[k - 1]))]
  }

  /** None of the first `k` patches rewrites sector `s` before the master's turn. */
  predicate Spared(patches: seq<Patch>, k: nat, s: int)
    requires k <= |patches|
  {
    s == 0 || forall j :: 0 <= j < k ==> patches[j].lba != s
  }

  lemma {:induction false} RewrittenElsewhere(disk: Disk, scan: ScanResult, patches: seq<Patch>, k: nat, s: int)
    requires IndicesOk(scan, patches) && k <= |patches|
    requires Spared(patches, k, s)
    ensures var d := Rewritten(disk, scan, patches, k);
            (s in d <==> s in disk) && (s in disk ==> d[s] == disk[s])
  {
    if k > 0 {
      RewrittenElsewhere(disk, scan, patches, k - 1, s);
    }
  }

  lemma {:induction false} RewrittenAt(disk: Disk, scan: ScanResult, patches: seq<Patch>, k: nat, j: nat)
    requires IndicesOk(scan, patches) && Ascending(patches) && j < k <= |patches| && patches[j].lba != 0
    ensures var d := Rewritten(disk, scan, patches, k);
            patches[j].lba in d && d[patches[j].lba] == FirstSector(Target(scan, patches[j]))
  {
    assert j < k - 1 ==> Below(patches, j, k - 1);
    if j < k - 1 {
      RewrittenAt(disk, scan, patches, k - 1, j);
    }
  }

  /** A header of which no sector was rewritten still reads as before. */
  lemma RewrittenReads(before: Image<Sector>, now: Image<Sector>, scan: ScanResult, patches: seq<Patch>, k: nat,
                       lba: int, h: Header)
    requires IndicesOk(scan, patches) && k <= |patches| && View(now) == Rewritten(View(before), scan, patches, k)
    requires ReadsAs(before, lba, h)
    requires Spared(patches, k, lba) && Spared(patches, k, lba + 1)
    ensures ReadsAs(now, lba, h)
  {
    RewrittenElsewhere(View(before), scan, patches, k, lba);
    RewrittenElsewhere(View(before), scan, patches, k, lba + 1);
    SameSectors(View(before), View(now), lba);
  }

  /** A header that was written with its own second sector. */
  lemma RewriteViews(mid: Image<Sector>, after: Image<Sector>, lba: int, h: Header)
    requires Sound(mid) && Sound(after) && SettlesExcept(mid, after, lba) && Committed(after, lba, h)
    requires lba in View(mid) && lba + 1 in View(mid) && View(mid)[lba + 1] == SecondSector(h)
    ensures View(after) == View(mid)[lba := FirstSector(h)]
  {
    forall s | s in View(mid) && s != lba && s != lba + 1 ensures s in View(after) && View(after)[s] == View(mid)[s] {
      SettledView(mid, after, s);
    }
    assert View(after).Keys == after.durable.Keys == mid.durable.Keys == View(mid).Keys;
  }

  /** The next interior patch still finds its header, and once written it has rewritten one sector. */
  lemma FreshFinds(before: Image<Sector>, now: Image<Sector>, scan: ScanResult, patches: seq<Patch>, k: nat)
    requires IndicesOk(scan, patches) && UpToDate(before, scan, patches) && k < |patches|
    requires View(now) == Rewritten(View(before), scan, patches, k)
    requires patches[k].lba != 0
    ensures Scanned(now, scan, patches[k])
  {
    UpToDateIs(before, scan, patches);
    RewrittenReads(before, now, scan, patches, k, patches[k].lba, scan.nodes[patches[k].nodeIndex].header);
  }

  lemma FreshRewrites(before: Image<Sector>, mid: Image<Sector>, after: Image<Sector>, scan: ScanResult,
                      patches: seq<Patch>, k: nat)
    requires IndicesOk(scan, patches) && k < |patches| && patches[k].lba != 0
    requires View(mid) == Rewritten(View(before), scan, patches, k) && Scanned(mid, scan, patches[k])
    requires Sound(mid) && Sound(after) && SettlesExcept(mid, after, patches[k].lba)
    requires Committed(after, patches[k].lba, Target(scan, patches[k]))
    ensures View(after) == Rewritten(View(before), scan, patches, k + 1)
  {
    SecondKept(scan, patches[k]);
    RewriteViews(mid, after, patches[k].lba, Target(scan, patches[k]));
  }

  predicate OnlyMaster(patches: seq<Patch>) {
    forall j :: 0 <= j < |patches| ==> patches[j].lba == 0
  }

  /** What has happened when the first `i` patches have been gone through. */
  ghost predicate InteriorUpTo(before: Image<Sector>, now: Image<Sector>, history: seq<Image<Sector>>, from: nat,
                               scan: ScanResult, patches: seq<Patch>, i: nat)
    requires IndicesOk(scan, patches) && i <= |patches|
  {
    && HistoryOutside(before, history, from, patches) && SettlesOutside(before, now, patches)
    && (PastMaster(patches) ==> HistoryUntouched(before, history, from) && MasterUntouched(before, now))
    && (Apart(patches) ==> InteriorCommitted(now, scan, patches, i))
  }

  lemma InteriorStep(before: Image<Sector>, mid: Image<Sector>, after: Image<Sector>,
                     earlier: seq<Image<Sector>>, history: seq<Image<Sector>>, from: nat,
                     scan: ScanResult, patches: seq<Patch>, i: nat)
    requires IndicesOk(scan, patches) && i < |patches| && patches[i].lba != 0 && Sound(mid)
    requires from <= |earlier| <= |history| && earlier == history[..|earlier|]
    requires HistoryExcept(mid, history, |earlier|, patches[i].lba) && SettlesExcept(mid, after, patches[i].lba)
    requires InteriorUpTo(before, mid, earlier, from, scan, patches, i)
    ensures InteriorUpTo(before, after, history, from, scan, patches, 0)
    ensures Committed(after, patches[i].lba, Target(scan, patches[i])) ==>
              InteriorUpTo(before, after, history, from, scan, patches, i + 1)
  {
    OutsideExtends(before, mid, after, patches, i);
    HistoryExtends(before, mid, earlier, history, from, patches, i);
    if Apart(patches) {
      InteriorStays(mid, after, scan, patches, i, i);
    }
    if PastMaster(patches) {
      UntouchedStays(before, mid, after, patches[i].lba);
      forall k | from <= k < |history| ensures MasterUntouched(before, history[k]) {
        if k < |earlier| {
          assert history[k] == earlier[k];
        } else {
          UntouchedStays(before, mid, history[k], patches[i].lba);
        }
      }
    }
  }

  /** What is known of the first `i` patches on a working drive. */
  ghost predicate Promised(before: Image<Sector>, now: Image<Sector>, scan: ScanResult, patches: seq<Patch>, i: nat)
    requires IndicesOk(scan, patches) && i <= |patches|
  {
    && (Favourable(before, scan, patches) ==> StillScanned(now, scan, patches, i))
    && (UpToDate(before, scan, patches) ==> View(now) == Rewritten(View(before), scan, patches, i))
    && (OnlyMaster(patches) ==> now == before)
  }

  /** Plans of which no interior header can fail on a working drive. */
  ghost predicate Foretold(before: Image<Sector>, scan: ScanResult, patches: seq<Patch>)
    requires IndicesOk(scan, patches)
  {
    Favourable(before, scan, patches) || UpToDate(before, scan, patches) || OnlyMaster(patches)
  }

  lemma PromisedNow(before: Image<Sector>, mid: Image<Sector>, scan: ScanResult, patches: seq<Patch>, i: nat)
    requires IndicesOk(scan, patches) && i < |patches| && patches[i].lba != 0
    requires Foretold(before, scan, patches) && Promised(before, mid, scan, patches, i)
    ensures WellBuilt(scan, patches[i]) && Scanned(mid, scan, patches[i])
  {
    if UpToDate(before, scan, patches) {
      UpToDateIs(before, scan, patches);
      FreshFinds(before, mid, scan, patches, i);
    }
  }

  lemma PromisedNext(before: Image<Sector>, mid: Image<Sector>, after: Image<Sector>, scan: ScanResult,
                     patches: seq<Patch>, i: nat)
    requires IndicesOk(scan, patches) && i < |patches| && patches[i].lba != 0
    requires Promised(before, mid, scan, patches, i) && Scanned(mid, scan, patches[i])
    requires Sound(mid) && Sound(after) && SettlesExcept(mid, after, patches[i].lba)
    requires Committed(after, patches[i].lba, Target(scan, patches[i]))
    ensures Promised(before, after, scan, patches, i + 1)
  {
    if Favourable(before, scan, patches) {
      ScannedStays(mid, after, scan, patches, i);
    }
    if UpToDate(before, scan, patches) {
      FreshRewrites(before, mid, after, scan, patches, i);
    }
  }

  /** A patch for the master is passed over. */
  lemma InteriorSkips(before: Image<Sector>, now: Image<Sector>, history: seq<Image<Sector>>, from: nat,
                      scan: ScanResult, patches: seq<Patch>, i: nat)
    requires IndicesOk(scan, patches) && i < |patches| && patches[i].lba == 0
    ensures InteriorUpTo(before, now, history, from, scan, patches, i) ==>
              InteriorUpTo(before, now, history, from, scan, patches, i + 1)
    ensures Promised(before, now, scan, patches, i) ==> Promised(before, now, scan, patches, i + 1)
  {
  }

  lemma InteriorStarts(before: Image<Sector>, history: seq<Image<Sector>>, scan: ScanResult, patches: seq<Patch>)
    requires IndicesOk(scan, patches)
    ensures InteriorUpTo(before, before, history, |history|, scan, patches, 0)
    ensures Promised(before, before, scan, patches, 0)
  {
  }

  /** Writes the header of patch `i`, unless it is the master's. */
  method CommitNext(dev: Device<Sector>, scan: ScanResult, patches: seq<Patch>, i: nat,
                    ghost before: Image<Sector>, ghost h: seq<Image<Sector>>, ghost start: nat) returns (code: Code)
    requires IndicesOk(scan, patches) && Sound(dev.Now()) && i < |patches|
    requires |h| <= |dev.history| && dev.history[..|h|] == h && start <= dev.tick
    requires InteriorUpTo(before, dev.Now(), dev.history, |h|, scan, patches, i)
    requires Working(dev.outcomes, start) ==> Promised(before, dev.Now(), scan, patches, i)
    modifies dev
    ensures Sound(dev.Now()) && start <= dev.tick
    ensures |h| <= |dev.history| && dev.history[..|h|] == h
    ensures code.Success? ==> InteriorUpTo(before, dev.Now(), dev.history, |h|, scan, patches, i + 1)
    ensures !code.Success? ==> InteriorUpTo(before, dev.Now(), dev.history, |h|, scan, patches, 0)
    ensures PatchesWellBuilt(scan, patches) ==> !code.PatchInvalid?
    ensures !code.PlanBlocked?
    ensures Working(dev.outcomes, start) && code.Success? ==> Promised(before, dev.Now(), scan, patches, i + 1)
    ensures Working(dev.outcomes, start) && Foretold(before, scan, patches) ==> code.Success?
  {
    if patches[i].lba == 0 {
      InteriorSkips(before, dev.Now(), dev.history, |h|, scan, patches, i);
      return Success;
    }
    ghost var mid, earlier := dev.Now(), dev.history;
    if Working(dev.outcomes, start) && Foretold(before, scan, patches) {
      PromisedNow(before, mid, scan, patches, i);
    }
    code := WriteOne(dev, scan, patches[i]);
    InteriorStep(before, mid, dev.Now(), earlier, dev.history, |h|, scan, patches, i);
    if Working(dev.outcomes, start) && code.Success? {
      PromisedNext(before, mid, dev.Now(), scan, patches, i);
    }
  }

  /**
   Writes the interior headers one after another. Sectors outside the plan keep
   their contents; if no interior header touches the master, neither does this.
   */
  method CommitInterior(dev: Device<Sector>, scan: ScanResult, patches: seq<Patch>) returns (code: Code)
    requires IndicesOk(scan, patches) && Sound(dev.Now())
    modifies dev
    ensures Sound(dev.Now()) && old(dev.tick) <= dev.tick
    ensures |old(dev.history)| <= |dev.history| && old(dev.history) == dev.history[..|old(dev.history)|]
    ensures code.Success? ==>
              InteriorUpTo(old(dev.Now()), dev.Now(), dev.history, |old(dev.history)|, scan, patches, |patches|)
    ensures !code.Success? ==>
              InteriorUpTo(old(dev.Now()), dev.Now(), dev.history, |old(dev.history)|, scan, patches, 0)
    ensures PatchesWellBuilt(scan, patches) ==> !code.PatchInvalid?
    ensures !code.PlanBlocked?
    ensures Working(dev.outcomes, old(dev.tick)) && code.Success? ==>
              Promised(old(dev.Now()), dev.Now(), scan, patches, |patches|)
    ensures Working(dev.outcomes, old(dev.tick)) && Foretold(old(dev.Now()), scan, patches) ==> code.Success?
  {
    ghost var before, h, start := dev.Now(), dev.history, dev.tick;
    InteriorStarts(before, h, scan, patches);
    var i := 0;
    while i < |patches|
      invariant 0 <= i <= |patches| && Sound(dev.Now()) && start <= dev.tick
      invariant |h| <= |dev.history| && dev.history[..|h|] == h
      invariant InteriorUpTo(before, dev.Now(), dev.history, |h|, scan, patches, i)
      invariant Working(dev.outcomes, start) ==> Promised(before, dev.Now(), scan, patches, i)
    {
      code := CommitNext(dev, scan, patches, i, before, h, start);
      if !code.Success? {
        return code;
      }
      i := i + 1;
    }
    return Success;
  }

  /** The master patches among the first `k` are on the medium. */
  ghost predicate MasterCommitted(i: Image<Sector>, scan: ScanResult, patches: seq<Patch>, k: nat)
    requires IndicesOk(scan, patches) && k <= |patches|
  {
    forall j :: 0 <= j < k && patches[j].lba == 0 ==> Committed(i, 0, Target(scan, patches[j]))
  }

  /** The master patches from `k` on still find the master as it was scanned. */
  ghost predicate MasterScanned(i: Image<Sector>, scan: ScanResult, patches: seq<Patch>, k: nat)
    requires IndicesOk(scan, patches)
  {
    forall j :: k <= j < |patches| && patches[j].lba == 0 ==> Scanned(i, scan, patches[j])
  }

  lemma TwiceIsOnlyMaster(scan: ScanResult, patches: seq<Patch>)
    ensures MasterTwice(scan, patches) ==> OnlyMaster(patches)
  {
  }

  /** A plan that patches the master twice, and changes it the first time. */
  predicate MasterTwice(scan: ScanResult, patches: seq<Patch>) {
    && |patches| == 2 && patches[0].lba == 0 == patches[1].lba && PatchesWellBuilt(scan, patches)
    && Target(scan, patches[0]) != scan.nodes[patches[1].nodeIndex].header
  }

  /** Once the first of two master patches is written, the second no longer finds its header. */
  lemma SecondIsStale(i: Image<Sector>, scan: ScanResult, patches: seq<Patch>)
    requires MasterTwice(scan, patches) && Committed(i, 0, Target(scan, patches[0]))
    ensures Readable(View(i), 0) && !Scanned(i, scan, patches[1])
  {
    CommittedReads(i, 0, Target(scan, patches[0]));
  }

  /** The sectors of the master, if it is patched, can be read. */
  ghost predicate MasterReadable(i: Image<Sector>, patches: seq<Patch>) {
    forall j :: 0 <= j < |patches| && patches[j].lba == 0 ==> Readable(View(i), 0)
  }

  /** The plan holds at most one patch for the master. */
  predicate MasterOnce(patches: seq<Patch>) {
    forall i, j :: 0 <= i < j < |patches| ==> patches[i].lba != 0 || patches[j].lba != 0
  }

  lemma OnceIfDistinct(patches: seq<Patch>)
    requires Apart(patches) || Ascending(patches)
    ensures MasterOnce(patches)
  {
    forall i, j | 0 <= i < j < |patches| ensures patches[i].lba != 0 || patches[j].lba != 0 {
      assert Ascending(patches) ==> Below(patches, i, j);
    }
  }

  /** When the interior is written, the master still reads as scanned unless its second sector was rewritten. */
  lemma FreshMaster(before: Image<Sector>, now: Image<Sector>, scan: ScanResult, patches: seq<Patch>)
    requires IndicesOk(scan, patches) && UpToDate(before, scan, patches)
    requires View(now) == Rewritten(View(before), scan, patches, |patches|)
    ensures MasterReadable(now, patches)
    ensures MasterScanned(now, scan, patches, 0) <==> !MasterCovered(patches)
  {
    forall j | 0 <= j < |patches| && patches[j].lba == 0
      ensures Readable(View(now), 0) && (Scanned(now, scan, patches[j]) <==> !MasterCovered(patches))
    {
      FreshMasterAt(before, now, scan, patches, j);
    }
  }

  lemma FreshMasterAt(before: Image<Sector>, now: Image<Sector>, scan: ScanResult, patches: seq<Patch>, j: nat)
    requires IndicesOk(scan, patches) && UpToDate(before, scan, patches) && j < |patches| && patches[j].lba == 0
    requires View(now) == Rewritten(View(before), scan, patches, |patches|)
    ensures Readable(View(now), 0) && (Scanned(now, scan, patches[j]) <==> !MasterCovered(patches))
  {
    assert UpToDateAt(before, scan, patches, j);
    if MasterCovered(patches) {
      var c :| 0 <= c < |patches| && patches[c].lba == 1;
      assert UpToDateAt(before, scan, patches, c);
      RewrittenElsewhere(View(before), scan, patches, |patches|, 0);
      RewrittenAt(View(before), scan, patches, |patches|, c);
      CoveredIsStale(before, now, scan, patches[j], patches[c]);
    } else {
      RewrittenReads(before, now, scan, patches, |patches|, 0, scan.nodes[patches[j].nodeIndex].header);
    }
  }

  /** Once the neighbour of the master has been rewritten, the master reads otherwise. */
  lemma CoveredIsStale(before: Image<Sector>, now: Image<Sector>, scan: ScanResult, master: Patch, neighbour: Patch)
    requires master.nodeIndex < |scan.nodes| && neighbour.nodeIndex < |scan.nodes|
    requires master.lba == 0 && neighbour.lba == 1 && Changes(scan, neighbour)
    requires Scanned(before, scan, master) && Scanned(before, scan, neighbour)
    requires 0 in View(now) && 1 in View(now) && View(now)[1] == FirstSector(Target(scan, neighbour))
    ensures Readable(View(now), 0) && !Scanned(now, scan, master)
  {
    ReadSectors(before, 0, scan.nodes[master.nodeIndex].header);
    ReadSectors(before, 1, scan.nodes[neighbour.nodeIndex].header);
    if Scanned(now, scan, master) {
      ReadSectors(now, 0, scan.nodes[master.nodeIndex].header);
      assert false;
    }
  }

  /** Writes the master header for patch `i`. */
  method CommitMasterAt(dev: Device<Sector>, scan: ScanResult, patches: seq<Patch>, i: nat,
                        ghost before: Image<Sector>, ghost h: seq<Image<Sector>>, ghost start: nat)
    returns (code: Code)
    requires IndicesOk(scan, patches) && Sound(before) && Sound(dev.Now()) && i < |patches| && patches[i].lba == 0
    requires |h| <= |dev.history| && dev.history[..|h|] == h && start <= dev.tick
    requires MasterUpTo(before, dev.Now(), dev.history, |h|, scan, patches, i)
    requires Steady(dev.outcomes, start, before, scan, patches) ==> MasterKnown(before, dev.Now(), scan, patches, i)
    modifies dev
    ensures Sound(dev.Now()) && start <= dev.tick
    ensures |h| <= |dev.history| && dev.history[..|h|] == h
    ensures code.Success? ==> MasterUpTo(before, dev.Now(), dev.history, |h|, scan, patches, i + 1)
    ensures !code.Success? ==> MasterUpTo(before, dev.Now(), dev.history, |h|, scan, patches, 0)
    ensures PatchesWellBuilt(scan, patches) ==> !code.PatchInvalid?
    ensures !code.PlanBlocked?
    ensures Steady(dev.outcomes, start, before, scan, patches) ==>
              if code.Success? then MasterKnown(before, dev.Now(), scan, patches, i + 1)
              else MasterEnds(before, scan, patches, code)
  {
    ghost var mid, earlier := dev.Now(), dev.history;
    code := WriteOne(dev, scan, patches[i]);
    MasterStep(before, mid, dev.Now(), earlier, dev.history, |h|, scan, patches, i);
    if Steady(dev.outcomes, start, before, scan, patches) {
      KnownNext(before, mid, dev.Now(), scan, patches, i, code);
    }
  }

  /** Writes the master, every interior header being durable. */
  method CommitMaster(dev: Device<Sector>, scan: ScanResult, patches: seq<Patch>) returns (code: Code)
    requires IndicesOk(scan, patches) && Sound(dev.Now())
    modifies dev
    ensures Sound(dev.Now()) && old(dev.tick) <= dev.tick
    ensures |old(dev.history)| <= |dev.history| && old(dev.history) == dev.history[..|old(dev.history)|]
    ensures code.Success? ==>
              MasterUpTo(old(dev.Now()), dev.Now(), dev.history, |old(dev.history)|, scan, patches, |patches|)
    ensures MasterUpTo(old(dev.Now()), dev.Now(), dev.history, |old(dev.history)|, scan, patches, 0)
    ensures PatchesWellBuilt(scan, patches) ==> !code.PatchInvalid?
    ensures !code.PlanBlocked?
    ensures Steady(dev.outcomes, old(dev.tick), old(dev.Now()), scan, patches) ==>
              MasterEnds(old(dev.Now()), scan, patches, code)
  {
    ghost var before, h, start := dev.Now(), dev.history, dev.tick;
    MasterStarts(before, h, scan, patches);
    var i := 0;
    while i < |patches|
      invariant 0 <= i <= |patches| && Sound(dev.Now()) && start <= dev.tick
      invariant |h| <= |dev.history| && dev.history[..|h|] == h
      invariant MasterUpTo(before, dev.Now(), dev.history, |h|, scan, patches, i)
      invariant Steady(dev.outcomes, start, before, scan, patches) ==>
        MasterKnown(before, dev.Now(), scan, patches, i)
    {
      if patches[i].lba == 0 {
        code := CommitMasterAt(dev, scan, patches, i, before, h, start);
        if !code.Success? {
          return code;
        }
      } else {
        MasterSkips(before, dev.Now(), dev.history, |h|, scan, patches, i);
      }
      i := i + 1;
    }
    KnownEnds(before, dev.Now(), dev.history, |h|, scan, patches);
    return Success;
  }

  /** A working drive, well-built patches, and a master that can be read. */
  ghost predicate Steady(outcomes: nat -> Outcome, start: nat, before: Image<Sector>, scan: ScanResult,
                         patches: seq<Patch>) {
    Working(outcomes, start) && PatchesWellBuilt(scan, patches) && MasterReadable(before, patches)
  }

  /** What is then known when the first `i` patches have been gone through. */
  ghost predicate MasterKnown(before: Image<Sector>, now: Image<Sector>, scan: ScanResult, patches: seq<Patch>, i: nat)
    requires IndicesOk(scan, patches) && i <= |patches|
  {
    && (MasterOnce(patches) ==>
          if NoMasterIn(patches, i) then now == before else MasterScanned(before, scan, patches, 0))
    && (MasterTwice(scan, patches) && MasterScanned(before, scan, patches, 0) ==>
          i < 2 && if i == 0 then now == before else Committed(now, 0, Target(scan, patches[0])))
  }

  /** How the master's turn then ends. */
  ghost predicate MasterEnds(before: Image<Sector>, scan: ScanResult, patches: seq<Patch>, code: Code)
    requires IndicesOk(scan, patches)
  {
    && (code.Success? || code.SourceChanged?)
    && (MasterOnce(patches) ==> (code.Success? <==> MasterScanned(before, scan, patches, 0)))
    && (MasterTwice(scan, patches) && MasterScanned(before, scan, patches, 0) ==> code.SourceChanged?)
  }

  lemma KnownNext(before: Image<Sector>, mid: Image<Sector>, after: Image<Sector>, scan: ScanResult,
                  patches: seq<Patch>, i: nat, code: Code)
    requires IndicesOk(scan, patches) && i < |patches| && patches[i].lba == 0 && MasterReadable(before, patches)
    requires MasterKnown(before, mid, scan, patches, i)
    requires code.Success? ==> Committed(after, 0, Target(scan, patches[i])) && Scanned(mid, scan, patches[i])
    requires Readable(View(mid), 0) ==> code == if Scanned(mid, scan, patches[i]) then Success else SourceChanged
    requires SettlesOutside(before, mid, patches) && Sound(before) && Sound(mid)
    ensures if code.Success? then MasterKnown(before, after, scan, patches, i + 1)
            else MasterEnds(before, scan, patches, code)
  {
    assert Readable(View(mid), 0);
    if MasterTwice(scan, patches) && MasterScanned(before, scan, patches, 0) && i == 1 {
      SecondIsStale(mid, scan, patches);
    }
  }

  lemma KnownEnds(before: Image<Sector>, now: Image<Sector>, history: seq<Image<Sector>>, from: nat,
                  scan: ScanResult, patches: seq<Patch>)
    requires IndicesOk(scan, patches)
    ensures MasterKnown(before, now, scan, patches, |patches|) ==> MasterEnds(before, scan, patches, Success)
    ensures MasterUpTo(before, now, history, from, scan, patches, |patches|) ==>
              MasterUpTo(before, now, history, from, scan, patches, 0)
  {
  }

  lemma MasterSkips(before: Image<Sector>, now: Image<Sector>, history: seq<Image<Sector>>, from: nat,
                    scan: ScanResult, patches: seq<Patch>, i: nat)
    requires IndicesOk(scan, patches) && i < |patches| && patches[i].lba != 0
    ensures MasterUpTo(before, now, history, from, scan, patches, i) ==>
              MasterUpTo(before, now, history, from, scan, patches, i + 1)
    ensures MasterKnown(before, now, scan, patches, i) ==> MasterKnown(before, now, scan, patches, i + 1)
  {
  }

  lemma MasterStarts(before: Image<Sector>, history: seq<Image<Sector>>, scan: ScanResult, patches: seq<Patch>)
    requires IndicesOk(scan, patches)
    ensures MasterUpTo(before, before, history, |history|, scan, patches, 0)
    ensures MasterKnown(before, before, scan, patches, 0)
  {
  }

  predicate NoMasterIn(patches: seq<Patch>, k: nat)
    requires k <= |patches|
  {
    forall j :: 0 <= j < k ==> patches[j].lba != 0
  }

  /** What has happened when the master patches among the first `i` are written. */
  ghost predicate MasterUpTo(before: Image<Sector>, now: Image<Sector>, history: seq<Image<Sector>>, from: nat,
                             scan: ScanResult, patches: seq<Patch>, i: nat)
    requires IndicesOk(scan, patches) && i <= |patches|
  {
    && HistoryOutside(before, history, from, patches) && SettlesOutside(before, now, patches)
    && (Apart(patches) && InteriorCommitted(before, scan, patches, |patches|) ==>
          HistoryInterior(history, from, scan, patches) && InteriorCommitted(now, scan, patches, |patches|))
    && (Apart(patches) ==> MasterCommitted(now, scan, patches, i))
  }

  ghost predicate HistoryInterior(history: seq<Image<Sector>>, from: nat, scan: ScanResult, patches: seq<Patch>)
    requires IndicesOk(scan, patches)
  {
    forall k :: from <= k < |history| ==> InteriorCommitted(history[k], scan, patches, |patches|)
  }

  lemma MasterStep(before: Image<Sector>, mid: Image<Sector>, after: Image<Sector>,
                   earlier: seq<Image<Sector>>, history: seq<Image<Sector>>, from: nat,
                   scan: ScanResult, patches: seq<Patch>, i: nat)
    requires IndicesOk(scan, patches) && i < |patches| && patches[i].lba == 0
    requires from <= |earlier| <= |history| && earlier == history[..|earlier|]
    requires HistoryExcept(mid, history, |earlier|, 0) && SettlesExcept(mid, after, 0)
    requires MasterUpTo(before, mid, earlier, from, scan, patches, i)
    ensures MasterUpTo(before, after, history, from, scan, patches, 0)
    ensures Committed(after, 0, Target(scan, patches[i])) ==>
              MasterUpTo(before, after, history, from, scan, patches, i + 1)
  {
    OutsideExtends(before, mid, after, patches, i);
    HistoryExtends(before, mid, earlier, history, from, patches, i);
    if Apart(patches) {
      OnceIfDistinct(patches);
      if InteriorCommitted(before, scan, patches, |patches|) {
        InteriorStays(mid, after, scan, patches, |patches|, i);
        forall k | from <= k < |history| ensures InteriorCommitted(history[k], scan, patches, |patches|) {
          if k < |earlier| {
            assert history[k] == earlier[k];
          } else {
            InteriorStays(mid, history[k], scan, patches, |patches|, i);
          }
        }
      }
    }
  }

  ghost predicate AllRead(i: Image<Sector>, scan: ScanResult, patches: seq<Patch>)
    requires IndicesOk(scan, patches)
  {
    forall j :: 0 <= j < |patches| ==> ReadsAs(i, patches[j].lba, Target(scan, patches[j]))
  }

  ghost predicate AllReadable(i: Image<Sector>, patches: seq<Patch>) {
    forall j :: 0 <= j < |patches| ==> Readable(View(i), patches[j].lba)
  }

  lemma StaysReadable(before: Image<Sector>, after: Image<Sector>, scan: ScanResult, patches: seq<Patch>)
    requires IndicesOk(scan, patches) && Sound(before) && Sound(after) && SettlesOutside(before, after, patches)
    requires StillScanned(before, scan, patches, 0)
    ensures AllReadable(after, patches)
  {
    forall j | 0 <= j < |patches| ensures Readable(View(after), patches[j].lba) {
      assert Scanned(before, scan, patches[j]);
    }
  }

  /** If every header of a plan reads as planned, none of them shares a sector with another. */
  lemma AllReadIsApart(before: Image<Sector>, now: Image<Sector>, scan: ScanResult, patches: seq<Patch>)
    requires IndicesOk(scan, patches) && UpToDate(before, scan, patches) && AllRead(now, scan, patches)
    ensures Apart(patches)
  {
    UpToDateIs(before, scan, patches);
    forall i, j | 0 <= i < j < |patches| ensures patches[i].lba + 2 <= patches[j].lba {
      if patches[j].lba == patches[i].lba + 1 {
        SharedSector(before, now, scan, patches[i], patches[j]);
      }
    }
  }

  /** Of two neighbours, not both can read as planned: the sector they share was to stay and to change. */
  lemma SharedSector(before: Image<Sector>, now: Image<Sector>, scan: ScanResult, p: Patch, q: Patch)
    requires p.nodeIndex < |scan.nodes| && q.nodeIndex < |scan.nodes| && q.lba == p.lba + 1 && Changes(scan, q)
    requires Scanned(before, scan, p) && Scanned(before, scan, q)
    ensures !ReadsAs(now, p.lba, Target(scan, p)) || !ReadsAs(now, q.lba, Target(scan, q))
  {
    SecondKept(scan, p);
    ReadSectors(before, p.lba, scan.nodes[p.nodeIndex].header);
    ReadSectors(before, q.lba, scan.nodes[q.nodeIndex].header);
    if ReadsAs(now, p.lba, Target(scan, p)) && ReadsAs(now, q.lba, Target(scan, q)) {
      ReadSectors(now, p.lba, Target(scan, p));
      ReadSectors(now, q.lba, Target(scan, q));
      assert false;
    }
  }

  /** Reads every touched header back and compares it with the plan. */
  method VerifyAll(dev: Device<Sector>, scan: ScanResult, patches: seq<Patch>) returns (code: Code)
    requires IndicesOk(scan, patches)
    modifies dev`tick
    ensures old(dev.tick) <= dev.tick
    ensures code.Success? ==> AllRead(dev.Now(), scan, patches)
    ensures PatchesWellBuilt(scan, patches) ==> !code.PatchInvalid?
    ensures !code.PlanBlocked?
    ensures (&& PatchesWellBuilt(scan, patches) && Working(dev.outcomes, old(dev.tick))
             && AllReadable(dev.Now(), patches)) ==>
              code == if AllRead(dev.Now(), scan, patches) then Success else CompareFailed
  {
    var i := 0;
    while i < |patches|
      invariant 0 <= i <= |patches| && old(dev.tick) <= dev.tick
      invariant forall j :: 0 <= j < i ==> ReadsAs(dev.Now(), patches[j].lba, Target(scan, patches[j]))
    {
      var rebuilt := BuildPatchedHeader(scan, patches[i]);
      if !rebuilt.Rebuilt? {
        return PatchInvalid;
      }
      var verify := ReadHeader(dev, patches[i].lba);
      if verify.None? {
        return ReadbackFailed;
      }
      if verify.value != rebuilt.header {
        return CompareFailed;
      }
      i := i + 1;
    }
    return Success;
  }

  /** What the commit sequence keeps: everything outside the plan, and the master until all else is durable. */
  ghost predicate Committing(before: Image<Sector>, now: Image<Sector>, history: seq<Image<Sector>>, from: nat,
                             scan: ScanResult, patches: seq<Patch>)
    requires IndicesOk(scan, patches)
  {
    && HistoryOutside(before, history, from, patches) && SettlesOutside(before, now, patches)
    && (Apart(patches) && PastMaster(patches) ==> HistoryMasterLast(before, history, from, scan, patches))
  }

  /** How the commit sequence ends on a working drive. */
  ghost predicate CommitEnds(before: Image<Sector>, now: Image<Sector>, scan: ScanResult, patches: seq<Patch>,
                             code: Code)
    requires IndicesOk(scan, patches)
  {
    && (Favourable(before, scan, patches) ==> code.Success? && AllRead(now, scan, patches))
    && (UpToDate(before, scan, patches) ==> code == if MasterCovered(patches) then SourceChanged else Success)
    && (MasterTwice(scan, patches) && MasterScanned(before, scan, patches, 0) ==> code.SourceChanged?)
  }

  /** The commit sequence: the interior headers, then the master. */
  method Commit(dev: Device<Sector>, scan: ScanResult, patches: seq<Patch>) returns (code: Code)
    requires IndicesOk(scan, patches) && Sound(dev.Now())
    modifies dev
    ensures Sound(dev.Now()) && old(dev.tick) <= dev.tick
    ensures |old(dev.history)| <= |dev.history| && old(dev.history) == dev.history[..|old(dev.history)|]
    ensures Committing(old(dev.Now()), dev.Now(), dev.history, |old(dev.history)|, scan, patches)
    ensures PatchesWellBuilt(scan, patches) ==> !code.PatchInvalid?
    ensures !code.PlanBlocked?
    ensures Working(dev.outcomes, old(dev.tick)) ==> CommitEnds(old(dev.Now()), dev.Now(), scan, patches, code)
  {
    ghost var before, from, start := dev.Now(), |dev.history|, dev.tick;
    code := CommitInterior(dev, scan, patches);
    ghost var mid, middle := dev.Now(), dev.history;
    if !code.Success? {
      InteriorFailed(before, mid, middle, from, scan, patches, code);
      return code;
    }
    code := CommitMaster(dev, scan, patches);
    ghost var after := dev.Now();
    Joined(before, mid, after, middle, dev.history, from, scan, patches);
    if Working(dev.outcomes, start) {
      if code.Success? {
        CommittedAllRead(mid, after, dev.history, |middle|, scan, patches);
      }
      PromiseKept(before, mid, after, scan, patches, code);
    }
  }

  lemma InteriorFailed(before: Image<Sector>, now: Image<Sector>, history: seq<Image<Sector>>, from: nat,
                       scan: ScanResult, patches: seq<Patch>, code: Code)
    requires IndicesOk(scan, patches) && InteriorUpTo(before, now, history, from, scan, patches, 0)
    ensures Committing(before, now, history, from, scan, patches)
    ensures !Foretold(before, scan, patches) ==> CommitEnds(before, now, scan, patches, code)
  {
    TwiceIsOnlyMaster(scan, patches);
  }

  lemma PromiseKept(before: Image<Sector>, mid: Image<Sector>, after: Image<Sector>, scan: ScanResult,
                    patches: seq<Patch>, code: Code)
    requires IndicesOk(scan, patches) && Promised(before, mid, scan, patches, |patches|)
    requires PatchesWellBuilt(scan, patches) && MasterReadable(mid, patches) ==> MasterEnds(mid, scan, patches, code)
    requires code.Success? && Apart(patches) ==> AllRead(after, scan, patches)
    ensures CommitEnds(before, after, scan, patches, code)
  {
    if Favourable(before, scan, patches) {
      OnceIfDistinct(patches);
    }
    if UpToDate(before, scan, patches) {
      UpToDateIs(before, scan, patches);
      OnceIfDistinct(patches);
      FreshMaster(before, mid, scan, patches);
    }
    if MasterTwice(scan, patches) && MasterScanned(before, scan, patches, 0) {
      TwiceIsOnlyMaster(scan, patches);
    }
  }

  predicate Blocked(scan: ScanResult, plan: RepairPlan) {
    scan.truncated || !plan.manualAllowed || |plan.patches| == 0 || plan.mapIndex >= |scan.maps|
  }

  /**
   Applies a plan. Whatever fails, sectors outside the touched headers keep
   their contents, and at no moment can a crash leave a changed master unless
   every interior header is durable. Success means that every touched header
   reads back as planned, and on a working drive a well-built plan whose
   headers still read as scanned succeeds.
   */
  method ApplyVerified(dev: Device<Sector>, scan: ScanResult, plan: RepairPlan) returns (code: Code)
    requires IndicesOk(scan, plan.patches) && Sound(dev.Now())
    modifies dev
    ensures Sound(dev.Now())
    ensures |old(dev.history)| <= |dev.history| && old(dev.history) == dev.history[..|old(dev.history)|]
    ensures HistoryOutside(old(dev.Now()), dev.history, |old(dev.history)|, plan.patches)
    ensures SettlesOutside(old(dev.Now()), dev.Now(), plan.patches)
    ensures Apart(plan.patches) && PastMaster(plan.patches) ==>
              HistoryMasterLast(old(dev.Now()), dev.history, |old(dev.history)|, scan, plan.patches)
    ensures code.PlanBlocked? <==> Blocked(scan, plan)
    ensures !plan.manualAllowed || plan.patches == [] || scan.truncated || plan.mapIndex >= |scan.maps| ==>
              code.PlanBlocked?
    ensures code.PlanBlocked? ==> dev.Now() == old(dev.Now()) && dev.history == old(dev.history)
    ensures code.Success? ==> AllRead(dev.Now(), scan, plan.patches)
    ensures PatchesWellBuilt(scan, plan.patches) ==> !code.PatchInvalid?
    ensures (&& !Blocked(scan, plan) && Working(dev.outcomes, old(dev.tick))
             && Favourable(old(dev.Now()), scan, plan.patches)) ==> code.Success?
    ensures (&& !Blocked(scan, plan) && Working(dev.outcomes, old(dev.tick))
             && UpToDate(old(dev.Now()), scan, plan.patches)) ==> code == Expected(plan.patches)
    ensures (&& !Blocked(scan, plan) && Working(dev.outcomes, old(dev.tick)) && MasterTwice(scan, plan.patches)
             && MasterScanned(old(dev.Now()), scan, plan.patches, 0)) ==> code.SourceChanged?
  {
    if scan.truncated || !plan.manualAllowed || |plan.patches| == 0 || plan.mapIndex >= |scan.maps| {
      return PlanBlocked;
    }
    ghost var before := dev.Now();
    code := Commit(dev, scan, plan.patches);
    if code.Success? {
      FreshEnds(before, dev.Now(), scan, plan.patches);
      code := VerifyAll(dev, scan, plan.patches);
    }
  }

  lemma FreshEnds(before: Image<Sector>, now: Image<Sector>, scan: ScanResult, patches: seq<Patch>)
    requires IndicesOk(scan, patches) && Sound(before) && Sound(now) && SettlesOutside(before, now, patches)
    ensures UpToDate(before, scan, patches) ==>
              && PatchesWellBuilt(scan, patches) && AllReadable(now, patches)
              && (AllRead(now, scan, patches) ==> Apart(patches))
              && (Apart(patches) ==> Favourable(before, scan, patches))
  {
    if UpToDate(before, scan, patches) {
      UpToDateIs(before, scan, patches);
      StaysReadable(before, now, scan, patches);
      if AllRead(now, scan, patches) {
        AllReadIsApart(before, now, scan, patches);
      }
    }
  }

  lemma CommittedAllRead(mid: Image<Sector>, now: Image<Sector>, history: seq<Image<Sector>>, from: nat,
                         scan: ScanResult, patches: seq<Patch>)
    requires IndicesOk(scan, patches) && MasterUpTo(mid, now, history, from, scan, patches, |patches|)
    requires Apart(patches) ==> InteriorCommitted(mid, scan, patches, |patches|)
    ensures Apart(patches) ==> AllRead(now, scan, patches)
  {
    if Apart(patches) {
      forall j | 0 <= j < |patches| ensures ReadsAs(now, patches[j].lba, Target(scan, patches[j])) {
        CommittedReads(now, patches[j].lba, Target(scan, patches[j]));
      }
    }
  }

  lemma Joined(before: Image<Sector>, mid: Image<Sector>, after: Image<Sector>,
               middle: seq<Image<Sector>>, history: seq<Image<Sector>>, from: nat,
               scan: ScanResult, patches: seq<Patch>)
    requires IndicesOk(scan, patches)
    requires from <= |middle| <= |history| && middle == history[..|middle|]
    requires InteriorUpTo(before, mid, middle, from, scan, patches, |patches|)
    requires MasterUpTo(mid, after, history, |middle|, scan, patches, 0)
    ensures Committing(before, after, history, from, scan, patches)
    ensures Apart(patches) ==> InteriorCommitted(mid, scan, patches, |patches|)
  {
    OutsideTransitive(before, mid, after, patches);
    forall k | from <= k < |history| ensures SettlesOutside(before, history[k], patches) {
      if k < |middle| {
        assert history[k] == middle[k];
      } else {
        OutsideTransitive(before, mid, history[k], patches);
      }
    }
    if Apart(patches) && PastMaster(patches) {
      forall k | from <= k < |history| ensures MasterLast(before, history[k], scan, patches) {
        if k < |middle| {
          assert history[k] == middle[k];
        }
      }
    }
  }

  lemma OutsideTransitive(a: Image<Sector>, b: Image<Sector>, c: Image<Sector>, patches: seq<Patch>)
    requires SettlesOutside(a, b, patches) && SettlesOutside(b, c, patches)
    ensures SettlesOutside(a, c, patches)
  {
    forall s | !InFootprint(patches, s) ensures Settles(a, c, s) {
      SettlesTransitive(a, b, c, s);
    }
  }
}
