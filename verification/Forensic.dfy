/**
 The vocabulary of the APA forensic scan: evidence, nodes, the score of a
 header, and what a scan that has admitted a list of nodes must satisfy.
 */
module Forensic {
  import opened Words
  import opened Apa

  const SCAN_STEP: u32 := 0x40000
  const MAX_NODES: nat := 2048
  const MAX_MAPS: nat := 3

  /** A position the coarse scan visits: 0, or one step after such a position. */
  predicate OnGrid(lba: int)
    decreases lba
  {
    lba == 0 || (lba >= SCAN_STEP && OnGrid(lba - SCAN_STEP))
  }

  lemma GridStep(lba: int)
    requires OnGrid(lba)
    ensures OnGrid(lba + SCAN_STEP)
  {
    assert lba + SCAN_STEP - SCAN_STEP == lba;
  }

  /** Grid positions are exactly the multiples of the scan step. */
  lemma {:induction false} OnGridMeansMultiple(lba: int)
    requires 0 <= lba
    ensures OnGrid(lba) <==> lba % 0x40000 == 0
  {
    if lba >= SCAN_STEP {
      OnGridMeansMultiple(lba - SCAN_STEP);
    }
  }

  lemma {:induction false} NothingBetweenGrid(g: int, lba: int)
    requires OnGrid(g) && OnGrid(lba) && g < lba + SCAN_STEP
    ensures g <= lba
  {
    if lba != 0 && g != 0 {
      NothingBetweenGrid(g - SCAN_STEP, lba - SCAN_STEP);
    }
  }

  datatype Evidence = Evidence(
    magic: bool, selfStart: bool, checksum: bool, length: bool, nsub: bool,
    typ: bool, id: bool, grid: bool, referenced: bool, dormant: bool)

  datatype Source = Grid | Referenced

  function WithSource(e: Evidence, source: Source): Evidence {
    match source
    case Grid => e.(grid := true)
    case Referenced => e.(referenced := true)
  }

  const NO_EVIDENCE := Evidence(false, false, false, false, false, false, false, false, false, false)

  // ----- what a header shows by itself

  predicate MagicOk(h: Header) { h[MAGIC_WORD] == APA_MAGIC }

  predicate SelfStart(h: Header, lba: int) { h[START_WORD] == lba }

  predicate LengthOk(h: Header, total: u32) {
    h[LENGTH_WORD] != 0 && h[START_WORD] < total && h[START_WORD] + h[LENGTH_WORD] <= total
  }

  predicate NsubOk(h: Header) { h[NSUB_WORD] <= MAX_SUBS }

  predicate TypePlausible(t: u16) {
    t in {0x0000, 0x0001, 0x0082, 0x0083, 0x0088, 0x0100, 0x0101, 0x1337}
  }

  predicate Printable(b: byte) { 0x20 <= b <= 0x7e }

  /** The identifier is `n` printable characters, then a terminator or the end of the field. */
  predicate IdOfLength(h: Header, n: nat) {
    && n <= ID_SIZE
    && (forall i :: 0 <= i < n ==> Printable(IdByte(h, i)))
    && (n < ID_SIZE ==> IdByte(h, n) == 0)
  }

  predicate IdPlausible(h: Header) {
    exists n :: 1 <= n <= ID_SIZE && IdOfLength(h, n)
  }

  predicate Anchored(h: Header, lba: int) { MagicOk(h) || SelfStart(h, lba) }

  function Points(b: bool, n: nat): nat { if b then n else 0 }

  function FullScore(h: Header, lba: int, total: u32): (score: nat)
    ensures score <= 100
  {
    if !MagicOk(h) && !LengthOk(h, total) && !IdPlausible(h) then 0
    else Points(MagicOk(h), 25) + Points(SelfStart(h, lba), 20) + Points(ChecksumOk(h), 20)
         + Points(LengthOk(h, total), 15) + Points(NsubOk(h), 5)
         + Points(TypePlausible(TypeOf(h)), 5) + Points(IdPlausible(h), 10)
  }

  /** Confidence given to a header when it is reached through `source`. */
  function Confidence(h: Header, lba: int, total: u32, source: Source): nat {
    if source.Grid? && !Anchored(h, lba) then 0 else FullScore(h, lba, total)
  }

  predicate Admitted(confidence: nat, lba: int) {
    confidence >= 30 || (lba == 0 && confidence >= 20)
  }

  function Content(h: Header, lba: int, total: u32): Evidence {
    Evidence(MagicOk(h), SelfStart(h, lba), ChecksumOk(h), LengthOk(h, total), NsubOk(h),
             TypePlausible(TypeOf(h)), IdPlausible(h), false, false, false)
  }

  // ----- nodes

  datatype Node = Node(lba: u32, header: Header, calculated: u32, evidence: Evidence, confidence: nat) {
    function Stored(): u32 { header[CHECKSUM_WORD] }
    function Next(): u32 { header[NEXT_WORD] }
    function Prev(): u32 { header[PREV_WORD] }
    function Start(): u32 { header[START_WORD] }
    function Length(): u32 { header[LENGTH_WORD] }
    function Main(): u32 { header[MAIN_WORD] }
    function Nsub(): u32 { header[NSUB_WORD] }

    /** Evidence without the flags that say how the node was found or classified. */
    function OwnEvidence(): Evidence {
      evidence.(grid := false, referenced := false, dormant := false)
    }
  }

  /** Both sectors of a header at `lba` lie on the disk. */
  predicate InDisk(lba: int, total: u32) { 0 <= lba && lba + 2 <= total }

  /** The node is what the disk holds at its LBA, and it was rightly admitted. */
  ghost predicate SoundNode(disk: Disk, total: u32, n: Node) {
    && InDisk(n.lba, total)
    && Readable(disk, n.lba)
    && n.header == HeaderAt(disk, n.lba)
    && n.calculated == Checksum(n.header)
    && n.confidence == FullScore(n.header, n.lba, total)
    && Admitted(n.confidence, n.lba)
    && n.OwnEvidence() == Content(n.header, n.lba, total)
    && (n.evidence.referenced || Anchored(n.header, n.lba))
  }

  ghost predicate HasLba(nodes: seq<Node>, lba: int) {
    exists i :: 0 <= i < |nodes| && nodes[i].lba == lba
  }

  ghost predicate DistinctLbas(nodes: seq<Node>) {
    forall i, j :: 0 <= i < j < |nodes| ==> nodes[i].lba != nodes[j].lba
  }

  /** The node with a given LBA, found by looking at all of them. */
  ghost function Find(nodes: seq<Node>, lba: int): (r: Option<nat>)
    ensures r.Some? ==> r.value < |nodes| && nodes[r.value].lba == lba
    ensures r.None? <==> !HasLba(nodes, lba)
  {
    if HasLba(nodes, lba) then
      var i :| 0 <= i < |nodes| && nodes[i].lba == lba;
      Some(i)
    else None
  }

  /** A header at `lba` that a reference would admit. */
  ghost predicate AdmissibleAt(disk: Disk, total: u32, lba: int) {
    InDisk(lba, total) && Readable(disk, lba) && Admitted(FullScore(HeaderAt(disk, lba), lba, total), lba)
  }

  /** A header on the disk that the scan did not keep. */
  ghost predicate LeftBehind(disk: Disk, total: u32, nodes: seq<Node>, lba: int) {
    AdmissibleAt(disk, total, lba) && !HasLba(nodes, lba)
  }

  /** What holds of the nodes at every moment of a scan. */
  ghost predicate SoundNodes(disk: Disk, total: u32, nodes: seq<Node>, truncated: bool) {
    && |nodes| <= MAX_NODES
    && DistinctLbas(nodes)
    && (forall i :: 0 <= i < |nodes| ==> SoundNode(disk, total, nodes[i]))
    && (truncated ==> |nodes| == MAX_NODES && exists lba :: LeftBehind(disk, total, nodes, lba))
  }

  /** Once a header has been looked at through `source`, it is a node if it is admissible. */
  ghost predicate Covered(disk: Disk, total: u32, nodes: seq<Node>, lba: int, source: Source) {
    InDisk(lba, total) && Readable(disk, lba) &&
    Admitted(Confidence(HeaderAt(disk, lba), lba, total, source), lba)
    ==> HasLba(nodes, lba)
  }

  /** A node whose references are worth following. */
  predicate Eligible(n: Node) {
    n.confidence >= 50 && n.evidence.magic && n.evidence.length
  }

  /** `lba` is a reference that the chase follows from `n`. */
  ghost predicate Refers(n: Node, lba: int) {
    && Eligible(n)
    && lba != 0
    && (lba == n.Next() || lba == n.Prev() || lba == n.Main() || RefersToSub(n, n.Nsub(), lba))
  }

  ghost predicate RefersToSub(n: Node, below: int, lba: int) {
    && n.Nsub() <= MAX_SUBS && n.confidence >= 60
    && exists k :: 0 <= k < below && k < MAX_SUBS && lba == SubStart(n.header, k)
  }

  /** Every reference of `n` that leads to an admissible header leads to a node. */
  ghost predicate Chased(disk: Disk, total: u32, nodes: seq<Node>, n: Node) {
    forall lba :: Refers(n, lba) ==> Covered(disk, total, nodes, lba, Referenced)
  }

  ghost predicate ReferenceClosed(disk: Disk, total: u32, nodes: seq<Node>) {
    forall i :: 0 <= i < |nodes| ==> Chased(disk, total, nodes, nodes[i])
  }

  ghost predicate GridComplete(disk: Disk, total: u32, nodes: seq<Node>, limit: int) {
    forall lba {:trigger Covered(disk, total, nodes, lba, Grid)} ::
      0 <= lba < limit && OnGrid(lba) ==> Covered(disk, total, nodes, lba, Grid)
  }

  /** Later nodes keep everything earlier ones had, apart from gained flags. */
  ghost predicate Extends(before: seq<Node>, after: seq<Node>) {
    && |before| <= |after|
    && forall i :: 0 <= i < |before| ==> SameHeader(before[i], after[i])
  }

  predicate SameHeader(a: Node, b: Node) {
    b == a.(evidence := b.evidence) && b.OwnEvidence() == a.OwnEvidence()
  }

  /** What has been looked at stays covered as the node list grows. */
  lemma CoveredGrows(disk: Disk, total: u32, before: seq<Node>, after: seq<Node>)
    requires Extends(before, after)
    ensures forall lba :: HasLba(before, lba) ==> HasLba(after, lba)
    ensures forall lba, source :: Covered(disk, total, before, lba, source) ==>
                                  Covered(disk, total, after, lba, source)
  {
    forall lba | HasLba(before, lba) ensures HasLba(after, lba) {
      var i :| 0 <= i < |before| && before[i].lba == lba;
      assert SameHeader(before[i], after[i]) && after[i].lba == lba;
    }
  }

  lemma ExtendsTransitive(a: seq<Node>, b: seq<Node>, c: seq<Node>)
    requires Extends(a, b) && Extends(b, c)
    ensures Extends(a, c)
  {
    forall i | 0 <= i < |a| ensures SameHeader(a[i], c[i]) {
      assert SameHeader(a[i], b[i]) && SameHeader(b[i], c[i]);
    }
  }

  // ----- reading one header

  method CheckId(h: Header) returns (ok: bool)
    ensures ok == IdPlausible(h)
  {
    var i := 0;
    while i < ID_SIZE
      invariant 0 <= i <= ID_SIZE
      invariant forall k :: 0 <= k < i ==> Printable(IdByte(h, k))
    {
      var c := IdByte(h, i);
      if c == 0 {
        if i > 0 {
          assert IdOfLength(h, i);
          return true;
        }
        return false;
      }
      if !Printable(c) {
        return false;
      }
      i := i + 1;
    }
    assert IdOfLength(h, ID_SIZE);
    return true;
  }

  /** Evidence, calculated checksum and confidence of one header read at `lba`. */
  method InspectHeader(h: Header, lba: u32, total: u32, source: Source)
    returns (evidence: Evidence, calculated: u32, confidence: nat)
    ensures confidence == Confidence(h, lba, total, source)
    ensures if source.Grid? && !Anchored(h, lba) then
              evidence == WithSource(NO_EVIDENCE, source) && calculated == 0
            else
              evidence == WithSource(Content(h, lba, total), source) && calculated == Checksum(h)
  {
    evidence := WithSource(NO_EVIDENCE, source);
    calculated := 0;
    var score := 0;
    if MagicOk(h) {
      evidence := evidence.(magic := true);
      score := score + 25;
    }
    if SelfStart(h, lba) {
      evidence := evidence.(selfStart := true);
      score := score + 20;
    }
    if !evidence.referenced && !evidence.magic && !evidence.selfStart {
      return evidence, calculated, 0;
    }
    calculated := ApaChecksum(h);
    var checksumOk := h[CHECKSUM_WORD] == calculated;
    var idOk := CheckId(h);
    evidence := evidence.(checksum := checksumOk, length := LengthOk(h, total), nsub := NsubOk(h),
                          typ := TypePlausible(TypeOf(h)), id := idOk);
    score := score + Points(checksumOk, 20) + Points(LengthOk(h, total), 15) + Points(NsubOk(h), 5)
             + Points(TypePlausible(TypeOf(h)), 5) + Points(idOk, 10);
    if !evidence.magic && !evidence.length && !evidence.id {
      score := 0;
    }
    confidence := score;
  }
}
