/**
 Exact recovery: a healthy chain whose prev/next words are damaged is found
 again by a scan, and its automatic plan restores the disk byte for byte.
 */
module ForensicRecovery {
  import opened Words
  import opened Apa
  import opened Forensic
  import opened ForensicMaps
  import opened ForensicPlan
  import opened ForensicShape
  import opened ForensicHeal

  // ----- the situation

  predicate StrictlyAscending(s: seq<int>) {
    forall i, j :: 0 <= i < j < |s| ==> s[i] < s[j]
  }

  /** First sector after the extent of the header at `lba`. */
  ghost function ExtentEnd(disk: Disk, lba: int): int
    requires Readable(disk, lba)
  {
    lba + HeaderAt(disk, lba)[LENGTH_WORD]
  }

  /** A linked, checksummed chain of disjoint extents, all of them on the scan grid. */
  ghost predicate HealthyChain(disk: Disk, total: u32, chain: seq<u32>) {
    && GoodChain(disk, total, chain)
    && StrictlyAscending(chain)
    && (forall i {:trigger GoodMember(disk, total, chain, i)} :: 0 <= i < |chain| ==>
          GoodMember(disk, total, chain, i) && OnGrid(chain[i]) && ChecksumOk(HeaderAt(disk, chain[i])))
    && (forall i {:trigger GoodMember(disk, total, chain, i)} :: 0 <= i < |chain| - 1 ==>
          GoodMember(disk, total, chain, i) && ExtentEnd(disk, chain[i]) <= chain[i + 1])
  }

  /** At most the two link words differ. */
  predicate DamagedSector(was: Sector, is_: Sector) {
    is_ == was[NEXT_WORD := is_[NEXT_WORD]][PREV_WORD := is_[PREV_WORD]]
  }

  /** `damaged` is `disk` with some next and prev words of the chain overwritten, by whatever values. */
  ghost predicate Damaged(disk: Disk, damaged: Disk, chain: seq<u32>) {
    && damaged.Keys == disk.Keys
    && (forall s :: s in disk && s !in chain ==> damaged[s] == disk[s])
    && (forall i :: 0 <= i < |chain| && chain[i] in disk ==>
          DamagedSector(disk[chain[i]], damaged[chain[i]]))
  }

  /** A link word that changed, and now names another place of the chain. */
  predicate FalseLink(was: u32, is_: u32, chain: seq<u32>) {
    is_ != was && is_ != 0 && is_ in chain
  }

  ghost predicate FalseLinkAt(disk: Disk, damaged: Disk, chain: seq<u32>, lba: int) {
    && lba in disk && lba in damaged
    && (FalseLink(disk[lba][NEXT_WORD], damaged[lba][NEXT_WORD], chain) ||
        FalseLink(disk[lba][PREV_WORD], damaged[lba][PREV_WORD], chain))
  }

  /** No changed word names a chain member: what was lost is lost, but nothing misleads. */
  ghost predicate NoFalseLink(disk: Disk, damaged: Disk, chain: seq<u32>) {
    forall i :: 0 <= i < |chain| ==> !FalseLinkAt(disk, damaged, chain, chain[i])
  }

  /** No other header on the disk would be admitted, by grid or by reference. */
  ghost predicate NothingElse(disk: Disk, total: u32, chain: seq<u32>) {
    forall lba :: AdmissibleAt(disk, total, lba) ==> lba in chain
  }

  ghost function DamageAt(disk: Disk, damaged: Disk, lba: int): nat {
    if lba in disk && lba in damaged then
      Points(damaged[lba][PREV_WORD] != disk[lba][PREV_WORD], 1) +
      Points(damaged[lba][NEXT_WORD] != disk[lba][NEXT_WORD], 1)
    else 0
  }

  /** How many link words of the first `k` chain members were changed. */
  ghost function DamageCount(disk: Disk, damaged: Disk, chain: seq<u32>, k: nat): nat
    requires k <= |chain|
  {
    if k == 0 then 0
    else DamageCount(disk, damaged, chain, k - 1) + DamageAt(disk, damaged, chain[k - 1])
  }

  ghost predicate Situation(disk: Disk, damaged: Disk, total: u32, chain: seq<u32>) {
    && HealthyChain(disk, total, chain)
    && Damaged(disk, damaged, chain)
    && NothingElse(damaged, total, chain)
  }

  // ----- damaged headers

  lemma NeighbourNotInChain(disk: Disk, total: u32, chain: seq<u32>, i: nat)
    requires HealthyChain(disk, total, chain) && i < |chain|
    ensures var c: int := chain[i]; c + 1 !in chain
  {
    var c: int := chain[i];
    assert GoodMember(disk, total, chain, i);
    forall j | 0 <= j < |chain| ensures chain[j] != c + 1 {
      assert GoodMember(disk, total, chain, j);
      if chain[j] < c + SCAN_STEP {
        NothingBetweenGrid(chain[j], chain[i]);
      }
    }
  }

  /** A damaged header differs from the original in its two link words only. */
  lemma DamagedHeader(disk: Disk, damaged: Disk, total: u32, chain: seq<u32>, i: nat)
    requires HealthyChain(disk, total, chain) && Damaged(disk, damaged, chain) && i < |chain|
    ensures GoodMember(disk, total, chain, i) && Readable(damaged, chain[i])
    ensures var h, d := HeaderAt(disk, chain[i]), HeaderAt(damaged, chain[i]);
            && h == WithLinks(d, DesiredNext(chain, i), DesiredPrev(chain, i))
            && MagicOk(d) && SelfStart(d, chain[i]) && LengthOk(d, total)
            && d[LENGTH_WORD] == h[LENGTH_WORD] && d[CHECKSUM_WORD] == h[CHECKSUM_WORD]
    ensures damaged[chain[i] + 1] == disk[chain[i] + 1]
  {
    assert GoodMember(disk, total, chain, i);
    NeighbourNotInChain(disk, total, chain, i);
    var c := chain[i];
    assert DamagedSector(disk[c], damaged[c]);
    RelinkSector(disk[c], damaged[c], disk[c + 1]);
  }

  lemma RelinkSector(was: Sector, is_: Sector, second: Sector)
    requires is_ == was[NEXT_WORD := is_[NEXT_WORD]][PREV_WORD := is_[PREV_WORD]]
    ensures var h: seq<u32>, d: seq<u32> := was, is_;
            (h + second) == (d + second)[NEXT_WORD := was[NEXT_WORD]][PREV_WORD := was[PREV_WORD]]
  {
    var h: seq<u32>, d: seq<u32> := was, is_;
    var relinked := (d + second)[NEXT_WORD := was[NEXT_WORD]][PREV_WORD := was[PREV_WORD]];
    forall w | 0 <= w < HEADER_WORDS ensures (h + second)[w] == relinked[w] {
    }
  }

  lemma DamagedScores(h: Header, lba: u32, total: u32)
    requires MagicOk(h) && SelfStart(h, lba) && LengthOk(h, total)
    ensures FullScore(h, lba, total) >= 60
  {
  }

  // ----- the nodes found are exactly the chain

  function LbasOf(nodes: seq<Node>): (lbas: seq<u32>)
    ensures |lbas| == |nodes| && forall k :: 0 <= k < |nodes| ==> lbas[k] == nodes[k].lba
  {
    if nodes == [] then [] else LbasOf(nodes[..|nodes| - 1]) + [nodes[|nodes| - 1].lba]
  }

  lemma {:induction false} PickedFromIsShorter(a: seq<int>, b: seq<int>)
    requires NoRepeat(a) && forall k :: 0 <= k < |a| ==> a[k] in b
    ensures |a| <= |b|
  {
    if a != [] {
      var last := |a| - 1;
      var at :| 0 <= at < |b| && b[at] == a[last];
      var rest := b[..at] + b[at + 1..];
      forall k | 0 <= k < last ensures a[..last][k] in rest {
        var j :| 0 <= j < |b| && b[j] == a[k];
        assert rest[if j < at then j else j - 1] == a[k];
      }
      PickedFromIsShorter(a[..last], rest);
    }
  }

  lemma NodesAreInChain(damaged: Disk, total: u32, chain: seq<u32>, nodes: seq<Node>, truncated: bool)
    requires NothingElse(damaged, total, chain) && SoundNodes(damaged, total, nodes, truncated)
    requires |chain| <= MAX_NODES
    ensures forall k :: 0 <= k < |nodes| ==> nodes[k].lba in chain
    ensures |nodes| <= |chain| && !truncated
  {
    forall k | 0 <= k < |nodes| ensures nodes[k].lba in chain {
      assert SoundNode(damaged, total, nodes[k]);
      assert AdmissibleAt(damaged, total, nodes[k].lba);
    }
    var lbas := LbasOf(nodes);
    PickedFromIsShorter(lbas, chain);
    if truncated {
      var lba :| LeftBehind(damaged, total, nodes, lba);
      PickedFromIsShorter(lbas + [lba], chain);
    }
  }

  lemma ChainIsFound(disk: Disk, damaged: Disk, total: u32, chain: seq<u32>, nodes: seq<Node>, i: nat)
    requires HealthyChain(disk, total, chain) && Damaged(disk, damaged, chain)
    requires CompleteNodes(damaged, total, nodes) && i < |chain|
    ensures HasLba(nodes, chain[i])
  {
    DamagedHeader(disk, damaged, total, chain, i);
    DamagedScores(HeaderAt(damaged, chain[i]), chain[i], total);
    assert Covered(damaged, total, nodes, chain[i], Grid);
  }

  /** A node at a chain position: what its header holds, as evidence. */
  ghost predicate ChainNode(disk: Disk, damaged: Disk, total: u32, chain: seq<u32>, i: nat, n: Node)
    requires i < |chain| && Readable(disk, chain[i]) && Readable(damaged, chain[i])
  {
    && n.lba == chain[i] == n.Start()
    && n.header == HeaderAt(damaged, chain[i])
    && n.Length() == HeaderAt(disk, chain[i])[LENGTH_WORD] > 0
    && n.confidence >= 60
    && n.evidence.magic && n.evidence.selfStart && n.evidence.length
  }

  lemma NodeOfChain(disk: Disk, damaged: Disk, total: u32, chain: seq<u32>, i: nat, n: Node)
    requires HealthyChain(disk, total, chain) && Damaged(disk, damaged, chain) && i < |chain|
    requires SoundNode(damaged, total, n) && n.lba == chain[i]
    ensures GoodMember(disk, total, chain, i) && Readable(damaged, chain[i])
    ensures ChainNode(disk, damaged, total, chain, i, n)
  {
    DamagedHeader(disk, damaged, total, chain, i);
    DamagedScores(n.header, n.lba, total);
    assert n.OwnEvidence().magic && n.OwnEvidence().selfStart && n.OwnEvidence().length;
  }

  lemma {:induction false} ExtentsInOrder(disk: Disk, total: u32, chain: seq<u32>, i: nat, j: nat)
    requires HealthyChain(disk, total, chain) && i < j < |chain|
    ensures GoodMember(disk, total, chain, i)
    ensures ExtentEnd(disk, chain[i]) <= chain[j]
    decreases j - i
  {
    assert GoodMember(disk, total, chain, i);
    if i + 1 < j {
      ExtentsInOrder(disk, total, chain, i, j - 1);
    }
  }

  /** Disjoint extents leave no room for a dormant remnant. */
  lemma NoRemnant(disk: Disk, damaged: Disk, total: u32, chain: seq<u32>, container: Node, n: Node)
    requires HealthyChain(disk, total, chain) && Damaged(disk, damaged, chain)
    requires SoundNode(damaged, total, container) && container.lba in chain
    requires SoundNode(damaged, total, n) && n.lba in chain
    ensures !CoversRemnant(container, n)
  {
    var i :| 0 <= i < |chain| && chain[i] == container.lba;
    var j :| 0 <= j < |chain| && chain[j] == n.lba;
    NodeOfChain(disk, damaged, total, chain, i, container);
    NodeOfChain(disk, damaged, total, chain, j, n);
    if i < j {
      ExtentsInOrder(disk, total, chain, i, j);
    }
  }

  /** What a scan of the damaged disk found: the chain, all of it, and nothing else. */
  ghost predicate FoundExactly(disk: Disk, damaged: Disk, total: u32, chain: seq<u32>, nodes: seq<Node>) {
    && CompleteNodes(damaged, total, nodes)
    && |nodes| <= |chain|
    && (forall k :: 0 <= k < |nodes| ==> nodes[k].lba in chain && !nodes[k].evidence.dormant)
    && (forall i :: 0 <= i < |chain| ==> HasLba(nodes, chain[i]))
  }

  lemma ScanFindsExactly(disk: Disk, damaged: Disk, total: u32, chain: seq<u32>, r: ScanResult)
    requires Situation(disk, damaged, total, chain) && ScanOf(damaged, total, r)
    ensures !r.truncated && FoundExactly(disk, damaged, total, chain, r.nodes)
  {
    NodesAreInChain(damaged, total, chain, r.nodes, r.truncated);
    forall i | 0 <= i < |chain| ensures HasLba(r.nodes, chain[i]) {
      ChainIsFound(disk, damaged, total, chain, r.nodes, i);
    }
    var forward, reverse, geometry :| MapsFrom(r, forward, reverse, geometry);
    NoneDormant(disk, damaged, total, chain, r.nodes, forward);
  }

  lemma NoneDormant(disk: Disk, damaged: Disk, total: u32, chain: seq<u32>, nodes: seq<Node>, forward: seq<nat>)
    requires HealthyChain(disk, total, chain) && Damaged(disk, damaged, chain)
    requires SoundNodes(damaged, total, nodes, false) && DormantMarked(nodes, forward)
    requires forall k :: 0 <= k < |nodes| ==> nodes[k].lba in chain
    ensures forall k :: 0 <= k < |nodes| ==> !nodes[k].evidence.dormant
  {
    forall k | 0 <= k < |nodes| ensures !DormantFree(nodes, forward, k) {
      forall j | 0 <= j < |forward| ensures !CoversRemnant(nodes[forward[j]], nodes[k]) {
        NoRemnant(disk, damaged, total, chain, nodes[forward[j]], nodes[k]);
      }
    }
  }

  // ----- the geometry order is the chain

  lemma NotEmptyEither(a: seq<int>, b: seq<int>)
    requires a != [] && forall x :: x in a ==> x in b
    ensures b != []
  {
    var x := a[0];
    assert x in a;
  }

  lemma {:induction false} SameAscending(a: seq<int>, b: seq<int>)
    requires StrictlyAscending(a) && StrictlyAscending(b)
    requires forall x :: x in a <==> x in b
    ensures a == b
  {
    if a == [] {
      if b != [] {
        NotEmptyEither(b, a);
      }
    } else {
      NotEmptyEither(a, b);
      var la, lb := a[|a| - 1], b[|b| - 1];
      assert la in b && lb in a;
      assert la == lb;
      var ra, rb := a[..|a| - 1], b[..|b| - 1];
      forall x ensures x in ra <==> x in rb {
        assert x in ra <==> x in a && x != la;
        assert x in rb <==> x in b && x != lb;
      }
      SameAscending(ra, rb);
      assert a == ra + [la] && b == rb + [lb];
    }
  }

  lemma ChainInOrder(disk: Disk, damaged: Disk, total: u32, chain: seq<u32>, nodes: seq<Node>, order: seq<nat>, i: nat)
    requires HealthyChain(disk, total, chain) && Damaged(disk, damaged, chain) && i < |chain|
    requires FoundExactly(disk, damaged, total, chain, nodes) && IsGeometryOrder(nodes, order)
    ensures chain[i] in OrderLbas(nodes, order)
  {
    var at := Find(nodes, chain[i]).value;
    NodeOfChain(disk, damaged, total, chain, i, nodes[at]);
    assert at in order;
    var k :| 0 <= k < |order| && order[k] == at;
    assert OrderLbas(nodes, order)[k] == chain[i];
  }

  lemma SameMembers(a: seq<int>, b: seq<int>)
    requires forall k :: 0 <= k < |a| ==> a[k] in b
    requires forall k :: 0 <= k < |b| ==> b[k] in a
    ensures forall x :: x in a <==> x in b
  {
  }

  lemma GeometryIsChain(disk: Disk, damaged: Disk, total: u32, chain: seq<u32>, nodes: seq<Node>, order: seq<nat>)
    requires HealthyChain(disk, total, chain) && Damaged(disk, damaged, chain)
    requires FoundExactly(disk, damaged, total, chain, nodes) && IsGeometryOrder(nodes, order)
    ensures OrderLbas(nodes, order) == chain
  {
    var lbas := OrderLbas(nodes, order);
    forall i | 0 <= i < |chain| ensures chain[i] in lbas {
      ChainInOrder(disk, damaged, total, chain, nodes, order, i);
    }
    SameMembers(lbas, chain);
    SameAscending(lbas, chain);
  }

  // ----- the chain order evaluates to its damage

  /**
   Position `i` of an order matches member `i` of a chain: the node lost
   nothing but link values, and what it links to instead is not a node.
   */
  ghost predicate MatchAt(chain: seq<u32>, original: Header, nodes: seq<Node>, n: Node, i: nat)
    requires i < |chain|
  {
    && n.lba == chain[i] == n.Start()
    && original == WithLinks(n.header, DesiredNext(chain, i), DesiredPrev(chain, i))
    && ChecksumOk(original)
    && n.confidence >= 60 && CoreEvidence(n)
    && !Conflicting(nodes, n.Next(), DesiredNext(chain, i))
    && !Conflicting(nodes, n.Prev(), DesiredPrev(chain, i))
    && (i + 1 < |chain| ==> n.lba + n.Length() <= chain[i + 1])
  }

  ghost predicate Matches(chain: seq<u32>, originals: seq<Header>, nodes: seq<Node>, order: seq<nat>) {
    && ValidOrder(nodes, order) && OrderLbas(nodes, order) == chain
    && |originals| == |chain| == |order| && 2 <= |chain| && |nodes| <= |chain| && chain[0] == 0
    && forall i {:trigger MatchAt(chain, originals[i], nodes, nodes[order[i]], i)} :: 0 <= i < |chain| ==>
         MatchAt(chain, originals[i], nodes, nodes[order[i]], i)
  }

  lemma PositionMatches(chain: seq<u32>, originals: seq<Header>, nodes: seq<Node>, order: seq<nat>, i: nat)
    requires Matches(chain, originals, nodes, order) && i < |chain|
    ensures var t := PositionTally(nodes, order, i);
            t.conflicts == 0 && t.overlaps == 0 && t.weak == 0 && (t.inferred == 0 <==> Linked(nodes, order, i))
  {
    assert MatchAt(chain, originals[i], nodes, nodes[order[i]], i);
    if i + 1 < |chain| {
      assert MatchAt(chain, originals[i + 1], nodes, nodes[order[i + 1]], i + 1);
    }
  }

  lemma {:induction false} TallyMatches(chain: seq<u32>, originals: seq<Header>, nodes: seq<Node>, order: seq<nat>,
                                        k: nat)
    requires Matches(chain, originals, nodes, order) && k <= |chain|
    ensures var t := TallyTo(nodes, order, k); t.conflicts == 0 && t.overlaps == 0 && t.weak == 0
  {
    if k > 0 {
      TallyMatches(chain, originals, nodes, order, k - 1);
      PositionMatches(chain, originals, nodes, order, k - 1);
    }
  }

  lemma {:induction false} StrongCountBound(nodes: seq<Node>, k: nat)
    requires k <= |nodes|
    ensures StrongCount(nodes, k) <= k
  {
    if k > 0 {
      StrongCountBound(nodes, k - 1);
    }
  }

  /** With `d` changed link words the chain order scores 100 - 2d, and nothing else counts against it. */
  lemma MatchEvaluation(chain: seq<u32>, originals: seq<Header>, nodes: seq<Node>, m: ChainMap, d: nat)
    requires Matches(chain, originals, nodes, m.order) && IsMapOf(nodes, false, m)
    requires TallyTo(nodes, m.order, |chain|).inferred == d
    ensures m.confidence == Clamp(100 - 2 * d) && (m.repairable <==> d <= 7)
    ensures m.conflicts == 0 && m.overlaps == 0
  {
    var order := m.order;
    TallyMatches(chain, originals, nodes, order, |chain|);
    StrongCountBound(nodes, |nodes|);
    forall i | 0 <= i < |order| ensures CoreEvidence(nodes[order[i]]) {
      assert MatchAt(chain, originals[i], nodes, nodes[order[i]], i);
    }
    assert MatchAt(chain, originals[0], nodes, nodes[order[0]], 0);
  }

  // ----- the plan of the chain order

  /** Relinking a damaged header gives back the original one, checksum included. */
  lemma RelinkingRestores(chain: seq<u32>, originals: seq<Header>, nodes: seq<Node>, order: seq<nat>, i: nat)
    requires Matches(chain, originals, nodes, order) && i < |chain|
    ensures PatchAt(nodes, order, i).corroborated
    ensures PatchedHeader(nodes[order[i]].header, PatchAt(nodes, order, i)) == originals[i]
    ensures Linked(nodes, order, i) ==> nodes[order[i]].header == originals[i]
  {
    var h := originals[i];
    assert MatchAt(chain, h, nodes, nodes[order[i]], i);
    assert h[CHECKSUM_WORD := Checksum(h)] == h;
  }

  lemma PlanIsCorroborated(chain: seq<u32>, originals: seq<Header>, nodes: seq<Node>, order: seq<nat>)
    requires Matches(chain, originals, nodes, order)
    ensures var ps := PatchesTo(nodes, order, |order|); CorroboratedCount(ps) == |ps|
  {
    var ps := PatchesTo(nodes, order, |order|);
    PatchesAre(nodes, order, |order|);
    forall p | p in ps ensures p.corroborated {
      var i :| 0 <= i < |order| && !Linked(nodes, order, i) && p == PatchAt(nodes, order, i);
      RelinkingRestores(chain, originals, nodes, order, i);
    }
    AllCorroborated(ps);
  }

  lemma {:induction false} NoPatchIffLinked(nodes: seq<Node>, order: seq<nat>, k: nat)
    requires ValidOrder(nodes, order) && k <= |order|
    ensures PatchesTo(nodes, order, k) == [] <==> TallyTo(nodes, order, k).inferred == 0
  {
    if k > 0 {
      NoPatchIffLinked(nodes, order, k - 1);
      assert PositionTally(nodes, order, k - 1).inferred == 0 <==> Linked(nodes, order, k - 1);
    }
  }

  predicate NameNodes(nodes: seq<Node>, ps: seq<Patch>) {
    forall k :: 0 <= k < |ps| ==> PatchFits(nodes, ps[k])
  }

  /** The disk after the patches have been written one after another. */
  ghost function ApplyPatches(disk: Disk, nodes: seq<Node>, ps: seq<Patch>): Disk
    requires NameNodes(nodes, ps)
  {
    if ps == [] then disk
    else
      var p := ps[|ps| - 1];
      PutHeader(ApplyPatches(disk, nodes, ps[..|ps| - 1]), p.lba, PatchedHeader(nodes[p.nodeIndex].header, p))
  }

  lemma {:induction false} PatchesNameNodes(nodes: seq<Node>, order: seq<nat>, k: nat)
    requires ValidOrder(nodes, order) && k <= |order|
    ensures NameNodes(nodes, PatchesTo(nodes, order, k))
  {
    if k > 0 {
      PatchesNameNodes(nodes, order, k - 1);
    }
  }

  // ----- from the disk to the match

  ghost predicate ChainOnBoth(disk: Disk, damaged: Disk, chain: seq<u32>) {
    forall i :: 0 <= i < |chain| ==> Readable(disk, chain[i]) && Readable(damaged, chain[i])
  }

  lemma ChainIsOnBoth(disk: Disk, damaged: Disk, total: u32, chain: seq<u32>)
    requires HealthyChain(disk, total, chain) && Damaged(disk, damaged, chain)
    ensures ChainOnBoth(disk, damaged, chain)
  {
    forall i | 0 <= i < |chain| ensures Readable(disk, chain[i]) {
      assert GoodMember(disk, total, chain, i);
    }
  }

  ghost function Originals(disk: Disk, chain: seq<u32>): (hs: seq<Header>)
    requires forall i :: 0 <= i < |chain| ==> Readable(disk, chain[i])
    ensures |hs| == |chain| && forall i :: 0 <= i < |chain| ==> hs[i] == HeaderAt(disk, chain[i])
  {
    if chain == [] then [] else Originals(disk, chain[..|chain| - 1]) + [HeaderAt(disk, chain[|chain| - 1])]
  }

  lemma LinkWords(disk: Disk, damaged: Disk, lba: int)
    requires Readable(disk, lba) && Readable(damaged, lba)
    ensures NextOf(HeaderAt(disk, lba)) == disk[lba][NEXT_WORD] && PrevOf(HeaderAt(disk, lba)) == disk[lba][PREV_WORD]
    ensures NextOf(HeaderAt(damaged, lba)) == damaged[lba][NEXT_WORD]
    ensures PrevOf(HeaderAt(damaged, lba)) == damaged[lba][PREV_WORD]
  {
  }

  lemma NoConflict(disk: Disk, damaged: Disk, total: u32, chain: seq<u32>, nodes: seq<Node>, i: nat)
    requires HealthyChain(disk, total, chain) && Damaged(disk, damaged, chain) && i < |chain|
    requires NoFalseLink(disk, damaged, chain) && forall k :: 0 <= k < |nodes| ==> nodes[k].lba in chain
    ensures GoodMember(disk, total, chain, i) && Readable(damaged, chain[i])
    ensures var d := HeaderAt(damaged, chain[i]);
            && !Conflicting(nodes, PrevOf(d), DesiredPrev(chain, i))
            && !Conflicting(nodes, NextOf(d), DesiredNext(chain, i))
  {
    DamagedHeader(disk, damaged, total, chain, i);
    assert !FalseLinkAt(disk, damaged, chain, chain[i]);
    LinkWords(disk, damaged, chain[i]);
  }

  lemma NodeMatches(disk: Disk, damaged: Disk, total: u32, chain: seq<u32>, nodes: seq<Node>, n: Node, i: nat)
    requires HealthyChain(disk, total, chain) && Damaged(disk, damaged, chain) && i < |chain|
    requires NoFalseLink(disk, damaged, chain) && forall k :: 0 <= k < |nodes| ==> nodes[k].lba in chain
    requires SoundNode(damaged, total, n) && n.lba == chain[i]
    ensures GoodMember(disk, total, chain, i)
    ensures MatchAt(chain, HeaderAt(disk, chain[i]), nodes, n, i)
  {
    NodeOfChain(disk, damaged, total, chain, i, n);
    DamagedHeader(disk, damaged, total, chain, i);
    NoConflict(disk, damaged, total, chain, nodes, i);
    if i + 1 < |chain| {
      ExtentsInOrder(disk, total, chain, i, i + 1);
    }
  }

  lemma ScanMatches(disk: Disk, damaged: Disk, total: u32, chain: seq<u32>, nodes: seq<Node>, order: seq<nat>)
    requires HealthyChain(disk, total, chain) && Damaged(disk, damaged, chain) && ChainOnBoth(disk, damaged, chain)
    requires FoundExactly(disk, damaged, total, chain, nodes)
    requires ValidOrder(nodes, order) && OrderLbas(nodes, order) == chain
    requires NoFalseLink(disk, damaged, chain)
    ensures Matches(chain, Originals(disk, chain), nodes, order)
  {
    forall i | 0 <= i < |chain|
      ensures MatchAt(chain, Originals(disk, chain)[i], nodes, nodes[order[i]], i)
    {
      NodeMatches(disk, damaged, total, chain, nodes, nodes[order[i]], i);
    }
  }

  lemma {:induction false} SumOfInferred(disk: Disk, damaged: Disk, chain: seq<u32>, nodes: seq<Node>,
                                         order: seq<nat>, k: nat)
    requires ChainOnBoth(disk, damaged, chain) && k <= |chain|
    requires ValidOrder(nodes, order) && |order| == |chain|
    requires forall i {:trigger PositionTally(nodes, order, i)} :: 0 <= i < |chain| ==>
      PositionTally(nodes, order, i).inferred == DamageAt(disk, damaged, chain[i])
    ensures TallyTo(nodes, order, k).inferred == DamageCount(disk, damaged, chain, k)
  {
    if k > 0 {
      SumOfInferred(disk, damaged, chain, nodes, order, k - 1);
    }
  }

  lemma InferredIsDamage(disk: Disk, damaged: Disk, total: u32, chain: seq<u32>, nodes: seq<Node>, order: seq<nat>)
    requires ChainOnBoth(disk, damaged, chain)
    requires forall i :: 0 <= i < |chain| ==> GoodMember(disk, total, chain, i)
    requires ValidOrder(nodes, order) && OrderLbas(nodes, order) == chain
    requires forall i :: 0 <= i < |nodes| ==> SoundNode(damaged, total, nodes[i])
    ensures TallyTo(nodes, order, |chain|).inferred == DamageCount(disk, damaged, chain, |chain|)
  {
    forall i {:trigger PositionTally(nodes, order, i)} | 0 <= i < |chain|
      ensures PositionTally(nodes, order, i).inferred == DamageAt(disk, damaged, chain[i])
    {
      InferredAt(disk, damaged, total, chain, nodes, order, i);
    }
    SumOfInferred(disk, damaged, chain, nodes, order, |chain|);
  }

  lemma InferredAt(disk: Disk, damaged: Disk, total: u32, chain: seq<u32>, nodes: seq<Node>, order: seq<nat>, i: nat)
    requires i < |chain| && GoodMember(disk, total, chain, i) && Readable(damaged, chain[i])
    requires ValidOrder(nodes, order) && OrderLbas(nodes, order) == chain
    requires SoundNode(damaged, total, nodes[order[i]])
    ensures PositionTally(nodes, order, i).inferred == DamageAt(disk, damaged, chain[i])
  {
    var h, d := HeaderAt(disk, chain[i]), HeaderAt(damaged, chain[i]);
    assert h[NEXT_WORD] == disk[chain[i]][NEXT_WORD] && h[PREV_WORD] == disk[chain[i]][PREV_WORD];
    assert d[NEXT_WORD] == damaged[chain[i]][NEXT_WORD] && d[PREV_WORD] == damaged[chain[i]][PREV_WORD];
  }

  /** Only the first sector of member `k` was damaged, and it is no other member's second one. */
  ghost predicate SeparateAt(disk: Disk, damaged: Disk, chain: seq<u32>, k: nat)
    requires k < |chain|
  {
    var c: int := chain[k];
    Readable(disk, c) && Readable(damaged, c) && damaged[c + 1] == disk[c + 1] && c + 1 !in chain
  }

  ghost predicate Separate(disk: Disk, damaged: Disk, chain: seq<u32>) {
    damaged.Keys == disk.Keys && forall k :: 0 <= k < |chain| ==> SeparateAt(disk, damaged, chain, k)
  }

  lemma ChainIsSeparate(disk: Disk, damaged: Disk, total: u32, chain: seq<u32>)
    requires HealthyChain(disk, total, chain) && Damaged(disk, damaged, chain)
    ensures Separate(disk, damaged, chain)
  {
    forall k | 0 <= k < |chain| ensures SeparateAt(disk, damaged, chain, k) {
      DamagedHeader(disk, damaged, total, chain, k);
      NeighbourNotInChain(disk, total, chain, k);
    }
  }

  /** Patching the first `k` positions restores exactly those first sectors. */
  ghost predicate RestoredUpTo(disk: Disk, damaged: Disk, chain: seq<u32>, k: nat, now: Disk)
    requires k <= |chain|
  {
    && now.Keys == disk.Keys == damaged.Keys
    && (forall s :: s in disk ==> now[s] == if s in chain[..k] then disk[s] else damaged[s])
  }

  lemma OneMoreRestored(disk: Disk, damaged: Disk, chain: seq<u32>, k: nat, now: Disk)
    requires k < |chain| && SeparateAt(disk, damaged, chain, k) && RestoredUpTo(disk, damaged, chain, k, now)
    ensures RestoredUpTo(disk, damaged, chain, k + 1, PutHeader(now, chain[k], HeaderAt(disk, chain[k])))
    ensures damaged[chain[k]] == disk[chain[k]] ==> RestoredUpTo(disk, damaged, chain, k + 1, now)
  {
    var c: int := chain[k];
    var h := HeaderAt(disk, c);
    assert FirstSector(h) == disk[c] && SecondSector(h) == disk[c + 1];
    var upto, upto1: seq<int> := chain[..k], chain[..k + 1];
    forall s: int ensures s in upto1 <==> s in upto || s == c {
      assert upto1 == upto + [c];
    }
    assert c + 1 !in upto1 by {
      forall i | 0 <= i < |upto1| ensures upto1[i] != c + 1 {
        assert chain[i] in chain;
      }
    }
  }

  lemma SameFirstSector(disk: Disk, damaged: Disk, lba: int)
    requires Readable(disk, lba) && Readable(damaged, lba) && HeaderAt(disk, lba) == HeaderAt(damaged, lba)
    ensures disk[lba] == damaged[lba]
  {
    assert FirstSector(HeaderAt(disk, lba)) == disk[lba] && FirstSector(HeaderAt(damaged, lba)) == damaged[lba];
  }

  /** The patch of position `i`, or its absence, brings back the original header. */
  ghost predicate RestoresAt(disk: Disk, damaged: Disk, chain: seq<u32>, nodes: seq<Node>, order: seq<nat>, i: nat)
    requires i < |chain| && ValidOrder(nodes, order) && |order| == |chain|
    requires Readable(disk, chain[i]) && Readable(damaged, chain[i])
  {
    && nodes[order[i]].lba == chain[i]
    && PatchedHeader(nodes[order[i]].header, PatchAt(nodes, order, i)) == HeaderAt(disk, chain[i])
    && (Linked(nodes, order, i) ==> damaged[chain[i]] == disk[chain[i]])
  }

  lemma MatchRestores(disk: Disk, damaged: Disk, total: u32, chain: seq<u32>, nodes: seq<Node>, order: seq<nat>)
    requires ChainOnBoth(disk, damaged, chain)
    requires Matches(chain, Originals(disk, chain), nodes, order)
    requires forall i :: 0 <= i < |nodes| ==> SoundNode(damaged, total, nodes[i])
    ensures forall i :: 0 <= i < |chain| ==> RestoresAt(disk, damaged, chain, nodes, order, i)
  {
    forall i | 0 <= i < |chain| ensures RestoresAt(disk, damaged, chain, nodes, order, i) {
      RelinkingRestores(chain, Originals(disk, chain), nodes, order, i);
      if Linked(nodes, order, i) {
        assert SoundNode(damaged, total, nodes[order[i]]);
        SameFirstSector(disk, damaged, chain[i]);
      }
    }
  }

  lemma RestoreStep(disk: Disk, damaged: Disk, chain: seq<u32>, nodes: seq<Node>, order: seq<nat>, i: nat, now: Disk)
    requires i < |chain| && ValidOrder(nodes, order) && |order| == |chain|
    requires SeparateAt(disk, damaged, chain, i) && RestoresAt(disk, damaged, chain, nodes, order, i)
    requires RestoredUpTo(disk, damaged, chain, i, now)
    ensures RestoredUpTo(disk, damaged, chain, i + 1, PatchedDisk(now, nodes, order, i))
  {
    OneMoreRestored(disk, damaged, chain, i, now);
  }

  /** The disk after position `i` has been patched, if it needs to be. */
  ghost function PatchedDisk(now: Disk, nodes: seq<Node>, order: seq<nat>, i: nat): Disk
    requires ValidOrder(nodes, order) && i < |order|
  {
    if Linked(nodes, order, i) then now
    else PutHeader(now, nodes[order[i]].lba, PatchedHeader(nodes[order[i]].header, PatchAt(nodes, order, i)))
  }

  lemma ApplyStep(disk: Disk, nodes: seq<Node>, order: seq<nat>, i: nat)
    requires ValidOrder(nodes, order) && i < |order|
    ensures NameNodes(nodes, PatchesTo(nodes, order, i)) && NameNodes(nodes, PatchesTo(nodes, order, i + 1))
    ensures ApplyPatches(disk, nodes, PatchesTo(nodes, order, i + 1)) ==
            PatchedDisk(ApplyPatches(disk, nodes, PatchesTo(nodes, order, i)), nodes, order, i)
  {
    PatchesNameNodes(nodes, order, i);
    PatchesNameNodes(nodes, order, i + 1);
    var earlier, p := PatchesTo(nodes, order, i), PatchAt(nodes, order, i);
    if Linked(nodes, order, i) {
      assert PatchesTo(nodes, order, i + 1) == earlier;
    } else {
      assert PatchesTo(nodes, order, i + 1) == earlier + [p];
      assert (earlier + [p])[..|earlier|] == earlier;
    }
  }

  lemma OneMorePatched(disk: Disk, damaged: Disk, chain: seq<u32>, nodes: seq<Node>, order: seq<nat>, k: nat)
    requires ValidOrder(nodes, order) && |order| == |chain| && k < |chain|
    requires SeparateAt(disk, damaged, chain, k) && RestoresAt(disk, damaged, chain, nodes, order, k)
    requires NameNodes(nodes, PatchesTo(nodes, order, k))
    requires RestoredUpTo(disk, damaged, chain, k, ApplyPatches(damaged, nodes, PatchesTo(nodes, order, k)))
    ensures NameNodes(nodes, PatchesTo(nodes, order, k + 1))
    ensures RestoredUpTo(disk, damaged, chain, k + 1, ApplyPatches(damaged, nodes, PatchesTo(nodes, order, k + 1)))
  {
    RestoreStep(disk, damaged, chain, nodes, order, k, ApplyPatches(damaged, nodes, PatchesTo(nodes, order, k)));
    ApplyStep(damaged, nodes, order, k);
  }

  lemma {:induction false} PatchingRestores(disk: Disk, damaged: Disk, chain: seq<u32>, nodes: seq<Node>,
                                            order: seq<nat>, k: nat)
    requires Separate(disk, damaged, chain) && ChainOnBoth(disk, damaged, chain)
    requires ValidOrder(nodes, order) && |order| == |chain| && k <= |chain|
    requires forall i {:trigger RestoresAt(disk, damaged, chain, nodes, order, i)} ::
      0 <= i < |chain| ==> RestoresAt(disk, damaged, chain, nodes, order, i)
    ensures NameNodes(nodes, PatchesTo(nodes, order, k))
    ensures RestoredUpTo(disk, damaged, chain, k, ApplyPatches(damaged, nodes, PatchesTo(nodes, order, k)))
  {
    PatchesNameNodes(nodes, order, k);
    if k > 0 {
      PatchingRestores(disk, damaged, chain, nodes, order, k - 1);
      assert RestoresAt(disk, damaged, chain, nodes, order, k - 1);
      assert SeparateAt(disk, damaged, chain, k - 1);
      OneMorePatched(disk, damaged, chain, nodes, order, k - 1);
    }
  }

  // ----- the theorem

  lemma SomeMapHasOrder(disk: Disk, total: u32, r: ScanResult) returns (k: nat)
    requires ScanOf(disk, total, r) && HasLba(r.nodes, 0)
    requires forall i :: 0 <= i < |r.nodes| ==> !r.nodes[i].evidence.dormant
    ensures k < |r.maps| && IsMapOf(r.nodes, r.truncated, r.maps[k])
    ensures IsGeometryOrder(r.nodes, r.maps[k].order)
  {
    var forward, reverse, geometry :| MapsFrom(r, forward, reverse, geometry);
    RetainedMaps(disk, total, r);
    assert Find(r.nodes, 0).value in geometry;
    k := LastIsThere(Evaluated(r.nodes, r.truncated, Forward, forward),
                     Evaluated(r.nodes, r.truncated, Reverse, reverse),
                     Evaluated(r.nodes, r.truncated, Geometry, geometry));
  }

  lemma LastIsThere(f: ChainMap, v: ChainMap, g: ChainMap) returns (k: nat)
    requires g.order != []
    ensures var maps := AddUnique(AddUnique(AddUnique([], f), v), g); k < |maps| && maps[k].order == g.order
  {
    var maps := AddUnique(AddUnique([], f), v);
    if exists i :: 0 <= i < |maps| && maps[i].order == g.order {
      k :| 0 <= k < |maps| && maps[k].order == g.order;
    } else {
      k := |maps|;
    }
  }

  // ----- words that mislead

  /** A changed word that names another member is a conflict of the original order. */
  lemma FalseLinkConflicts(disk: Disk, damaged: Disk, total: u32, chain: seq<u32>, nodes: seq<Node>, order: seq<nat>,
                           i: nat)
    requires HealthyChain(disk, total, chain) && Damaged(disk, damaged, chain) && i < |chain|
    requires FoundExactly(disk, damaged, total, chain, nodes)
    requires ValidOrder(nodes, order) && OrderLbas(nodes, order) == chain
    requires FalseLinkAt(disk, damaged, chain, chain[i])
    ensures PositionTally(nodes, order, i).conflicts > 0
  {
    var n := nodes[order[i]];
    assert SoundNode(damaged, total, n) && GoodMember(disk, total, chain, i);
    LinkWords(disk, damaged, chain[i]);
    if FalseLink(disk[chain[i]][NEXT_WORD], damaged[chain[i]][NEXT_WORD], chain) {
      assert HasLba(nodes, n.Next()) && Conflicting(nodes, n.Next(), DesiredNext(chain, i));
    } else {
      assert HasLba(nodes, n.Prev()) && Conflicting(nodes, n.Prev(), DesiredPrev(chain, i));
    }
  }

  /** With such a word the original order is not repairable. */
  lemma FalseLinkBlocks(disk: Disk, damaged: Disk, total: u32, chain: seq<u32>, r: ScanResult, k: nat)
    requires HealthyChain(disk, total, chain) && Damaged(disk, damaged, chain)
    requires FoundExactly(disk, damaged, total, chain, r.nodes) && !NoFalseLink(disk, damaged, chain)
    requires k < |r.maps| && IsMapOf(r.nodes, r.truncated, r.maps[k])
    requires OrderLbas(r.nodes, r.maps[k].order) == chain
    ensures !r.maps[k].repairable
  {
    var i :| 0 <= i < |chain| && FalseLinkAt(disk, damaged, chain, chain[i]);
    FalseLinkConflicts(disk, damaged, total, chain, r.nodes, r.maps[k].order, i);
    TallyCoversPosition(r.nodes, r.maps[k].order, i, |chain|);
  }

  /**
   What the planner makes of any map with the original order: its plan is
   automatic, and one that may be applied at all, exactly when one to five words
   changed and none of them came to name another chain member. As long as at
   most seven did, and none of those, writing its patched headers gives back
   the original disk.
   */
  lemma ChainPlanRecovers(disk: Disk, damaged: Disk, total: u32, chain: seq<u32>, r: ScanResult, k: nat)
    requires Situation(disk, damaged, total, chain) && ScanOf(damaged, total, r)
    requires k < |r.maps| && ValidOrder(r.nodes, r.maps[k].order) && OrderLbas(r.nodes, r.maps[k].order) == chain
    ensures PlanOf(r, k).automaticSafe <==>
            1 <= DamageCount(disk, damaged, chain, |chain|) <= 5 && NoFalseLink(disk, damaged, chain)
    ensures PlanOf(r, k).manualAllowed <==>
            1 <= DamageCount(disk, damaged, chain, |chain|) <= 5 && NoFalseLink(disk, damaged, chain)
    ensures NameNodes(r.nodes, PlanOf(r, k).patches)
    ensures NoFalseLink(disk, damaged, chain) && DamageCount(disk, damaged, chain, |chain|) <= 7 ==>
              ApplyPatches(damaged, r.nodes, PlanOf(r, k).patches) == disk
  {
    ChainIsOnBoth(disk, damaged, total, chain);
    ScanFindsExactly(disk, damaged, total, chain, r);
    RetainedMaps(damaged, total, r);
    if NoFalseLink(disk, damaged, chain) {
      ChainMapRecovers(disk, damaged, total, chain, r, k, DamageCount(disk, damaged, chain, |chain|));
    } else {
      FalseLinkBlocks(disk, damaged, total, chain, r, k);
    }
  }

  /**
   Exact recovery. Take a healthy chain and overwrite prev/next words of its
   headers with any values, keeping the stored checksums. Some map of a scan has
   the original order. Its plan is automatic, and one that may be applied at
   all, exactly when one to five words changed and none of them came to name
   another chain member; and as long as at most seven did, and none of those,
   writing its patched headers gives back the original disk, every word of it.
   */
  lemma ExactRecovery(disk: Disk, damaged: Disk, total: u32, chain: seq<u32>, r: ScanResult) returns (k: nat)
    requires Situation(disk, damaged, total, chain) && ScanOf(damaged, total, r)
    ensures k < |r.maps| && ValidOrder(r.nodes, r.maps[k].order)
    ensures OrderLbas(r.nodes, r.maps[k].order) == chain
    ensures PlanOf(r, k).automaticSafe <==>
            1 <= DamageCount(disk, damaged, chain, |chain|) <= 5 && NoFalseLink(disk, damaged, chain)
    ensures PlanOf(r, k).manualAllowed <==>
            1 <= DamageCount(disk, damaged, chain, |chain|) <= 5 && NoFalseLink(disk, damaged, chain)
    ensures NameNodes(r.nodes, PlanOf(r, k).patches)
    ensures NoFalseLink(disk, damaged, chain) && DamageCount(disk, damaged, chain, |chain|) <= 7 ==>
              ApplyPatches(damaged, r.nodes, PlanOf(r, k).patches) == disk
  {
    ScanFindsExactly(disk, damaged, total, chain, r);
    k := SomeMapHasOrder(damaged, total, r);
    GeometryIsChain(disk, damaged, total, chain, r.nodes, r.maps[k].order);
    ChainPlanRecovers(disk, damaged, total, chain, r, k);
  }

  lemma ChainMapRecovers(disk: Disk, damaged: Disk, total: u32, chain: seq<u32>, r: ScanResult, k: nat, d: nat)
    requires HealthyChain(disk, total, chain) && Damaged(disk, damaged, chain) && ChainOnBoth(disk, damaged, chain)
    requires d == DamageCount(disk, damaged, chain, |chain|) && NoFalseLink(disk, damaged, chain)
    requires FoundExactly(disk, damaged, total, chain, r.nodes) && !r.truncated
    requires k < |r.maps| && IsMapOf(r.nodes, false, r.maps[k]) && OrderLbas(r.nodes, r.maps[k].order) == chain
    ensures PlanOf(r, k).automaticSafe <==> 1 <= d <= 5
    ensures PlanOf(r, k).manualAllowed <==> 1 <= d <= 5
    ensures NameNodes(r.nodes, PlanOf(r, k).patches)
    ensures d <= 7 ==> ApplyPatches(damaged, r.nodes, PlanOf(r, k).patches) == disk
  {
    var order := r.maps[k].order;
    ScanMatches(disk, damaged, total, chain, r.nodes, order);
    InferredIsDamage(disk, damaged, total, chain, r.nodes, order);
    MatchEvaluation(chain, Originals(disk, chain), r.nodes, r.maps[k], d);
    ChainOrderRecovers(disk, damaged, total, chain, r, k, d);
  }

  lemma ChainOrderRecovers(disk: Disk, damaged: Disk, total: u32, chain: seq<u32>, r: ScanResult, k: nat, d: nat)
    requires HealthyChain(disk, total, chain) && Damaged(disk, damaged, chain) && ChainOnBoth(disk, damaged, chain)
    requires SoundNodes(damaged, total, r.nodes, false) && !r.truncated
    requires k < |r.maps| && Matches(chain, Originals(disk, chain), r.nodes, r.maps[k].order)
    requires TallyTo(r.nodes, r.maps[k].order, |chain|).inferred == d
    requires r.maps[k].confidence == Clamp(100 - 2 * d) && (r.maps[k].repairable <==> d <= 7)
    requires r.maps[k].conflicts == 0 && r.maps[k].overlaps == 0
    ensures PlanOf(r, k).automaticSafe <==> 1 <= d <= 5
    ensures PlanOf(r, k).manualAllowed <==> 1 <= d <= 5
    ensures NameNodes(r.nodes, PlanOf(r, k).patches)
    ensures d <= 7 ==> ApplyPatches(damaged, r.nodes, PlanOf(r, k).patches) == disk
  {
    var order := r.maps[k].order;
    PlanIsCorroborated(chain, Originals(disk, chain), r.nodes, order);
    NoPatchIffLinked(r.nodes, order, |order|);
    PatchesNameNodes(r.nodes, order, |order|);
    WholeOrderRestores(disk, damaged, total, chain, r.nodes, order);
    PlanGate(r, k, d);
  }

  /** The gates of the planner, for a map whose patches are all corroborated. */
  lemma PlanGate(r: ScanResult, k: nat, d: nat)
    requires !r.truncated && k < |r.maps| && ValidOrder(r.nodes, r.maps[k].order)
    requires r.maps[k].confidence == Clamp(100 - 2 * d) && (r.maps[k].repairable <==> d <= 7)
    requires r.maps[k].conflicts == 0 && r.maps[k].overlaps == 0
    requires var ps := PatchesTo(r.nodes, r.maps[k].order, |r.maps[k].order|);
             (ps == [] <==> d == 0) && CorroboratedCount(ps) == |ps|
    ensures PlanOf(r, k).automaticSafe <==> 1 <= d <= 5
    ensures PlanOf(r, k).manualAllowed <==> 1 <= d <= 5
    ensures PlanOf(r, k).patches ==
            if d <= 7 then PatchesTo(r.nodes, r.maps[k].order, |r.maps[k].order|) else []
  {
  }

  lemma WholeOrderRestores(disk: Disk, damaged: Disk, total: u32, chain: seq<u32>, nodes: seq<Node>, order: seq<nat>)
    requires HealthyChain(disk, total, chain) && Damaged(disk, damaged, chain) && ChainOnBoth(disk, damaged, chain)
    requires SoundNodes(damaged, total, nodes, false)
    requires Matches(chain, Originals(disk, chain), nodes, order)
    ensures NameNodes(nodes, PatchesTo(nodes, order, |order|))
    ensures ApplyPatches(damaged, nodes, PatchesTo(nodes, order, |order|)) == disk
  {
    ChainIsSeparate(disk, damaged, total, chain);
    MatchRestores(disk, damaged, total, chain, nodes, order);
    PatchingRestores(disk, damaged, chain, nodes, order, |chain|);
    FullyRestored(disk, damaged, chain, ApplyPatches(damaged, nodes, PatchesTo(nodes, order, |order|)));
  }

  lemma FullyRestored(disk: Disk, damaged: Disk, chain: seq<u32>, now: Disk)
    requires Damaged(disk, damaged, chain) && RestoredUpTo(disk, damaged, chain, |chain|, now)
    ensures now == disk
  {
    assert chain[..|chain|] == chain;
    forall s | s in disk ensures now[s] == disk[s] {
    }
  }
}
