/**
 Repair heals: once every patch of a repairable map is on the disk, a complete
 new scan follows exactly the repaired chain and has nothing left to patch.
 */
module ForensicHeal {
  import opened Words
  import opened Apa
  import opened Forensic
  import opened ForensicMaps
  import opened ForensicPlan
  import opened ForensicShape

  lemma {:induction false} NoRepeatBound(s: seq<nat>, n: nat)
    requires NoRepeat(s) && forall k :: 0 <= k < |s| ==> s[k] < n
    ensures |s| <= n
    decreases n
  {
    if s != [] {
      assert s[0] < n;
      if n - 1 in s {
        var k :| 0 <= k < |s| && s[k] == n - 1;
        var rest := s[..k] + s[k + 1..];
        assert forall j :: 0 <= j < |rest| ==> rest[j] == s[if j < k then j else j + 1];
        NoRepeatBound(rest, n - 1);
      } else {
        NoRepeatBound(s, n - 1);
      }
    }
  }

  /** The header that position `i` of a map has after repair. */
  function RepairedHeader(nodes: seq<Node>, order: seq<nat>, i: nat): Header
    requires ValidOrder(nodes, order) && i < |order|
  {
    var h := nodes[order[i]].header;
    if Linked(nodes, order, i) then h else PatchedHeader(h, PatchAt(nodes, order, i))
  }

  /** Every patch of the order has reached the disk, and no other header of it was harmed. */
  ghost predicate RepairedOn(disk: Disk, nodes: seq<Node>, order: seq<nat>)
    requires ValidOrder(nodes, order)
  {
    forall i :: 0 <= i < |order| ==>
      Readable(disk, nodes[order[i]].lba) &&
      HeaderAt(disk, nodes[order[i]].lba) == RepairedHeader(nodes, order, i)
  }

  /** The first sectors, which hold identity, extent and links, are those of the repaired headers. */
  ghost predicate FirstsRepaired(disk: Disk, nodes: seq<Node>, order: seq<nat>)
    requires ValidOrder(nodes, order)
  {
    forall i :: 0 <= i < |order| ==> FirstRepaired(disk, nodes, order, i)
  }

  ghost predicate FirstRepaired(disk: Disk, nodes: seq<Node>, order: seq<nat>, i: nat)
    requires ValidOrder(nodes, order) && i < |order|
  {
    && Readable(disk, nodes[order[i]].lba)
    && disk[nodes[order[i]].lba] == FirstSector(RepairedHeader(nodes, order, i))
  }

  lemma FirstOfHeader(disk: Disk, lba: int)
    requires Readable(disk, lba)
    ensures FirstSector(HeaderAt(disk, lba)) == disk[lba] && SecondSector(HeaderAt(disk, lba)) == disk[lba + 1]
    ensures forall w :: 0 <= w < SECTOR_WORDS ==> HeaderAt(disk, lba)[w] == disk[lba][w]
  {
  }

  /** A header that carries a full identity and exactly these links. */
  ghost predicate GoodHeader(h: Header, lba: u32, total: u32, next: u32, prev: u32) {
    && MagicOk(h) && SelfStart(h, lba) && LengthOk(h, total)
    && NextOf(h) == next && PrevOf(h) == prev
  }

  /** Member `i` of a chain is readable and linked to its neighbours. */
  ghost predicate GoodMember(disk: Disk, total: u32, lbas: seq<u32>, i: nat)
    requires i < |lbas|
  {
    InDisk(lbas[i], total) && Readable(disk, lbas[i]) &&
    GoodHeader(HeaderAt(disk, lbas[i]), lbas[i], total, DesiredNext(lbas, i), DesiredPrev(lbas, i))
  }

  ghost predicate GoodChain(disk: Disk, total: u32, lbas: seq<u32>) {
    && 2 <= |lbas| <= MAX_NODES
    && lbas[0] == 0
    && NoRepeat(lbas)
    && forall i :: 0 <= i < |lbas| ==> GoodMember(disk, total, lbas, i)
  }

  /** The nodes of a scan that was not cut short. */
  ghost predicate CompleteNodes(disk: Disk, total: u32, nodes: seq<Node>) {
    && SoundNodes(disk, total, nodes, false)
    && GridComplete(disk, total, nodes, total)
    && ReferenceClosed(disk, total, nodes)
  }

  lemma RepairedMember(disk: Disk, total: u32, nodes: seq<Node>, order: seq<nat>, repaired: Disk, i: nat)
    requires ValidOrder(nodes, order) && i < |order| && FirstRepaired(repaired, nodes, order, i)
    requires SoundNode(disk, total, nodes[order[i]]) && CoreEvidence(nodes[order[i]])
    ensures GoodMember(repaired, total, OrderLbas(nodes, order), i)
  {
    CoreIsReal(disk, total, nodes[order[i]]);
    PatchChangesOnlyLinks(nodes[order[i]].header, PatchAt(nodes, order, i));
    FirstOfHeader(repaired, nodes[order[i]].lba);
    var h := RepairedHeader(nodes, order, i);
    assert forall w :: 0 <= w < SECTOR_WORDS ==> FirstSector(h)[w] == h[w];
  }

  lemma RepairedMembers(disk: Disk, total: u32, nodes: seq<Node>, order: seq<nat>, repaired: Disk)
    requires ValidOrder(nodes, order) && FirstsRepaired(repaired, nodes, order)
    requires forall i :: 0 <= i < |nodes| ==> SoundNode(disk, total, nodes[i])
    requires forall i :: 0 <= i < |order| ==> CoreEvidence(nodes[order[i]])
    ensures forall i :: 0 <= i < |order| ==> GoodMember(repaired, total, OrderLbas(nodes, order), i)
  {
    forall i | 0 <= i < |order| ensures GoodMember(repaired, total, OrderLbas(nodes, order), i) {
      RepairedMember(disk, total, nodes, order, repaired, i);
    }
  }

  lemma PatchedAreSealed(nodes: seq<Node>, order: seq<nat>, repaired: Disk)
    requires ValidOrder(nodes, order) && RepairedOn(repaired, nodes, order)
    ensures forall i :: 0 <= i < |order| && !Linked(nodes, order, i) ==>
              ChecksumOk(HeaderAt(repaired, nodes[order[i]].lba))
  {
    forall i | 0 <= i < |order| && !Linked(nodes, order, i)
      ensures ChecksumOk(HeaderAt(repaired, nodes[order[i]].lba))
    {
      PatchChangesOnlyLinks(nodes[order[i]].header, PatchAt(nodes, order, i));
    }
  }

  /**
   With the first sectors repaired the members form a fully linked chain; with
   the whole headers repaired every patched one has a valid checksum.
   */
  lemma RepairMakesGoodChain(disk: Disk, total: u32, r: ScanResult, k: nat, repaired: Disk)
    requires ScanOf(disk, total, r) && k < |r.maps| && r.maps[k].repairable
    requires ValidOrder(r.nodes, r.maps[k].order)
    requires NoRepeat(r.maps[k].order) && FirstsRepaired(repaired, r.nodes, r.maps[k].order)
    ensures GoodChain(repaired, total, OrderLbas(r.nodes, r.maps[k].order))
    ensures RepairedOn(repaired, r.nodes, r.maps[k].order) ==>
              forall i :: 0 <= i < |r.maps[k].order| && !Linked(r.nodes, r.maps[k].order, i) ==>
                ChecksumOk(HeaderAt(repaired, r.nodes[r.maps[k].order[i]].lba))
  {
    var order := r.maps[k].order;
    RepairableMapShape(disk, total, r, k);
    RetainedMaps(disk, total, r);
    MembersHaveCore(r.nodes, r.truncated, r.maps[k]);
    NoRepeatBound(order, |r.nodes|);
    LbasNeverRepeat(r.nodes, order);
    RepairedMembers(disk, total, r.nodes, order, repaired);
    if RepairedOn(repaired, r.nodes, order) {
      PatchedAreSealed(r.nodes, order, repaired);
    }
  }

  lemma LbasNeverRepeat(nodes: seq<Node>, order: seq<nat>)
    requires DistinctLbas(nodes) && ValidOrder(nodes, order) && NoRepeat(order)
    ensures NoRepeat(OrderLbas(nodes, order))
  {
  }

  lemma GoodHeaderScores(h: Header, lba: u32, total: u32, next: u32, prev: u32)
    requires GoodHeader(h, lba, total, next, prev)
    ensures FullScore(h, lba, total) >= 60
  {
  }

  /** A good chain member that is a node is eligible and carries the links of the chain. */
  lemma NodeOfMember(disk: Disk, total: u32, lbas: seq<u32>, i: nat, n: Node)
    requires i < |lbas| && GoodMember(disk, total, lbas, i)
    requires SoundNode(disk, total, n) && n.lba == lbas[i]
    ensures Eligible(n) && n.Next() == DesiredNext(lbas, i) && n.Prev() == DesiredPrev(lbas, i)
  {
    GoodHeaderScores(n.header, lbas[i], total, DesiredNext(lbas, i), DesiredPrev(lbas, i));
    assert n.OwnEvidence().magic && n.OwnEvidence().length;
  }

  lemma {:induction false} MemberFound(disk: Disk, total: u32, nodes: seq<Node>, lbas: seq<u32>, i: nat)
    requires GoodChain(disk, total, lbas) && CompleteNodes(disk, total, nodes) && i < |lbas|
    ensures HasLba(nodes, lbas[i])
  {
    assert GoodMember(disk, total, lbas, i);
    GoodHeaderScores(HeaderAt(disk, lbas[i]), lbas[i], total, DesiredNext(lbas, i), DesiredPrev(lbas, i));
    if i == 0 {
      assert OnGrid(0);
      assert Covered(disk, total, nodes, 0, Grid);
    } else {
      MemberFound(disk, total, nodes, lbas, i - 1);
      var at := Find(nodes, lbas[i - 1]).value;
      assert GoodMember(disk, total, lbas, i - 1);
      NodeOfMember(disk, total, lbas, i - 1, nodes[at]);
      assert Chased(disk, total, nodes, nodes[at]);
      assert lbas[0] != lbas[i];
      assert Refers(nodes[at], lbas[i]);
      assert Covered(disk, total, nodes, lbas[i], Referenced);
    }
  }

  /** `order` goes through the first `k` LBAs of the chain. */
  ghost predicate Follows(nodes: seq<Node>, order: seq<nat>, lbas: seq<u32>, k: nat) {
    && k <= |lbas| && k <= |order| && ValidOrder(nodes, order)
    && forall i :: 0 <= i < k ==> nodes[order[i]].lba == lbas[i]
  }

  /** A forward order goes on with the next chain member ... */
  lemma StepAlongChain(disk: Disk, total: u32, nodes: seq<Node>, lbas: seq<u32>, order: seq<nat>, k: nat)
    requires GoodChain(disk, total, lbas) && CompleteNodes(disk, total, nodes)
    requires Follows(nodes, order, lbas, k) && 0 < k < |lbas|
    ensures HasLba(nodes, lbas[k]) && ForwardStep(nodes, order[..k]) == Find(nodes, lbas[k])
  {
    var n := nodes[order[k - 1]];
    assert GoodMember(disk, total, lbas, k - 1);
    NodeOfMember(disk, total, lbas, k - 1, n);
    MemberFound(disk, total, nodes, lbas, k);
    assert lbas[0] != lbas[k];
    assert n.Next() == lbas[k];
    NextIsFresh(nodes, lbas, order, k, Find(nodes, lbas[k]).value);
  }

  lemma NextIsFresh(nodes: seq<Node>, lbas: seq<u32>, order: seq<nat>, k: nat, next: nat)
    requires Follows(nodes, order, lbas, k) && k < |lbas| && NoRepeat(lbas)
    requires next < |nodes| && nodes[next].lba == lbas[k]
    ensures next !in order[..k]
  {
  }

  /** ... and stops at the last one. */
  lemma StopAtTail(disk: Disk, total: u32, nodes: seq<Node>, lbas: seq<u32>, order: seq<nat>)
    requires GoodChain(disk, total, lbas) && CompleteNodes(disk, total, nodes)
    requires Follows(nodes, order, lbas, |lbas|)
    ensures ForwardStep(nodes, order[..|lbas|]) == None
  {
    var last := |lbas| - 1;
    assert GoodMember(disk, total, lbas, last);
    NodeOfMember(disk, total, lbas, last, nodes[order[last]]);
    assert lbas[0] != lbas[last];
  }

  /** A forward order that has followed the chain so far does not stop before its end. */
  lemma FollowsOneMore(disk: Disk, total: u32, nodes: seq<Node>, lbas: seq<u32>, order: seq<nat>, k: nat)
    requires GoodChain(disk, total, lbas) && CompleteNodes(disk, total, nodes)
    requires IsForwardOrder(nodes, order) && 0 < k < |lbas| && Follows(nodes, order, lbas, k)
    ensures Follows(nodes, order, lbas, k + 1)
  {
    StepAlongChain(disk, total, nodes, lbas, order, k);
    assert order[..|order|] == order;
    assert k < |order|;
    assert ForwardStep(nodes, order[..k]) == Some(order[k]);
  }

  lemma {:induction false} ForwardFollows(disk: Disk, total: u32, nodes: seq<Node>, lbas: seq<u32>, order: seq<nat>,
                                          k: nat)
    requires GoodChain(disk, total, lbas) && CompleteNodes(disk, total, nodes)
    requires IsForwardOrder(nodes, order) && 0 < k <= |lbas|
    ensures Follows(nodes, order, lbas, k)
  {
    if k == 1 {
      MemberFound(disk, total, nodes, lbas, 0);
    } else {
      ForwardFollows(disk, total, nodes, lbas, order, k - 1);
      FollowsOneMore(disk, total, nodes, lbas, order, k - 1);
    }
  }

  lemma ForwardIsChain(disk: Disk, total: u32, nodes: seq<Node>, lbas: seq<u32>, order: seq<nat>)
    requires GoodChain(disk, total, lbas) && CompleteNodes(disk, total, nodes)
    requires IsForwardOrder(nodes, order)
    ensures ValidOrder(nodes, order) && OrderLbas(nodes, order) == lbas
    ensures forall i :: 0 <= i < |order| ==> Linked(nodes, order, i)
  {
    ForwardFollows(disk, total, nodes, lbas, order, |lbas|);
    StopAtTail(disk, total, nodes, lbas, order);
    MemberFound(disk, total, nodes, lbas, 0);
    assert |order| == |lbas|;
    assert OrderLbas(nodes, order) == lbas;
    forall i | 0 <= i < |order| ensures Linked(nodes, order, i) {
      assert GoodMember(disk, total, lbas, i);
      NodeOfMember(disk, total, lbas, i, nodes[order[i]]);
    }
  }

  lemma {:induction false} NothingToPatch(nodes: seq<Node>, order: seq<nat>, k: nat)
    requires ValidOrder(nodes, order) && k <= |order|
    requires forall i :: 0 <= i < |order| ==> Linked(nodes, order, i)
    ensures PatchesTo(nodes, order, k) == []
  {
    if k > 0 {
      NothingToPatch(nodes, order, k - 1);
    }
  }

  /** A complete scan of a good chain retains, as its first map, the forward map of that chain. */
  lemma GoodChainIsFirstMap(disk: Disk, total: u32, r: ScanResult, lbas: seq<u32>)
    requires GoodChain(disk, total, lbas) && ScanOf(disk, total, r) && !r.truncated
    ensures |r.maps| > 0 && r.maps[0].kind.Forward?
    ensures ValidOrder(r.nodes, r.maps[0].order) && OrderLbas(r.nodes, r.maps[0].order) == lbas
    ensures forall i :: 0 <= i < |lbas| ==> Linked(r.nodes, r.maps[0].order, i)
    ensures PlanOf(r, 0).patches == []
  {
    MemberFound(disk, total, r.nodes, lbas, 0);
    var forward := FirstMapIsForward(disk, total, r);
    ForwardIsChain(disk, total, r.nodes, lbas, forward);
    NothingToPatch(r.nodes, forward, |forward|);
  }

  /** A scan that has a forward order retains its map first. */
  lemma FirstMapIsForward(disk: Disk, total: u32, r: ScanResult) returns (forward: seq<nat>)
    requires ScanOf(disk, total, r) && HasLba(r.nodes, 0)
    ensures IsForwardOrder(r.nodes, forward)
    ensures |r.maps| > 0 && r.maps[0].kind.Forward? && r.maps[0].order == forward
  {
    var order, reverse, geometry :| MapsFrom(r, order, reverse, geometry);
    forward := order;
    FirstIsKept(Evaluated(r.nodes, r.truncated, Forward, order),
                Evaluated(r.nodes, r.truncated, Reverse, reverse),
                Evaluated(r.nodes, r.truncated, Geometry, geometry));
  }

  lemma FirstIsKept(f: ChainMap, v: ChainMap, g: ChainMap)
    requires f.order != []
    ensures var maps := AddUnique(AddUnique(AddUnique([], f), v), g); |maps| > 0 && maps[0] == f
  {
  }

  /**
   Repair heals and is idempotent. After the first sectors of a repairable map
   without repeats are repaired, any complete rescan yields a forward map with
   exactly the repaired LBA order, every link in place and no patch left.
   */
  lemma RepairHeals(disk: Disk, total: u32, r: ScanResult, k: nat, repaired: Disk, rescan: ScanResult)
    requires ScanOf(disk, total, r) && k < |r.maps| && r.maps[k].repairable
    requires ValidOrder(r.nodes, r.maps[k].order)
    requires NoRepeat(r.maps[k].order) && FirstsRepaired(repaired, r.nodes, r.maps[k].order)
    requires ScanOf(repaired, total, rescan) && !rescan.truncated
    ensures |rescan.maps| > 0 && rescan.maps[0].kind.Forward?
    ensures ValidOrder(rescan.nodes, rescan.maps[0].order)
    ensures OrderLbas(rescan.nodes, rescan.maps[0].order) == OrderLbas(r.nodes, r.maps[k].order)
    ensures forall i :: 0 <= i < |rescan.maps[0].order| ==> Linked(rescan.nodes, rescan.maps[0].order, i)
    ensures PlanOf(rescan, 0).patches == []
  {
    RepairMakesGoodChain(disk, total, r, k, repaired);
    GoodChainIsFirstMap(repaired, total, rescan, OrderLbas(r.nodes, r.maps[k].order));
  }
}
