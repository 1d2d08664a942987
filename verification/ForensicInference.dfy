/**
 What the forward and the reverse walk make up for. Each follows one direction
 of links and, where a link is lost, infers the neighbour from the other
 direction. With one direction of links intact, these are the exact conditions
 under which a walk still gives the chain.
 */
module ForensicInference {
  import opened Words
  import opened Apa
  import opened Forensic
  import opened ForensicMaps
  import opened ForensicPlan
  import opened ForensicHeal
  import opened ForensicRecovery

  /** The nodes are exactly the members of the chain, all of them fit to be inferred. */
  ghost predicate NodesOfChain(nodes: seq<Node>, chain: seq<u32>) {
    && 2 <= |chain| <= MAX_NODES && chain[0] == 0 && NoRepeat(chain) && DistinctLbas(nodes)
    && (forall k :: 0 <= k < |nodes| ==> nodes[k].lba in chain && nodes[k].confidence >= 55)
    && (forall i :: 0 <= i < |chain| ==> HasLba(nodes, chain[i]))
  }

  /** The node of member `i`. */
  ghost function Member(nodes: seq<Node>, chain: seq<u32>, i: nat): (at: nat)
    requires NodesOfChain(nodes, chain) && i < |chain|
    ensures at < |nodes| && nodes[at].lba == chain[i]
  {
    Find(nodes, chain[i]).value
  }

  ghost predicate PrevsIntact(nodes: seq<Node>, chain: seq<u32>)
    requires NodesOfChain(nodes, chain)
  {
    forall i :: 0 <= i < |chain| ==> nodes[Member(nodes, chain, i)].Prev() == DesiredPrev(chain, i)
  }

  ghost predicate NextsIntact(nodes: seq<Node>, chain: seq<u32>)
    requires NodesOfChain(nodes, chain)
  {
    forall i :: 0 <= i < |chain| ==> nodes[Member(nodes, chain, i)].Next() == DesiredNext(chain, i)
  }

  lemma TheMember(nodes: seq<Node>, chain: seq<u32>, at: nat, i: nat)
    requires NodesOfChain(nodes, chain) && i < |chain| && at < |nodes| && nodes[at].lba == chain[i]
    ensures at == Member(nodes, chain, i)
  {
  }

  lemma SomeMember(nodes: seq<Node>, chain: seq<u32>, at: nat) returns (i: nat)
    requires NodesOfChain(nodes, chain) && at < |nodes|
    ensures i < |chain| && at == Member(nodes, chain, i)
  {
    i :| 0 <= i < |chain| && chain[i] == nodes[at].lba;
    TheMember(nodes, chain, at, i);
  }

  lemma NamesNode(nodes: seq<Node>, chain: seq<u32>, lba: u32)
    requires NodesOfChain(nodes, chain)
    ensures HasLba(nodes, lba) <==> lba in chain
  {
  }

  // ----- forward

  /**
   The `next` of member `i` does not lead the forward walk astray: it does not
   jump past the next member, and it is not a false end of the chain. A zero
   in the master is no end.
   */
  predicate LeadsOn(chain: seq<u32>, next: u32, i: nat)
    requires i + 1 < |chain|
  {
    next !in chain[i + 2..] && (next == 0 ==> i == 0)
  }

  ghost predicate AllLeadOn(nodes: seq<Node>, chain: seq<u32>)
    requires NodesOfChain(nodes, chain)
  {
    forall i :: 0 <= i < |chain| - 1 ==> LeadsOn(chain, nodes[Member(nodes, chain, i)].Next(), i)
  }

  /** Outside the first `k` members, only member `k` has member `k - 1` as its `prev`. */
  lemma OnlySuccessor(nodes: seq<Node>, chain: seq<u32>, walk: seq<nat>, k: nat)
    requires NodesOfChain(nodes, chain) && PrevsIntact(nodes, chain)
    requires 0 < k < |chain| && |walk| == k && Follows(nodes, walk, chain, k)
    ensures UniqueLink(nodes, walk, chain[k - 1], true) == Some(Member(nodes, chain, k))
  {
    var at := Member(nodes, chain, k);
    NextIsFresh(nodes, chain, walk, k, at);
    assert walk[..k] == walk;
    var before := chain[k - 1];
    assert LinkCandidate(nodes, walk, before, true, at);
    forall j | LinkCandidate(nodes, walk, before, true, j) ensures j == at {
      var i := SomeMember(nodes, chain, j);
      assert nodes[j].Prev() == DesiredPrev(chain, i);
    }
    assert OnlyCandidate(nodes, walk, before, true, at);
  }

  /** The next step goes to the next member exactly if the `next` of the last one does not mislead. */
  lemma ForwardStepIs(nodes: seq<Node>, chain: seq<u32>, walk: seq<nat>, k: nat)
    requires NodesOfChain(nodes, chain) && PrevsIntact(nodes, chain)
    requires 0 < k < |chain| && |walk| == k && Follows(nodes, walk, chain, k)
    ensures ForwardStep(nodes, walk) == Some(Member(nodes, chain, k)) <==>
            LeadsOn(chain, nodes[Member(nodes, chain, k - 1)].Next(), k - 1)
  {
    TheMember(nodes, chain, walk[k - 1], k - 1);
    OnlySuccessor(nodes, chain, walk, k);
    var next := nodes[walk[k - 1]].Next();
    assert walk[k - 1] == walk[0] <==> k == 1;
    if next != 0 {
      NamesNode(nodes, chain, next);
      if next in chain {
        var j :| 0 <= j < |chain| && chain[j] == next;
        var to := Find(nodes, next).value;
        TheMember(nodes, chain, to, j);
        if j < k {
          TheMember(nodes, chain, walk[j], j);
          assert to in walk;
        } else {
          forall i | 0 <= i < k ensures walk[i] != to {
            assert nodes[walk[i]].lba == chain[i];
          }
          assert j > k ==> chain[j] == chain[k + 1..][j - k - 1];
        }
      }
    }
  }

  lemma NothingAfterAll(nodes: seq<Node>, chain: seq<u32>, walk: seq<nat>)
    requires NodesOfChain(nodes, chain) && |walk| == |chain| && Follows(nodes, walk, chain, |chain|)
    ensures ForwardStep(nodes, walk) == None
  {
    var r := ForwardStep(nodes, walk);
    if r.Some? {
      var i := SomeMember(nodes, chain, r.value);
      TheMember(nodes, chain, walk[i], i);
      assert false;
    }
  }

  /** A forward order goes wherever its steps lead, and stops where there is none. */
  lemma OrderSteps(nodes: seq<Node>, order: seq<nat>, k: nat)
    requires IsForwardOrder(nodes, order) && 1 <= k <= |order| && k < MAX_NODES
    ensures ValidOrder(nodes, order)
    ensures ForwardStep(nodes, order[..k]) == if k < |order| then Some(order[k]) else None
  {
    if k == |order| {
      assert order[..k] == order;
    }
  }

  lemma StartsAtMaster(nodes: seq<Node>, chain: seq<u32>, order: seq<nat>)
    requires NodesOfChain(nodes, chain) && IsForwardOrder(nodes, order)
    ensures Follows(nodes, order, chain, 1) && |order| <= MAX_NODES
  {
    assert HasLba(nodes, chain[0]);
  }

  lemma {:induction false} ForwardFollowsChain(nodes: seq<Node>, chain: seq<u32>, order: seq<nat>, k: nat)
    requires NodesOfChain(nodes, chain) && PrevsIntact(nodes, chain) && AllLeadOn(nodes, chain)
    requires IsForwardOrder(nodes, order) && 0 < k <= |chain|
    ensures Follows(nodes, order, chain, k)
  {
    if k == 1 {
      StartsAtMaster(nodes, chain, order);
    } else {
      ForwardFollowsChain(nodes, chain, order, k - 1);
      OneMoreFollows(nodes, chain, order, k - 1);
    }
  }

  lemma FollowsNext(nodes: seq<Node>, order: seq<nat>, chain: seq<u32>, k: nat)
    requires Follows(nodes, order, chain, k) && k < |chain|
    ensures Follows(nodes, order, chain, k + 1) <==> k < |order| && nodes[order[k]].lba == chain[k]
  {
  }

  lemma OneMoreFollows(nodes: seq<Node>, chain: seq<u32>, order: seq<nat>, k: nat)
    requires NodesOfChain(nodes, chain) && PrevsIntact(nodes, chain)
    requires IsForwardOrder(nodes, order) && 0 < k < |chain| && Follows(nodes, order, chain, k)
    ensures Follows(nodes, order, chain, k + 1) <==>
            LeadsOn(chain, nodes[Member(nodes, chain, k - 1)].Next(), k - 1)
  {
    FollowsNext(nodes, order, chain, k);
    assert Follows(nodes, order[..k], chain, k) && order[..k][k - 1] == order[k - 1];
    ForwardStepIs(nodes, chain, order[..k], k);
    OrderSteps(nodes, order, k);
    if k < |order| && nodes[order[k]].lba == chain[k] {
      TheMember(nodes, chain, order[k], k);
    }
  }

  /**
   Forward reconstruction. When every `prev` is intact, the forward order is the
   chain exactly if no `next` misleads: each one is right, or leads to nothing,
   or leads back. What the last `next` holds does not matter.
   */
  lemma ForwardInfers(nodes: seq<Node>, chain: seq<u32>, order: seq<nat>)
    requires NodesOfChain(nodes, chain) && PrevsIntact(nodes, chain) && IsForwardOrder(nodes, order)
    ensures ValidOrder(nodes, order)
    ensures OrderLbas(nodes, order) == chain <==> AllLeadOn(nodes, chain)
  {
    StartsAtMaster(nodes, chain, order);
    if AllLeadOn(nodes, chain) {
      ForwardFollowsChain(nodes, chain, order, |chain|);
      NoneAfterChain(nodes, chain, order);
    }
    if OrderLbas(nodes, order) == chain {
      ChainMeansLeads(nodes, chain, order);
    }
  }

  lemma ChainMeansLeads(nodes: seq<Node>, chain: seq<u32>, order: seq<nat>)
    requires NodesOfChain(nodes, chain) && PrevsIntact(nodes, chain)
    requires IsForwardOrder(nodes, order) && Follows(nodes, order, chain, |chain|)
    ensures AllLeadOn(nodes, chain)
  {
    forall i | 0 <= i < |chain| - 1
      ensures LeadsOn(chain, nodes[Member(nodes, chain, i)].Next(), i)
    {
      assert Follows(nodes, order, chain, i + 1) && Follows(nodes, order, chain, i + 2);
      OneMoreFollows(nodes, chain, order, i + 1);
    }
  }

  lemma NoneAfterChain(nodes: seq<Node>, chain: seq<u32>, order: seq<nat>)
    requires NodesOfChain(nodes, chain) && IsForwardOrder(nodes, order)
    requires Follows(nodes, order, chain, |chain|)
    ensures OrderLbas(nodes, order) == chain
  {
    StartsAtMaster(nodes, chain, order);
    NothingAfterAll(nodes, chain, order[..|chain|]);
    if |chain| < MAX_NODES {
      OrderSteps(nodes, order, |chain|);
    }
  }

  // ----- reverse

  /** The `prev` of the master does not start the walk in the middle of the chain. */
  predicate StartsAtTail(chain: seq<u32>, prev: u32)
    requires 2 <= |chain|
  {
    prev !in chain[1..|chain| - 1]
  }

  /** The `prev` of a later member is right or leads nowhere. */
  predicate LeadsBack(chain: seq<u32>, prev: u32, i: nat)
    requires 2 <= i < |chain|
  {
    prev == chain[i - 1] || prev !in chain
  }

  /** The walk ends at member 1: its `prev` is zero or names a member, or the walk is full. */
  predicate EndsAtFirst(chain: seq<u32>, prev: u32) {
    prev in chain || |chain| == MAX_NODES
  }

  ghost predicate AllLeadBack(nodes: seq<Node>, chain: seq<u32>)
    requires NodesOfChain(nodes, chain)
  {
    && StartsAtTail(chain, nodes[Member(nodes, chain, 0)].Prev())
    && EndsAtFirst(chain, nodes[Member(nodes, chain, 1)].Prev())
    && forall i :: 2 <= i < |chain| ==> LeadsBack(chain, nodes[Member(nodes, chain, i)].Prev(), i)
  }

  /** The walk has gone back through the last `k` members. */
  ghost predicate FollowsBack(nodes: seq<Node>, walk: seq<nat>, chain: seq<u32>, k: nat) {
    && k <= |chain| && k <= |walk| && ValidOrder(nodes, walk)
    && forall j :: 0 <= j < k ==> nodes[walk[j]].lba == chain[|chain| - 1 - j]
  }

  lemma InWalkBack(nodes: seq<Node>, chain: seq<u32>, walk: seq<nat>, k: nat, i: nat)
    requires NodesOfChain(nodes, chain) && |walk| == k && FollowsBack(nodes, walk, chain, k) && i < |chain|
    ensures Member(nodes, chain, i) in walk <==> i >= |chain| - k
  {
    var last := |chain| - 1;
    if i >= |chain| - k {
      TheMember(nodes, chain, walk[last - i], i);
    } else {
      forall j | 0 <= j < k ensures walk[j] != Member(nodes, chain, i) {
        assert nodes[walk[j]].lba == chain[last - j];
      }
    }
  }

  /** Only member `i - 1` has member `i` as its `next`, and only the last has none. */
  lemma OnlyPredecessor(nodes: seq<Node>, chain: seq<u32>, walk: seq<nat>, k: nat)
    requires NodesOfChain(nodes, chain) && NextsIntact(nodes, chain)
    requires k < |chain| && |walk| == k && FollowsBack(nodes, walk, chain, k)
    ensures var lba := if k == 0 then 0 else chain[|chain| - k];
            UniqueLink(nodes, walk, lba, false) == Some(Member(nodes, chain, |chain| - 1 - k))
  {
    var lba: u32 := if k == 0 then 0 else chain[|chain| - k];
    var at := Member(nodes, chain, |chain| - 1 - k);
    InWalkBack(nodes, chain, walk, k, |chain| - 1 - k);
    assert nodes[at].Next() == DesiredNext(chain, |chain| - 1 - k);
    assert LinkCandidate(nodes, walk, lba, false, at);
    forall j | LinkCandidate(nodes, walk, lba, false, j) ensures j == at {
      var i := SomeMember(nodes, chain, j);
      assert nodes[j].Next() == DesiredNext(chain, i);
      InWalkBack(nodes, chain, walk, k, i);
    }
    assert OnlyCandidate(nodes, walk, lba, false, at);
  }

  /** Where the walk goes when it looks for what comes before its last member. */
  lemma BackFrom(nodes: seq<Node>, chain: seq<u32>, walk: seq<nat>, k: nat, prev: u32)
    requires NodesOfChain(nodes, chain) && NextsIntact(nodes, chain)
    requires k < |chain| && |walk| == k && FollowsBack(nodes, walk, chain, k)
    ensures var lba := if k == 0 then 0 else chain[|chain| - k];
            var to := FindOrUnique(nodes, walk, prev, lba);
            && to.Some?
            && (prev == 0 || prev !in chain ==> to.value == Member(nodes, chain, |chain| - 1 - k))
            && (prev != 0 && prev in chain ==> nodes[to.value].lba == prev)
  {
    OnlyPredecessor(nodes, chain, walk, k);
    NamesNode(nodes, chain, prev);
  }

  lemma FirstBackIs(nodes: seq<Node>, chain: seq<u32>, master: nat)
    requires NodesOfChain(nodes, chain) && NextsIntact(nodes, chain) && Find(nodes, 0) == Some(master)
    ensures FindOrUnique(nodes, [], nodes[master].Prev(), 0) == Some(Member(nodes, chain, |chain| - 1)) <==>
            StartsAtTail(chain, nodes[master].Prev())
  {
    var prev, last := nodes[master].Prev(), |chain| - 1;
    BackFrom(nodes, chain, [], 0, prev);
    if prev != 0 && prev in chain {
      var j :| 0 <= j < |chain| && chain[j] == prev;
      var to := FindOrUnique(nodes, [], prev, 0).value;
      TheMember(nodes, chain, to, j);
      assert j < last ==> chain[j] == chain[1..last][j - 1];
    }
  }

  lemma ReverseStepIs(nodes: seq<Node>, chain: seq<u32>, walk: seq<nat>, k: nat)
    requires NodesOfChain(nodes, chain) && NextsIntact(nodes, chain)
    requires 0 < k < |chain| && |walk| == k && FollowsBack(nodes, walk, chain, k)
    ensures var prev := nodes[Member(nodes, chain, |chain| - k)].Prev();
            && (k < |chain| - 1 ==>
                  (ReverseStep(nodes, walk) == Some(Member(nodes, chain, |chain| - 1 - k)) <==>
                   LeadsBack(chain, prev, |chain| - k)))
            && (k == |chain| - 1 ==> (ReverseStep(nodes, walk) == None <==> prev in chain))
  {
    var i := |chain| - k;
    TheMember(nodes, chain, walk[k - 1], i);
    var prev := nodes[walk[k - 1]].Prev();
    if prev == 0 {
      assert chain[0] in chain;
    } else {
      BackFrom(nodes, chain, walk, k, prev);
      var to := FindOrUnique(nodes, walk, prev, chain[i]).value;
      var j := SomeMember(nodes, chain, to);
      InWalkBack(nodes, chain, walk, k, j);
    }
  }

  // The walk behind a reverse order, one step at a time.

  lemma WalkSteps(nodes: seq<Node>, master: nat, walk: seq<nat>, k: nat)
    requires master < |nodes| && IsReverseWalk(nodes, master, walk) && 1 <= k <= |walk| && k < MAX_NODES - 1
    ensures ReverseStep(nodes, walk[..k]) == if k < |walk| then Some(walk[k]) else None
  {
    if k == |walk| {
      assert walk[..k] == walk;
    }
  }

  lemma FirstFollows(nodes: seq<Node>, chain: seq<u32>, master: nat, walk: seq<nat>)
    requires NodesOfChain(nodes, chain) && NextsIntact(nodes, chain) && Find(nodes, 0) == Some(master)
    requires IsReverseWalk(nodes, master, walk)
    ensures FollowsBack(nodes, walk, chain, 1) <==> StartsAtTail(chain, nodes[master].Prev())
  {
    FirstBackIs(nodes, chain, master);
    if walk != [] && nodes[walk[0]].lba == chain[|chain| - 1] {
      TheMember(nodes, chain, walk[0], |chain| - 1);
    }
  }

  lemma OneMoreBack(nodes: seq<Node>, chain: seq<u32>, master: nat, walk: seq<nat>, k: nat)
    requires NodesOfChain(nodes, chain) && NextsIntact(nodes, chain) && master < |nodes|
    requires IsReverseWalk(nodes, master, walk) && 0 < k < |chain| - 1 && FollowsBack(nodes, walk, chain, k)
    ensures FollowsBack(nodes, walk, chain, k + 1) <==>
            LeadsBack(chain, nodes[Member(nodes, chain, |chain| - k)].Prev(), |chain| - k)
  {
    ReverseStepIs(nodes, chain, walk[..k], k);
    WalkSteps(nodes, master, walk, k);
    if k < |walk| && nodes[walk[k]].lba == chain[|chain| - 1 - k] {
      TheMember(nodes, chain, walk[k], |chain| - 1 - k);
    }
  }

  lemma EndOfWalk(nodes: seq<Node>, chain: seq<u32>, master: nat, walk: seq<nat>)
    requires NodesOfChain(nodes, chain) && NextsIntact(nodes, chain) && master < |nodes|
    requires IsReverseWalk(nodes, master, walk) && FollowsBack(nodes, walk, chain, |chain| - 1)
    ensures |walk| == |chain| - 1 <==> EndsAtFirst(chain, nodes[Member(nodes, chain, 1)].Prev())
  {
    var k := |chain| - 1;
    ReverseStepIs(nodes, chain, walk[..k], k);
    if k < MAX_NODES - 1 {
      WalkSteps(nodes, master, walk, k);
    }
  }

  lemma {:induction false} WalkFollowsBack(nodes: seq<Node>, chain: seq<u32>, master: nat, walk: seq<nat>, k: nat)
    requires NodesOfChain(nodes, chain) && NextsIntact(nodes, chain) && Find(nodes, 0) == Some(master)
    requires IsReverseWalk(nodes, master, walk) && AllLeadBack(nodes, chain) && 0 < k < |chain|
    ensures FollowsBack(nodes, walk, chain, k)
  {
    if k == 1 {
      FirstFollows(nodes, chain, master, walk);
    } else {
      WalkFollowsBack(nodes, chain, master, walk, k - 1);
      OneMoreBack(nodes, chain, master, walk, k - 1);
    }
  }

  lemma WalkInfers(nodes: seq<Node>, chain: seq<u32>, master: nat, walk: seq<nat>)
    requires NodesOfChain(nodes, chain) && NextsIntact(nodes, chain) && Find(nodes, 0) == Some(master)
    requires IsReverseWalk(nodes, master, walk)
    ensures |walk| == |chain| - 1 && FollowsBack(nodes, walk, chain, |walk|) <==> AllLeadBack(nodes, chain)
  {
    if AllLeadBack(nodes, chain) {
      WalkFollowsBack(nodes, chain, master, walk, |chain| - 1);
      EndOfWalk(nodes, chain, master, walk);
    }
    if |walk| == |chain| - 1 && FollowsBack(nodes, walk, chain, |walk|) {
      FirstFollows(nodes, chain, master, walk);
      EndOfWalk(nodes, chain, master, walk);
      forall i | 2 <= i < |chain| ensures LeadsBack(chain, nodes[Member(nodes, chain, i)].Prev(), i) {
        OneMoreBack(nodes, chain, master, walk, |chain| - i);
      }
    }
  }

  /** A reverse order is the master and then the walk, backwards. */
  lemma OrderOfWalk(nodes: seq<Node>, master: nat, walk: seq<nat>, order: seq<nat>)
    requires ReverseOrderFrom(nodes, master, walk, order)
    ensures ValidOrder(nodes, order) && ValidOrder(nodes, walk) && |order| == |walk| + 1 && order[0] == master
    ensures forall j :: 0 <= j < |walk| ==> walk[j] == order[|walk| - j]
  {
    assert forall k :: 1 <= k < |order| ==> order[k] == order[1..][k - 1] == walk[|walk| - k];
  }

  lemma ChainOfWalk(nodes: seq<Node>, chain: seq<u32>, walk: seq<nat>, order: seq<nat>)
    requires ValidOrder(nodes, order) && ValidOrder(nodes, walk) && |order| == |walk| + 1
    requires forall j :: 0 <= j < |walk| ==> walk[j] == order[|walk| - j]
    requires |chain| > 0 && nodes[order[0]].lba == chain[0]
    ensures OrderLbas(nodes, order) == chain <==>
            |walk| == |chain| - 1 && FollowsBack(nodes, walk, chain, |walk|)
  {
    var lbas := OrderLbas(nodes, order);
    if |walk| == |chain| - 1 && FollowsBack(nodes, walk, chain, |walk|) {
      forall k | 0 <= k < |order| ensures lbas[k] == chain[k] {
        if k > 0 {
          assert walk[|walk| - k] == order[|walk| - (|walk| - k)];
        }
      }
    }
  }

  lemma WalkIsChain(nodes: seq<Node>, chain: seq<u32>, master: nat, walk: seq<nat>, order: seq<nat>)
    requires NodesOfChain(nodes, chain) && Find(nodes, 0) == Some(master)
    requires ReverseOrderFrom(nodes, master, walk, order)
    ensures ValidOrder(nodes, order)
    ensures OrderLbas(nodes, order) == chain <==>
            |walk| == |chain| - 1 && FollowsBack(nodes, walk, chain, |walk|)
  {
    OrderOfWalk(nodes, master, walk, order);
    ChainOfWalk(nodes, chain, walk, order);
  }

  /**
   Reverse reconstruction. When every `next` is intact, the reverse order is the
   chain exactly if the master's `prev` does not start the walk in the middle,
   the `prev` of every member from the second on is right or leads nowhere, and
   the `prev` of member 1 ends the walk: a lost one makes it go on to the master.
   */
  lemma ReverseInfers(nodes: seq<Node>, chain: seq<u32>, order: seq<nat>)
    requires NodesOfChain(nodes, chain) && NextsIntact(nodes, chain) && IsReverseOrder(nodes, order)
    ensures ValidOrder(nodes, order)
    ensures OrderLbas(nodes, order) == chain <==> AllLeadBack(nodes, chain)
  {
    assert HasLba(nodes, chain[0]);
    var master := Find(nodes, 0).value;
    var walk :| ReverseOrderFrom(nodes, master, walk, order);
    WalkInfers(nodes, chain, master, walk);
    WalkIsChain(nodes, chain, master, walk, order);
  }

  // ----- on the disk

  ghost predicate PrevWordsIntact(disk: Disk, damaged: Disk, chain: seq<u32>) {
    forall i :: 0 <= i < |chain| && chain[i] in disk && chain[i] in damaged ==>
      damaged[chain[i]][PREV_WORD] == disk[chain[i]][PREV_WORD]
  }

  ghost predicate NextWordsIntact(disk: Disk, damaged: Disk, chain: seq<u32>) {
    forall i :: 0 <= i < |chain| && chain[i] in disk && chain[i] in damaged ==>
      damaged[chain[i]][NEXT_WORD] == disk[chain[i]][NEXT_WORD]
  }

  ghost predicate LeadsOnAt(damaged: Disk, chain: seq<u32>, i: nat)
    requires i + 1 < |chain|
  {
    chain[i] in damaged && LeadsOn(chain, damaged[chain[i]][NEXT_WORD], i)
  }

  ghost predicate LeadsBackAt(damaged: Disk, chain: seq<u32>, i: nat)
    requires 2 <= i < |chain|
  {
    chain[i] in damaged && LeadsBack(chain, damaged[chain[i]][PREV_WORD], i)
  }

  /** What the node of a member holds as links is what the disk holds. */
  lemma MemberWords(disk: Disk, damaged: Disk, total: u32, chain: seq<u32>, nodes: seq<Node>, i: nat)
    requires HealthyChain(disk, total, chain) && Damaged(disk, damaged, chain) && i < |chain|
    requires FoundExactly(disk, damaged, total, chain, nodes) && NodesOfChain(nodes, chain)
    ensures Readable(disk, chain[i]) && Readable(damaged, chain[i])
    ensures var n := nodes[Member(nodes, chain, i)];
            n.Next() == damaged[chain[i]][NEXT_WORD] && n.Prev() == damaged[chain[i]][PREV_WORD]
    ensures disk[chain[i]][NEXT_WORD] == DesiredNext(chain, i) && disk[chain[i]][PREV_WORD] == DesiredPrev(chain, i)
  {
    DamagedHeader(disk, damaged, total, chain, i);
    LinkWords(disk, damaged, chain[i]);
    assert SoundNode(damaged, total, nodes[Member(nodes, chain, i)]);
  }

  lemma FoundIsChain(disk: Disk, damaged: Disk, total: u32, chain: seq<u32>, nodes: seq<Node>)
    requires HealthyChain(disk, total, chain) && Damaged(disk, damaged, chain)
    requires FoundExactly(disk, damaged, total, chain, nodes)
    ensures NodesOfChain(nodes, chain)
  {
    forall k | 0 <= k < |nodes| ensures nodes[k].confidence >= 55 {
      var i :| 0 <= i < |chain| && chain[i] == nodes[k].lba;
      NodeOfChain(disk, damaged, total, chain, i, nodes[k]);
    }
  }

  /**
   Lost `next` words. With every `prev` word in place, the first map of a scan
   is the forward map, and it has the original order exactly if no `next` word
   before the last names a later member than the following one, and none but
   the master's has become zero.
   */
  lemma ForwardRecovers(disk: Disk, damaged: Disk, total: u32, chain: seq<u32>, r: ScanResult)
    requires Situation(disk, damaged, total, chain) && ScanOf(damaged, total, r)
    requires PrevWordsIntact(disk, damaged, chain)
    ensures |r.maps| > 0 && r.maps[0].kind.Forward? && ValidOrder(r.nodes, r.maps[0].order)
    ensures OrderLbas(r.nodes, r.maps[0].order) == chain <==>
            forall i :: 0 <= i < |chain| - 1 ==> LeadsOnAt(damaged, chain, i)
  {
    ScanFindsExactly(disk, damaged, total, chain, r);
    FoundIsChain(disk, damaged, total, chain, r.nodes);
    assert HasLba(r.nodes, chain[0]);
    var forward := FirstMapIsForward(damaged, total, r);
    forall i | 0 <= i < |chain|
      ensures r.nodes[Member(r.nodes, chain, i)].Prev() == DesiredPrev(chain, i)
      ensures i + 1 < |chain| ==>
        (LeadsOn(chain, r.nodes[Member(r.nodes, chain, i)].Next(), i) <==> LeadsOnAt(damaged, chain, i))
    {
      MemberWords(disk, damaged, total, chain, r.nodes, i);
    }
    ForwardInfers(r.nodes, chain, forward);
  }

  ghost predicate PrevWordsLeadBack(damaged: Disk, chain: seq<u32>)
    requires 2 <= |chain|
  {
    && chain[0] in damaged && StartsAtTail(chain, damaged[chain[0]][PREV_WORD])
    && chain[1] in damaged && EndsAtFirst(chain, damaged[chain[1]][PREV_WORD])
    && forall i :: 2 <= i < |chain| ==> LeadsBackAt(damaged, chain, i)
  }

  /**
   Lost `prev` words. With every `next` word in place, a reverse order has the
   original order exactly if the master's `prev` word is right, zero or names no
   member; that of member 1 is zero or names a member (or the walk is full); and
   every other one is right or names no member, which zero does not do.
   */
  lemma ReverseRecovers(disk: Disk, damaged: Disk, total: u32, chain: seq<u32>, r: ScanResult, order: seq<nat>)
    requires Situation(disk, damaged, total, chain) && ScanOf(damaged, total, r)
    requires NextWordsIntact(disk, damaged, chain) && IsReverseOrder(r.nodes, order)
    ensures ValidOrder(r.nodes, order)
    ensures OrderLbas(r.nodes, order) == chain <==> PrevWordsLeadBack(damaged, chain)
  {
    ScanFindsExactly(disk, damaged, total, chain, r);
    FoundIsChain(disk, damaged, total, chain, r.nodes);
    forall i | 0 <= i < |chain|
      ensures r.nodes[Member(r.nodes, chain, i)].Next() == DesiredNext(chain, i)
      ensures chain[i] in damaged
      ensures r.nodes[Member(r.nodes, chain, i)].Prev() == damaged[chain[i]][PREV_WORD]
      ensures 2 <= i ==>
        (LeadsBack(chain, r.nodes[Member(r.nodes, chain, i)].Prev(), i) <==> LeadsBackAt(damaged, chain, i))
    {
      MemberWords(disk, damaged, total, chain, r.nodes, i);
    }
    ReverseInfers(r.nodes, chain, order);
  }
}
