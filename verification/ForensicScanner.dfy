/**
 The first half of a scan: headers are admitted into a node list with a
 sorted index, from the grid first and then along references.
 */
module ForensicScanner {
  import opened Words
  import opened Apa
  import opened Forensic

  /** The index lists every node exactly once, in strictly ascending LBA order. */
  ghost predicate SortedIndex(nodes: seq<Node>, byLba: seq<nat>) {
    && |byLba| == |nodes|
    && (forall k :: 0 <= k < |byLba| ==> byLba[k] < |nodes|)
    && (forall j, k :: 0 <= j < k < |byLba| ==> nodes[byLba[j]].lba < nodes[byLba[k]].lba)
    && (forall i :: 0 <= i < |nodes| ==> i in byLba)
  }

  /** First index position whose LBA is not below `lba`. */
  method LowerBound(nodes: seq<Node>, byLba: seq<nat>, lba: int) returns (low: nat)
    requires SortedIndex(nodes, byLba)
    ensures low <= |byLba|
    ensures forall k :: 0 <= k < low ==> nodes[byLba[k]].lba < lba
    ensures forall k :: low <= k < |byLba| ==> lba <= nodes[byLba[k]].lba
  {
    low := 0;
    var high := |byLba|;
    while low < high
      invariant 0 <= low <= high <= |byLba|
      invariant forall k :: 0 <= k < low ==> nodes[byLba[k]].lba < lba
      invariant forall k :: high <= k < |byLba| ==> lba <= nodes[byLba[k]].lba
    {
      var middle := low + (high - low) / 2;
      if nodes[byLba[middle]].lba < lba {
        low := middle + 1;
      } else {
        high := middle;
      }
    }
  }

  /** Binary search over the index agrees with looking at every node. */
  method FindNode(nodes: seq<Node>, byLba: seq<nat>, lba: int) returns (r: Option<nat>)
    requires SortedIndex(nodes, byLba)
    ensures r == Find(nodes, lba)
  {
    var low := LowerBound(nodes, byLba, lba);
    if low < |byLba| && nodes[byLba[low]].lba == lba {
      ghost var found := Find(nodes, lba).value;
      assert found in byLba;
      return Some(byLba[low]);
    }
    forall i | 0 <= i < |nodes| ensures nodes[i].lba != lba {
      assert i in byLba;
    }
    return None;
  }

  /** The index after the newest node has been inserted in its place. */
  method IndexNode(nodes: seq<Node>, byLba: seq<nat>) returns (grown: seq<nat>)
    requires |nodes| > 0 && SortedIndex(nodes[..|nodes| - 1], byLba)
    requires !HasLba(nodes[..|nodes| - 1], nodes[|nodes| - 1].lba)
    ensures SortedIndex(nodes, grown)
  {
    var last := |nodes| - 1;
    var low := LowerBound(nodes[..last], byLba, nodes[last].lba);
    grown := byLba[..low] + [last] + byLba[low..];
    InsertionKeepsIndex(nodes, byLba, grown, low);
  }

  lemma InsertionKeepsIndex(nodes: seq<Node>, byLba: seq<nat>, grown: seq<nat>, low: nat)
    requires |nodes| > 0 && SortedIndex(nodes[..|nodes| - 1], byLba) && low <= |byLba|
    requires !HasLba(nodes[..|nodes| - 1], nodes[|nodes| - 1].lba)
    requires forall k :: 0 <= k < low ==> nodes[byLba[k]].lba < nodes[|nodes| - 1].lba
    requires forall k :: low <= k < |byLba| ==> nodes[|nodes| - 1].lba <= nodes[byLba[k]].lba
    requires grown == byLba[..low] + [|nodes| - 1] + byLba[low..]
    ensures SortedIndex(nodes, grown)
  {
    var last := |nodes| - 1;
    var older := nodes[..last];
    forall k | 0 <= k < |byLba| ensures nodes[byLba[k]].lba != nodes[last].lba {
      assert older[byLba[k]].lba != nodes[last].lba;
    }
    forall j, k | 0 <= j < k < |grown| ensures nodes[grown[j]].lba < nodes[grown[k]].lba {
      var a := if j < low then byLba[j] else if j == low then last else byLba[j - 1];
      var b := if k < low then byLba[k] else if k == low then last else byLba[k - 1];
      assert grown[j] == a && grown[k] == b;
    }
    forall i | 0 <= i < |nodes| ensures i in grown {
      if i == last {
        assert grown[low] == i;
      } else {
        assert i in byLba;
      }
    }
  }

  class Scanner {
    const disk: Disk
    const total: u32
    var nodes: seq<Node>
    var byLba: seq<nat>
    var truncated: bool
    var gridReads: nat
    var referenceReads: nat
    var unreadableReads: nat

    ghost predicate Valid()
      reads this
    {
      SoundNodes(disk, total, nodes, truncated) && SortedIndex(nodes, byLba)
    }

    constructor (disk: Disk, total: u32)
      ensures Valid() && this.disk == disk && this.total == total
      ensures nodes == [] && !truncated
    {
      this.disk := disk;
      this.total := total;
      nodes, byLba, truncated := [], [], false;
      gridReads, referenceReads, unreadableReads := 0, 0, 0;
    }

    /** Records that an existing node was reached through `source`. */
    method MarkSource(i: nat, source: Source)
      requires Valid() && i < |nodes|
      modifies this`nodes
      ensures Valid() && Extends(old(nodes), nodes)
      ensures nodes == old(nodes)[i := old(nodes)[i].(evidence := WithSource(old(nodes)[i].evidence, source))]
    {
      nodes := nodes[i := nodes[i].(evidence := WithSource(nodes[i].evidence, source))];
      SameLbasKeep(old(nodes), nodes);
      forall k | 0 <= k < |nodes| ensures SoundNode(disk, total, nodes[k]) {
        assert SoundNode(disk, total, old(nodes)[k]);
      }
      if truncated {
        ghost var l :| LeftBehind(disk, total, old(nodes), l);
        assert LeftBehind(disk, total, nodes, l);
      }
    }

    lemma SameLbasKeep(before: seq<Node>, after: seq<Node>)
      requires |before| == |after| && forall i :: 0 <= i < |before| ==> after[i].lba == before[i].lba
      ensures forall lba :: HasLba(before, lba) <==> HasLba(after, lba)
    {
      forall lba | HasLba(before, lba) ensures HasLba(after, lba) {
        var i :| 0 <= i < |before| && before[i].lba == lba;
        assert after[i].lba == lba;
      }
      forall lba | HasLba(after, lba) ensures HasLba(before, lba) {
        var i :| 0 <= i < |after| && after[i].lba == lba;
        assert before[i].lba == lba;
      }
    }

    /** Looks at the header at `lba` and keeps it if it is admissible. */
    method AddCandidate(lba: u32, source: Source)
      requires Valid()
      modifies this`nodes, this`byLba, this`truncated, this`unreadableReads
      ensures Valid() && Extends(old(nodes), nodes)
      ensures old(truncated) ==> truncated
      ensures !truncated ==> Covered(disk, total, nodes, lba, source)
      ensures |nodes| <= |old(nodes)| + 1
      ensures |nodes| > |old(nodes)| ==>
        nodes[..|old(nodes)|] == old(nodes) && nodes[|old(nodes)|].lba == lba &&
        Admitted(Confidence(nodes[|old(nodes)|].header, lba, total, source), lba)
      ensures InDisk(lba, total) && Find(old(nodes), lba).Some? ==>
        var i := Find(old(nodes), lba).value;
        nodes == old(nodes)[i := old(nodes)[i].(evidence := WithSource(old(nodes)[i].evidence, source))]
    {
      if lba >= total || total - lba < 2 {
        return;
      }
      var existing := FindNode(nodes, byLba, lba);
      if existing.Some? {
        MarkSource(existing.value, source);
        CoveredGrows(disk, total, old(nodes), nodes);
        return;
      }
      if lba !in disk || lba + 1 !in disk {
        unreadableReads := unreadableReads + 1;
        return;
      }
      var first: seq<u32>, second: seq<u32> := disk[lba], disk[lba + 1];
      var header: Header := first + second;
      var evidence, calculated, confidence := InspectHeader(header, lba, total, source);
      if confidence < 30 && !(lba == 0 && confidence >= 20) {
        return;
      }
      if |nodes| >= MAX_NODES {
        truncated := true;
        assert LeftBehind(disk, total, nodes, lba);
        return;
      }
      Admit(Node(lba, header, calculated, evidence, confidence));
    }

    /** Appends a node and indexes it. */
    method Admit(node: Node)
      requires Valid() && |nodes| < MAX_NODES && SoundNode(disk, total, node) && !HasLba(nodes, node.lba)
      modifies this`nodes, this`byLba
      ensures Valid() && nodes == old(nodes) + [node] && HasLba(nodes, node.lba)
    {
      nodes := nodes + [node];
      assert nodes[..|nodes| - 1] == old(nodes);
      assert nodes[|nodes| - 1].lba == node.lba;
      byLba := IndexNode(nodes, byLba);
      assert DistinctLbas(nodes) by {
        forall i | 0 <= i < |old(nodes)| ensures nodes[i].lba != node.lba {
          assert old(nodes)[i].lba != node.lba;
        }
      }
    }

    /** Looks at the header a reference points to, unless it is already a node. */
    method FollowReference(lba: u32)
      requires Valid()
      modifies this`nodes, this`byLba, this`truncated, this`unreadableReads, this`referenceReads
      ensures Valid() && Extends(old(nodes), nodes)
      ensures old(truncated) ==> truncated
      ensures !truncated && lba != 0 ==> Covered(disk, total, nodes, lba, Referenced)
    {
      if lba == 0 || lba >= total {
        return;
      }
      var before := FindNode(nodes, byLba, lba);
      if before.Some? {
        MarkSource(before.value, Referenced);
        CoveredGrows(disk, total, old(nodes), nodes);
        return;
      }
      referenceReads := referenceReads + 1;
      AddCandidate(lba, Referenced);
    }

    /** Follows the references of every node, including those it adds on the way. */
    method ChaseReferences()
      requires Valid()
      modifies this`nodes, this`byLba, this`truncated, this`unreadableReads, this`referenceReads
      ensures Valid() && Extends(old(nodes), nodes)
      ensures old(truncated) ==> truncated
      ensures !truncated ==> ReferenceClosed(disk, total, nodes)
    {
      var cursor := 0;
      while cursor < |nodes| && !truncated
        invariant cursor <= |nodes|
        invariant Valid() && Extends(old(nodes), nodes)
        invariant old(truncated) ==> truncated
        invariant !truncated ==> forall i :: 0 <= i < cursor ==> Chased(disk, total, nodes, nodes[i])
        decreases MAX_NODES - cursor
      {
        var node := nodes[cursor];
        ghost var before := nodes;
        if Eligible(node) {
          FollowNode(node);
        }
        ChasedGrows(before, nodes, cursor);
        assert SameHeader(node, nodes[cursor]);
        assert !truncated ==> Chased(disk, total, nodes, nodes[cursor]) by {
          if !truncated && Eligible(node) {
            ChasedSame(nodes, node, nodes[cursor]);
          }
        }
        cursor := cursor + 1;
      }
    }

    lemma ChasedSame(nodes: seq<Node>, a: Node, b: Node)
      requires SameHeader(a, b) && Chased(disk, total, nodes, a)
      ensures Chased(disk, total, nodes, b)
    {
      forall lba | Refers(b, lba) ensures Covered(disk, total, nodes, lba, Referenced) {
        assert a.evidence.magic == a.OwnEvidence().magic && b.evidence.magic == b.OwnEvidence().magic;
        assert a.evidence.length == a.OwnEvidence().length && b.evidence.length == b.OwnEvidence().length;
        assert Refers(a, lba);
      }
    }

    lemma ChasedGrows(before: seq<Node>, after: seq<Node>, limit: nat)
      requires Extends(before, after) && limit <= |before|
      requires forall i :: 0 <= i < limit ==> Chased(disk, total, before, before[i])
      ensures forall i :: 0 <= i < limit ==> Chased(disk, total, after, after[i])
    {
      CoveredGrows(disk, total, before, after);
      forall i | 0 <= i < limit ensures Chased(disk, total, after, after[i]) {
        assert SameHeader(before[i], after[i]);
        assert Chased(disk, total, after, before[i]) by {
          forall lba | Refers(before[i], lba) ensures Covered(disk, total, after, lba, Referenced) {
            assert Covered(disk, total, before, lba, Referenced);
          }
        }
        ChasedSame(after, before[i], after[i]);
      }
    }

    /** Follows next, prev, main and the sub-partition table of one node. */
    method FollowNode(node: Node)
      requires Valid() && Eligible(node)
      modifies this`nodes, this`byLba, this`truncated, this`unreadableReads, this`referenceReads
      ensures Valid() && Extends(old(nodes), nodes)
      ensures old(truncated) ==> truncated
      ensures !truncated ==> Chased(disk, total, nodes, node)
    {
      FollowReference(node.Next());
      ghost var n1 := nodes;
      FollowReference(node.Prev());
      ghost var n2 := nodes;
      FollowReference(node.Main());
      ghost var n3 := nodes;
      CoveredGrows(disk, total, n1, n2);
      CoveredGrows(disk, total, n2, n3);
      ExtendsTransitive(old(nodes), n1, n2);
      ExtendsTransitive(old(nodes), n2, n3);
      if node.Nsub() <= MAX_SUBS && node.confidence >= 60 {
        FollowSubs(node);
        CoveredGrows(disk, total, n3, nodes);
        ExtendsTransitive(old(nodes), n3, nodes);
      }
    }

    /** Follows the sub-partition table of one node. */
    method FollowSubs(node: Node)
      requires Valid() && node.Nsub() <= MAX_SUBS && node.confidence >= 60
      modifies this`nodes, this`byLba, this`truncated, this`unreadableReads, this`referenceReads
      ensures Valid() && Extends(old(nodes), nodes)
      ensures old(truncated) ==> truncated
      ensures !truncated ==> SubsCovered(nodes, node, node.Nsub())
    {
      var i := 0;
      while i < node.Nsub()
        invariant 0 <= i <= node.Nsub()
        invariant Valid() && Extends(old(nodes), nodes)
        invariant old(truncated) ==> truncated
        invariant !truncated ==> SubsCovered(nodes, node, i)
      {
        ghost var before := nodes;
        FollowReference(SubStart(node.header, i));
        CoveredGrows(disk, total, before, nodes);
        ExtendsTransitive(old(nodes), before, nodes);
        i := i + 1;
      }
    }

    ghost predicate SubsCovered(nodes: seq<Node>, node: Node, below: int) {
      forall k :: 0 <= k < below && k < MAX_SUBS && SubStart(node.header, k) != 0 ==>
        Covered(disk, total, nodes, SubStart(node.header, k), Referenced)
    }

    lemma GridGrows(before: seq<Node>, after: seq<Node>, lba: int)
      requires Extends(before, after) && OnGrid(lba)
      ensures GridComplete(disk, total, before, lba) && Covered(disk, total, after, lba, Grid) ==>
                GridComplete(disk, total, after, lba + SCAN_STEP)
    {
      CoveredGrows(disk, total, before, after);
      forall g | OnGrid(g) && g < lba + SCAN_STEP ensures g <= lba {
        NothingBetweenGrid(g, lba);
      }
    }

    /** Looks at one grid position, all smaller ones having been looked at. */
    method VisitGrid(lba: u32)
      requires Valid() && OnGrid(lba)
      requires !truncated ==> GridComplete(disk, total, nodes, lba)
      modifies this`nodes, this`byLba, this`truncated, this`unreadableReads, this`gridReads
      ensures Valid()
      ensures !truncated ==> GridComplete(disk, total, nodes, lba + SCAN_STEP)
      ensures OnGrid(lba + SCAN_STEP)
    {
      GridStep(lba);
      gridReads := gridReads + 1;
      AddCandidate(lba, Grid);
      GridGrows(old(nodes), nodes, lba);
    }

    /** Visits LBA 0 and every further grid position. */
    method ScanGrid()
      requires Valid() && total >= 2 && nodes == [] && !truncated
      modifies this`nodes, this`byLba, this`truncated, this`unreadableReads, this`gridReads
      ensures Valid()
      ensures !truncated ==> GridComplete(disk, total, nodes, total)
    {
      VisitGrid(0);
      var lba: u32 := SCAN_STEP;
      ghost var reached: int := SCAN_STEP;
      while lba < total && !truncated
        invariant reached == lba && OnGrid(reached)
        invariant Valid()
        invariant !truncated ==> GridComplete(disk, total, nodes, reached)
        decreases TWO_32 - lba
      {
        VisitGrid(lba);
        reached := reached + SCAN_STEP;
        if TWO_32 - 1 - lba < SCAN_STEP {
          break;
        }
        lba := lba + SCAN_STEP;
      }
      assert !truncated ==> total <= reached && GridComplete(disk, total, nodes, reached);
    }

    /** The whole discovery: the grid, then the references. */
    method Discover()
      requires Valid() && total >= 2 && nodes == [] && !truncated
      modifies this
      ensures Valid()
      ensures !truncated ==> GridComplete(disk, total, nodes, total) && ReferenceClosed(disk, total, nodes)
    {
      ScanGrid();
      ghost var before := nodes;
      ChaseReferences();
      CoveredGrows(disk, total, before, nodes);
    }
  }
}
