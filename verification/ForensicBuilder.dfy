/**
 The second half of a scan: building, classifying and evaluating the maps.
 */
module ForensicBuilder {
  import opened Words
  import opened Apa
  import opened Forensic
  import opened ForensicMaps
  import opened ForensicScanner

  method FindUniqueLink(nodes: seq<Node>, excluded: set<nat>, ghost walk: seq<nat>, lba: int, matchPrev: bool)
    returns (found: Option<nat>)
    requires forall i :: i in excluded <==> i in walk
    ensures found == UniqueLink(nodes, walk, lba, matchPrev)
  {
    found := None;
    var i := 0;
    while i < |nodes|
      invariant 0 <= i <= |nodes|
      invariant found.None? ==> forall j :: 0 <= j < i ==> !LinkCandidate(nodes, walk, lba, matchPrev, j)
      invariant found.Some? ==> found.value < i && LinkCandidate(nodes, walk, lba, matchPrev, found.value)
      invariant found.Some? ==>
        forall j :: 0 <= j < i && LinkCandidate(nodes, walk, lba, matchPrev, j) ==> j == found.value
    {
      if i !in excluded && nodes[i].confidence >= 55 && LinkOf(nodes[i], matchPrev) == lba {
        assert LinkCandidate(nodes, walk, lba, matchPrev, i);
        if found.Some? {
          return None;
        }
        found := Some(i);
      }
      i := i + 1;
    }
    assert found.Some? ==> OnlyCandidate(nodes, walk, lba, matchPrev, found.value);
  }

  lemma ForwardGrows(nodes: seq<Node>, order: seq<nat>, next: nat)
    requires |order| > 0 && ValidOrder(nodes, order) && ForwardStep(nodes, order) == Some(next)
    requires forall k {:trigger order[..k]} :: 1 <= k < |order| ==> ForwardStep(nodes, order[..k]) == Some(order[k])
    ensures var grown := order + [next];
            ValidOrder(nodes, grown) &&
            forall k {:trigger grown[..k]} :: 1 <= k < |grown| ==> ForwardStep(nodes, grown[..k]) == Some(grown[k])
  {
    var grown := order + [next];
    forall k | 1 <= k < |grown| ensures ForwardStep(nodes, grown[..k]) == Some(grown[k]) {
      assert grown[..k] == order[..k];
      assert order[..|order|] == order;
    }
  }

  lemma ReverseGrows(nodes: seq<Node>, walk: seq<nat>, next: nat)
    requires ValidOrder(nodes, walk) && next < |nodes|
    requires |walk| > 0 ==> ReverseStep(nodes, walk) == Some(next)
    requires forall k {:trigger walk[..k]} :: 1 <= k < |walk| ==> ReverseStep(nodes, walk[..k]) == Some(walk[k])
    ensures var grown := walk + [next];
            ValidOrder(nodes, grown) &&
            forall k {:trigger grown[..k]} :: 1 <= k < |grown| ==> ReverseStep(nodes, grown[..k]) == Some(grown[k])
  {
    var grown := walk + [next];
    forall k | 1 <= k < |grown| ensures ReverseStep(nodes, grown[..k]) == Some(grown[k]) {
      assert grown[..k] == walk[..k];
      assert walk[..|walk|] == walk;
    }
  }

  method BuildForwardMap(nodes: seq<Node>, byLba: seq<nat>) returns (order: seq<nat>)
    requires SortedIndex(nodes, byLba)
    ensures IsForwardOrder(nodes, order)
  {
    var master := FindNode(nodes, byLba, 0);
    if master.None? {
      return [];
    }
    order := [master.value];
    var inMap := {master.value};
    var current := master.value;
    while |order| < MAX_NODES
      invariant 1 <= |order| <= MAX_NODES && ValidOrder(nodes, order)
      invariant order[0] == master.value && order[|order| - 1] == current
      invariant forall i :: i in inMap <==> i in order
      invariant forall k {:trigger order[..k]} :: 1 <= k < |order| ==> ForwardStep(nodes, order[..k]) == Some(order[k])
    {
      var nextLba := nodes[current].Next();
      var next: Option<nat> := None;
      if nextLba != 0 {
        next := FindNode(nodes, byLba, nextLba);
      } else if current == master.value {
        next := FindUniqueLink(nodes, inMap, order, 0, true);
      } else {
        break;
      }
      if next.None? || next.value in inMap {
        next := FindUniqueLink(nodes, inMap, order, nodes[current].lba, true);
      }
      assert next == ForwardStep(nodes, order);
      if next.None? || next.value in inMap {
        break;
      }
      ForwardGrows(nodes, order, next.value);
      order := order + [next.value];
      inMap := inMap + {next.value};
      current := next.value;
    }
  }

  /** Reverses the first `count` entries in place. */
  method ReverseIndices(values: array<nat>, count: nat)
    requires count <= values.Length
    modifies values
    ensures IsReversal(old(values[..count]), values[..count])
  {
    var i := 0;
    while i < count / 2
      invariant 0 <= i <= count / 2
      invariant forall k :: 0 <= k < i || count - i <= k < count ==> values[k] == old(values[count - 1 - k])
      invariant forall k :: i <= k < count - i ==> values[k] == old(values[k])
    {
      values[i], values[count - 1 - i] := values[count - 1 - i], values[i];
      i := i + 1;
    }
  }

  /** The node at `link`, or else the only unseen node whose `next` is `lba`. */
  method FindBack(nodes: seq<Node>, byLba: seq<nat>, excluded: set<nat>, ghost walk: seq<nat>, link: u32, lba: int)
    returns (r: Option<nat>)
    requires SortedIndex(nodes, byLba)
    requires forall i :: i in excluded <==> i in walk
    ensures r == FindOrUnique(nodes, walk, link, lba)
  {
    r := None;
    if link != 0 {
      r := FindNode(nodes, byLba, link);
    }
    if r.None? {
      r := FindUniqueLink(nodes, excluded, walk, lba, false);
    }
  }

  /** A reverse walk under construction; `current` is what it would visit next. */
  ghost predicate WalkSoFar(nodes: seq<Node>, master: nat, walk: seq<nat>, current: Option<nat>) {
    && master < |nodes| && ValidOrder(nodes, walk)
    && (current.Some? ==> current.value < |nodes|)
    && FindOrUnique(nodes, [], nodes[master].Prev(), 0) == (if walk == [] then current else Some(walk[0]))
    && (forall k {:trigger walk[..k]} :: 1 <= k < |walk| ==> ReverseStep(nodes, walk[..k]) == Some(walk[k]))
    && (|walk| > 0 ==> ReverseStep(nodes, walk) == Fresh(current, walk))
  }

  lemma WalkPush(nodes: seq<Node>, master: nat, walk: seq<nat>, visited: nat, next: Option<nat>)
    requires WalkSoFar(nodes, master, walk, Some(visited)) && visited !in walk
    requires next == if nodes[visited].Prev() == 0 then None
                     else FindOrUnique(nodes, walk + [visited], nodes[visited].Prev(), nodes[visited].lba)
    ensures WalkSoFar(nodes, master, walk + [visited], next)
  {
    ReverseGrows(nodes, walk, visited);
  }

  /** Walks back from the tail, filling `reverseOrder`. */
  method WalkBack(nodes: seq<Node>, byLba: seq<nat>, master: nat, reverseOrder: array<nat>) returns (count: nat)
    requires SortedIndex(nodes, byLba) && master < |nodes| && reverseOrder.Length == MAX_NODES
    modifies reverseOrder
    ensures count < MAX_NODES && IsReverseWalk(nodes, master, reverseOrder[..count])
  {
    var seen: set<nat> := {};
    var current: Option<nat> := FindBack(nodes, byLba, seen, [], nodes[master].Prev(), 0);
    count := 0;
    ghost var walk: seq<nat> := [];
    while current.Some? && count < MAX_NODES - 1
      invariant count == |walk| < MAX_NODES && walk == reverseOrder[..count]
      invariant forall i :: i in seen <==> i in walk
      invariant WalkSoFar(nodes, master, walk, current)
    {
      if current.value in seen {
        break;
      }
      var visited := current.value;
      ghost var before := walk;
      reverseOrder[count] := visited;
      walk := walk + [visited];
      seen := seen + {visited};
      count := count + 1;
      var prevLba := nodes[visited].Prev();
      current := None;
      if prevLba != 0 {
        current := FindBack(nodes, byLba, seen, walk, prevLba, nodes[visited].lba);
      }
      WalkPush(nodes, master, before, visited, current);
    }
  }

  method BuildReverseMap(nodes: seq<Node>, byLba: seq<nat>) returns (order: seq<nat>)
    requires SortedIndex(nodes, byLba)
    ensures ValidOrder(nodes, order) && IsReverseOrder(nodes, order)
  {
    var master := FindNode(nodes, byLba, 0);
    if master.None? {
      return [];
    }
    var reverseOrder := new nat[MAX_NODES];
    var count := WalkBack(nodes, byLba, master.value, reverseOrder);
    ghost var walk := reverseOrder[..count];
    ReverseIndices(reverseOrder, count);
    order := [master.value] + reverseOrder[..count];
    assert order[1..] == reverseOrder[..count];
    assert ReverseOrderFrom(nodes, master.value, walk, order);
  }

  ghost predicate SameElements(a: seq<nat>, b: seq<nat>) {
    forall x :: x in a <==> x in b
  }

  /** Moves larger entries up by one, and says where entry `i` belongs. */
  method ShiftUp(nodes: seq<Node>, order: array<nat>, i: nat, value: nat) returns (j: nat)
    requires i < order.Length && value < |nodes| && forall k :: 0 <= k <= i ==> order[k] < |nodes|
    modifies order
    ensures j <= i
    ensures forall k :: 0 <= k < order.Length && (k < j || i < k) ==> order[k] == old(order[k])
    ensures forall k :: j < k <= i ==> order[k] == old(order[k - 1])
    ensures j > 0 ==> nodes[old(order[j - 1])].lba <= nodes[value].lba
    ensures j < i ==> nodes[old(order[j])].lba > nodes[value].lba
  {
    j := i;
    while j > 0 && nodes[order[j - 1]].lba > nodes[value].lba
      invariant 0 <= j <= i
      invariant forall k :: 0 <= k < order.Length && (k < j || i < k) ==> order[k] == old(order[k])
      invariant forall k :: j < k <= i ==> order[k] == old(order[k - 1])
      invariant j < i ==> nodes[old(order[j])].lba > nodes[value].lba
    {
      order[j] := order[j - 1];
      j := j - 1;
    }
  }

  /** Moves entry `i` down to its place among the sorted entries before it. */
  method InsertByLba(nodes: seq<Node>, order: array<nat>, i: nat)
    requires i < order.Length && ValidOrder(nodes, order[..i + 1]) && AscendingLbas(nodes, order[..i])
    requires forall k :: 0 <= k < i ==> nodes[order[k]].lba != nodes[order[i]].lba
    modifies order
    ensures ValidOrder(nodes, order[..i + 1]) && AscendingLbas(nodes, order[..i + 1])
    ensures SameElements(order[..i + 1], old(order[..i + 1]))
    ensures forall k :: i < k < order.Length ==> order[k] == old(order[k])
  {
    var value := order[i];
    ghost var sorted := order[..i];
    assert order[..i + 1] == sorted + [value];
    assert forall k :: 0 <= k <= i ==> order[..i + 1][k] == order[k] < |nodes|;
    var j := ShiftUp(nodes, order, i, value);
    order[j] := value;
    InsertedSorted(nodes, sorted, order[..i + 1], j, value);
  }

  /** Insertion sort by LBA, in place, of indices of distinct nodes. */
  method SortByLba(nodes: seq<Node>, order: array<nat>, count: nat)
    requires count <= order.Length && ValidOrder(nodes, order[..count])
    requires forall i, j :: 0 <= i < j < count ==> nodes[order[i]].lba != nodes[order[j]].lba
    modifies order
    ensures ValidOrder(nodes, order[..count]) && AscendingLbas(nodes, order[..count])
    ensures SameElements(order[..count], old(order[..count]))
  {
    ghost var given := order[..count];
    if count == 0 {
      return;
    }
    var i := 1;
    while i < count
      invariant 1 <= i <= count
      invariant ValidOrder(nodes, order[..i]) && AscendingLbas(nodes, order[..i])
      invariant SameElements(order[..i], given[..i])
      invariant forall k :: i <= k < count ==> order[k] == given[k]
    {
      assert order[..i + 1] == order[..i] + [given[i]] && given[..i + 1] == given[..i] + [given[i]];
      forall k | 0 <= k < i ensures nodes[order[k]].lba != nodes[order[i]].lba {
        assert order[..i][k] in given[..i];
      }
      InsertByLba(nodes, order, i);
      i := i + 1;
    }
    assert given[..i] == given;
  }

  lemma InsertedSorted(nodes: seq<Node>, sorted: seq<nat>, inserted: seq<nat>, at: nat, value: nat)
    requires ValidOrder(nodes, sorted) && AscendingLbas(nodes, sorted) && value < |nodes|
    requires at <= |sorted| && |inserted| == |sorted| + 1
    requires (forall k :: 0 <= k < at ==> inserted[k] == sorted[k]) && inserted[at] == value
    requires forall k :: at < k < |inserted| ==> inserted[k] == sorted[k - 1]
    requires forall k :: 0 <= k < |sorted| ==> nodes[sorted[k]].lba != nodes[value].lba
    requires at > 0 ==> nodes[sorted[at - 1]].lba <= nodes[value].lba
    requires at < |sorted| ==> nodes[value].lba <= nodes[sorted[at]].lba
    ensures ValidOrder(nodes, inserted) && AscendingLbas(nodes, inserted)
    ensures SameElements(inserted, sorted + [value])
  {
    forall x | x in sorted + [value] ensures x in inserted {
      if x == value {
        assert inserted[at] == x;
      } else {
        var k :| 0 <= k < |sorted| && sorted[k] == x;
        assert inserted[if k < at then k else k + 1] == x;
      }
    }
    forall a, b | 0 <= a < b < |inserted|
      ensures nodes[inserted[a]].lba < nodes[inserted[b]].lba
    {
      if a == at {
        assert inserted[b] == sorted[b - 1];
        assert at < b - 1 ==> nodes[sorted[at]].lba < nodes[sorted[b - 1]].lba;
      } else if b == at {
        assert inserted[a] == sorted[a];
        assert a < at - 1 ==> nodes[sorted[a]].lba < nodes[sorted[at - 1]].lba;
      }
    }
  }

  method BuildGeometryMap(nodes: seq<Node>) returns (order: seq<nat>)
    requires |nodes| <= MAX_NODES && DistinctLbas(nodes)
    ensures IsGeometryOrder(nodes, order)
  {
    var buffer := new nat[MAX_NODES];
    var count := 0;
    var i := 0;
    while i < |nodes| && count < MAX_NODES
      invariant 0 <= count <= i <= |nodes|
      invariant ValidOrder(nodes, buffer[..count])
      invariant forall k :: 0 <= k < count ==> buffer[k] < i
      invariant forall j, k :: 0 <= j < k < count ==> buffer[j] < buffer[k]
      invariant forall k :: 0 <= k < i ==> (k in buffer[..count] <==> GeometryEligible(nodes[k]))
    {
      if GeometryEligible(nodes[i]) {
        buffer[count] := i;
        assert buffer[..count + 1] == buffer[..count] + [i];
        count := count + 1;
      }
      i := i + 1;
    }
    SortByLba(nodes, buffer, count);
    order := buffer[..count];
  }

  // ----- dormant remnants

  method IsCovered(nodes: seq<Node>, forward: seq<nat>, n: Node) returns (covered: bool)
    requires ValidOrder(nodes, forward)
    ensures covered == exists j :: 0 <= j < |forward| && CoversRemnant(nodes[forward[j]], n)
  {
    var j := 0;
    while j < |forward|
      invariant 0 <= j <= |forward|
      invariant forall k :: 0 <= k < j ==> !CoversRemnant(nodes[forward[k]], n)
    {
      if CoversRemnant(nodes[forward[j]], n) {
        return true;
      }
      j := j + 1;
    }
    return false;
  }

  ghost predicate OnlyDormantDiffers(before: seq<Node>, after: seq<Node>) {
    |before| == |after| && forall k :: 0 <= k < |before| ==> SameButDormant(before[k], after[k])
  }

  predicate SameButDormant(a: Node, b: Node) {
    b == a.(evidence := a.evidence.(dormant := b.evidence.dormant))
  }

  function CountDormant(nodes: seq<Node>): nat {
    if nodes == [] then 0
    else CountDormant(nodes[..|nodes| - 1]) + Points(nodes[|nodes| - 1].evidence.dormant, 1)
  }

  function MarkDormant(nodes: seq<Node>, i: nat, dormant: bool): (marked: seq<Node>)
    requires i < |nodes|
    ensures |marked| == |nodes|
    ensures CountDormant(marked[..i + 1]) == CountDormant(nodes[..i]) + Points(dormant, 1)
  {
    var marked := nodes[i := nodes[i].(evidence := nodes[i].evidence.(dormant := dormant))];
    assert marked[..i + 1][..i] == nodes[..i];
    marked
  }

  /** Marks the free-space remnants covered by an active empty extent, and counts them. */
  method ClassifyDormant(before: seq<Node>, forward: seq<nat>) returns (nodes: seq<Node>, dormantFree: nat)
    requires ValidOrder(before, forward)
    ensures OnlyDormantDiffers(before, nodes) && DormantMarked(nodes, forward)
    ensures dormantFree == CountDormant(nodes)
  {
    nodes := before;
    dormantFree := 0;
    var i := 0;
    while i < |nodes|
      invariant 0 <= i <= |nodes| == |before|
      invariant OnlyDormantDiffers(before, nodes)
      invariant forall k :: 0 <= k < i ==> nodes[k].evidence.dormant == DormantFree(before, forward, k)
      invariant dormantFree == CountDormant(nodes[..i])
    {
      var node := nodes[i];
      assert SameButDormant(before[i], node);
      var dormant := false;
      if i !in forward && CanonicalEmpty(node) {
        dormant := IsCovered(nodes, forward, node);
        CoverIgnoresDormant(before, nodes, forward, before[i], node);
      }
      nodes := MarkDormant(nodes, i, dormant);
      if dormant {
        dormantFree := dormantFree + 1;
      }
      i := i + 1;
    }
    assert nodes[..i] == nodes;
    MarksAgree(before, nodes, forward);
  }

  lemma MarksAgree(before: seq<Node>, nodes: seq<Node>, forward: seq<nat>)
    requires OnlyDormantDiffers(before, nodes) && ValidOrder(before, forward)
    ensures forall k :: 0 <= k < |before| ==> DormantFree(before, forward, k) == DormantFree(nodes, forward, k)
  {
    forall k | 0 <= k < |before| ensures DormantFree(before, forward, k) == DormantFree(nodes, forward, k) {
      assert SameButDormant(before[k], nodes[k]);
      CoverIgnoresDormant(before, nodes, forward, before[k], nodes[k]);
    }
  }

  lemma CoverIgnoresDormant(before: seq<Node>, after: seq<Node>, forward: seq<nat>, a: Node, b: Node)
    requires OnlyDormantDiffers(before, after) && ValidOrder(before, forward)
    requires SameButDormant(a, b)
    ensures (exists j :: 0 <= j < |forward| && CoversRemnant(before[forward[j]], a)) <==>
            (exists j :: 0 <= j < |forward| && CoversRemnant(after[forward[j]], b))
  {
    forall j | 0 <= j < |forward|
      ensures CoversRemnant(before[forward[j]], a) == CoversRemnant(after[forward[j]], b)
    {
      assert SameButDormant(before[forward[j]], after[forward[j]]);
    }
  }

  // ----- evaluation

  method EvaluateMap(nodes: seq<Node>, byLba: seq<nat>, truncated: bool, kind: MapKind, order: seq<nat>)
    returns (m: ChainMap)
    requires SortedIndex(nodes, byLba) && ValidOrder(nodes, order)
    ensures m == Evaluated(nodes, truncated, kind, order)
  {
    if |order| == 0 {
      return ChainMap(kind, [], 0, 0, 0, 0, 0, false);
    }
    var strong := CountStrong(nodes);
    var t := Tally(0, 0, 0, 0, 0);
    var lbas := OrderLbas(nodes, order);
    var i := 0;
    while i < |order|
      invariant 0 <= i <= |order|
      invariant t == TallyTo(nodes, order, i)
    {
      var position := TallyPosition(nodes, byLba, order, lbas, i);
      t := t.Plus(position);
      i := i + 1;
    }
    var score := MapScore(t, strong, |order|, truncated);
    var repairable := !truncated && |order| >= 2 && nodes[order[0]].lba == 0
                      && score >= 85 && t.conflicts == 0 && t.overlaps == 0;
    if repairable {
      repairable := AllCore(nodes, order);
    }
    m := ChainMap(kind, order, t.reciprocal, t.inferred, t.conflicts, t.overlaps, score, repairable);
  }

  method AllCore(nodes: seq<Node>, order: seq<nat>) returns (all: bool)
    requires ValidOrder(nodes, order)
    ensures all == forall k :: 0 <= k < |order| ==> CoreEvidence(nodes[order[k]])
  {
    var i := 0;
    while i < |order|
      invariant 0 <= i <= |order|
      invariant forall k :: 0 <= k < i ==> CoreEvidence(nodes[order[k]])
    {
      if !CoreEvidence(nodes[order[i]]) {
        return false;
      }
      i := i + 1;
    }
    return true;
  }

  method CountStrong(nodes: seq<Node>) returns (count: nat)
    ensures count == StrongCount(nodes, |nodes|)
  {
    count := 0;
    var i := 0;
    while i < |nodes|
      invariant 0 <= i <= |nodes|
      invariant count == StrongCount(nodes, i)
    {
      if nodes[i].confidence >= 60 && !nodes[i].evidence.dormant {
        count := count + 1;
      }
      i := i + 1;
    }
  }

  /** One link against what it should hold: 1 or 0 inferred, 1 or 0 conflicts. */
  method CheckLink(nodes: seq<Node>, byLba: seq<nat>, link: u32, desired: u32) returns (inferred: nat, conflict: nat)
    requires SortedIndex(nodes, byLba)
    ensures inferred == Points(link != desired, 1)
    ensures conflict == Points(Conflicting(nodes, link, desired), 1)
  {
    inferred, conflict := 0, 0;
    if link != desired {
      inferred := 1;
      if link != 0 {
        var target := FindNode(nodes, byLba, link);
        if target.Some? {
          conflict := 1;
        }
      }
    }
  }

  method TallyPosition(nodes: seq<Node>, byLba: seq<nat>, order: seq<nat>, lbas: seq<u32>, i: nat) returns (t: Tally)
    requires SortedIndex(nodes, byLba) && ValidOrder(nodes, order) && lbas == OrderLbas(nodes, order) && i < |order|
    ensures t == PositionTally(nodes, order, i)
  {
    var n := nodes[order[i]];
    var weak := if n.confidence < 60 then 1 else 0;
    var prevInferred, prevConflict := CheckLink(nodes, byLba, n.Prev(), DesiredPrev(lbas, i));
    var nextInferred, nextConflict := CheckLink(nodes, byLba, n.Next(), DesiredNext(lbas, i));
    var reciprocal, overlap := 0, 0;
    if i + 1 < |order| {
      var next := nodes[order[i + 1]];
      if n.Next() == next.lba && next.Prev() == n.lba {
        reciprocal := 1;
      }
      if i > 0 && n.Start() + n.Length() > next.Start() {
        overlap := 1;
      }
    }
    t := Tally(reciprocal, prevInferred + nextInferred, prevConflict + nextConflict, overlap, weak);
  }

  method AddMapIfUnique(maps: seq<ChainMap>, candidate: ChainMap) returns (r: seq<ChainMap>)
    ensures r == AddUnique(maps, candidate)
  {
    if |candidate.order| == 0 || |maps| >= MAX_MAPS {
      return maps;
    }
    var i := 0;
    while i < |maps|
      invariant 0 <= i <= |maps|
      invariant forall k :: 0 <= k < i ==> maps[k].order != candidate.order
    {
      if maps[i].order == candidate.order {
        return maps;
      }
      i := i + 1;
    }
    r := maps + [candidate];
  }

  // ----- the whole scan

  /** The forward order does not depend on dormancy marks. */
  lemma ForwardOrderIgnoresDormant(before: seq<Node>, after: seq<Node>, order: seq<nat>)
    requires DistinctLbas(before) && OnlyDormantDiffers(before, after)
    requires IsForwardOrder(before, order)
    ensures IsForwardOrder(after, order)
  {
    FindIgnoresDormant(before, after, 0);
    if order != [] {
      forall k | 1 <= k <= |order| ensures ForwardStep(before, order[..k]) == ForwardStep(after, order[..k]) {
        StepIgnoresDormant(before, after, order[..k]);
      }
      assert order[..|order|] == order;
    }
  }

  lemma FindIgnoresDormant(before: seq<Node>, after: seq<Node>, lba: int)
    requires DistinctLbas(before) && OnlyDormantDiffers(before, after)
    ensures Find(before, lba) == Find(after, lba)
  {
    if HasLba(before, lba) {
      var i := Find(before, lba).value;
      assert after[i].lba == lba;
    }
    if HasLba(after, lba) {
      var i := Find(after, lba).value;
      assert before[i].lba == lba;
    }
  }

  lemma StepIgnoresDormant(before: seq<Node>, after: seq<Node>, order: seq<nat>)
    requires DistinctLbas(before) && OnlyDormantDiffers(before, after)
    requires |order| > 0 && ValidOrder(before, order)
    ensures ForwardStep(before, order) == ForwardStep(after, order)
  {
    var n := before[order[|order| - 1]];
    FindIgnoresDormant(before, after, n.Next());
    forall i ensures LinkCandidate(before, order, n.lba, true, i) == LinkCandidate(after, order, n.lba, true, i) {
      if 0 <= i < |before| {
        assert SameButDormant(before[i], after[i]);
      }
    }
    assert forall i :: OnlyCandidate(before, order, n.lba, true, i) == OnlyCandidate(after, order, n.lba, true, i);
  }

  lemma SoundIgnoresDormant(disk: Disk, total: u32, before: seq<Node>, after: seq<Node>, truncated: bool)
    requires SoundNodes(disk, total, before, truncated) && OnlyDormantDiffers(before, after)
    ensures SoundNodes(disk, total, after, truncated)
    ensures GridComplete(disk, total, before, total) ==> GridComplete(disk, total, after, total)
    ensures ReferenceClosed(disk, total, before) ==> ReferenceClosed(disk, total, after)
  {
    forall lba ensures HasLba(before, lba) <==> HasLba(after, lba) {
      FindIgnoresDormant(before, after, lba);
    }
    forall k | 0 <= k < |after| ensures SoundNode(disk, total, after[k]) {
      assert SoundNode(disk, total, before[k]) && SameButDormant(before[k], after[k]);
    }
    if truncated {
      var lba :| LeftBehind(disk, total, before, lba);
      assert LeftBehind(disk, total, after, lba);
    }
    forall lba, source | Covered(disk, total, before, lba, source) ensures Covered(disk, total, after, lba, source) {
    }
    if ReferenceClosed(disk, total, before) {
      forall k, lba | 0 <= k < |after| && Refers(after[k], lba)
        ensures Covered(disk, total, after, lba, Referenced)
      {
        assert SameButDormant(before[k], after[k]) && Refers(before[k], lba);
        assert Chased(disk, total, before, before[k]);
        assert Covered(disk, total, before, lba, Referenced);
      }
    }
  }

  /** Scans a disk: admits headers, chases references, builds and evaluates the maps. */
  method Scan(disk: Disk, total: u32) returns (r: Option<ScanResult>)
    ensures r.None? <==> total < 2
    ensures r.Some? ==> ScanOf(disk, total, r.value)
    ensures r.Some? ==> |r.value.nodes| <= 2048 && (r.value.truncated ==> |r.value.nodes| == 2048)
    ensures r.Some? ==> r.value.dormantFree == CountDormant(r.value.nodes)
  {
    if total < 2 {
      return None;
    }
    var s := new Scanner(disk, total);
    s.Discover();
    var forward := BuildForwardMap(s.nodes, s.byLba);
    ForwardOrderIsValid(s.nodes, forward);
    var nodes, dormantFree := ClassifyDormant(s.nodes, forward);
    SoundIgnoresDormant(disk, total, s.nodes, nodes, s.truncated);
    IndexIgnoresDormant(s.nodes, nodes, s.byLba);
    ForwardOrderIgnoresDormant(s.nodes, nodes, forward);
    var maps := BuildMaps(nodes, s.byLba, s.truncated, forward);
    r := Some(ScanResult(total, nodes, maps, s.truncated, dormantFree,
                         s.gridReads, s.referenceReads, s.unreadableReads));
    FromMaps(r.value, forward);
  }

  lemma FromMaps(r: ScanResult, forward: seq<nat>)
    requires IsForwardOrder(r.nodes, forward) && DormantMarked(r.nodes, forward)
    requires exists reverse, geometry :: ThreeMaps(r.nodes, r.truncated, r.maps, forward, reverse, geometry)
    ensures exists reverse, geometry :: MapsFrom(r, forward, reverse, geometry)
  {
    var reverse, geometry :| ThreeMaps(r.nodes, r.truncated, r.maps, forward, reverse, geometry);
    assert MapsFrom(r, forward, reverse, geometry);
  }

  method BuildMaps(nodes: seq<Node>, byLba: seq<nat>, truncated: bool, forward: seq<nat>)
    returns (maps: seq<ChainMap>)
    requires |nodes| <= MAX_NODES && DistinctLbas(nodes) && SortedIndex(nodes, byLba)
    requires ValidOrder(nodes, forward)
    ensures exists reverse, geometry :: ThreeMaps(nodes, truncated, maps, forward, reverse, geometry)
  {
    var candidate := EvaluateMap(nodes, byLba, truncated, Forward, forward);
    maps := AddMapIfUnique([], candidate);
    var reverse := BuildReverseMap(nodes, byLba);
    candidate := EvaluateMap(nodes, byLba, truncated, Reverse, reverse);
    maps := AddMapIfUnique(maps, candidate);
    var geometry := BuildGeometryMap(nodes);
    candidate := EvaluateMap(nodes, byLba, truncated, Geometry, geometry);
    maps := AddMapIfUnique(maps, candidate);
    assert ThreeMaps(nodes, truncated, maps, forward, reverse, geometry);
  }

  lemma IndexIgnoresDormant(before: seq<Node>, after: seq<Node>, byLba: seq<nat>)
    requires OnlyDormantDiffers(before, after) && SortedIndex(before, byLba)
    ensures SortedIndex(after, byLba)
  {
    forall k | 0 <= k < |after| ensures after[k].lba == before[k].lba {
      assert SameButDormant(before[k], after[k]);
    }
  }
}
