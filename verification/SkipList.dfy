/**
 The skip list of a memtable (db/skiplist.h).

 A node takes part in a level once the pointer to it is stored there, so a list
 into which a node is being inserted is an ordinary list in which that node is
 not yet as high as it will be.  Valid() therefore holds after every store.
 */
module SkipLists {
  import opened Basics
  import opened InternalKeys

  const MAX_HEIGHT: nat := 12

  class Node {
    const entry: Entry
    // One link per level of the node
    var next: seq<Node?>

    constructor (entry: Entry, height: nat)
      ensures this.entry == entry && |next| == height && forall l :: 0 <= l < height ==> next[l] == null
    {
      this.entry := entry;
      next := seq(height, _ => null);
    }
  }

  // ----- the shape of a list ------------------------------------------------------------

  // The first of the nodes from i on that is linked at a level.
  function Successor(heights: seq<nat>, i: nat, level: nat): (s: nat)
    requires i <= |heights|
    ensures i <= s <= |heights| && (s < |heights| ==> heights[s] > level)
    decreases |heights| - i
  {
    if i == |heights| || heights[i] > level then i else Successor(heights, i + 1, level)
  }

  ghost predicate IsSuccessor(heights: seq<nat>, i: nat, level: nat, s: nat) {
    && i <= s <= |heights|
    && (s < |heights| ==> heights[s] > level)
    && (forall j :: i <= j < s ==> heights[j] <= level)
  }

  lemma {:induction false} SuccessorIs(heights: seq<nat>, i: nat, level: nat)
    requires i <= |heights|
    ensures IsSuccessor(heights, i, level, Successor(heights, i, level))
    decreases |heights| - i
  {
    if i < |heights| && heights[i] <= level { SuccessorIs(heights, i + 1, level); }
  }

  lemma SuccessorIsUnique(heights: seq<nat>, i: nat, level: nat, s: nat)
    requires i <= |heights| && IsSuccessor(heights, i, level, s)
    ensures s == Successor(heights, i, level)
  {
    SuccessorIs(heights, i, level);
  }

  function Inserted<T>(s: seq<T>, k: nat, x: T): (r: seq<T>)
    requires k <= |s|
    ensures |r| == |s| + 1
  {
    s[..k] + [x] + s[k..]
  }

  function Shifted(k: nat, i: nat): nat { if i < k then i else i + 1 }

  // A node that is not linked at a level is passed over there.
  lemma SuccessorInserted(heights: seq<nat>, k: nat, height: nat, i: nat, level: nat)
    requires k <= |heights| && i <= |heights| && height <= level
    ensures Successor(Inserted(heights, k, height), if i <= k then i else i + 1, level) ==
      Shifted(k, Successor(heights, i, level))
  {
    var h := Inserted(heights, k, height);
    var s := Successor(heights, i, level);
    SuccessorIs(heights, i, level);
    var i' := if i <= k then i else i + 1;
    assert forall j :: 0 <= j < |h| && j != k ==> h[j] == heights[if j < k then j else j - 1];
    assert IsSuccessor(h, i', level, Shifted(k, s));
    SuccessorIsUnique(h, i', level, Shifted(k, s));
  }

  // Linking node k at one more level makes it the successor of the nodes before
  // it that had none before it, and changes nothing else.
  lemma SuccessorRaised(heights: seq<nat>, k: nat, i: nat, level: nat)
    requires k < |heights| && i <= |heights|
    ensures var s := Successor(heights, i, level);
      Successor(heights[k := heights[k] + 1], i, level) == if level == heights[k] && i <= k < s then k else s
  {
    var h := heights[k := heights[k] + 1];
    var s := Successor(heights, i, level);
    SuccessorIs(heights, i, level);
    var s' := if level == heights[k] && i <= k < s then k else s;
    assert IsSuccessor(h, i, level, s');
    SuccessorIsUnique(h, i, level, s');
  }

  // Where the links of a level change when node k, so far linked at the levels
  // below it, is linked after node p.
  lemma LinksRaised(heights: seq<nat>, k: nat, p: nat, level: nat, j: nat, l: nat)
    requires p < k < |heights| && heights[k] == level < heights[p] && k < Successor(heights, p + 1, level)
    requires j < |heights| && l < heights[k := level + 1][j]
    ensures Successor(heights[k := level + 1], j + 1, l) ==
      if l == level && j == p then k
      else if l == level && j == k then Successor(heights, p + 1, level)
      else Successor(heights, j + 1, l)
  {
    SuccessorRaised(heights, k, j + 1, l);
    if l == level {
      SuccessorIs(heights, p + 1, level);
      SuccessorIs(heights, j + 1, level);
      if j == k { SuccessorIsUnique(heights, k + 1, level, Successor(heights, p + 1, level)); }
    }
  }

  // ----- the list ---------------------------------------------------------------------------

  ghost function NodeAt(nodes: seq<Node>, i: nat): Node? {
    if i < |nodes| then nodes[i] else null
  }

  // A search for key may be at node i of a level: the node comes before key.
  ghost predicate StandsAt(nodes: seq<Node>, heights: seq<nat>, i: nat, level: nat, key: InternalKey) {
    i < |nodes| == |heights| && level < heights[i] && (i == 0 || Less(nodes[i].entry.key, key))
  }

  // Node i is the last of a level that comes before key.
  ghost predicate PrecedesAt(nodes: seq<Node>, heights: seq<nat>, i: nat, level: nat, key: InternalKey) {
    && StandsAt(nodes, heights, i, level, key)
    && var s := Successor(heights, i + 1, level);
      s == |nodes| || !Less(nodes[s].entry.key, key)
  }

  // The links of node i, as far as it is linked, lead to the next node of each level.
  ghost predicate LinksAre(nodes: seq<Node>, heights: seq<nat>, i: nat, next: seq<Node?>)
    requires i < |nodes| == |heights|
  {
    && |next| >= heights[i]
    && forall l :: 0 <= l < heights[i] ==> next[l] == NodeAt(nodes, Successor(heights, i + 1, l))
  }

  function KeyIsAfterNode(key: InternalKey, n: Node?): bool {
    n != null && Less(n.entry.key, key)
  }

  lemma SeekFindsKey(es: seq<Entry>, key: InternalKey, i: nat, j: nat)
    requires Sorted(es) && IsSeekPosition(es, key, i) && j < |es| && es[j].key == key
    ensures j == i
  {
    assert i <= j;
    assert Less(es[i].key, es[j].key) <==> i < j;
  }

  ghost predicate SortedNodes(nodes: seq<Node>) {
    && (forall i, j :: 0 <= i < j < |nodes| ==> nodes[i] != nodes[j])
    && (forall i, j :: 1 <= i < j < |nodes| ==> Less(nodes[i].entry.key, nodes[j].entry.key))
  }

  lemma InsertedNodesAreSorted(nodes: seq<Node>, k: nat, x: Node)
    requires SortedNodes(nodes) && x !in nodes && 1 <= k <= |nodes|
    requires forall j :: 1 <= j < k ==> Less(nodes[j].entry.key, x.entry.key)
    requires forall j :: k <= j < |nodes| ==> Less(x.entry.key, nodes[j].entry.key)
    ensures SortedNodes(Inserted(nodes, k, x))
  {
  }

  // A node that no level links changes no link.
  lemma LinkInserted(nodes: seq<Node>, heights: seq<nat>, k: nat, x: Node, i: nat, level: nat)
    requires |nodes| == |heights| && i < |nodes| && k <= |nodes|
    ensures NodeAt(Inserted(nodes, k, x), Successor(Inserted(heights, k, 0), Shifted(k, i) + 1, level))
      == NodeAt(nodes, Successor(heights, i + 1, level))
  {
    SuccessorInserted(heights, k, 0, i + 1, level);
  }

  lemma LinksInserted(nodes: seq<Node>, heights: seq<nat>, k: nat, x: Node, i: nat, next: seq<Node?>)
    requires |nodes| == |heights| && i < |nodes| && k <= |nodes| && LinksAre(nodes, heights, i, next)
    ensures LinksAre(Inserted(nodes, k, x), Inserted(heights, k, 0), Shifted(k, i), next)
  {
    var ns, hs, j := Inserted(nodes, k, x), Inserted(heights, k, 0), Shifted(k, i);
    assert hs[j] == heights[i];
    hide Successor, NodeAt, Inserted;
    forall l | 0 <= l < hs[j] ensures next[l] == NodeAt(ns, Successor(hs, j + 1, l)) {
      LinkInserted(nodes, heights, k, x, i, l);
    }
  }

  lemma UnlinkedNode(nodes: seq<Node>, heights: seq<nat>, k: nat, x: Node, next: seq<Node?>)
    requires |nodes| == |heights| && k <= |nodes|
    ensures LinksAre(Inserted(nodes, k, x), Inserted(heights, k, 0), k, next)
  {
  }

  lemma InsertedAt(nodes: seq<Node>, k: nat, x: Node, j: nat)
    requires k <= |nodes| && j <= |nodes|
    ensures j < k ==> Inserted(nodes, k, x)[j] == nodes[j] && Shifted(k, j) == j
    ensures j == k ==> Inserted(nodes, k, x)[j] == x
    ensures j > k ==> Inserted(nodes, k, x)[j] == nodes[j - 1] && Shifted(k, j - 1) == j
  {
  }

  // The new links of the two nodes concerned, and the old ones of the others.
  lemma LinksPublished(nodes: seq<Node>, heights: seq<nat>, k: nat, p: nat, level: nat, j: nat, before: seq<Node?>,
                       next: seq<Node?>)
    requires |nodes| == |heights| && p < k < |heights| && heights[k] == level < heights[p]
    requires k < Successor(heights, p + 1, level)
    requires j < |nodes| && LinksAre(nodes, heights, j, before)
    requires next == (if j == p then before[level := nodes[k]] else before)
    requires j == k ==> level < |before| && before[level] == NodeAt(nodes, Successor(heights, p + 1, level))
    ensures LinksAre(nodes, heights[k := level + 1], j, next)
  {
    var h := heights[k := level + 1];
    hide Successor;
    forall l | 0 <= l < h[j] ensures next[l] == NodeAt(nodes, Successor(h, j + 1, l)) {
      LinksRaised(heights, k, p, level, j, l);
    }
  }

  lemma PositionsInserted(heights: seq<nat>, k: nat, at: seq<nat>)
    requires k <= |heights|
    requires forall m {:trigger at[m]} :: 0 <= m < |at| ==> at[m] < k <= Successor(heights, at[m] + 1, m)
    ensures forall m {:trigger at[m]} :: 0 <= m < |at| ==> k < Successor(Inserted(heights, k, 0), at[m] + 1, m)
  {
    hide *;
    forall m {:trigger at[m]} | 0 <= m < |at| ensures k < Successor(Inserted(heights, k, 0), at[m] + 1, m) {
      PositionInserted(heights, k, at[m], m);
    }
  }

  lemma PositionInserted(heights: seq<nat>, k: nat, i: nat, level: nat)
    requires i < k <= |heights| && k <= Successor(heights, i + 1, level)
    ensures k < Successor(Inserted(heights, k, 0), i + 1, level)
  {
    hide Successor, Inserted;
    SuccessorInserted(heights, k, 0, i + 1, level);
  }

  lemma HeightsBelow(heights: seq<nat>, k: nat, at: seq<nat>)
    requires k <= |heights| && forall m {:trigger at[m]} :: 0 <= m < |at| ==> at[m] < k && m < heights[at[m]]
    ensures forall m {:trigger at[m]} :: 0 <= m < |at| ==> m < Inserted(heights, k, 0)[at[m]]
  {
  }

  // Node i is before node k on a level, with no node of the level between.
  ghost predicate IsBelow(heights: seq<nat>, i: nat, level: nat, k: nat) {
    i < k < |heights| && k < Successor(heights, i + 1, level)
  }

  lemma PositionsRaised(heights: seq<nat>, k: nat, at: seq<nat>, level: nat)
    requires k < |heights| && heights[k] == level
    requires forall m :: level < m < |at| ==> IsBelow(heights, at[m], m, k)
    ensures forall m :: level < m < |at| ==> IsBelow(heights[k := level + 1], at[m], m, k)
  {
    hide IsBelow;
    forall m | level < m < |at| ensures IsBelow(heights[k := level + 1], at[m], m, k) {
      PositionRaised(heights, k, at[m], m);
    }
  }

  lemma PositionRaised(heights: seq<nat>, k: nat, i: nat, level: nat)
    requires k < |heights| && IsBelow(heights, i, level, k) && heights[k] < level
    ensures IsBelow(heights[k := heights[k] + 1], i, level, k)
  {
    SuccessorRaised(heights, k, i + 1, level);
  }

  ghost predicate Predecessors(prev: array<Node>, at: seq<nat>, before: seq<Node>)
    reads prev
  {
    |at| <= prev.Length && forall l {:trigger at[l]} :: 0 <= l < |at| ==> at[l] < |before| && prev[l] == before[at[l]]
  }

  ghost function EntriesOf(nodes: seq<Node>): seq<Entry>
    requires |nodes| > 0
  {
    seq(|nodes| - 1, i requires 0 <= i < |nodes| - 1 => nodes[i + 1].entry)
  }

  lemma EntriesInserted(nodes: seq<Node>, k: nat, x: Node)
    requires 1 <= k <= |nodes|
    ensures EntriesOf(Inserted(nodes, k, x)) == Inserted(EntriesOf(nodes), k - 1, x.entry)
    ensures forall n :: n in Inserted(nodes, k, x) ==> n in nodes || n == x
  {
  }

  // Nodes in order, each linked at level 0 at least.
  ghost predicate IsList(nodes: seq<Node>, heights: seq<nat>) {
    && |heights| == |nodes| >= 1 && heights[0] == MAX_HEIGHT
    && (forall i :: 0 <= i < |nodes| ==> heights[i] >= 1)
    && SortedNodes(nodes)
  }

  // At level 0 the last node before key is followed by the first one not before it.
  lemma BottomIsSeek(nodes: seq<Node>, heights: seq<nat>, i: nat, key: InternalKey)
    requires IsList(nodes, heights) && PrecedesAt(nodes, heights, i, 0, key)
    ensures Successor(heights, i + 1, 0) == i + 1 && IsSeekPosition(EntriesOf(nodes), key, i)
  {
    assert i + 1 < |nodes| ==> heights[i + 1] >= 1;
    var es := EntriesOf(nodes);
    forall j | 0 <= j < |es| ensures Less(es[j].key, key) <==> j < i {
      assert es[j] == nodes[j + 1].entry;
      if j < i - 1 { assert Less(nodes[j + 1].entry.key, nodes[i].entry.key); }
      if j > i { assert Less(nodes[i + 1].entry.key, nodes[j + 1].entry.key); }
    }
  }

  // A node is linked at one more level, or enters the list with its first level.
  ghost predicate LinkedMore(nodes: seq<Node>, heights: seq<nat>, nodes': seq<Node>, heights': seq<nat>, k: nat,
                             x: Node) {
    || (k < |heights| && nodes' == nodes && heights' == heights[k := heights[k] + 1])
    || (1 <= k <= |nodes| && k <= |heights|
        && nodes' == Inserted(nodes, k, x) && heights' == Inserted(heights, k, 0)[k := 1])
  }

  class SkipList {
    const head: Node
    var maxHeight: nat
    // The nodes in level-0 order, the head first, and how many levels link each.
    ghost var nodes: seq<Node>
    ghost var heights: seq<nat>

    ghost predicate Shape()
      reads this
    {
      && |heights| == |nodes| >= 1 && nodes[0] == head && heights[0] == MAX_HEIGHT
      && 1 <= maxHeight <= MAX_HEIGHT
      && (forall i :: 1 <= i < |nodes| ==> heights[i] <= maxHeight)
      && SortedNodes(nodes)
    }

    // Every link of node i leads to the next node of its level.
    ghost predicate Linked(i: nat)
      requires i < |nodes| == |heights|
      reads this, nodes[i]
    {
      LinksAre(nodes, heights, i, nodes[i].next)
    }

    ghost predicate AllLinked()
      reads this, nodes
    {
      Shape() && forall i :: 0 <= i < |nodes| ==> Linked(i)
    }

    ghost predicate Valid()
      reads this, nodes
    {
      AllLinked() && forall i :: 0 <= i < |nodes| ==> heights[i] >= 1
    }

    // What the list holds, in order.
    ghost function Entries(): seq<Entry>
      requires Shape()
      reads this
    {
      EntriesOf(nodes)
    }

    constructor ()
      ensures Valid() && Entries() == [] && fresh(nodes)
    {
      var h := new Node(Entry(InternalKey(0.0, 0, TypeValue), []), MAX_HEIGHT);
      head, maxHeight, nodes, heights := h, 1, [h], [MAX_HEIGHT];
      new;
      assert Linked(0);
    }

    // One turn of a search.
    method SearchStep(x: Node, level: nat, key: InternalKey, ghost i: nat) returns (next: Node?, after: bool)
      requires Valid() && StandsAt(nodes, heights, i, level, key) && x == nodes[i]
      ensures var s := Successor(heights, i + 1, level);
        && next == NodeAt(nodes, s)
        && (if after then s < |nodes| && StandsAt(nodes, heights, s, level, key)
            else PrecedesAt(nodes, heights, i, level, key))
    {
      assert Linked(i);
      next := x.next[level];
      after := KeyIsAfterNode(key, next);
    }

    lemma BottomIsSeekPosition(i: nat, key: InternalKey)
      requires Valid() && PrecedesAt(nodes, heights, i, 0, key)
      ensures Successor(heights, i + 1, 0) == i + 1 && IsSeekPosition(Entries(), key, i)
    {
      BottomIsSeek(nodes, heights, i, key);
    }

    // The first node at or after key; at is where the search stood when it left
    // each level, and what is stored in prev.
    method FindGreaterOrEqual(key: InternalKey, prev: array?<Node>) returns (next: Node?, ghost at: seq<nat>)
      requires Valid() && (prev != null ==> prev.Length == MAX_HEIGHT)
      modifies if prev == null then {} else {prev}
      ensures |at| == maxHeight && forall l :: 0 <= l < maxHeight ==> PrecedesAt(nodes, heights, at[l], l, key)
      ensures prev != null ==> forall l :: 0 <= l < maxHeight ==> at[l] < |nodes| && prev[l] == nodes[at[l]]
      ensures next == NodeAt(nodes, at[0] + 1) && IsSeekPosition(Entries(), key, at[0])
    {
      hide SortedNodes, LinksAre, Less, EntriesOf, IsSeekPosition, KeyIsAfterNode;
      var x: Node := head;
      var level := maxHeight - 1;
      ghost var i: nat := 0;
      at := seq(maxHeight, _ => 0);
      while true
        invariant 0 <= level < maxHeight && StandsAt(nodes, heights, i, level, key) && x == nodes[i]
        invariant |at| == maxHeight && forall l :: level < l < maxHeight ==> PrecedesAt(nodes, heights, at[l], l, key)
        invariant prev != null ==> forall l :: level < l < maxHeight ==> at[l] < |nodes| && prev[l] == nodes[at[l]]
        decreases level + |nodes| - i
      {
        var after;
        next, after := SearchStep(x, level, key, i);
        if after {
          // Keep searching in this list
          x := next;
          i := Successor(heights, i + 1, level);
        } else {
          if prev != null { prev[level] := x; }
          at := at[level := i];
          if level == 0 {
            BottomIsSeekPosition(i, key);
            return;
          }
          // Switch to next list
          level := level - 1;
        }
      }
    }
  
    // The latest node with a key before the given one; the head if there is none.
    method FindLessThan(key: InternalKey) returns (x: Node, ghost i: nat)
      requires Valid()
      ensures i < |nodes| && x == nodes[i] && IsSeekPosition(Entries(), key, i)
      ensures x == head || Less(x.entry.key, key)
    {
      x, i := head, 0;
      var level := maxHeight - 1;
      while true
        invariant 0 <= level < maxHeight && StandsAt(nodes, heights, i, level, key) && x == nodes[i]
        decreases level + |nodes| - i
      {
        var next, after := SearchStep(x, level, key, i);
        if after {
          x := next;
          i := Successor(heights, i + 1, level);
        } else if level == 0 {
          BottomIsSeekPosition(i, key);
          return;
        } else {
          level := level - 1;
        }
      }
    }

    lemma AllAtBottom(i: nat)
      requires Valid() && i <= |nodes|
      ensures Successor(heights, i, 0) == i
    {
    }

    // The last node in the list; the head if it is empty.
    method FindLast() returns (x: Node)
      requires Valid()
      ensures x == nodes[|nodes| - 1]
    {
      x := head;
      ghost var i: nat := 0;
      var level := maxHeight - 1;
      while true
        invariant 0 <= level < maxHeight && i < |nodes| && x == nodes[i] && level < heights[i]
        decreases level + |nodes| - i
      {
        assert Linked(i);
        var next := x.next[level];
        if next == null {
          if level == 0 {
            AllAtBottom(i + 1);
            return;
          }
          level := level - 1;
        } else {
          x := next;
          i := Successor(heights, i + 1, level);
        }
      }
    }

    method Contains(key: InternalKey) returns (r: bool)
      requires Valid()
      ensures r <==> exists e :: e in Entries() && e.key == key
    {
      var x, at := FindGreaterOrEqual(key, null);
      ghost var s := at[0];
      assert s < |Entries()| ==> Entries()[s] == nodes[s + 1].entry;
      r := x != null && x.entry.key == key;
      forall e | e in Entries() && e.key == key ensures r {
        var j :| 0 <= j < |Entries()| && Entries()[j] == e;
        SeekFindsKey(Entries(), key, s, j);
      }
    }

    // A store to a link of x at a level where x is not linked yet.
    method SetOwnLink(x: Node, level: nat, next: Node?)
      requires Valid() && level < |x.next|
      requires forall i :: 0 <= i < |nodes| && nodes[i] == x ==> heights[i] <= level
      modifies x`next
      ensures Valid() && x.next == old(x.next)[level := next]
    {
      x.next := x.next[level := next];
      forall j | 0 <= j < |nodes| ensures Linked(j) { assert old(Linked(j)); }
    }

    // The store that links x, node k, at a level, after its predecessor p there.
    method Publish(x: Node, level: nat, prev: Node, ghost p: nat, ghost k: nat)
      requires AllLinked() && forall i :: 0 <= i < |nodes| && i != k ==> heights[i] >= 1
      requires p < k < |nodes| && nodes[p] == prev && nodes[k] == x
      requires heights[k] == level < maxHeight && level < |x.next|
      requires level < heights[p] && k < Successor(heights, p + 1, level)
      requires x.next[level] == NodeAt(nodes, Successor(heights, p + 1, level))
      modifies this`heights, prev`next
      ensures Valid() && heights == old(heights)[k := level + 1]
    {
      ghost var h := heights;
      assert Linked(p) && Linked(k);
      hide Successor, SortedNodes, LinksAre, Less, NodeAt;
      PublishFits(p, k);
      prev.next := prev.next[level := x];
      heights := heights[k := level + 1];
      forall j | 0 <= j < |nodes| ensures Linked(j) {
        assert old(Linked(j));
        LinksPublished(nodes, h, k, p, level, j, old(nodes[j].next), nodes[j].next);
      }
    }

    lemma PublishFits(p: nat, k: nat)
      requires AllLinked() && p < k < |nodes|
      ensures heights[p] <= |nodes[p].next| && nodes[p] != nodes[k]
      ensures forall j :: 0 <= j < |nodes| && j != p ==> nodes[j] != nodes[p]
    {
      assert Linked(p);
    }

    // The nodes with a node that no level links yet.
    ghost method AddUnlinked(x: Node, k: nat)
      requires Valid() && x !in nodes && 1 <= k <= |nodes|
      requires IsSeekPosition(Entries(), x.entry.key, k - 1)
      requires forall e :: e in Entries() ==> e.key != x.entry.key
      modifies this`nodes, this`heights
      ensures AllLinked() && nodes == Inserted(old(nodes), k, x) && heights == Inserted(old(heights), k, 0)
    {
      hide IsSeekPosition, EntriesOf, Less, SortedNodes, Successor, LinksAre;
      ghost var ns, hs := nodes, heights;
      ShapeInserted(x, k);
      nodes, heights := Inserted(ns, k, x), Inserted(hs, k, 0);
      forall j | 0 <= j < |nodes| ensures Linked(j) {
        InsertedAt(ns, k, x, j);
        if j == k {
          UnlinkedNode(ns, hs, k, x, x.next);
        } else {
          var i := if j < k then j else j - 1;
          assert old(Linked(i));
          LinksInserted(ns, hs, k, x, i, ns[i].next);
        }
      }
    }

    lemma ShapeInserted(x: Node, k: nat)
      requires Valid() && x !in nodes && 1 <= k <= |nodes|
      requires IsSeekPosition(Entries(), x.entry.key, k - 1)
      requires forall e :: e in Entries() ==> e.key != x.entry.key
      ensures SortedNodes(Inserted(nodes, k, x)) && Inserted(nodes, k, x)[0] == head
      ensures Inserted(heights, k, 0)[0] == MAX_HEIGHT
      ensures forall i :: 1 <= i <= |nodes| ==> Inserted(heights, k, 0)[i] <= maxHeight
    {
      KeysAround(x, k);
      InsertedNodesAreSorted(nodes, k, x);
      hide SortedNodes;
    }

    lemma KeysAround(x: Node, k: nat)
      requires Valid() && 1 <= k <= |nodes| && IsSeekPosition(Entries(), x.entry.key, k - 1)
      requires forall e :: e in Entries() ==> e.key != x.entry.key
      ensures forall j :: 1 <= j < k ==> Less(nodes[j].entry.key, x.entry.key)
      ensures forall j :: k <= j < |nodes| ==> Less(x.entry.key, nodes[j].entry.key)
    {
      forall j | 1 <= j < |nodes|
        ensures if j < k then Less(nodes[j].entry.key, x.entry.key) else Less(x.entry.key, nodes[j].entry.key)
      {
        assert Entries()[j - 1] == nodes[j].entry;
        LessIsTotalOrder(nodes[j].entry.key, x.entry.key, nodes[j].entry.key);
      }
    }

    // On the levels from a given one up to the new node's height, the search for
    // the new key stood before node k.
    ghost predicate SearchStoodBefore(at: seq<nat>, k: nat, from: nat)
      requires |heights| == |nodes|
      reads this
    {
      && k < |nodes|
      && forall l :: from <= l < |at| ==> IsBelow(heights, at[l], l, k) && l < heights[at[l]]
    }

    lemma StoodBefore(key: InternalKey, at: nat, k: nat, level: nat)
      requires Valid() && PrecedesAt(nodes, heights, at, level, key)
      requires 1 <= k && IsSeekPosition(Entries(), key, k - 1)
      ensures at < k <= Successor(heights, at + 1, level)
    {
      var s := Successor(heights, at + 1, level);
      assert at > 0 ==> Entries()[at - 1] == nodes[at].entry;
      assert s < |nodes| ==> Entries()[s - 1] == nodes[s].entry;
    }

    // The first part of Insert: the predecessors of the key on every level of the
    // new node, and a list that may be that high.
    method FindPredecessors(key: InternalKey, height: nat) returns (prev: array<Node>, ghost at: seq<nat>)
      requires Valid() && 1 <= height <= MAX_HEIGHT
      modifies this`maxHeight
      ensures Valid() && maxHeight >= height && fresh(prev) && prev.Length == MAX_HEIGHT && |at| == maxHeight
      ensures Found(key, prev, at) && IsSeekPosition(Entries(), key, at[0])
    {
      hide Successor, SortedNodes;
      prev := new Node[MAX_HEIGHT](_ => head);
      var x;
      x, at := FindGreaterOrEqual(key, prev);
      ghost var bottom := at[0];
      if height > maxHeight {
        for i := maxHeight to height
          invariant Valid() && maxHeight == old(maxHeight) && |at| == i && at[0] == bottom
          invariant Found(key, prev, at)
        {
          prev[i] := head;
          HeadIsLast(i);
          at := at + [0];
        }
        SetMaxHeight(height);
      }
    }

    // The list may be higher than its nodes are: the new levels are empty.
    method SetMaxHeight(height: nat)
      requires Valid() && maxHeight <= height <= MAX_HEIGHT
      modifies this`maxHeight
      ensures Valid() && maxHeight == height
    {
      maxHeight := height;
      forall i | 0 <= i < |nodes| ensures Linked(i) { assert old(Linked(i)); }
    }

    // prev holds the node before key on every level that at is about.
    ghost predicate Found(key: InternalKey, prev: array<Node>, at: seq<nat>)
      reads this, prev
    {
      && |at| <= prev.Length
      && forall l {:trigger at[l]} :: 0 <= l < |at| ==>
         PrecedesAt(nodes, heights, at[l], l, key) && prev[l] == nodes[at[l]]
    }

    lemma HeadIsLast(level: nat)
      requires Valid() && maxHeight <= level < MAX_HEIGHT
      ensures Successor(heights, 1, level) == |nodes|
    {
      SuccessorIsUnique(heights, 1, level, |nodes|);
    }

    // The insertion of x as node k has linked the levels below l.
    ghost predicate Inserting(x: Node, k: nat, at: seq<nat>, l: nat, before: seq<Node>)
      reads this, nodes
    {
      && Valid() && 1 <= k <= |before| && |at| <= maxHeight
      && if l == 0 then
          && nodes == before && x !in nodes && IsSeekPosition(Entries(), x.entry.key, k - 1)
          && (forall e :: e in Entries() ==> e.key != x.entry.key)
          && (forall m :: 0 <= m < |at| ==> PrecedesAt(nodes, heights, at[m], m, x.entry.key))
        else
          && nodes == Inserted(before, k, x) && heights[k] == l && SearchStoodBefore(at, k, l)
    }

    method LinkLevel(x: Node, l: nat, prev: Node, ghost k: nat, ghost at: seq<nat>, ghost before: seq<Node>)
      requires Inserting(x, k, at, l, before) && l < |at| <= |x.next| && at[l] < |before| && prev == before[at[l]]
      modifies this`nodes, this`heights, x`next, prev`next
      ensures Inserting(x, k, at, l + 1, before) && |x.next| == old(|x.next|)
      ensures LinkedMore(old(nodes), old(heights), nodes, heights, k, x)
    {
      PrevIs(x, k, at, l, before);
      StoreOwnLink(x, l, prev, k, at, before);
      PublishLevel(x, l, prev, k, at, before);
    }

    // The first store: the link of x itself.
    method StoreOwnLink(x: Node, l: nat, prev: Node, ghost k: nat, ghost at: seq<nat>, ghost before: seq<Node>)
      requires Inserting(x, k, at, l, before) && l < |at| <= |x.next| && at[l] < |nodes| && prev == nodes[at[l]]
      requires l < heights[at[l]]
      requires forall i :: 0 <= i < |nodes| && nodes[i] == x ==> heights[i] <= l
      modifies x`next
      ensures Inserting(x, k, at, l, before) && |x.next| == old(|x.next|)
      ensures x.next[l] == NodeAt(nodes, Successor(heights, at[l] + 1, l))
    {
      hide Successor, SortedNodes, IsSeekPosition, PrecedesAt, EntriesOf, Less;
      assert Linked(at[l]);
      SetOwnLink(x, l, prev.next[l]);
    }

    // The second store: x is found at the level from now on.
    method PublishLevel(x: Node, l: nat, prev: Node, ghost k: nat, ghost at: seq<nat>, ghost before: seq<Node>)
      requires Inserting(x, k, at, l, before) && l < |at| <= |x.next| && at[l] < |before| && prev == before[at[l]]
      requires at[l] < |nodes| && x.next[l] == NodeAt(nodes, Successor(heights, at[l] + 1, l))
      modifies this`nodes, this`heights, prev`next
      ensures Inserting(x, k, at, l + 1, before)
      ensures LinkedMore(old(nodes), old(heights), nodes, heights, k, x)
    {
      hide Successor, SortedNodes, IsSeekPosition, PrecedesAt, EntriesOf, Less, NodeAt, LinksAre;
      if l == 0 {
        AddBottom(x, k, at, before);
      }
      PrevStays(x, k, at, l, before);
      PositionsRaised(heights, k, at, l);
      Publish(x, l, prev, at[l], k);
    }

    lemma PrevStays(x: Node, k: nat, at: seq<nat>, l: nat, before: seq<Node>)
      requires 1 <= k <= |before| && nodes == Inserted(before, k, x) && |heights| == |nodes|
      requires SearchStoodBefore(at, k, l) && l < |at|
      ensures nodes[k] == x && at[l] < k && nodes[at[l]] == before[at[l]]
    {
      hide Successor;
    }

    lemma PrevIs(x: Node, k: nat, at: seq<nat>, l: nat, before: seq<Node>)
      requires Inserting(x, k, at, l, before) && l < |at| && at[l] < |before|
      ensures at[l] < |nodes| && nodes[at[l]] == before[at[l]] && l < heights[at[l]]
      ensures forall i :: 0 <= i < |nodes| && nodes[i] == x ==> heights[i] <= l
    {
      assert l > 0 ==> nodes[k] == x;
      assert l == 0 ==> PrecedesAt(nodes, heights, at[0], 0, x.entry.key);
    }

    ghost method AddBottom(x: Node, k: nat, at: seq<nat>, before: seq<Node>)
      requires Inserting(x, k, at, 0, before) && |at| > 0
      modifies this`nodes, this`heights
      ensures AllLinked() && nodes == Inserted(before, k, x) && heights == Inserted(old(heights), k, 0)
      ensures SearchStoodBefore(at, k, 0)
      ensures NodeAt(nodes, Successor(heights, at[0] + 1, 0)) == NodeAt(before, Successor(old(heights), at[0] + 1, 0))
    {
      hide Successor, SortedNodes, IsSeekPosition, EntriesOf, Less, LinksAre;
      forall m {:trigger at[m]} | 0 <= m < |at|
        ensures at[m] < k <= Successor(heights, at[m] + 1, m) && m < heights[at[m]]
      {
        assert PrecedesAt(nodes, heights, at[m], m, x.entry.key);
        StoodBefore(x.entry.key, at[m], k, m);
      }
      PositionsInserted(heights, k, at);
      LinkInserted(nodes, heights, k, x, at[0], 0);
      HeightsBelow(heights, k, at);
      AddUnlinked(x, k);
    }
  
    // Inserts an entry whose key is not in the list; the height is drawn at random.
    method Insert(e: Entry, height: nat)
      requires Valid() && 1 <= height <= MAX_HEIGHT
      requires forall o :: o in Entries() ==> o.key != e.key
      modifies this, nodes
      ensures Valid() && forall n :: n in nodes ==> n in old(nodes) || fresh(n)
      ensures exists i: nat ::
        && i <= |old(Entries())| && IsSeekPosition(old(Entries()), e.key, i)
        && Entries() == Inserted(old(Entries()), i, e)
    {
      hide Successor, SortedNodes, Inserted;
      ghost var before := nodes;
      var prev, at := FindPredecessors(e.key, height);
      var x := new Node(e, height);
      ghost var k := at[0] + 1;
      at := at[..height];
      for l := 0 to height
        invariant Inserting(x, k, at, l, before) && |x.next| == height && Predecessors(prev, at, before)
      {
        assert before[at[l]] in before;
        LinkLevel(x, l, prev[l], k, at, before);
      }
      EntriesInserted(before, k, x);
    }
  }

  // ----- a search during insertions ---------------------------------------------------------

  // A search that stands at a node still stands there after a store, as if it had
  // begun in the new list.
  lemma StoreKeepsPlace(nodes: seq<Node>, heights: seq<nat>, nodes': seq<Node>, heights': seq<nat>, k: nat, x: Node,
                        i: nat, level: nat, key: InternalKey)
    requires StandsAt(nodes, heights, i, level, key) && LinkedMore(nodes, heights, nodes', heights', k, x)
    ensures exists j: nat :: StandsAt(nodes', heights', j, level, key) && nodes'[j] == nodes[i]
  {
    if nodes' == nodes && heights' == heights[k := heights[k] + 1] {
      assert StandsAt(nodes', heights', i, level, key);
    } else {
      var j := Shifted(k, i);
      assert StandsAt(nodes', heights', j, level, key) && nodes'[j] == nodes[i];
    }
  }

  // A search holds a node and a level until it ends.
  datatype Search = Standing(x: Node, level: nat) | Ended(next: Node?)

  // The list and the search between two steps.
  datatype Moment = Moment(nodes: seq<Node>, heights: seq<nat>, search: Search)

  // A turn of FindGreaterOrEqual: it reads one link.
  ghost predicate Turn(m: Moment, m': Moment, key: InternalKey) {
    && m.search.Standing?
    && exists i ::
      && 0 <= i < |m.nodes| == |m.heights| && m.nodes[i] == m.search.x
      && var next := NodeAt(m.nodes, Successor(m.heights, i + 1, m.search.level));
         m' == m.(search :=
           if next != null && KeyIsAfterNode(key, next) then Standing(next, m.search.level)
           else if m.search.level == 0 then Ended(next)
           else Standing(m.search.x, m.search.level - 1))
  }

  // A store of the writer, which links node k.
  ghost predicate Store(m: Moment, m': Moment, k: nat, x: Node) {
    && m'.search == m.search && IsList(m'.nodes, m'.heights)
    && LinkedMore(m.nodes, m.heights, m'.nodes, m'.heights, k, x)
  }

  datatype Act = Turning | Storing(k: nat, x: Node)

  ghost predicate Acts(m: Moment, act: Act, m': Moment, key: InternalKey) {
    if act.Turning? then Turn(m, m', key) else Store(m, m', act.k, act.x)
  }

  // A search from the head, on any level, during any stores.
  ghost predicate Interleaved(ms: seq<Moment>, acts: seq<Act>, key: InternalKey) {
    && |ms| == |acts| + 1 && IsList(ms[0].nodes, ms[0].heights)
    && ms[0].search.Standing? && ms[0].search.x == ms[0].nodes[0] && ms[0].search.level < MAX_HEIGHT
    && forall t :: 0 <= t < |acts| ==> Acts(ms[t], acts[t], ms[t + 1], key)
  }

  // next is the first node of the list that is not before key, or null.
  ghost predicate IsSought(nodes: seq<Node>, key: InternalKey, next: Node?)
    requires |nodes| > 0
  {
    exists i: nat :: IsSeekPosition(EntriesOf(nodes), key, i) && next == NodeAt(nodes, i + 1)
  }

  // Where the search is.
  ghost predicate InPlace(m: Moment, key: InternalKey) {
    m.search.Standing? ==>
      exists i: nat :: StandsAt(m.nodes, m.heights, i, m.search.level, key) && m.nodes[i] == m.search.x
  }

  ghost predicate Keeps(nodes: seq<Node>, nodes': seq<Node>) {
    |nodes| > 0 && |nodes'| > 0 && nodes'[0] == nodes[0] && forall n :: n in nodes ==> n in nodes'
  }

  lemma StoreIsKept(m: Moment, m': Moment, k: nat, x: Node, key: InternalKey)
    requires IsList(m.nodes, m.heights) && InPlace(m, key) && Store(m, m', k, x)
    ensures IsList(m'.nodes, m'.heights) && InPlace(m', key) && Keeps(m.nodes, m'.nodes) && m'.search == m.search
  {
    if m.search.Standing? {
      var i: nat :| StandsAt(m.nodes, m.heights, i, m.search.level, key) && m.nodes[i] == m.search.x;
      StoreKeepsPlace(m.nodes, m.heights, m'.nodes, m'.heights, k, x, i, m.search.level, key);
    }
    hide StandsAt, IsList;
    assert m.nodes == m.nodes[..k] + m.nodes[k..] || m'.nodes == m.nodes;
  }

  // A turn goes on in place, or ends at the node sought.
  lemma TurnIsRight(m: Moment, m': Moment, key: InternalKey)
    requires IsList(m.nodes, m.heights) && InPlace(m, key) && Turn(m, m', key)
    ensures InPlace(m', key) && m'.nodes == m.nodes && m'.heights == m.heights
    ensures m'.search.Ended? ==> IsSought(m.nodes, key, m'.search.next)
  {
    hide IsSeekPosition, EntriesOf;
    var i: nat :| StandsAt(m.nodes, m.heights, i, m.search.level, key) && m.nodes[i] == m.search.x;
    TurnFrom(m, m', i, key);
    hide Turn, IsList, SortedNodes;
    var level := m.search.level;
    var s := Successor(m.heights, i + 1, level);
    if s < |m.nodes| && Less(m.nodes[s].entry.key, key) {
      assert StandsAt(m.nodes, m.heights, s, level, key);
    } else if level == 0 {
      BottomIsSeek(m.nodes, m.heights, i, key);
    } else {
      assert StandsAt(m.nodes, m.heights, i, level - 1, key);
    }
  }

  // A turn reads the link of the node that the search stands at.
  lemma TurnFrom(m: Moment, m': Moment, i: nat, key: InternalKey)
    requires IsList(m.nodes, m.heights) && Turn(m, m', key) && i < |m.nodes| && m.nodes[i] == m.search.x
    ensures var next := NodeAt(m.nodes, Successor(m.heights, i + 1, m.search.level));
      m' == m.(search :=
        if next != null && KeyIsAfterNode(key, next) then Standing(next, m.search.level)
        else if m.search.level == 0 then Ended(next)
        else Standing(m.search.x, m.search.level - 1))
  {
    hide Successor, NodeAt, KeyIsAfterNode;
  }

  // A search that ends gives what a search of the list as it was at some moment
  // would have given.
  lemma {:induction false} SearchIsOfOneMoment(ms: seq<Moment>, acts: seq<Act>, key: InternalKey)
    requires Interleaved(ms, acts, key)
    ensures var m := ms[|ms| - 1];
      && IsList(m.nodes, m.heights) && InPlace(m, key) && Keeps(ms[0].nodes, m.nodes)
      && (m.search.Ended? ==> exists t :: 0 <= t < |ms| && IsSoughtAt(ms, t, key, m.search.next))
  {
    hide IsList, Turn, Store, IsSought, SortedNodes;
    var n := |ms| - 1;
    if n == 0 {
      FirstMoment(ms[0], key);
    } else {
      var front := ms[..n];
      SearchIsOfOneMoment(front, acts[..n - 1], key);
      assert Acts(ms[n - 1], acts[n - 1], ms[n], key);
      if acts[n - 1].Turning? {
        TurnIsRight(ms[n - 1], ms[n], key);
        if ms[n].search.Ended? { assert IsSoughtAt(ms, n - 1, key, ms[n].search.next); }
      } else {
        StoreIsKept(ms[n - 1], ms[n], acts[n - 1].k, acts[n - 1].x, key);
        if ms[n].search.Ended? {
          assert front[n - 1] == ms[n - 1] && ms[n - 1].search == ms[n].search;
          var t :| 0 <= t < n && IsSoughtAt(front, t, key, ms[n].search.next);
          assert IsSoughtAt(ms, t, key, ms[n].search.next);
        }
      }
    }
  }

  // The list at moment t, which has all nodes of the first one.
  ghost predicate IsSoughtAt(ms: seq<Moment>, t: int, key: InternalKey, next: Node?)
    requires ms != []
  {
    && 0 <= t < |ms| && IsList(ms[t].nodes, ms[t].heights) && Keeps(ms[0].nodes, ms[t].nodes)
    && IsSought(ms[t].nodes, key, next)
  }

  // It ends at the first node of the list it began in that is not before key, or
  // at a node that was inserted meanwhile and is not before key either.
  lemma SearchFindsOldOrNew(ms: seq<Moment>, acts: seq<Act>, key: InternalKey)
    requires Interleaved(ms, acts, key) && ms[|ms| - 1].search.Ended?
    ensures var next := ms[|ms| - 1].search.next;
      || IsSought(ms[0].nodes, key, next)
      || (next != null && next !in ms[0].nodes && !Less(next.entry.key, key))
  {
    hide Turn, Store, IsSought, SortedNodes, Interleaved;
    SearchIsOfOneMoment(ms, acts, key);
    FirstIsList(ms, acts, key);
    var next := ms[|ms| - 1].search.next;
    var t :| 0 <= t < |ms| && IsSoughtAt(ms, t, key, next);
    SoughtInFewer(ms[0].nodes, ms[t].nodes, key, next);
  }

  lemma FirstIsList(ms: seq<Moment>, acts: seq<Act>, key: InternalKey)
    requires Interleaved(ms, acts, key)
    ensures ms != [] && IsList(ms[0].nodes, ms[0].heights)
  {
  }

  lemma FirstMoment(m: Moment, key: InternalKey)
    requires IsList(m.nodes, m.heights) && m.search.Standing? && m.search.x == m.nodes[0] && m.search.level < MAX_HEIGHT
    ensures InPlace(m, key) && Keeps(m.nodes, m.nodes)
  {
    assert StandsAt(m.nodes, m.heights, 0, m.search.level, key);
  }

  lemma SoughtInFewer(few: seq<Node>, nodes: seq<Node>, key: InternalKey, next: Node?)
    requires SortedNodes(few) && SortedNodes(nodes) && Keeps(few, nodes) && IsSought(nodes, key, next)
    ensures IsSought(few, key, next) || (next != null && next !in few && !Less(next.entry.key, key))
  {
    var i: nat :| IsSeekPosition(EntriesOf(nodes), key, i) && next == NodeAt(nodes, i + 1);
    NodesAround(nodes, key, i);
    hide SortedNodes, IsSought, EntriesOf, IsSeekPosition, Keeps;
    if next == null {
      NothingNotBefore(few, nodes, key);
    } else if next in few {
      var p :| 0 <= p < |few| && few[p] == next;
      NodesBeforeNext(few, nodes, key, i, p);
    }
  }
  lemma NodesAround(nodes: seq<Node>, key: InternalKey, i: nat)
    requires |nodes| > 0 && IsSeekPosition(EntriesOf(nodes), key, i)
    ensures i < |nodes| && forall j :: 1 <= j < |nodes| ==> (Less(nodes[j].entry.key, key) <==> j <= i)
  {
    forall j | 1 <= j < |nodes| ensures Less(nodes[j].entry.key, key) <==> j <= i {
      assert EntriesOf(nodes)[j - 1] == nodes[j].entry;
    }
  }

  lemma SoughtFromNodes(nodes: seq<Node>, key: InternalKey, i: nat)
    requires |nodes| > 0 && i < |nodes| && forall j :: 1 <= j < |nodes| ==> (Less(nodes[j].entry.key, key) <==> j <= i)
    ensures IsSought(nodes, key, NodeAt(nodes, i + 1))
  {
    var es := EntriesOf(nodes);
    forall j | 0 <= j < |es| ensures Less(es[j].key, key) <==> j < i {
      assert es[j] == nodes[j + 1].entry;
    }
    assert IsSeekPosition(es, key, i);
  }

  // A node of the fewer, but the head, is one of the list, but the head.
  lemma NodeOfFewer(few: seq<Node>, nodes: seq<Node>, q: nat) returns (r: nat)
    requires SortedNodes(few) && Keeps(few, nodes) && 1 <= q < |few|
    ensures 1 <= r < |nodes| && nodes[r] == few[q]
  {
    assert few[q] in few && few[q] != few[0];
    r :| 0 <= r < |nodes| && nodes[r] == few[q];
  }

  lemma NothingNotBefore(few: seq<Node>, nodes: seq<Node>, key: InternalKey)
    requires SortedNodes(few) && Keeps(few, nodes)
    requires forall j :: 1 <= j < |nodes| ==> Less(nodes[j].entry.key, key)
    ensures IsSought(few, key, null)
  {
    hide SortedNodes, Less;
    forall q | 1 <= q < |few| ensures Less(few[q].entry.key, key) {
      var r := NodeOfFewer(few, nodes, q);
    }
    SoughtFromNodes(few, key, |few| - 1);
  }

  lemma NodeOrder(nodes: seq<Node>, i: nat, j: nat)
    requires SortedNodes(nodes) && 1 <= i < |nodes| && 1 <= j < |nodes|
    ensures Less(nodes[i].entry.key, nodes[j].entry.key) <==> i < j
  {
    LessIsTotalOrder(nodes[i].entry.key, nodes[j].entry.key, nodes[i].entry.key);
  }

  lemma NodesBeforeNext(few: seq<Node>, nodes: seq<Node>, key: InternalKey, i: nat, p: nat)
    requires SortedNodes(few) && SortedNodes(nodes) && Keeps(few, nodes) && i + 1 < |nodes| && p < |few|
    requires few[p] == nodes[i + 1]
    requires forall j :: 1 <= j < |nodes| ==> (Less(nodes[j].entry.key, key) <==> j <= i)
    ensures IsSought(few, key, few[p])
  {
    assert nodes[0] != nodes[i + 1];
    assert p >= 1;
    forall q | 1 <= q < |few| ensures Less(few[q].entry.key, key) <==> q <= p - 1 {
      var r := NodeOfFewer(few, nodes, q);
      NodeOrder(few, q, p);
      NodeOrder(nodes, r, i + 1);
    }
    SoughtFromNodes(few, key, p - 1);
  }

  // ----- the iterator -----------------------------------------------------------------------

  // SkipList::Iterator: a cursor on the entries; pos is its place, |Entries()|
  // when it is not valid.
  class Iterator {
    const list: SkipList
    var node: Node?
    ghost var pos: nat

    ghost predicate Valid()
      reads this, list, list.nodes
    {
      && list.Valid()
      && pos <= |list.Entries()|
      && node == NodeAt(list.nodes, pos + 1)
    }

    constructor (list: SkipList)
      requires list.Valid()
      ensures Valid() && this.list == list && pos == |list.Entries()|
    {
      this.list, node, pos := list, null, |list.Entries()|;
    }

    method Key() returns (e: Entry)
      requires Valid() && pos < |list.Entries()|
      ensures e == list.Entries()[pos]
    {
      e := node.entry;
    }

    method Next()
      requires Valid() && pos < |list.Entries()|
      modifies this
      ensures Valid() && pos == old(pos) + 1
    {
      assert list.Linked(pos + 1);
      list.AllAtBottom(pos + 2);
      node := node.next[0];
      pos := pos + 1;
    }

    // Searches for the last node before this one: there are no links back.
    method Prev()
      requires Valid() && pos < |list.Entries()|
      modifies this
      ensures Valid() && pos == if old(pos) == 0 then |list.Entries()| else old(pos) - 1
    {
      var x, i := list.FindLessThan(node.entry.key);
      SeekFindsKey(list.Entries(), node.entry.key, i, pos);
      node := x;
      pos := if i == 0 then |list.Entries()| else i - 1;
      if x == list.head { node := null; }
    }

    method Seek(target: InternalKey)
      requires Valid()
      modifies this
      ensures Valid() && IsSeekPosition(list.Entries(), target, pos)
    {
      var n, at := list.FindGreaterOrEqual(target, null);
      node := n;
      pos := at[0];
    }

    method SeekToFirst()
      requires Valid()
      modifies this
      ensures Valid() && pos == 0
    {
      assert list.Linked(0);
      list.AllAtBottom(1);
      node := list.head.next[0];
      pos := 0;
    }

    method SeekToLast()
      requires Valid()
      modifies this
      ensures Valid() && pos == if list.Entries() == [] then 0 else |list.Entries()| - 1
    {
      node := list.FindLast();
      pos := if |list.Entries()| == 0 then 0 else |list.Entries()| - 1;
      if node == list.head { node := null; }
    }
  }
}
