/** The list of live snapshots (db/snapshot.h): circular, doubly linked, oldest first. */
module SnapshotLists {
  class SnapshotImpl {
    const sequence: nat
    var prev: SnapshotImpl?
    var next: SnapshotImpl?

    constructor (sequence: nat)
      ensures this.sequence == sequence
    {
      this.sequence := sequence;
    }
  }

  function Without<T>(s: seq<T>, i: nat): (r: seq<T>)
    requires i < |s|
    ensures |r| == |s| - 1
  {
    s[..i] + s[i + 1..]
  }

  lemma WithoutAt<T>(s: seq<T>, i: nat, j: nat)
    requires i < |s| && j < |s| - 1
    ensures Without(s, i)[j] == if j < i then s[j] else s[j + 1]
  {
  }

  ghost function SequencesOf(nodes: seq<SnapshotImpl>): (r: seq<nat>)
    requires |nodes| > 0
    ensures |r| == |nodes| - 1
  {
    seq(|nodes| - 1, i requires 0 <= i < |nodes| - 1 => nodes[i + 1].sequence)
  }

  lemma SequencesWithout(nodes: seq<SnapshotImpl>, i: nat)
    requires 0 < i < |nodes|
    ensures SequencesOf(Without(nodes, i)) == Without(SequencesOf(nodes), i - 1)
  {
  }

  ghost predicate Ordered(nodes: seq<SnapshotImpl>) {
    && (forall i, j :: 0 <= i < j < |nodes| ==> nodes[i] != nodes[j])
    && (forall i, j :: 1 <= i < j < |nodes| ==> nodes[i].sequence <= nodes[j].sequence)
  }

  lemma OrderedWithout(nodes: seq<SnapshotImpl>, i: nat)
    requires Ordered(nodes) && 0 < i < |nodes|
    ensures Ordered(Without(nodes, i))
  {
  }

  class SnapshotList {
    const head: SnapshotImpl
    // The nodes in order, the head first
    ghost var nodes: seq<SnapshotImpl>

    // Both links of a node lead to its neighbours, going round.
    ghost predicate Linked(i: nat)
      requires i < |nodes|
      reads this, nodes[i]
    {
      && nodes[i].next == nodes[if i + 1 < |nodes| then i + 1 else 0]
      && nodes[i].prev == nodes[if i > 0 then i - 1 else |nodes| - 1]
    }

    ghost predicate Valid()
      reads this, nodes
    {
      && |nodes| > 0 && nodes[0] == head
      && Ordered(nodes)
      && (forall i :: 0 <= i < |nodes| ==> Linked(i))
    }

    // The sequence numbers of the snapshots, oldest first.
    ghost function Sequences(): (r: seq<nat>)
      requires Valid()
      reads this, nodes
      ensures |r| == |nodes| - 1
    {
      SequencesOf(nodes)
    }

    constructor ()
      ensures Valid() && Sequences() == [] && fresh(nodes)
    {
      var h := new SnapshotImpl(0);
      head, nodes := h, [h];
      new;
      h.prev, h.next := h, h;
    }

    method Empty() returns (r: bool)
      requires Valid()
      ensures r <==> Sequences() == []
    {
      assert Linked(0);
      r := head.next == head;
    }

    method Oldest() returns (r: SnapshotImpl)
      requires Valid() && Sequences() != []
      ensures r == nodes[1] && r.sequence == Sequences()[0]
      ensures forall i :: 0 <= i < |Sequences()| ==> r.sequence <= Sequences()[i]
    {
      assert Linked(0);
      r := head.next;
    }

    method New(sequence: nat) returns (r: SnapshotImpl)
      requires Valid() && forall i :: 0 <= i < |Sequences()| ==> Sequences()[i] <= sequence
      modifies this, nodes
      ensures Valid() && fresh(r) && nodes == old(nodes) + [r]
      ensures Sequences() == old(Sequences()) + [sequence]
    {
      NewestIsLast();
      r := new SnapshotImpl(sequence);
      ghost var ns := nodes;
      var last := head.prev;
      r.next := head;
      r.prev := last;
      last.next := r;
      head.prev := r;
      nodes := nodes + [r];
      forall i | 0 <= i < |nodes| ensures Linked(i) {
        if i < |ns| { assert old(Linked(i)); }
      }
    }

    lemma NewestIsLast()
      requires Valid()
      ensures head.prev == nodes[|nodes| - 1] && head.prev in nodes && head in nodes
      ensures forall i :: 1 <= i < |nodes| ==> nodes[i].sequence == Sequences()[i - 1]
    {
      assert Linked(0);
    }

    method Delete(snapshot: SnapshotImpl, ghost i: nat)
      requires Valid() && 0 < i < |nodes| && nodes[i] == snapshot
      modifies this, nodes
      ensures Valid() && nodes == Without(old(nodes), i)
      ensures Sequences() == Without(old(Sequences()), i - 1)
    {
      hide Without, Ordered, SequencesOf;
      assert Linked(i);
      ghost var ns := nodes;
      ghost var p, n := i - 1, if i + 1 < |ns| then i + 1 else 0;
      var before, after := snapshot.prev, snapshot.next;
      assert before == ns[p] && after == ns[n] && ns[p] in ns && ns[n] in ns;
      before.next := after;
      after.prev := before;
      OrderedWithout(ns, i);
      SequencesWithout(ns, i);
      WithoutAt(ns, i, 0);
      nodes := Without(ns, i);
      forall j | 0 <= j < |nodes| ensures Linked(j) {
        NeighboursStay(ns, i, j);
        assert old(Linked(if j < i then j else j + 1));
      }
    }

    // The neighbours of what is left, where they were before.
    lemma NeighboursStay(ns: seq<SnapshotImpl>, i: nat, j: nat)
      requires 0 < i < |ns| && j < |ns| - 1 && Ordered(ns)
      ensures var w := Without(ns, i);
        && w[j] == ns[if j < i then j else j + 1]
        && w[if j + 1 < |w| then j + 1 else 0]
          == (var k := if j < i then j else j + 1;
              if k == i - 1 then ns[if i + 1 < |ns| then i + 1 else 0] else ns[if k + 1 < |ns| then k + 1 else 0])
        && w[if j > 0 then j - 1 else |w| - 1]
          == (var k := if j < i then j else j + 1;
              if k == (if i + 1 < |ns| then i + 1 else 0) then ns[i - 1] else ns[if k > 0 then k - 1 else |ns| - 1])
      ensures forall a, b :: 0 <= a < |ns| && 0 <= b < |ns| && ns[a] == ns[b] ==> a == b
    {
    }
  }
}
