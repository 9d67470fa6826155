/**
 The reference semantics of a read: the store is a set of entries, and a read
 of user key k at snapshot s sees the newest entry of k whose sequence number
 is at most s.  Everything else in the project refines this.
 */
module Reads {
  import opened Basics
  import opened InternalKeys

  ghost predicate Visible(e: Entry, k: UserKey, s: nat) {
    e.key.user == k && e.key.sequence <= s
  }

  ghost predicate IsNewest(S: set<Entry>, k: UserKey, s: nat, e: Entry) {
    && e in S && Visible(e, k, s)
    && forall e' :: e' in S && Visible(e', k, s) ==> e'.key.sequence <= e.key.sequence
  }

  ghost function NewestAt(S: set<Entry>, k: UserKey, s: nat): (o: Option<Entry>)
    ensures o.Some? ==> IsNewest(S, k, s, o.value)
    ensures o.None? ==> forall e :: e in S ==> !Visible(e, k, s)
  {
    if exists e :: IsNewest(S, k, s, e) then
      var e :| IsNewest(S, k, s, e); Some(e)
    else
      NoNewestMeansNoneVisible(S, k, s);
      None
  }

  // What the caller of DB::Get sees: a tombstone and a missing key look alike.
  function Answer(o: Option<Entry>): Option<Bytes> {
    if o.Some? && o.value.key.typ.TypeValue? then Some(o.value.value) else None
  }

  ghost function ReadAt(S: set<Entry>, k: UserKey, s: nat): Option<Bytes> {
    Answer(NewestAt(S, k, s))
  }

  // One sequence number is given to one entry of a user key.
  ghost predicate DistinctSequences(S: set<Entry>) {
    forall a, b :: a in S && b in S && a.key.user == b.key.user && a.key.sequence == b.key.sequence ==> a == b
  }

  // Whatever A and B hold of one user key, A's entries are newer.
  ghost predicate NewerThan(A: set<Entry>, B: set<Entry>) {
    forall a, b :: a in A && b in B && a.key.user == b.key.user ==> a.key.sequence > b.key.sequence
  }

  lemma {:induction false} NewestExists(S: set<Entry>, k: UserKey, s: nat, e: Entry)
    requires e in S && Visible(e, k, s)
    ensures exists m :: IsNewest(S, k, s, m)
    decreases S
  {
    var T := S - {e};
    if exists e' :: e' in T && Visible(e', k, s) {
      var e' :| e' in T && Visible(e', k, s);
      NewestExists(T, k, s, e');
      var m :| IsNewest(T, k, s, m);
      var best := if m.key.sequence < e.key.sequence then e else m;
      assert IsNewest(S, k, s, best) by {
        forall x | x in S && Visible(x, k, s) ensures x.key.sequence <= best.key.sequence {
          assert x == e || x in T;
        }
      }
    } else {
      assert IsNewest(S, k, s, e) by {
        forall x | x in S && Visible(x, k, s) ensures x.key.sequence <= e.key.sequence {
          assert x == e || x in T;
        }
      }
    }
  }

  lemma NoNewestMeansNoneVisible(S: set<Entry>, k: UserKey, s: nat)
    requires !exists e :: IsNewest(S, k, s, e)
    ensures forall e :: e in S ==> !Visible(e, k, s)
  {
    forall e | e in S ensures !Visible(e, k, s) {
      if Visible(e, k, s) { NewestExists(S, k, s, e); }
    }
  }

  // The newest entry is determined by the set.
  lemma NewestIsUnique(S: set<Entry>, k: UserKey, s: nat, e: Entry)
    requires DistinctSequences(S) && IsNewest(S, k, s, e)
    ensures NewestAt(S, k, s) == Some(e)
  {
    var o := NewestAt(S, k, s);
    assert IsNewest(S, k, s, o.value);
    assert o.value.key.sequence == e.key.sequence;
  }

  lemma NoneVisible(S: set<Entry>, k: UserKey, s: nat)
    requires forall e :: e in S ==> !Visible(e, k, s)
    ensures NewestAt(S, k, s) == None
  {
  }

  // Looking in the newer part first is right: what it finds hides the rest.
  lemma NewerPartFirst(A: set<Entry>, B: set<Entry>, k: UserKey, s: nat)
    requires DistinctSequences(A + B) && NewerThan(A, B)
    ensures NewestAt(A + B, k, s) == if NewestAt(A, k, s).Some? then NewestAt(A, k, s) else NewestAt(B, k, s)
  {
    var a, b := NewestAt(A, k, s), NewestAt(B, k, s);
    if a.Some? {
      assert IsNewest(A + B, k, s, a.value);
      NewestIsUnique(A + B, k, s, a.value);
    } else if b.Some? {
      assert IsNewest(A + B, k, s, b.value);
      NewestIsUnique(A + B, k, s, b.value);
    } else {
      NoneVisible(A + B, k, s);
    }
  }

  // Seeking the lookup key in a sorted run finds the newest visible entry, if
  // the entry landed on has the right user key (MemTable::Get, SaveValue).
  lemma SeekFindsNewest(es: seq<Entry>, k: UserKey, s: SequenceNumber, i: int)
    requires Sorted(es) && DistinctSequences(Contents(es))
    requires IsSeekPosition(es, LookupKey(k, s), i)
    ensures NewestAt(Contents(es), k, s) == if i < |es| && es[i].key.user == k then Some(es[i]) else None
  {
    if i < |es| && es[i].key.user == k {
      assert Visible(es[i], k, s);
      forall e | e in es && Visible(e, k, s) ensures e.key.sequence <= es[i].key.sequence {
        var j :| 0 <= j < |es| && es[j] == e;
        assert i < j ==> Less(es[i].key, es[j].key);
      }
      NewestIsUnique(Contents(es), k, s, es[i]);
    } else {
      forall e | e in es ensures !Visible(e, k, s) {
        var j :| 0 <= j < |es| && es[j] == e;
        if i <= j {
          assert !Less(es[i].key, LookupKey(k, s));
          assert i < j ==> Less(es[i].key, es[j].key);
        }
      }
      NoneVisible(Contents(es), k, s);
    }
  }

  // ---------------------------------------------------------------------
  // What a compaction may drop (the loop of DBImpl::DoCompactionWork).
  // ---------------------------------------------------------------------

  // Rule (A): hidden by a newer entry of the same key that every live snapshot sees.
  ghost predicate Shadowed(I: set<Entry>, smallest: nat, e: Entry) {
    exists e' :: e' in I && e'.key.user == e.key.user && e.key.sequence < e'.key.sequence <= smallest
  }

  // A tombstone that every live snapshot sees, of a key with nothing in deeper levels.
  predicate ObsoleteTombstone(smallest: nat, base: set<UserKey>, e: Entry) {
    e.key.typ.TypeDeletion? && e.key.sequence <= smallest && e.key.user in base
  }

  ghost predicate Dropped(I: set<Entry>, smallest: nat, base: set<UserKey>, e: Entry) {
    Shadowed(I, smallest, e) || ObsoleteTombstone(smallest, base, e)
  }

  ghost function Kept(I: set<Entry>, smallest: nat, base: set<UserKey>): set<Entry> {
    set e | e in I && !Dropped(I, smallest, base, e)
  }

  // The one way a compaction of the inputs I, leaving R untouched, can change a
  // read: it drops the tombstone by which k is deleted, and the newest older
  // entry of k that it leaves behind is a value.
  ghost predicate Resurrects(R: set<Entry>, I: set<Entry>, smallest: nat, base: set<UserKey>, k: UserKey) {
    exists e :: && e in I && e.key.user == k
                && ObsoleteTombstone(smallest, base, e)
                && IsNewest(R + I, k, smallest, e)
                && ReadAt(R, k, e.key.sequence) != None
  }

  // Entries that may be dropped for shadowing are never the newest of a live snapshot.
  lemma NewestIsNotShadowed(S: set<Entry>, I: set<Entry>, smallest: nat, k: UserKey, s: nat, e: Entry)
    requires I <= S && smallest <= s && IsNewest(S, k, s, e)
    ensures !Shadowed(I, smallest, e)
  {
    forall e' | e' in I && e'.key.user == e.key.user && e'.key.sequence <= smallest
      ensures e'.key.sequence <= e.key.sequence
    {
      assert e' in S && Visible(e', k, s);
    }
  }

  // Below a dropped tombstone the compaction outputs hold nothing, so what is
  // read there is what the untouched part holds.
  lemma BelowDroppedTombstone(R: set<Entry>, I: set<Entry>, smallest: nat, base: set<UserKey>, k: UserKey, s: nat,
                              e: Entry)
    requires DistinctSequences(R + I) && smallest <= s && R !! I
    requires e in I && e.key.user == k && ObsoleteTombstone(smallest, base, e) && IsNewest(R + I, k, s, e)
    ensures ReadAt(R + Kept(I, smallest, base), k, s) == ReadAt(R, k, e.key.sequence)
  {
    var C := R + Kept(I, smallest, base);
    forall x | x in I && Visible(x, k, s) ensures Dropped(I, smallest, base, x) {
      assert x in R + I;
      if x.key.sequence < e.key.sequence {
        assert Shadowed(I, smallest, x);
      } else {
        assert x == e;
      }
    }
    forall x | x in C && Visible(x, k, s) ensures x in R && Visible(x, k, e.key.sequence) {
      assert x in R + I;
      assert x.key.sequence == e.key.sequence ==> x == e;
    }
    var r := NewestAt(R, k, e.key.sequence);
    if r.Some? {
      assert IsNewest(C, k, s, r.value);
      NewestIsUnique(C, k, s, r.value);
    } else {
      NoneVisible(C, k, s);
    }
  }

  // Reads of k at any snapshot the compaction must respect are unchanged
  // exactly when it does not resurrect k.
  lemma CompactionKeepsReads(R: set<Entry>, I: set<Entry>, smallest: nat, base: set<UserKey>, k: UserKey)
    requires DistinctSequences(R + I) && R !! I
    ensures (forall s :: s >= smallest ==> ReadAt(R + Kept(I, smallest, base), k, s) == ReadAt(R + I, k, s))
            <==> !Resurrects(R, I, smallest, base, k)
  {
    if Resurrects(R, I, smallest, base, k) {
      var e :| && e in I && e.key.user == k && ObsoleteTombstone(smallest, base, e)
               && IsNewest(R + I, k, smallest, e) && ReadAt(R, k, e.key.sequence) != None;
      BelowDroppedTombstone(R, I, smallest, base, k, smallest, e);
      NewestIsUnique(R + I, k, smallest, e);
      assert ReadAt(R + Kept(I, smallest, base), k, smallest) != ReadAt(R + I, k, smallest);
    } else {
      forall s: nat | s >= smallest
        ensures ReadAt(R + Kept(I, smallest, base), k, s) == ReadAt(R + I, k, s)
      {
        KeepsReadsAt(R, I, smallest, base, k, s);
      }
    }
  }

  lemma KeepsReadsAt(R: set<Entry>, I: set<Entry>, smallest: nat, base: set<UserKey>, k: UserKey, s: nat)
    requires DistinctSequences(R + I) && R !! I && smallest <= s
    requires !Resurrects(R, I, smallest, base, k)
    ensures ReadAt(R + Kept(I, smallest, base), k, s) == ReadAt(R + I, k, s)
  {
    var C := R + Kept(I, smallest, base);
    assert C <= R + I;
    var o := NewestAt(R + I, k, s);
    if o.None? {
      NoneVisible(C, k, s);
    } else {
      var e := o.value;
      if e in C {
        assert IsNewest(C, k, s, e);
        NewestIsUnique(C, k, s, e);
      } else {
        NewestIsNotShadowed(R + I, I, smallest, k, s, e);
        assert ObsoleteTombstone(smallest, base, e);
        BelowDroppedTombstone(R, I, smallest, base, k, s, e);
        assert IsNewest(R + I, k, smallest, e);
      }
    }
  }

  // What is dropped need not be kept, and what is kept must be: of a user key at
  // most one entry is left that the smallest snapshot sees, no tombstone that
  // hides nothing is, and everything newer than that snapshot stays.
  lemma KeptIsLean(I: set<Entry>, smallest: nat, base: set<UserKey>, a: Entry, b: Entry)
    requires DistinctSequences(I) && a in Kept(I, smallest, base) && b in Kept(I, smallest, base)
    ensures a.key.user == b.key.user && a.key.sequence <= smallest && b.key.sequence <= smallest ==> a == b
    ensures a.key.typ.TypeDeletion? && a.key.user in base ==> a.key.sequence > smallest
  {
  }

  lemma RecentStays(I: set<Entry>, smallest: nat, base: set<UserKey>, e: Entry)
    requires e in I && e.key.sequence > smallest
    ensures e in Kept(I, smallest, base)
  {
  }
}
