/**
 The database iterator (db/db_iter.cc).  Over the sorted run of all internal
 entries it moves a cursor on the list of live keys: at its sequence number it
 skips newer entries, older versions and deleted keys, in both directions.
 */
module DbIter {
  import opened Basics
  import opened InternalKeys
  import opened Reads

  // Entry i is what a read of its user key at s finds, and it is a value.
  ghost predicate Yields(es: seq<Entry>, s: nat, i: int) {
    && 0 <= i < |es| && es[i].key.sequence <= s && es[i].key.typ.TypeValue?
    && forall j :: 0 <= j < i && es[j].key.sequence <= s ==> es[j].key.user != es[i].key.user
  }

  // The indices of the entries that a full iteration yields.
  ghost function Live(es: seq<Entry>, s: nat, n: nat): seq<nat>
    requires n <= |es|
  {
    if n == 0 then [] else Live(es, s, n - 1) + if Yields(es, s, n - 1) then [n - 1] else []
  }

  ghost predicate Ascending(l: seq<nat>) {
    forall i, j :: 0 <= i < j < |l| ==> l[i] < l[j]
  }

  lemma {:induction false} LiveMembers(es: seq<Entry>, s: nat, n: nat)
    requires n <= |es|
    ensures Ascending(Live(es, s, n))
    ensures forall i :: i in Live(es, s, n) <==> 0 <= i < n && Yields(es, s, i)
  {
    if n > 0 {
      LiveMembers(es, s, n - 1);
      var front := Live(es, s, n - 1);
      forall i | 0 <= i < |front| ensures front[i] < n - 1 { assert front[i] in front; }
    }
  }

  // The iterator yields exactly the keys that a point read finds, each with the
  // value it finds.
  lemma LiveIsWhatReadsFind(es: seq<Entry>, s: SequenceNumber, k: UserKey, v: Bytes)
    requires Sorted(es) && DistinctSequences(Contents(es))
    ensures ReadAt(Contents(es), k, s) == Some(v) <==>
      exists i :: i in Live(es, s, |es|) && i < |es| && es[i].key.user == k && es[i].value == v
  {
    hide Sorted, DistinctSequences, NewestAt;
    LiveMembers(es, s, |es|);
    forall i | 0 <= i < |es| && Yields(es, s, i) ensures NewestAt(Contents(es), es[i].key.user, s) == Some(es[i]) {
      YieldIsNewest(es, s, i);
    }
    if ReadAt(Contents(es), k, s) == Some(v) {
      var e := NewestAt(Contents(es), k, s).value;
      NewestYields(es, s, k, e);
    }
  }

  // Keys come in increasing order, each once.
  lemma LiveKeysAscend(es: seq<Entry>, s: SequenceNumber, i: nat, j: nat)
    requires Sorted(es) && i < j && i in Live(es, s, |es|) && j in Live(es, s, |es|)
    ensures j < |es| && es[i].key.user < es[j].key.user
  {
    LiveMembers(es, s, |es|);
    assert Less(es[i].key, es[j].key);
  }

  lemma YieldIsNewest(es: seq<Entry>, s: SequenceNumber, i: nat)
    requires Sorted(es) && DistinctSequences(Contents(es)) && Yields(es, s, i)
    ensures NewestAt(Contents(es), es[i].key.user, s) == Some(es[i])
  {
    forall e | e in es && Visible(e, es[i].key.user, s) ensures e.key.sequence <= es[i].key.sequence {
      var j :| 0 <= j < |es| && es[j] == e;
      assert i < j ==> Less(es[i].key, es[j].key);
    }
    NewestIsUnique(Contents(es), es[i].key.user, s, es[i]);
  }

  lemma NewestYields(es: seq<Entry>, s: SequenceNumber, k: UserKey, e: Entry)
    requires Sorted(es) && DistinctSequences(Contents(es)) && IsNewest(Contents(es), k, s, e) && e.key.typ.TypeValue?
    ensures exists i :: 0 <= i < |es| && es[i] == e && Yields(es, s, i)
  {
    var i :| 0 <= i < |es| && es[i] == e;
    forall j | 0 <= j < i && es[j].key.sequence <= s ensures es[j].key.user != k {
      assert Less(es[j].key, es[i].key);
      assert es[j] in Contents(es);
      assert es[j].key.user == k ==> Visible(es[j], k, s);
    }
    assert Yields(es, s, i);
  }

  // ----- the neighbours of a position ----------------------------------------------------

  ghost predicate NoneYield(es: seq<Entry>, s: nat, lo: int, hi: int) {
    forall i :: lo <= i < hi ==> !Yields(es, s, i)
  }

  // The live index whose entry is the first to yield at or after lo.
  lemma FirstFrom(es: seq<Entry>, s: nat, lo: nat, i: nat) returns (c: nat)
    requires lo <= i <= |es| && NoneYield(es, s, lo, i) && (i < |es| ==> Yields(es, s, i))
    ensures c <= |Live(es, s, |es|)|
    ensures i < |es| ==> c < |Live(es, s, |es|)| && Live(es, s, |es|)[c] == i
    ensures i == |es| ==> c == |Live(es, s, |es|)|
    ensures forall d :: 0 <= d < c ==> Live(es, s, |es|)[d] < lo
    ensures forall d :: c <= d < |Live(es, s, |es|)| ==> Live(es, s, |es|)[d] >= lo
  {
    var live := Live(es, s, |es|);
    LiveMembers(es, s, |es|);
    forall d | 0 <= d < |live| ensures Yields(es, s, live[d]) { assert live[d] in live; }
    if i < |es| {
      assert i in live;
      c :| 0 <= c < |live| && live[c] == i;
    } else {
      c := |live|;
    }
  }

  lemma LastBefore(es: seq<Entry>, s: nat, i: nat, hi: nat) returns (c: nat)
    requires i < hi <= |es| && Yields(es, s, i) && NoneYield(es, s, i + 1, hi)
    ensures c < |Live(es, s, |es|)| && Live(es, s, |es|)[c] == i
    ensures forall d :: c < d < |Live(es, s, |es|)| ==> Live(es, s, |es|)[d] >= hi
  {
    var live := Live(es, s, |es|);
    LiveMembers(es, s, |es|);
    forall d | 0 <= d < |live| ensures Yields(es, s, live[d]) { assert live[d] in live; }
    assert i in live;
    c :| 0 <= c < |live| && live[c] == i;
  }

  // ----- moving forward ---------------------------------------------------------------------

  // A visible entry of k stands before index n.
  ghost predicate Shown(es: seq<Entry>, s: nat, k: UserKey, n: int) {
    exists j :: 0 <= j < n && j < |es| && es[j].key.user == k && es[j].key.sequence <= s
  }

  // The search for the first entry from lo on that yields stands at pos: what is
  // visible before pos hides only entries up to skip.
  ghost predicate Skipping(es: seq<Entry>, s: nat, lo: nat, pos: nat, skipping: bool, skip: UserKey) {
    && pos <= |es| && lo <= |es|
    && NoneYield(es, s, lo, pos)
    && (skipping ==> Shown(es, s, skip, if pos < lo then lo else pos))
    && (forall i, j :: 0 <= i < pos <= j < |es| && es[i].key.sequence <= s && es[i].key.user == es[j].key.user
         ==> skipping && es[i].key.user <= skip)
    && (pos < lo ==> skipping && forall i :: pos <= i < lo && es[i].key.sequence <= s ==> es[i].key.user == skip)
  }

  lemma UsersAscend(es: seq<Entry>, i: nat, j: nat)
    requires Sorted(es) && i <= j < |es|
    ensures es[i].key.user <= es[j].key.user
  {
    assert i < j ==> Less(es[i].key, es[j].key);
  }

  // An entry that is hidden, too new or a tombstone is passed over.
  lemma SkipOne(es: seq<Entry>, s: nat, lo: nat, pos: nat, skipping: bool, skip: UserKey)
    requires Sorted(es) && Skipping(es, s, lo, pos, skipping, skip) && pos < |es|
    requires es[pos].key.sequence <= s ==> es[pos].key.typ.TypeDeletion? || (skipping && es[pos].key.user <= skip)
    ensures var deleted := es[pos].key.sequence <= s && es[pos].key.typ.TypeDeletion?;
      Skipping(es, s, lo, pos + 1, skipping || deleted, if deleted then es[pos].key.user else skip)
  {
    var e := es[pos];
    var deleted := e.key.sequence <= s && e.key.typ.TypeDeletion?;
    var skip' := if deleted then e.key.user else skip;
    if pos >= lo && Yields(es, s, pos) {
      HiddenDoesNotYield(es, s, lo, pos, skip);
      assert false;
    }
    forall i, j | 0 <= i < pos + 1 <= j < |es| && es[i].key.sequence <= s && es[i].key.user == es[j].key.user
      ensures (skipping || deleted) && es[i].key.user <= skip'
    {
      UsersAscend(es, i, pos);
      UsersAscend(es, pos, j);
    }
    if skipping || deleted {
      assert Shown(es, s, skip', if pos + 1 < lo then lo else pos + 1);
    }
  }

  lemma HiddenDoesNotYield(es: seq<Entry>, s: nat, lo: nat, pos: nat, skip: UserKey)
    requires Sorted(es) && lo <= pos < |es| && Shown(es, s, skip, pos) && es[pos].key.user <= skip
    ensures !Yields(es, s, pos)
  {
    var j :| 0 <= j < pos && j < |es| && es[j].key.user == skip && es[j].key.sequence <= s;
    UsersAscend(es, j, pos);
  }

  // A visible value that is not hidden is the first to yield.
  lemma StopHere(es: seq<Entry>, s: nat, lo: nat, pos: nat, skipping: bool, skip: UserKey)
    requires Sorted(es) && Skipping(es, s, lo, pos, skipping, skip) && pos < |es|
    requires es[pos].key.sequence <= s && es[pos].key.typ.TypeValue? && !(skipping && es[pos].key.user <= skip)
    ensures lo <= pos && Yields(es, s, pos) && NoneYield(es, s, lo, pos)
  {
  }

  lemma ReachedEnd(es: seq<Entry>, s: nat, lo: nat, pos: nat, skipping: bool, skip: UserKey)
    requires Skipping(es, s, lo, pos, skipping, skip) && pos >= |es|
    ensures lo <= |es| && NoneYield(es, s, lo, |es|)
  {
  }

  // Where the forward searches start.

  lemma StartAfterCurrent(es: seq<Entry>, s: nat, i: nat)
    requires Sorted(es) && Yields(es, s, i)
    ensures Skipping(es, s, i + 1, i, true, es[i].key.user)
  {
  }

  // Switching direction: the internal iterator has just moved off the entry
  // before the current key.
  lemma StartAfterSaved(es: seq<Entry>, s: nat, pos: nat, i: nat, key: UserKey, value: Bytes)
    requires Sorted(es) && Yields(es, s, i) && BeforeKey(es, s, pos, i, key, value)
    ensures var next := if pos < |es| then pos + 1 else 0;
      next < |es| && Skipping(es, s, i + 1, next, true, key)
  {
    var next := if pos < |es| then pos + 1 else 0;
    assert next <= i;
    forall a, b | 0 <= a < next <= b < |es| && es[a].key.sequence <= s && es[a].key.user == es[b].key.user
      ensures es[a].key.user <= key
    {
      UsersAscend(es, a, pos);
    }
  }

  lemma StartAtSeek(es: seq<Entry>, s: SequenceNumber, target: UserKey, pos: nat, key: UserKey)
    requires Sorted(es) && IsSeekPosition(es, LookupKey(target, s), pos)
    ensures Skipping(es, s, pos, pos, false, key)
    ensures forall i :: 0 <= i < |es| && Yields(es, s, i) ==> (i >= pos <==> es[i].key.user >= target)
  {
    forall i, j | 0 <= i < pos <= j < |es| && es[i].key.sequence <= s ensures es[i].key.user != es[j].key.user {
      assert Less(es[i].key, LookupKey(target, s)) && !Less(es[j].key, LookupKey(target, s));
    }
    forall i | 0 <= i < |es| && Yields(es, s, i) ensures i >= pos <==> es[i].key.user >= target {
      if i < pos { assert Less(es[i].key, LookupKey(target, s)); }
    }
  }

  // ----- moving backward ----------------------------------------------------------------------

  // The search for the last entry before hi that yields has looked at all from
  // pos on; m is the entry it would save, if it is a value.
  ghost predicate Backing(es: seq<Entry>, s: nat, hi: nat, pos: nat, found: Option<nat>) {
    && pos <= hi <= |es|
    && match found
       case None => NoneYield(es, s, pos, hi)
       case Some(m) =>
         && pos <= m < hi && es[m].key.sequence <= s && es[m].key.typ.TypeValue?
         && NoneYield(es, s, m + 1, hi)
         && forall j :: pos <= j < m ==> es[j].key.sequence > s
  }

  // pos is one past the entry looked at next.
  lemma BackOne(es: seq<Entry>, s: nat, hi: nat, pos: nat, found: Option<nat>)
    requires Sorted(es) && Backing(es, s, hi, pos, found) && pos > 0
    requires es[pos - 1].key.sequence <= s && found.Some? ==> es[pos - 1].key.user >= es[found.value].key.user
    ensures var e := es[pos - 1];
      var found' := if e.key.sequence > s then found else if e.key.typ.TypeDeletion? then None else Some(pos - 1);
      Backing(es, s, hi, pos - 1, found')
  {
    var e := es[pos - 1];
    if e.key.sequence <= s && found.Some? {
      UsersAscend(es, pos - 1, found.value);
      assert !Yields(es, s, found.value);
    }
  }

  lemma SavedYields(es: seq<Entry>, s: nat, hi: nat, pos: nat, m: nat)
    requires Sorted(es) && Backing(es, s, hi, pos, Some(m))
    requires pos > 0 ==> es[pos - 1].key.sequence <= s && es[pos - 1].key.user < es[m].key.user
    ensures Yields(es, s, m) && m < hi <= |es| && NoneYield(es, s, m + 1, hi)
  {
    forall j | 0 <= j < pos ensures es[j].key.user < es[m].key.user {
      UsersAscend(es, j, pos - 1);
    }
  }

  // ----- the iterator ------------------------------------------------------------------------------

  datatype Direction = Forward | Reverse

  // In reverse the key and value are saved and the internal iterator stands on
  // the nearest visible entry of a smaller key, or nowhere.
  ghost predicate BeforeKey(es: seq<Entry>, s: nat, pos: nat, i: nat, key: UserKey, value: Bytes) {
    && i < |es| && key == es[i].key.user && value == es[i].value
    && (pos < |es| ==> pos < i && es[pos].key.sequence <= s && es[pos].key.user < es[i].key.user)
    && forall j :: (if pos < |es| then pos + 1 else 0) <= j < i ==> es[j].key.sequence > s
  }

  class DBIter {
    // The merged internal iterator: a sorted run and a position in it, which is
    // |es| when the iterator is not valid.
    const es: seq<Entry>
    var pos: nat

    const sequence: SequenceNumber
    var direction: Direction
    var valid: bool
    var savedKey: UserKey
    var savedValue: Bytes

    // Index of the current key in the live list; its length when not valid
    ghost var cursor: nat

    ghost function Keys(): seq<nat> {
      Live(es, sequence, |es|)
    }

    // The key is in the list, with the value.
    ghost predicate Lists(k: UserKey, v: Bytes) {
      exists i :: i in Keys() && i < |es| && es[i].key.user == k && es[i].value == v
    }

    ghost predicate Invariant()
      reads this
    {
      && Sorted(es) && pos <= |es|
      && cursor <= |Keys()| && (valid <==> cursor < |Keys()|)
      && (valid ==> Yields(es, sequence, Keys()[cursor]))
      && (valid && direction.Forward? ==> pos == Keys()[cursor])
      && (valid && direction.Reverse? ==> BeforeKey(es, sequence, pos, Keys()[cursor], savedKey, savedValue))
    }

    constructor (es: seq<Entry>, sequence: SequenceNumber)
      requires Sorted(es)
      ensures Invariant() && !valid && this.es == es && this.sequence == sequence
    {
      this.es, this.sequence := es, sequence;
      pos, direction, valid := |es|, Forward, false;
      savedKey, savedValue := 0.0, [];
      cursor := |Live(es, sequence, |es|)|;
    }

    function Key(): (k: UserKey)
      requires Invariant() && valid
      reads this
      ensures k == es[Keys()[cursor]].key.user
    {
      if direction.Forward? then es[pos].key.user else savedKey
    }

    function Value(): (v: Bytes)
      requires Invariant() && valid
      reads this
      ensures v == es[Keys()[cursor]].value
    {
      if direction.Forward? then es[pos].value else savedValue
    }

    // Moves to the first entry from lo on that yields.
    method FindNextUserEntry(skipping0: bool, ghost lo: nat)
      requires Sorted(es) && pos < |es| && direction.Forward? && Skipping(es, sequence, lo, pos, skipping0, savedKey)
      modifies this
      ensures Invariant() && direction.Forward?
      ensures FirstKeyFrom(Keys(), cursor, lo)
    {
      hide Skipping, Sorted, Yields;
      var skipping := skipping0;
      while pos < |es|
        invariant pos <= |es| && direction.Forward? && Skipping(es, sequence, lo, pos, skipping, savedKey)
        decreases |es| - pos
      {
        var e := es[pos];
        if e.key.sequence <= sequence {
          match e.key.typ {
            case TypeDeletion =>
              // All upcoming entries of this key are hidden by the deletion.
              SkipOne(es, sequence, lo, pos, skipping, savedKey);
              savedKey := e.key.user;
              skipping := true;
            case TypeValue =>
              if skipping && e.key.user <= savedKey {
                SkipOne(es, sequence, lo, pos, skipping, savedKey);
              } else {
                StopHere(es, sequence, lo, pos, skipping, savedKey);
                cursor := FirstFrom(es, sequence, lo, pos);
                valid := true;
                return;
              }
          }
        } else {
          SkipOne(es, sequence, lo, pos, skipping, savedKey);
        }
        pos := pos + 1;
      }
      ReachedEnd(es, sequence, lo, pos, skipping, savedKey);
      cursor := FirstFrom(es, sequence, lo, |es|);
      valid := false;
    }

    // Moves to the last entry before hi that yields.
    method FindPrevUserEntry(ghost hi: nat)
      requires Sorted(es) && pos <= |es| && direction.Reverse?
      requires Backing(es, sequence, hi, if pos < |es| then pos + 1 else 0, None)
      modifies this
      ensures Invariant() && LastKeyBefore(Keys(), cursor, hi)
    {
      hide Backing, Sorted, Yields;
      var valueType := TypeDeletion;
      ghost var found: Option<nat> := None;
      while pos < |es|
        invariant pos <= |es| && direction.Reverse?
        invariant Backing(es, sequence, hi, if pos < |es| then pos + 1 else 0, found)
        invariant found.Some? <==> valueType.TypeValue?
        invariant found.Some? ==>
          found.value < |es| && savedKey == es[found.value].key.user && savedValue == es[found.value].value
        decreases if pos < |es| then pos + 1 else 0
      {
        var e := es[pos];
        if e.key.sequence <= sequence {
          if valueType.TypeValue? && e.key.user < savedKey {
            // A non-deleted value of an earlier key is saved.
            break;
          }
          BackOne(es, sequence, hi, pos + 1, found);
          valueType := e.key.typ;
          if valueType.TypeDeletion? {
            found := None;
          } else {
            savedKey, savedValue := e.key.user, e.value;
            found := Some(pos);
          }
        } else {
          BackOne(es, sequence, hi, pos + 1, found);
        }
        pos := if pos == 0 then |es| else pos - 1;
      }
      if valueType.TypeDeletion? {
        NothingSaved(es, sequence, hi, if pos < |es| then pos + 1 else 0);
        NoKeyBefore(es, sequence, hi);
        cursor := |Keys()|;
        valid := false;
        direction := Forward;
      } else {
        SavedYields(es, sequence, hi, if pos < |es| then pos + 1 else 0, found.value);
        SavedIsBeforeKey(es, sequence, hi, pos, found.value, savedKey, savedValue);
        cursor := LastBefore(es, sequence, found.value, hi);
        valid := true;
      }
    }

    // To the next key of the live list.
    method Next()
      requires Invariant() && valid
      modifies this
      ensures Invariant() && cursor == old(cursor) + 1
    {
      hide Skipping, Sorted, Yields, BeforeKey;
      ghost var i := Keys()[cursor];
      CurrentIsAscending(es, sequence, cursor);
      if direction.Reverse? {
        direction := Forward;
        StartAfterSaved(es, sequence, pos, i, savedKey, savedValue);
        pos := if pos >= |es| then 0 else pos + 1;
      } else {
        StartAfterCurrent(es, sequence, i);
        savedKey := es[pos].key.user;
      }
      FindNextUserEntry(true, i + 1);
      LiveMembers(es, sequence, |es|);
      NextOf(Keys(), old(cursor), cursor);
    }

    // To the previous key, or off the list from the first one.
    method Prev()
      requires Invariant() && valid
      modifies this
      ensures Invariant() && cursor == if old(cursor) == 0 then |Keys()| else old(cursor) - 1
    {
      hide Backing, Sorted, Yields, BeforeKey;
      ghost var i := Keys()[cursor];
      CurrentIsAscending(es, sequence, cursor);
      if direction.Forward? {
        savedKey := es[pos].key.user;
        pos := if pos == 0 then |es| else pos - 1;
        while pos < |es| && es[pos].key.user >= savedKey
          invariant pos <= |es| && savedKey == es[i].key.user && direction.Forward? && valid && cursor == old(cursor)
          invariant OnKey(es, if pos < |es| then pos + 1 else 0, i)
          decreases if pos < |es| then pos + 1 else 0
        {
          StillOnKey(es, pos, i);
          pos := if pos == 0 then |es| else pos - 1;
        }
        StartBeforeKey(es, sequence, if pos < |es| then pos + 1 else 0, i);
        if pos >= |es| {
          NothingSaved(es, sequence, i, 0);
          NoKeyBefore(es, sequence, i);
          LiveMembers(es, sequence, |es|);
          PrevOf(Keys(), cursor, |Keys()|);
          cursor := |Keys()|;
          valid := false;
          return;
        }
        direction := Reverse;
      } else {
        StartBeforeSaved(es, sequence, pos, i, savedKey, savedValue);
      }
      FindPrevUserEntry(i);
      LiveMembers(es, sequence, |es|);
      PrevOf(Keys(), old(cursor), cursor);
    }

    // To the first key not below target.
    method Seek(target: UserKey)
      requires Invariant()
      modifies this
      ensures Invariant()
      ensures forall c :: 0 <= c < |Keys()| && Keys()[c] < |es| ==> (c >= cursor <==> es[Keys()[c]].key.user >= target)
    {
      hide Skipping, Sorted, Yields;
      direction, savedValue := Forward, [];
      pos := SeekInternal(es, LookupKey(target, sequence));
      StartAtSeek(es, sequence, target, pos, savedKey);
      ghost var lo := pos;
      if pos < |es| {
        FindNextUserEntry(false, lo);
      } else {
        cursor := FirstFrom(es, sequence, lo, |es|);
        valid := false;
      }
      KeysYield(es, sequence);
    }

    method SeekToFirst()
      requires Invariant()
      modifies this
      ensures Invariant() && cursor == 0
    {
      hide Sorted, Yields;
      direction, savedValue := Forward, [];
      pos := 0;
      if pos < |es| {
        StartAtFirst(es, sequence, savedKey);
        FindNextUserEntry(false, 0);
        FirstOf(Keys(), cursor);
      } else {
        cursor := 0;
        valid := false;
      }
    }

    method SeekToLast()
      requires Invariant()
      modifies this
      ensures Invariant() && cursor == if |Keys()| == 0 then 0 else |Keys()| - 1
    {
      hide Sorted, Yields;
      direction, savedValue := Reverse, [];
      pos := if |es| == 0 then 0 else |es| - 1;
      KeysYield(es, sequence);
      FindPrevUserEntry(|es|);
      LastOf(Keys(), cursor, |es|);
    }
  }

  // cursor is the index of the first key at or after lo.
  ghost predicate FirstKeyFrom(keys: seq<nat>, cursor: nat, lo: nat) {
    && cursor <= |keys|
    && (forall d :: 0 <= d < cursor ==> keys[d] < lo)
    && (forall d :: cursor <= d < |keys| ==> keys[d] >= lo)
  }

  // cursor is the index of the last key before hi, or the end when there is none.
  ghost predicate LastKeyBefore(keys: seq<nat>, cursor: nat, hi: nat) {
    && cursor <= |keys|
    && (cursor < |keys| ==> keys[cursor] < hi && forall d :: cursor < d < |keys| ==> keys[d] >= hi)
    && (cursor == |keys| ==> forall d :: 0 <= d < |keys| ==> keys[d] >= hi)
  }

  lemma NextOf(keys: seq<nat>, c: nat, r: nat)
    requires Ascending(keys) && c < |keys| && FirstKeyFrom(keys, r, keys[c] + 1)
    ensures r == c + 1
  {
    if c + 1 < |keys| { assert keys[c + 1] > keys[c]; }
  }

  lemma PrevOf(keys: seq<nat>, c: nat, r: nat)
    requires Ascending(keys) && c < |keys| && LastKeyBefore(keys, r, keys[c])
    ensures r == if c == 0 then |keys| else c - 1
  {
    if c > 0 { assert keys[0] < keys[c] && keys[c - 1] < keys[c]; }
  }

  lemma FirstOf(keys: seq<nat>, r: nat)
    requires FirstKeyFrom(keys, r, 0)
    ensures r == 0
  {
    if |keys| > 0 { assert keys[0] >= 0; }
  }

  lemma LastOf(keys: seq<nat>, r: nat, n: nat)
    requires LastKeyBefore(keys, r, n) && forall d :: 0 <= d < |keys| ==> keys[d] < n
    ensures r == if |keys| == 0 then 0 else |keys| - 1
  {
    if |keys| > 0 { assert keys[0] < n && keys[|keys| - 1] < n; }
  }

  lemma NothingSaved(es: seq<Entry>, s: nat, hi: nat, pos: nat)
    requires Backing(es, s, hi, pos, None)
    ensures hi <= |es| && NoneYield(es, s, pos, hi)
  {
  }

  lemma NoKeyBefore(es: seq<Entry>, s: nat, hi: nat)
    requires hi <= |es| && NoneYield(es, s, 0, hi)
    ensures LastKeyBefore(Live(es, s, |es|), |Live(es, s, |es|)|, hi)
  {
    KeysYield(es, s);
  }

  lemma KeysYield(es: seq<Entry>, s: nat)
    ensures forall d :: 0 <= d < |Live(es, s, |es|)| ==>
      Live(es, s, |es|)[d] < |es| && Yields(es, s, Live(es, s, |es|)[d])
  {
    var live := Live(es, s, |es|);
    LiveMembers(es, s, |es|);
    forall d | 0 <= d < |live| ensures live[d] < |es| && Yields(es, s, live[d]) { assert live[d] in live; }
  }

  lemma CurrentIsAscending(es: seq<Entry>, s: nat, c: nat)
    requires c < |Live(es, s, |es|)|
    ensures var live := Live(es, s, |es|);
      && live[c] < |es|
      && (forall d :: 0 <= d < c ==> live[d] < live[c])
      && (forall d :: c < d < |live| ==> live[d] > live[c])
  {
    LiveMembers(es, s, |es|);
    KeysYield(es, s);
  }

  lemma SavedIsBeforeKey(es: seq<Entry>, s: nat, hi: nat, pos: nat, m: nat, key: UserKey, value: Bytes)
    requires Backing(es, s, hi, if pos < |es| then pos + 1 else 0, Some(m))
    requires m < |es| && key == es[m].key.user && value == es[m].value
    requires pos < |es| ==> es[pos].key.sequence <= s && es[pos].key.user < es[m].key.user
    ensures BeforeKey(es, s, pos, m, key, value)
  {
  }

  // The entries from n up to i have the user key of i.
  ghost predicate OnKey(es: seq<Entry>, n: nat, i: nat) {
    n <= i < |es| && forall j :: n <= j < i ==> es[j].key.user == es[i].key.user
  }

  lemma StillOnKey(es: seq<Entry>, pos: nat, i: nat)
    requires Sorted(es) && OnKey(es, pos + 1, i) && es[pos].key.user >= es[i].key.user
    ensures OnKey(es, pos, i)
  {
    UsersAscend(es, pos, i);
  }

  lemma StartBeforeKey(es: seq<Entry>, s: nat, n: nat, i: nat)
    requires Yields(es, s, i) && OnKey(es, n, i)
    ensures Backing(es, s, i, n, None)
  {
  }

  lemma StartBeforeSaved(es: seq<Entry>, s: nat, pos: nat, i: nat, key: UserKey, value: Bytes)
    requires BeforeKey(es, s, pos, i, key, value)
    ensures Backing(es, s, i, if pos < |es| then pos + 1 else 0, None)
  {
  }

  lemma StartAtFirst(es: seq<Entry>, s: nat, key: UserKey)
    ensures Skipping(es, s, 0, 0, false, key)
  {
  }

  // Seek of the merged internal iterator.
  method SeekInternal(es: seq<Entry>, target: InternalKey) returns (i: nat)
    requires Sorted(es)
    ensures IsSeekPosition(es, target, i)
  {
    i := 0;
    while i < |es| && Less(es[i].key, target)
      invariant 0 <= i <= |es|
      invariant forall j :: 0 <= j < i ==> Less(es[j].key, target)
    {
      i := i + 1;
    }
    forall j | i <= j < |es| ensures !Less(es[j].key, target) {
      assert i < j ==> Less(es[i].key, es[j].key);
    }
  }
}
