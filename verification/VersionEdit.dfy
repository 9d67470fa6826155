/**
 Version edits and the bytes of a manifest record (db/version_edit.h,
 db/version_edit.cc): decoding any bytes, and encoding an edit so that decoding
 gives it back.
 */
module VersionEdits {
  import opened Basics
  import opened Coding
  import opened Tables

  // What a manifest record changes.  Keys and files are bytes in a record, and
  // what they stand for in the store.
  datatype Edit<K, F> = Edit(
    comparator: Option<Bytes>,
    logNumber: Option<nat>,
    prevLogNumber: Option<nat>,
    nextFile: Option<nat>,
    lastSequence: Option<nat>,
    compactPointers: seq<(nat, K)>,
    deleted: set<(nat, nat)>,
    added: seq<(nat, F)>)

  function NoEdit<K, F>(): Edit<K, F> {
    Edit(None, None, None, None, None, [], {}, [])
  }

  datatype FileMeta = FileMeta(number: nat, size: nat, smallest: Bytes, largest: Bytes)

  type EditRecord = Edit<Bytes, FileMeta>

  // ----- the numbers that a list of edits sets last --------------------------------------

  datatype Numbers = Numbers(
    logNumber: Option<nat>,
    prevLogNumber: Option<nat>,
    nextFile: Option<nat>,
    lastSequence: Option<nat>)

  function Later(a: Option<nat>, b: Option<nat>): Option<nat> {
    if b.Some? then b else a
  }

  function NumbersAfter<K, F>(n: Numbers, e: Edit<K, F>): Numbers {
    Numbers(Later(n.logNumber, e.logNumber), Later(n.prevLogNumber, e.prevLogNumber),
            Later(n.nextFile, e.nextFile), Later(n.lastSequence, e.lastSequence))
  }

  function NumbersOf<K, F>(edits: seq<Edit<K, F>>): Numbers {
    if edits == [] then Numbers(None, None, None, None)
    else NumbersAfter(NumbersOf(edits[..|edits| - 1]), edits[|edits| - 1])
  }

  ghost predicate IsLastSet(r: Option<nat>, all: seq<Option<nat>>) {
    if r.None? then forall i :: 0 <= i < |all| ==> all[i].None?
    else exists i :: 0 <= i < |all| && all[i] == r && forall j :: i < j < |all| ==> all[j].None?
  }

  lemma LaterIsLastSet(r: Option<nat>, all: seq<Option<nat>>, x: Option<nat>)
    requires IsLastSet(r, all)
    ensures IsLastSet(Later(r, x), all + [x])
  {
    var longer := all + [x];
    if x.Some? {
      assert longer[|all|] == x;
    } else if r.Some? {
      var i :| 0 <= i < |all| && all[i] == r && forall j :: i < j < |all| ==> all[j].None?;
      assert longer[i] == r;
    }
  }

  // Every number is the one of the last edit that has it.
  lemma {:induction false} NumbersAreLastSet<K, F>(edits: seq<Edit<K, F>>)
    ensures IsLastSet(NumbersOf(edits).logNumber, seq(|edits|, i requires 0 <= i < |edits| => edits[i].logNumber))
    ensures IsLastSet(NumbersOf(edits).prevLogNumber,
      seq(|edits|, i requires 0 <= i < |edits| => edits[i].prevLogNumber))
    ensures IsLastSet(NumbersOf(edits).nextFile, seq(|edits|, i requires 0 <= i < |edits| => edits[i].nextFile))
    ensures IsLastSet(NumbersOf(edits).lastSequence, seq(|edits|, i requires 0 <= i < |edits| => edits[i].lastSequence))
  {
    var logs := seq(|edits|, i requires 0 <= i < |edits| => edits[i].logNumber);
    var prevs := seq(|edits|, i requires 0 <= i < |edits| => edits[i].prevLogNumber);
    var nexts := seq(|edits|, i requires 0 <= i < |edits| => edits[i].nextFile);
    var lasts := seq(|edits|, i requires 0 <= i < |edits| => edits[i].lastSequence);
    if edits != [] {
      var n := |edits| - 1;
      var front, e := edits[..n], edits[n];
      NumbersAreLastSet(front);
      var before := NumbersOf(front);
      assert logs[..n] == seq(n, i requires 0 <= i < n => front[i].logNumber) && logs == logs[..n] + [e.logNumber];
      assert prevs[..n] == seq(n, i requires 0 <= i < n => front[i].prevLogNumber) &&
        prevs == prevs[..n] + [e.prevLogNumber];
      assert nexts[..n] == seq(n, i requires 0 <= i < n => front[i].nextFile) && nexts == nexts[..n] + [e.nextFile];
      assert lasts[..n] == seq(n, i requires 0 <= i < n => front[i].lastSequence) &&
        lasts == lasts[..n] + [e.lastSequence];
      hide IsLastSet;
      LaterIsLastSet(before.logNumber, logs[..n], e.logNumber);
      LaterIsLastSet(before.prevLogNumber, prevs[..n], e.prevLogNumber);
      LaterIsLastSet(before.nextFile, nexts[..n], e.nextFile);
      LaterIsLastSet(before.lastSequence, lasts[..n], e.lastSequence);
    }
  }

  // ----- the items of a record --------------------------------------------------------

  // One tag and what follows it.
  datatype Item =
    | Comparator(name: Bytes)
    | LogNumber(number: nat)
    | PrevLogNumber(number: nat)
    | NextFileNumber(number: nat)
    | LastSequence(number: nat)
    | CompactPointer(level: nat, key: Bytes)
    | DeletedFile(level: nat, number: nat)
    | NewFile(level: nat, file: FileMeta)

  const COMPARATOR: nat := 1
  const LOG_NUMBER: nat := 2
  const NEXT_FILE_NUMBER: nat := 3
  const LAST_SEQUENCE: nat := 4
  const COMPACT_POINTER: nat := 5
  const DELETED_FILE: nat := 6
  const NEW_FILE: nat := 7
  const PREV_LOG_NUMBER: nat := 9

  function TagOf(item: Item): (tag: nat)
    ensures tag < 128
  {
    match item
    case Comparator(_) => COMPARATOR
    case LogNumber(_) => LOG_NUMBER
    case PrevLogNumber(_) => PREV_LOG_NUMBER
    case NextFileNumber(_) => NEXT_FILE_NUMBER
    case LastSequence(_) => LAST_SEQUENCE
    case CompactPointer(_, _) => COMPACT_POINTER
    case DeletedFile(_, _) => DELETED_FILE
    case NewFile(_, _) => NEW_FILE
  }

  // Setting a field, or adding to one.
  function Put(e: EditRecord, item: Item): EditRecord {
    match item
    case Comparator(name) => e.(comparator := Some(name))
    case LogNumber(n) => e.(logNumber := Some(n))
    case PrevLogNumber(n) => e.(prevLogNumber := Some(n))
    case NextFileNumber(n) => e.(nextFile := Some(n))
    case LastSequence(n) => e.(lastSequence := Some(n))
    case CompactPointer(level, key) => e.(compactPointers := e.compactPointers + [(level, key)])
    case DeletedFile(level, n) => e.(deleted := e.deleted + {(level, n)})
    case NewFile(level, file) => e.(added := e.added + [(level, file)])
  }

  function PutAll(e: EditRecord, items: seq<Item>): EditRecord {
    if items == [] then e else Put(PutAll(e, items[..|items| - 1]), items[|items| - 1])
  }

  // ----- encoding -----------------------------------------------------------------------

  function Body(item: Item): Bytes {
    match item
    case Comparator(name) => Prefixed(name)
    case LogNumber(n) => PutVarint64(n)
    case PrevLogNumber(n) => PutVarint64(n)
    case NextFileNumber(n) => PutVarint64(n)
    case LastSequence(n) => PutVarint64(n)
    case CompactPointer(level, key) => PutVarint32(level) + Prefixed(key)
    case DeletedFile(level, n) => PutVarint32(level) + PutVarint64(n)
    case NewFile(level, f) =>
      PutVarint32(level)
      + (PutVarint64(f.number) + (PutVarint64(f.size) + (Prefixed(f.smallest) + Prefixed(f.largest))))
  }

  function EncodeItem(item: Item): Bytes {
    PutVarint32(TagOf(item)) + Body(item)
  }

  function EncodeItems(items: seq<Item>): Bytes {
    if items == [] then [] else EncodeItems(items[..|items| - 1]) + EncodeItem(items[|items| - 1])
  }

  // The order of std::set<std::pair<int, uint64_t>>.
  predicate PairBefore(p: (nat, nat), q: (nat, nat)) {
    p.0 < q.0 || (p.0 == q.0 && p.1 < q.1)
  }

  predicate IsFirst(S: set<(nat, nat)>, p: (nat, nat)) {
    p in S && forall q :: q in S && q != p ==> PairBefore(p, q)
  }

  lemma {:induction false} FirstExists(S: set<(nat, nat)>)
    requires S != {}
    ensures exists p :: IsFirst(S, p)
  {
    var p :| p in S;
    if S == {p} {
      assert IsFirst(S, p);
    } else {
      FirstExists(S - {p});
      var q :| IsFirst(S - {p}, q);
      var first := if PairBefore(p, q) then p else q;
      forall r | r in S && r != first ensures PairBefore(first, r) {
        if r != p && r != q { assert PairBefore(q, r); }
      }
      assert IsFirst(S, first);
    }
  }

  // The members of a set in order.
  ghost function Ordered(S: set<(nat, nat)>): seq<(nat, nat)> {
    if S == {} then []
    else
      FirstExists(S);
      var p :| IsFirst(S, p);
      [p] + Ordered(S - {p})
  }

  lemma FirstIsUnique(S: set<(nat, nat)>, p: (nat, nat), q: (nat, nat))
    requires IsFirst(S, p) && IsFirst(S, q)
    ensures p == q
  {
    assert p != q ==> PairBefore(p, q) && PairBefore(q, p);
  }

  lemma OrderedStep(S: set<(nat, nat)>, p: (nat, nat))
    requires IsFirst(S, p)
    ensures Ordered(S) == [p] + Ordered(S - {p})
  {
    FirstExists(S);
    var q :| IsFirst(S, q) && Ordered(S) == [q] + Ordered(S - {q});
    FirstIsUnique(S, p, q);
  }

  // The fields that are set, in the order they are written in.
  function FieldItems(e: EditRecord): seq<Item> {
    (if e.comparator.Some? then [Comparator(e.comparator.value)] else [])
    + (if e.logNumber.Some? then [LogNumber(e.logNumber.value)] else [])
    + (if e.prevLogNumber.Some? then [PrevLogNumber(e.prevLogNumber.value)] else [])
    + (if e.nextFile.Some? then [NextFileNumber(e.nextFile.value)] else [])
    + (if e.lastSequence.Some? then [LastSequence(e.lastSequence.value)] else [])
  }

  function PointerItems(ps: seq<(nat, Bytes)>): seq<Item> {
    seq(|ps|, i requires 0 <= i < |ps| => CompactPointer(ps[i].0, ps[i].1))
  }

  function DeletedItems(ps: seq<(nat, nat)>): seq<Item> {
    seq(|ps|, i requires 0 <= i < |ps| => DeletedFile(ps[i].0, ps[i].1))
  }

  function NewItems(ps: seq<(nat, FileMeta)>): seq<Item> {
    seq(|ps|, i requires 0 <= i < |ps| => NewFile(ps[i].0, ps[i].1))
  }

  ghost function Items(e: EditRecord): seq<Item> {
    FieldItems(e) + PointerItems(e.compactPointers) + DeletedItems(Ordered(e.deleted)) + NewItems(e.added)
  }

  // VersionEdit::EncodeTo.
  ghost function EncodeEdit(e: EditRecord): Bytes {
    EncodeItems(Items(e))
  }

  // ----- decoding ----------------------------------------------------------------------------

  function GetLevel(data: Bytes, p: nat): (r: Option<(nat, nat)>)
    ensures r.Some? ==> p < r.value.1 <= |data| && r.value.0 < NUM_LEVELS
  {
    var v := GetVarint32(data, p, |data|);
    if v.Some? && v.value.0 < NUM_LEVELS then v else None
  }

  function GetNumber(data: Bytes, p: nat, item: nat -> Item): (r: Option<(Item, nat)>)
    ensures r.Some? ==> p < r.value.1 <= |data|
    ensures r.Some? ==> GetVarint64(data, p, |data|).Some? && r.value.0 == item(GetVarint64(data, p, |data|).value.0)
  {
    var n := GetVarint64(data, p, |data|);
    if n.None? then None else Some((item(n.value.0), n.value.1))
  }

  function GetNewFile(data: Bytes, p: nat): (r: Option<(Item, nat)>)
    ensures r.Some? ==> p < r.value.1 <= |data| && r.value.0.NewFile? && ItemFits(r.value.0)
  {
    var level := GetLevel(data, p);
    if level.None? then None else
    var number := GetVarint64(data, level.value.1, |data|);
    if number.None? then None else
    var size := GetVarint64(data, number.value.1, |data|);
    if size.None? then None else
    var smallest := GetSlice(data, size.value.1);
    if smallest.None? then None else
    var largest := GetSlice(data, smallest.value.1);
    if largest.None? then None else
    Some((NewFile(level.value.0, FileMeta(number.value.0, size.value.0, smallest.value.0, largest.value.0)),
      largest.value.1))
  }

  predicate KnownTag(tag: nat) {
    1 <= tag <= 7 || tag == 9
  }

  // What follows a tag.
  function GetBody(tag: nat, data: Bytes, p: nat): (r: Option<(Item, nat)>)
    requires KnownTag(tag)
    ensures r.Some? ==> p < r.value.1 <= |data| && TagOf(r.value.0) == tag && ItemFits(r.value.0)
  {
    if tag == COMPARATOR then
      var name := GetSlice(data, p);
      if name.None? then None else Some((Comparator(name.value.0), name.value.1))
    else if tag == LOG_NUMBER then GetNumber(data, p, (n: nat) => LogNumber(n))
    else if tag == PREV_LOG_NUMBER then GetNumber(data, p, (n: nat) => PrevLogNumber(n))
    else if tag == NEXT_FILE_NUMBER then GetNumber(data, p, (n: nat) => NextFileNumber(n))
    else if tag == LAST_SEQUENCE then GetNumber(data, p, (n: nat) => LastSequence(n))
    else if tag == NEW_FILE then GetNewFile(data, p)
    else
      var level := GetLevel(data, p);
      if level.None? then None
      else if tag == COMPACT_POINTER then
        var key := GetSlice(data, level.value.1);
        if key.None? then None else Some((CompactPointer(level.value.0, key.value.0), key.value.1))
      else
        var number := GetVarint64(data, level.value.1, |data|);
        if number.None? then None else Some((DeletedFile(level.value.0, number.value.0), number.value.1))
  }

  // The message of an item that cannot be read.
  function Problem(tag: nat): string {
    if tag == COMPARATOR then "comparator name"
    else if tag == LOG_NUMBER then "log number"
    else if tag == PREV_LOG_NUMBER then "previous log number"
    else if tag == NEXT_FILE_NUMBER then "next file number"
    else if tag == LAST_SEQUENCE then "last sequence number"
    else if tag == COMPACT_POINTER then "compaction pointer"
    else if tag == DELETED_FILE then "deleted file"
    else if tag == NEW_FILE then "new-file entry"
    else "unknown tag"
  }

  datatype Decoded = Ok(edit: EditRecord) | Corruption(message: string)

  // The loop of VersionEdit::DecodeFrom, from position p on.
  function DecodeRest(data: Bytes, p: nat, e: EditRecord): (r: Decoded)
    requires p <= |data|
    decreases |data| - p
  {
    var tag := GetVarint32(data, p, |data|);
    if tag.None? then
      if p == |data| then Ok(e) else Corruption("invalid tag")
    else if !KnownTag(tag.value.0) then Corruption("unknown tag")
    else
      var item := GetBody(tag.value.0, data, tag.value.1);
      if item.None? then Corruption(Problem(tag.value.0)) else DecodeRest(data, item.value.1, Put(e, item.value.0))
  }

  function DecodeEdit(data: Bytes): Decoded {
    DecodeRest(data, 0, NoEdit())
  }

  // ----- what can be encoded ---------------------------------------------------------------------

  predicate ItemFits(item: Item) {
    match item
    case Comparator(name) => |name| < LIMIT32
    case LogNumber(n) => n < LIMIT64
    case PrevLogNumber(n) => n < LIMIT64
    case NextFileNumber(n) => n < LIMIT64
    case LastSequence(n) => n < LIMIT64
    case CompactPointer(level, key) => level < NUM_LEVELS && |key| < LIMIT32
    case DeletedFile(level, n) => level < NUM_LEVELS && n < LIMIT64
    case NewFile(level, f) =>
      level < NUM_LEVELS && f.number < LIMIT64 && f.size < LIMIT64 && |f.smallest| < LIMIT32 && |f.largest| < LIMIT32
  }

  predicate NumberFits(n: Option<nat>) { n.Some? ==> n.value < LIMIT64 }

  // Levels exist, numbers have 64 bits, and sizes of names and keys 32.
  predicate Fits(e: EditRecord) {
    && (e.comparator.Some? ==> |e.comparator.value| < LIMIT32)
    && NumberFits(e.logNumber) && NumberFits(e.prevLogNumber) && NumberFits(e.nextFile) && NumberFits(e.lastSequence)
    && (forall i :: 0 <= i < |e.compactPointers| ==>
       ItemFits(CompactPointer(e.compactPointers[i].0, e.compactPointers[i].1)))
    && (forall p :: p in e.deleted ==> ItemFits(DeletedFile(p.0, p.1)))
    && (forall i :: 0 <= i < |e.added| ==> ItemFits(NewFile(e.added[i].0, e.added[i].1)))
  }

  lemma PutFits(e: EditRecord, item: Item)
    requires Fits(e) && ItemFits(item)
    ensures Fits(Put(e, item))
  {
  }

  // Whatever is decoded fits.
  lemma {:induction false} DecodedFits(data: Bytes, p: nat, e: EditRecord)
    requires p <= |data| && Fits(e)
    ensures DecodeRest(data, p, e).Ok? ==> Fits(DecodeRest(data, p, e).edit)
    decreases |data| - p
  {
    hide Fits, ItemFits, GetBody, GetVarint32, Put;
    var tag := GetVarint32(data, p, |data|);
    if tag.Some? && KnownTag(tag.value.0) {
      var item := GetBody(tag.value.0, data, tag.value.1);
      if item.Some? {
        PutFits(e, item.value.0);
        DecodedFits(data, item.value.1, Put(e, item.value.0));
      }
    }
  }

  // ----- the round trip -----------------------------------------------------------------------------

  lemma LevelIs(data: Bytes, p: nat, level: nat)
    requires level < NUM_LEVELS && Holds(data, p, PutVarint32(level))
    ensures GetLevel(data, p) == Some((level, p + |PutVarint32(level)|))
  {
    hide PutVarint32, GetVarint32;
    Varint32Is(data, p, level);
  }

  lemma NewFileIs(data: Bytes, p: nat, item: Item)
    requires item.NewFile? && ItemFits(item) && Holds(data, p, Body(item))
    ensures GetNewFile(data, p) == Some((item, p + |Body(item)|))
  {
    hide PutVarint32, PutVarint64, Prefixed, GetLevel, GetVarint64, GetSlice, Holds;
    var f := item.file;
    var level, number, size := PutVarint32(item.level), PutVarint64(f.number), PutVarint64(f.size);
    var smallest, largest := Prefixed(f.smallest), Prefixed(f.largest);
    HoldsParts(data, p, level, number + (size + (smallest + largest)));
    LevelIs(data, p, item.level);
    var q := p + |level|;
    HoldsParts(data, q, number, size + (smallest + largest));
    Varint64Is(data, q, f.number);
    HoldsParts(data, q + |number|, size, smallest + largest);
    Varint64Is(data, q + |number|, f.size);
    HoldsParts(data, q + |number| + |size|, smallest, largest);
    SliceIs(data, q + |number| + |size|, f.smallest);
    SliceIs(data, q + |number| + |size| + |smallest|, f.largest);
  }

  lemma NumberIs(data: Bytes, p: nat, item: Item)
    requires item.LogNumber? || item.PrevLogNumber? || item.NextFileNumber? || item.LastSequence?
    requires ItemFits(item) && Holds(data, p, Body(item))
    ensures GetBody(TagOf(item), data, p) == Some((item, p + |Body(item)|))
  {
    hide PutVarint64, GetVarint64, Holds;
    Varint64Is(data, p, item.number);
  }

  lemma LeveledIs(data: Bytes, p: nat, item: Item)
    requires item.CompactPointer? || item.DeletedFile?
    requires ItemFits(item) && Holds(data, p, Body(item))
    ensures GetBody(TagOf(item), data, p) == Some((item, p + |Body(item)|))
  {
    hide PutVarint32, PutVarint64, Prefixed, GetLevel, GetVarint64, GetSlice, Holds;
    var level := PutVarint32(item.level);
    if item.CompactPointer? {
      HoldsParts(data, p, level, Prefixed(item.key));
      LevelIs(data, p, item.level);
      SliceIs(data, p + |level|, item.key);
    } else {
      HoldsParts(data, p, level, PutVarint64(item.number));
      LevelIs(data, p, item.level);
      Varint64Is(data, p + |level|, item.number);
    }
  }

  lemma BodyIs(data: Bytes, p: nat, item: Item)
    requires ItemFits(item) && Holds(data, p, Body(item))
    ensures GetBody(TagOf(item), data, p) == Some((item, p + |Body(item)|))
  {
    hide Prefixed, GetSlice, GetLevel, GetVarint64, GetNewFile, Holds;
    match item
    case Comparator(name) => SliceIs(data, p, name);
    case NewFile(_, _) => NewFileIs(data, p, item);
    case CompactPointer(_, _) => LeveledIs(data, p, item);
    case DeletedFile(_, _) => LeveledIs(data, p, item);
    case _ => NumberIs(data, p, item);
  }

  // One turn of the decoding loop reads one item.
  lemma ItemIs(data: Bytes, p: nat, item: Item, e: EditRecord)
    requires ItemFits(item) && Holds(data, p, EncodeItem(item))
    ensures p + |EncodeItem(item)| <= |data|
    ensures DecodeRest(data, p, e) == DecodeRest(data, p + |EncodeItem(item)|, Put(e, item))
  {
    hide PutVarint32, Body, GetBody, ItemFits, Put, Holds;
    HoldsParts(data, p, PutVarint32(TagOf(item)), Body(item));
    HoldsInside(data, p, EncodeItem(item));
    Varint32Is(data, p, TagOf(item));
    BodyIs(data, p + |PutVarint32(TagOf(item))|, item);
    hide GetVarint32;
  }

  predicate ItemsFit(items: seq<Item>) {
    forall i :: 0 <= i < |items| ==> ItemFits(items[i])
  }

  lemma {:induction false} ItemsAre(data: Bytes, items: seq<Item>)
    requires ItemsFit(items) && Holds(data, 0, EncodeItems(items))
    ensures DecodeRest(data, 0, NoEdit()) == DecodeRest(data, |EncodeItems(items)|, PutAll(NoEdit(), items))
  {
    hide EncodeItem, DecodeRest, Put, Holds, ItemFits;
    HoldsInside(data, 0, EncodeItems(items));
    if items != [] {
      var n := |items| - 1;
      var front := EncodeItems(items[..n]);
      HoldsParts(data, 0, front, EncodeItem(items[n]));
      ItemsAre(data, items[..n]);
      ItemIs(data, |front|, items[n], PutAll(NoEdit(), items[..n]));
    }
  }

  // ----- the items give the edit back ---------------------------------------------------------------

  lemma {:induction false} PutConcat(e: EditRecord, a: seq<Item>, b: seq<Item>)
    ensures PutAll(e, a + b) == PutAll(PutAll(e, a), b)
  {
    if b == [] {
      assert a + b == a;
    } else {
      var n := |b| - 1;
      PutConcat(e, a, b[..n]);
      assert (a + b)[..|a + b| - 1] == a + b[..n];
      hide Put;
    }
  }

  lemma {:induction false} PutPointers(e: EditRecord, ps: seq<(nat, Bytes)>)
    ensures PutAll(e, PointerItems(ps)) == e.(compactPointers := e.compactPointers + ps)
  {
    if ps == [] {
      assert e.compactPointers + ps == e.compactPointers;
    } else {
      var n := |ps| - 1;
      PutPointers(e, ps[..n]);
      assert PointerItems(ps)[..n] == PointerItems(ps[..n]) && ps == ps[..n] + [ps[n]];
    }
  }

  ghost function Members(ps: seq<(nat, nat)>): set<(nat, nat)> {
    set p | p in ps
  }

  lemma OneMember(ps: seq<(nat, nat)>, p: (nat, nat))
    ensures Members(ps + [p]) == Members(ps) + {p} && Members([p] + ps) == {p} + Members(ps)
  {
  }

  lemma {:induction false} PutDeleted(e: EditRecord, ps: seq<(nat, nat)>)
    ensures PutAll(e, DeletedItems(ps)) == e.(deleted := e.deleted + Members(ps))
  {
    if ps == [] {
      assert e.deleted + Members(ps) == e.deleted;
    } else {
      var n := |ps| - 1;
      PutDeleted(e, ps[..n]);
      assert DeletedItems(ps)[..n] == DeletedItems(ps[..n]) && ps == ps[..n] + [ps[n]];
      OneMember(ps[..n], ps[n]);
      hide Members;
      assert e.deleted + Members(ps[..n]) + {ps[n]} == e.deleted + Members(ps);
    }
  }

  lemma {:induction false} PutNew(e: EditRecord, ps: seq<(nat, FileMeta)>)
    ensures PutAll(e, NewItems(ps)) == e.(added := e.added + ps)
  {
    if ps == [] {
      assert e.added + ps == e.added;
    } else {
      var n := |ps| - 1;
      PutNew(e, ps[..n]);
      assert NewItems(ps)[..n] == NewItems(ps[..n]) && ps == ps[..n] + [ps[n]];
    }
  }

  lemma {:induction false} OrderedMembers(S: set<(nat, nat)>)
    ensures Members(Ordered(S)) == S
    ensures forall i, j :: 0 <= i < j < |Ordered(S)| ==> PairBefore(Ordered(S)[i], Ordered(S)[j])
  {
    if S != {} {
      FirstExists(S);
      var p :| IsFirst(S, p);
      OrderedStep(S, p);
      OrderedMembers(S - {p});
      var rest := Ordered(S - {p});
      OneMember(rest, p);
      FirstBeforeRest(S, p, rest);
      hide PairBefore, Ordered, Members;
      assert {p} + (S - {p}) == S;
    }
  }

  lemma FirstBeforeRest(S: set<(nat, nat)>, p: (nat, nat), rest: seq<(nat, nat)>)
    requires IsFirst(S, p) && Members(rest) == S - {p}
    ensures p in S && forall i :: 0 <= i < |rest| ==> PairBefore(p, rest[i])
  {
    forall i | 0 <= i < |rest| ensures PairBefore(p, rest[i]) {
      assert rest[i] in Members(rest);
    }
  }

  lemma PutField(e: EditRecord, field: seq<Item>)
    requires |field| <= 1
    ensures PutAll(e, field) == if field == [] then e else Put(e, field[0])
  {
    if field != [] { assert field[..0] == []; }
    hide Put;
  }

  lemma PutFields(e: EditRecord)
    ensures PutAll(NoEdit(), FieldItems(e))
      == Edit(e.comparator, e.logNumber, e.prevLogNumber, e.nextFile, e.lastSequence, [], {}, [])
  {
    hide PutAll;
    var a: seq<Item> := if e.comparator.Some? then [Comparator(e.comparator.value)] else [];
    var b: seq<Item> := if e.logNumber.Some? then [LogNumber(e.logNumber.value)] else [];
    var c: seq<Item> := if e.prevLogNumber.Some? then [PrevLogNumber(e.prevLogNumber.value)] else [];
    var d: seq<Item> := if e.nextFile.Some? then [NextFileNumber(e.nextFile.value)] else [];
    var f: seq<Item> := if e.lastSequence.Some? then [LastSequence(e.lastSequence.value)] else [];
    PutConcat(NoEdit(), a + b + c + d, f);
    PutConcat(NoEdit(), a + b + c, d);
    PutConcat(NoEdit(), a + b, c);
    PutConcat(NoEdit(), a, b);
    PutField(NoEdit(), a);
    PutField(PutAll(NoEdit(), a), b);
    PutField(PutAll(NoEdit(), a + b), c);
    PutField(PutAll(NoEdit(), a + b + c), d);
    PutField(PutAll(NoEdit(), a + b + c + d), f);
  }

  lemma ItemsGiveEdit(e: EditRecord)
    ensures PutAll(NoEdit(), Items(e)) == e
  {
    hide PutAll, FieldItems, PointerItems, DeletedItems, NewItems, Ordered;
    var fields, pointers := FieldItems(e), PointerItems(e.compactPointers);
    var deleted, added := DeletedItems(Ordered(e.deleted)), NewItems(e.added);
    PutConcat(NoEdit(), fields + pointers + deleted, added);
    PutConcat(NoEdit(), fields + pointers, deleted);
    PutConcat(NoEdit(), fields, pointers);
    PutFields(e);
    var e1 := PutAll(NoEdit(), fields);
    PutPointers(e1, e.compactPointers);
    OrderedMembers(e.deleted);
    PutDeleted(PutAll(e1, pointers), Ordered(e.deleted));
    PutNew(PutAll(PutAll(e1, pointers), deleted), e.added);
    assert [] + e.compactPointers == e.compactPointers && {} + e.deleted == e.deleted && [] + e.added == e.added;
  }

  lemma ItemsOfFitting(e: EditRecord)
    requires Fits(e)
    ensures ItemsFit(Items(e))
  {
    OrderedMembers(e.deleted);
    hide Ordered;
    var deleted := Ordered(e.deleted);
    forall i | 0 <= i < |deleted| ensures ItemFits(DeletedFile(deleted[i].0, deleted[i].1)) {
      assert deleted[i] in Members(deleted);
    }
    AllFit(FieldItems(e), PointerItems(e.compactPointers));
    AllFit(FieldItems(e) + PointerItems(e.compactPointers), DeletedItems(deleted));
    AllFit(FieldItems(e) + PointerItems(e.compactPointers) + DeletedItems(deleted), NewItems(e.added));
  }

  lemma AllFit(a: seq<Item>, b: seq<Item>)
    ensures ItemsFit(a) && ItemsFit(b) ==> ItemsFit(a + b)
  {
  }

  // An edit is read back from its encoding if and only if it fits.
  lemma EditRoundTrips(e: EditRecord)
    ensures DecodeEdit(EncodeEdit(e)) == Ok(e) <==> Fits(e)
  {
    hide DecodeRest, Items, Fits, ItemFits;
    var data := EncodeEdit(e);
    if Fits(e) {
      ItemsOfFitting(e);
      WholeHolds(data);
      ItemsAre(data, Items(e));
      ItemsGiveEdit(e);
      AtTheEnd(data, e);
    } else {
      NothingFits();
      DecodedFits(data, 0, NoEdit());
    }
  }

  lemma NothingFits()
    ensures Fits(NoEdit())
  {
  }

  lemma AtTheEnd(data: Bytes, e: EditRecord)
    ensures DecodeRest(data, |data|, e) == Ok(e)
  {
  }

  // After any edit, a tag that is not known makes decoding fail.
  lemma UnknownTagFails(e: EditRecord, tag: nat, rest: Bytes)
    requires Fits(e) && tag < LIMIT32 && !KnownTag(tag)
    ensures DecodeEdit(EncodeEdit(e) + PutVarint32(tag) + rest) == Corruption("unknown tag")
  {
    hide Items, Fits, ItemFits, PutVarint32, GetVarint32;
    var data := EncodeEdit(e) + PutVarint32(tag) + rest;
    assert Holds(data, 0, EncodeEdit(e)) && Holds(data, |EncodeEdit(e)|, PutVarint32(tag));
    hide Holds;
    ItemsOfFitting(e);
    ItemsAre(data, Items(e));
    Varint32Is(data, |EncodeEdit(e)|, tag);
  }

  // ----- the loops -------------------------------------------------------------------------

  lemma OneMore(items: seq<Item>, item: Item)
    ensures EncodeItems(items + [item]) == EncodeItems(items) + EncodeItem(item)
  {
    assert (items + [item])[..|items|] == items;
    hide EncodeItem;
  }

  lemma ManyMore(items: seq<Item>, more: seq<Item>, i: nat)
    requires i < |more|
    ensures EncodeItems(items + more[..i + 1]) == EncodeItems(items + more[..i]) + EncodeItem(more[i])
  {
    hide EncodeItem, EncodeItems;
    assert items + more[..i + 1] == (items + more[..i]) + [more[i]];
    OneMore(items + more[..i], more[i]);
  }

  // Appends a field if it is set.
  method EncodeField(dst0: Bytes, isSet: bool, item: Item, ghost items: seq<Item>) returns (dst: Bytes)
    requires dst0 == EncodeItems(items)
    ensures dst == EncodeItems(items + if isSet then [item] else [])
  {
    hide EncodeItem, EncodeItems;
    dst := dst0;
    if isSet {
      dst := dst + EncodeItem(item);
      OneMore(items, item);
    } else {
      assert items + [] == items;
    }
  }

  // The first fields, one after the other.
  method EncodeFields(e: EditRecord) returns (dst: Bytes)
    ensures dst == EncodeItems(FieldItems(e))
  {
    NothingEncoded();
    hide EncodeItems;
    dst := [];
    ghost var items: seq<Item> := [];
    dst := EncodeField(dst, e.comparator.Some?,
      Comparator(if e.comparator.Some? then e.comparator.value else []), items);
    items := items + if e.comparator.Some? then [Comparator(e.comparator.value)] else [];
    dst := EncodeField(dst, e.logNumber.Some?, LogNumber(ValueOr0(e.logNumber)), items);
    items := items + if e.logNumber.Some? then [LogNumber(e.logNumber.value)] else [];
    dst := EncodeField(dst, e.prevLogNumber.Some?, PrevLogNumber(ValueOr0(e.prevLogNumber)), items);
    items := items + if e.prevLogNumber.Some? then [PrevLogNumber(e.prevLogNumber.value)] else [];
    dst := EncodeField(dst, e.nextFile.Some?, NextFileNumber(ValueOr0(e.nextFile)), items);
    items := items + if e.nextFile.Some? then [NextFileNumber(e.nextFile.value)] else [];
    dst := EncodeField(dst, e.lastSequence.Some?, LastSequence(ValueOr0(e.lastSequence)), items);
    items := items + if e.lastSequence.Some? then [LastSequence(e.lastSequence.value)] else [];
    assert items == FieldItems(e);
  }

  // A number that is not set is 0, as Clear leaves it.
  function ValueOr0(n: Option<nat>): nat {
    if n.Some? then n.value else 0
  }

  lemma NothingEncoded()
    ensures EncodeItems([]) == []
  {
  }

  // Appends some items of one kind.
  method EncodeMore(dst0: Bytes, more: seq<Item>, ghost items: seq<Item>) returns (dst: Bytes)
    requires dst0 == EncodeItems(items)
    ensures dst == EncodeItems(items + more)
  {
    hide EncodeItem, EncodeItems;
    dst := dst0;
    assert items + more[..0] == items;
    for i := 0 to |more|
      invariant dst == EncodeItems(items + more[..i])
    {
      ManyMore(items, more, i);
      dst := dst + EncodeItem(more[i]);
    }
    assert more[..|more|] == more;
  }

  // The loop over the deleted files, which a std::set keeps in order.
  method OrderDeleted(S: set<(nat, nat)>) returns (r: seq<(nat, nat)>)
    ensures r == Ordered(S)
  {
    r := [];
    var rest := S;
    while rest != {}
      invariant Ordered(S) == r + Ordered(rest)
      decreases rest
    {
      FirstExists(rest);
      var p :| IsFirst(rest, p);
      OrderedStep(rest, p);
      r := r + [p];
      rest := rest - {p};
    }
  }

  method EncodeTo(e: EditRecord) returns (dst: Bytes)
    ensures dst == EncodeEdit(e)
  {
    hide EncodeItems, FieldItems, PointerItems, DeletedItems, NewItems, Ordered;
    dst := EncodeFields(e);
    ghost var items := FieldItems(e);
    dst := EncodeMore(dst, PointerItems(e.compactPointers), items);
    items := items + PointerItems(e.compactPointers);
    var deleted := OrderDeleted(e.deleted);
    dst := EncodeMore(dst, DeletedItems(deleted), items);
    items := items + DeletedItems(deleted);
    dst := EncodeMore(dst, NewItems(e.added), items);
  }

  method DecodeFrom(src: Bytes) returns (r: Decoded)
    ensures r == DecodeEdit(src)
  {
    hide GetBody, GetVarint32, Put;
    var e: EditRecord := NoEdit();
    var p := 0;
    while true
      invariant p <= |src| && DecodeEdit(src) == DecodeRest(src, p, e)
      decreases |src| - p
    {
      var tag := GetVarint32(src, p, |src|);
      if tag.None? {
        return if p == |src| then Ok(e) else Corruption("invalid tag");
      }
      if !KnownTag(tag.value.0) {
        return Corruption("unknown tag");
      }
      var item := GetBody(tag.value.0, src, tag.value.1);
      if item.None? {
        return Corruption(Problem(tag.value.0));
      }
      e, p := Put(e, item.value.0), item.value.1;
    }
  }
}
