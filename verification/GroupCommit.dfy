/**
 The writer queue of DBImpl::Write (db/db_impl.cc) as a state machine.  A step
 is what one thread does between taking the mutex and releasing it.

 Every writer waits until it is done or at the front of the queue.  One that
 finds itself at the front leads: it makes room in the memtable, builds one batch
 for itself and some of those queued behind it, writes it to the log and the
 memtable without the mutex, and takes the group off the queue.
 */
module GroupCommit {
  import opened Basics
  import opened MemTables

  // batch is None for a writer that only wants the memtable switched.
  datatype Writer = Writer(batch: Option<seq<Op>>, sync: bool)

  // A batch as it reaches the log, with the sequence number of its first operation.
  datatype LogRecord = LogRecord(first: nat, ops: seq<Op>)

  // Writers that left the queue together.  Their batch was tried if room was
  // made for it; what was written to the log may still fail to be synced.
  datatype Group = Group(writers: seq<Writer>, tried: bool, logged: bool, ok: bool)

  // Where the thread of a writer is: in the wait, past it, or out of Write.
  datatype Place =
    | Waiting
    | MakingRoom
    | Writing(lastWriter: nat, ops: seq<Op>)
    | Returned(ok: bool)

  // A writer is known by its place in the order of arrival.  signalled tells that
  // its condition variable has been signalled since it went to sleep.
  datatype Thread = Thread(writer: Writer, done: bool, ok: bool, signalled: bool, at: Place)

  datatype State = State(
    threads: seq<Thread>,
    queue: seq<nat>,
    tmpBatch: seq<Op>,
    lastSequence: nat,
    log: seq<LogRecord>,
    // History
    left: seq<Group>)

  // ----- the operations of some writers ---------------------------------------------------

  function Ops(ws: seq<Writer>): seq<Op> {
    if ws == [] then []
    else
      var w := ws[|ws| - 1];
      Ops(ws[..|ws| - 1]) + if w.batch.Some? then w.batch.value else []
  }

  function Batches(ws: seq<Writer>): nat {
    if ws == [] then 0 else Batches(ws[..|ws| - 1]) + if ws[|ws| - 1].batch.Some? then 1 else 0
  }

  function AllWriters(gs: seq<Group>): seq<Writer> {
    if gs == [] then [] else AllWriters(gs[..|gs| - 1]) + gs[|gs| - 1].writers
  }

  // The operations that sequence numbers were given to.
  function Numbered(gs: seq<Group>): nat {
    if gs == [] then 0 else Numbered(gs[..|gs| - 1]) + if gs[|gs| - 1].tried then |Ops(gs[|gs| - 1].writers)| else 0
  }

  // What the log holds after some groups, if the last sequence number was
  // start before them.
  function LogOf(gs: seq<Group>, start: nat): seq<LogRecord> {
    if gs == [] then []
    else
      var front := gs[..|gs| - 1];
      var g := gs[|gs| - 1];
      LogOf(front, start) + if g.logged then [LogRecord(start + Numbered(front) + 1, Ops(g.writers))] else []
  }

  // ----- BuildBatchGroup --------------------------------------------------------------------

  type ByteSize = seq<Op> -> nat

  function MaxSize(first: nat): nat {
    if first <= 128 * 1024 then first + 128 * 1024 else 1024 * 1024
  }

  function Size(size: ByteSize, ws: seq<Writer>): nat {
    if ws == [] then 0
    else Size(size, ws[..|ws| - 1]) + if ws[|ws| - 1].batch.Some? then size(ws[|ws| - 1].batch.value) else 0
  }

  // Writer i may join a group that all the writers before it are in.
  ghost predicate MayJoin(size: ByteSize, queue: seq<Writer>, i: nat)
    requires 0 < i < |queue|
  {
    && (queue[i].sync ==> queue[0].sync)
    && (queue[i].batch.Some? ==> Size(size, queue[..i + 1]) <= MaxSize(Size(size, queue[..1])))
  }

  // The group is as long as it may be, and no longer.
  ghost predicate IsGroup(size: ByteSize, queue: seq<Writer>, n: nat) {
    && 0 < n <= |queue|
    && (forall i :: 0 < i < n ==> MayJoin(size, queue, i))
    && (n < |queue| ==> !MayJoin(size, queue, n))
  }

  // ----- the steps ----------------------------------------------------------------------------

  ghost predicate Init(s: State, start: nat) {
    s == State([], [], [], start, [], [])
  }

  ghost predicate ValidIds(s: State) {
    forall q :: 0 <= q < |s.queue| ==> s.queue[q] < |s.threads|
  }

  function WritersOf(threads: seq<Thread>, ids: seq<nat>): (r: seq<Writer>)
    requires forall q :: 0 <= q < |ids| ==> ids[q] < |threads|
    ensures |r| == |ids|
  {
    seq(|ids|, q requires 0 <= q < |ids| => threads[ids[q]].writer)
  }

  // The loop that waits while the writer is neither done nor at the front: it
  // returns, goes on to lead, or sleeps.
  function Loop(s: State, i: nat): State
    requires i < |s.threads|
  {
    var t := s.threads[i];
    var t' :=
      if t.done then t.(at := Returned(t.ok))
      else if s.queue != [] && s.queue[0] == i then t.(at := MakingRoom)
      else t.(at := Waiting, signalled := false);
    s.(threads := s.threads[i := t'])
  }

  function Queued(s: State, w: Writer): State {
    s.(threads := s.threads + [Thread(w, false, false, false, Waiting)], queue := s.queue + [|s.threads|])
  }

  ghost predicate Arrive(s: State, s': State, w: Writer) {
    s' == Loop(Queued(s, w), |s.threads|)
  }

  // A writer wakes up.  Condition variables may do so without a signal.
  ghost predicate Wake(s: State, s': State, i: nat) {
    i < |s.threads| && s.threads[i].at.Waiting? && s' == Loop(s, i)
  }

  // The first n writers in the queue are done, but for the leader, which returns.
  function Done(threads: seq<Thread>, queue: seq<nat>, n: nat, leader: nat, ok: bool): (r: seq<Thread>)
    requires n <= |queue|
    ensures |r| == |threads|
  {
    seq(|threads|, i requires 0 <= i < |threads| =>
      if i == leader then threads[i].(at := Returned(ok))
      else if i in queue[..n] then threads[i].(done := true, ok := ok, signalled := true)
      else threads[i])
  }

  function Signal(threads: seq<Thread>, queue: seq<nat>): seq<Thread> {
    if queue != [] && queue[0] < |threads| then threads[queue[0] := threads[queue[0]].(signalled := true)] else threads
  }

  // The writers up to the last one of the group leave, and the next front is
  // signalled.
  ghost predicate Leave(s: State, s': State, leader: nat, lastWriter: nat, tried: bool, logged: bool, ok: bool) {
    exists n ::
      && 0 < n <= |s.queue| && s.queue[n - 1] == lastWriter && lastWriter !in s.queue[..n - 1] && ValidIds(s)
      && s' == s.(threads := Signal(Done(s.threads, s.queue, n, leader, ok), s.queue[n..]), queue := s.queue[n..],
                  left := s.left + [Group(WritersOf(s.threads, s.queue[..n]), tried, logged, ok)])
  }

  // Room has been made, or not.
  ghost predicate RoomMade(size: ByteSize, s: State, s': State, i: nat, ok: bool) {
    && i < |s.threads| && s.threads[i].at.MakingRoom? && ValidIds(s)
    && if ok && s.threads[i].writer.batch.Some? then
        var ws := WritersOf(s.threads, s.queue);
        exists n: nat ::
          && IsGroup(size, ws, n)
          && s' == s.(threads := s.threads[i := s.threads[i].(at := Writing(s.queue[n - 1], Ops(ws[..n])))],
                      tmpBatch := if Batches(ws[..n]) > 1 then Ops(ws[..n]) else s.tmpBatch)
      else
        Leave(s, s', i, i, false, false, ok)
  }

  // The batch has been written: to the log, and with all that it takes.
  ghost predicate Written(s: State, s': State, i: nat, logged: bool, ok: bool) {
    && i < |s.threads| && s.threads[i].at.Writing? && (ok ==> logged)
    && var at := s.threads[i].at;
       Leave(s.(tmpBatch := [], lastSequence := s.lastSequence + |at.ops|,
                log := s.log + if logged then [LogRecord(s.lastSequence + 1, at.ops)] else []),
             s', i, at.lastWriter, true, logged, ok)
  }

  ghost predicate Step(size: ByteSize, s: State, s': State) {
    || (exists w :: Arrive(s, s', w))
    || (exists i :: Wake(s, s', i))
    || (exists i, ok :: RoomMade(size, s, s', i, ok))
    || (exists i, logged, ok :: Written(s, s', i, logged, ok))
  }

  ghost predicate Run(size: ByteSize, start: nat, states: seq<State>) {
    && states != [] && Init(states[0], start)
    && forall i :: 0 <= i < |states| - 1 ==> Step(size, states[i], states[i + 1])
  }

  // ----- what every step keeps ---------------------------------------------------------------

  // The group that the writer at place p of the order of leaving left in.
  function GroupOf(gs: seq<Group>, p: nat): (g: Group)
    requires p < |AllWriters(gs)|
  {
    var front := gs[..|gs| - 1];
    if p < |AllWriters(front)| then GroupOf(front, p) else gs[|gs| - 1]
  }

  predicate PastTheWait(t: Thread) {
    t.at.MakingRoom? || t.at.Writing?
  }

  // Writers leave in the order of arrival, and the queue is those that have not.
  ghost predicate QueueInv(s: State) {
    var n := |AllWriters(s.left)|;
    && n + |s.queue| == |s.threads|
    && (forall p :: 0 <= p < n ==> s.threads[p].writer == AllWriters(s.left)[p])
    && (forall q :: 0 <= q < |s.queue| ==> s.queue[q] == n + q)
  }

  // A writer that has left is done, with the status of its group, and has returned
  // with it or has been woken up to do so.
  ghost predicate HasLeft(t: Thread, ok: bool) {
    t.at == Returned(ok) || (t.at.Waiting? && t.done && t.ok == ok && t.signalled)
  }

  // Only the first in the queue is past the wait, or it has been woken up.
  ghost predicate IsQueued(s: State, q: nat)
    requires q < |s.queue| && ValidIds(s)
  {
    var t := s.threads[s.queue[q]];
    && !t.done
    && if q == 0 then PastTheWait(t) || (t.at.Waiting? && t.signalled) else t.at.Waiting?
  }

  // What the leader writes is the batch of the group it will take off the queue.
  ghost predicate WritesGroup(s: State, at: Place)
    requires ValidIds(s)
  {
    at.Writing? ==>
      exists n ::
        && 0 < n <= |s.queue| && at.lastWriter == s.queue[n - 1]
        && at.ops == Ops(WritersOf(s.threads, s.queue[..n]))
        && GroupIsSynced(WritersOf(s.threads, s.queue[..n]))
  }

  ghost predicate ThreadsInv(s: State)
    requires ValidIds(s)
  {
    && (forall p :: 0 <= p < |AllWriters(s.left)| && p < |s.threads| ==> HasLeft(s.threads[p], GroupOf(s.left, p).ok))
    && (forall q :: 0 <= q < |s.queue| ==> IsQueued(s, q))
    && (s.queue != [] ==> WritesGroup(s, s.threads[s.queue[0]].at))
  }

  ghost predicate LogInv(s: State, start: nat) {
    // The log holds the groups that were logged, in that order, with
    // consecutive sequence numbers
    && s.lastSequence == start + Numbered(s.left)
    && s.log == LogOf(s.left, start)
    && (forall g :: g in s.left ==> GoodGroup(g))
  }

  // The temporary batch is empty but for a leader that is using it.
  ghost predicate TmpInv(s: State)
    requires ValidIds(s)
  {
    s.tmpBatch != [] ==> s.queue != [] && s.threads[s.queue[0]].at.Writing?
  }

  ghost predicate Inv(s: State, start: nat) {
    ValidIds(s) && QueueInv(s) && ThreadsInv(s) && TmpInv(s) && LogInv(s, start)
  }

  // A write that asked to be synced is not led by one that did not.
  ghost predicate GroupIsSynced(ws: seq<Writer>) {
    ws != [] && forall w :: w in ws && w.sync ==> ws[0].sync
  }

  ghost predicate GoodGroup(g: Group) {
    && GroupIsSynced(g.writers)
    && (g.logged ==> g.tried)
    && (g.ok && !g.tried ==> |g.writers| == 1 && g.writers[0].batch.None?)
    && (g.ok && g.tried ==> g.logged)
  }

  lemma GroupsAreSynced(size: ByteSize, queue: seq<Writer>, n: nat)
    requires IsGroup(size, queue, n)
    ensures GroupIsSynced(queue[..n])
  {
    forall w | w in queue[..n] && w.sync ensures queue[0].sync {
      var i :| 0 <= i < n && queue[i] == w;
      assert i > 0 ==> MayJoin(size, queue, i);
    }
  }

  lemma {:induction false} PrefixFits(size: ByteSize, queue: seq<Writer>, n: nat, k: nat)
    requires IsGroup(size, queue, n) && 0 < k <= n && queue[0].batch.Some?
    ensures var first := size(queue[0].batch.value);
      Size(size, queue[..k]) <=
        if first <= 0x20000 then first + 0x20000 else if first <= 0x100000 then 0x100000 else first
  {
    var first := size(queue[0].batch.value);
    assert queue[..1][..0] == [] && Size(size, []) == 0;
    assert Size(size, queue[..1]) == first;
    if k > 1 {
      PrefixFits(size, queue, n, k - 1);
      assert queue[..k][..k - 1] == queue[..k - 1];
      assert MayJoin(size, queue, k - 1);
    }
  }

  // A group has at most 1 MB, unless one write alone has more, and a small write
  // does not wait for more than another 128 KB.  It ends only before a sync write
  // that would be led by one that is not, or where the next would be too much.
  lemma GroupIsBounded(size: ByteSize, queue: seq<Writer>, n: nat)
    requires IsGroup(size, queue, n) && queue[0].batch.Some?
    ensures var first := size(queue[0].batch.value);
      && Size(size, queue[..n]) <=
         (if first <= 0x20000 then first + 0x20000 else if first <= 0x100000 then 0x100000 else first)
      && (n < |queue| ==>
           || (queue[n].sync && !queue[0].sync)
           || (queue[n].batch.Some?
               && Size(size, queue[..n + 1]) > if first <= 0x20000 then first + 0x20000 else 0x100000))
  {
    PrefixFits(size, queue, n, n);
    assert queue[..1][..0] == [] && Size(size, []) == 0;
  }

  lemma NothingNumbered(gs: seq<Group>, g: Group, start: nat)
    requires !g.tried && !g.logged
    ensures Numbered(gs + [g]) == Numbered(gs) && LogOf(gs + [g], start) == LogOf(gs, start)
  {
    assert (gs + [g])[..|gs|] == gs;
  }

  // ----- one group leaves -----------------------------------------------------------------------

  lemma AllWritersGrow(gs: seq<Group>, g: Group)
    ensures AllWriters(gs + [g]) == AllWriters(gs) + g.writers
    ensures forall p :: 0 <= p < |AllWriters(gs + [g])| ==>
      GroupOf(gs + [g], p) == if p < |AllWriters(gs)| then GroupOf(gs, p) else g
  {
    assert (gs + [g])[..|gs|] == gs;
  }

  // Nobody but the first in the queue is past the wait.
  lemma LeaderIsFront(s: State, start: nat, i: nat)
    requires Inv(s, start) && i < |s.threads| && PastTheWait(s.threads[i])
    ensures s.queue != [] && s.queue[0] == i && !s.threads[i].done
  {
    hide WritesGroup, LogInv, TmpInv, GroupOf;
    var n := |AllWriters(s.left)|;
    if i < n { LeftAreDone(s, i); } else { OthersAreQueued(s, i); }
  }

  lemma LeftAreDone(s: State, i: nat)
    requires ValidIds(s) && QueueInv(s) && ThreadsInv(s) && i < |AllWriters(s.left)|
    ensures i < |s.threads| && HasLeft(s.threads[i], GroupOf(s.left, i).ok)
  {
  }

  lemma OthersAreQueued(s: State, i: nat)
    requires ValidIds(s) && QueueInv(s) && ThreadsInv(s) && |AllWriters(s.left)| <= i < |s.threads|
    ensures var q := i - |AllWriters(s.left)|; q < |s.queue| && s.queue[q] == i && IsQueued(s, q)
  {
    hide WritesGroup, HasLeft, IsQueued;
  }

  // The leader's group is as long as the place of its last writer says.
  lemma GroupLength(s: State, n: nat, m: nat)
    requires ValidIds(s) && QueueInv(s) && 0 < n <= |s.queue| && 0 < m <= |s.queue| && s.queue[n - 1] == s.queue[m - 1]
    ensures n == m
  {
  }

  ghost predicate Leaving(s: State, s': State, leader: nat, n: nat, g: Group)
    requires ValidIds(s)
  {
    && 0 < n <= |s.queue| && s.queue[0] == leader && g.writers == WritersOf(s.threads, s.queue[..n])
    && s'.threads == Signal(Done(s.threads, s.queue, n, leader, g.ok), s.queue[n..])
    && s'.queue == s.queue[n..] && s'.left == s.left + [g]
  }

  lemma WritersStay(threads: seq<Thread>, queue: seq<nat>, n: nat, leader: nat, ok: bool, rest: seq<nat>)
    requires n <= |queue|
    ensures var r := Signal(Done(threads, queue, n, leader, ok), rest);
      |r| == |threads| && forall i :: 0 <= i < |threads| ==> r[i].writer == threads[i].writer
  {
  }

  lemma LeavingKeepsQueue(s: State, s': State, leader: nat, n: nat, g: Group)
    requires ValidIds(s) && QueueInv(s) && Leaving(s, s', leader, n, g)
    ensures ValidIds(s') && QueueInv(s')
    ensures forall i :: 0 <= i < |s.threads| ==> s'.threads[i].writer == s.threads[i].writer
  {
    hide GroupOf, AllWriters, Done, Signal;
    AllWritersGrow(s.left, g);
    WritersStay(s.threads, s.queue, n, leader, g.ok, s.queue[n..]);
    var before := |AllWriters(s.left)|;
    forall p | 0 <= p < before + n ensures s'.threads[p].writer == AllWriters(s'.left)[p] {
      if p >= before { assert s.queue[p - before] == p; }
    }
  }

  lemma LeftThreads(s: State, s': State, leader: nat, n: nat, g: Group, p: nat)
    requires ValidIds(s) && QueueInv(s) && ThreadsInv(s) && Leaving(s, s', leader, n, g)
    requires p < |AllWriters(s'.left)| && p < |s'.threads|
    ensures HasLeft(s'.threads[p], GroupOf(s'.left, p).ok)
  {
    hide WritesGroup, GroupOf, AllWriters;
    AllWritersGrow(s.left, g);
    var before := |AllWriters(s.left)|;
    if p < before {
      assert HasLeft(s.threads[p], GroupOf(s.left, p).ok);
      assert forall q :: 0 <= q < |s.queue| ==> s.queue[q] != p;
    } else {
      var q := p - before;
      assert s.queue[q] == p && IsQueued(s, q);
      assert s.queue[..n][q] == p;
      assert forall r :: n <= r < |s.queue| ==> s.queue[r] != p;
    }
  }

  lemma StayingThreads(s: State, s': State, leader: nat, n: nat, g: Group, q: nat)
    requires ValidIds(s) && QueueInv(s) && ThreadsInv(s) && Leaving(s, s', leader, n, g) && ValidIds(s')
    requires q < |s'.queue|
    ensures IsQueued(s', q) && s'.threads[s'.queue[q]].at.Waiting?
  {
    hide WritesGroup, GroupOf, AllWriters;
    assert s'.queue[q] == s.queue[n + q] && IsQueued(s, n + q);
    assert forall r :: 0 <= r < n ==> s.queue[..n][r] == s.queue[r] < s.queue[n + q];
  }

  lemma LeavingKeepsThreads(s: State, s': State, leader: nat, n: nat, g: Group)
    requires ValidIds(s) && QueueInv(s) && ThreadsInv(s) && Leaving(s, s', leader, n, g)
    ensures ValidIds(s') && QueueInv(s') && ThreadsInv(s')
  {
    LeavingKeepsQueue(s, s', leader, n, g);
    hide ThreadsInv, Leaving, HasLeft, IsQueued, QueueInv, AllWriters, GroupOf;
    forall p | 0 <= p < |AllWriters(s'.left)| && p < |s'.threads|
      ensures HasLeft(s'.threads[p], GroupOf(s'.left, p).ok)
    {
      LeftThreads(s, s', leader, n, g, p);
    }
    forall q | 0 <= q < |s'.queue| ensures IsQueued(s', q) && s'.threads[s'.queue[q]].at.Waiting? {
      StayingThreads(s, s', leader, n, g, q);
    }
    ThreadsAre(s');
  }

  lemma ThreadsAre(s: State)
    requires ValidIds(s)
    requires forall p :: 0 <= p < |AllWriters(s.left)| && p < |s.threads| ==>
      HasLeft(s.threads[p], GroupOf(s.left, p).ok)
    requires forall q :: 0 <= q < |s.queue| ==> IsQueued(s, q) && s.threads[s.queue[q]].at.Waiting?
    ensures ThreadsInv(s)
  {
  }

  // ----- every step -------------------------------------------------------------------------------

  // Writing only changes where the thread is.
  ghost predicate SameWriters(s: State, s': State) {
    |s'.threads| >= |s.threads| && forall i :: 0 <= i < |s.threads| ==> s'.threads[i].writer == s.threads[i].writer
  }

  lemma SameGroup(s: State, s': State, at: Place)
    requires ValidIds(s) && ValidIds(s') && SameWriters(s, s') && s.queue <= s'.queue && WritesGroup(s, at)
    ensures WritesGroup(s', at)
  {
    hide Ops, GroupIsSynced;
    if at.Writing? {
      var n :| 0 < n <= |s.queue| && at.lastWriter == s.queue[n - 1]
               && at.ops == Ops(WritersOf(s.threads, s.queue[..n]))
               && GroupIsSynced(WritersOf(s.threads, s.queue[..n]));
      assert s'.queue[..n] == s.queue[..n];
      SameWritersOf(s, s', s.queue[..n]);
      hide WritersOf;
    }
  }

  lemma SameWritersOf(s: State, s': State, ids: seq<nat>)
    requires SameWriters(s, s') && forall q :: 0 <= q < |ids| ==> ids[q] < |s.threads|
    ensures WritersOf(s'.threads, ids) == WritersOf(s.threads, ids)
  {
  }

  lemma ArriveKeepsInv(s: State, s': State, w: Writer, start: nat)
    requires Inv(s, start) && Arrive(s, s', w)
    ensures Inv(s', start)
  {
    hide LogInv, WritesGroup, AllWriters, GroupOf;
    var last := |s.threads|;
    assert forall i :: 0 <= i < last ==> s'.threads[i] == s.threads[i];
    assert forall q :: 0 <= q < |s.queue| ==> s'.queue[q] == s.queue[q] < last;
    forall q | 0 <= q < |s'.queue| ensures IsQueued(s', q) {
      if q < |s.queue| { assert IsQueued(s, q); }
    }
    if s.queue != [] {
      SameGroup(s, s', s.threads[s.queue[0]].at);
    } else {
      NotWriting(s', s'.threads[last].at);
    }
    hide LogInv;
    SameLog(s, s', start);
  }

  lemma NotWriting(s: State, at: Place)
    requires ValidIds(s) && !at.Writing?
    ensures WritesGroup(s, at)
  {
  }

  lemma SameLog(s: State, s': State, start: nat)
    requires LogInv(s, start) && s'.left == s.left && s'.lastSequence == s.lastSequence && s'.log == s.log
    ensures LogInv(s', start)
  {
  }

  lemma WakeKeepsInv(s: State, s': State, i: nat, start: nat)
    requires Inv(s, start) && Wake(s, s', i)
    ensures Inv(s', start)
  {
    hide LogInv, WritesGroup, AllWriters, GroupOf;
    var n := |AllWriters(s.left)|;
    assert forall j :: 0 <= j < |s.threads| && j != i ==> s'.threads[j] == s.threads[j];
    if i < n { assert HasLeft(s.threads[i], GroupOf(s.left, i).ok); }
    if i >= n { assert s.queue[i - n] == i && IsQueued(s, i - n); }
    forall q | 0 <= q < |s'.queue| ensures IsQueued(s', q) {
      assert IsQueued(s, q);
    }
    forall p | 0 <= p < n && p < |s'.threads| ensures HasLeft(s'.threads[p], GroupOf(s.left, p).ok) {
      assert HasLeft(s.threads[p], GroupOf(s.left, p).ok);
    }
    if s.queue != [] {
      if s.queue[0] == i { NotWriting(s', s'.threads[i].at); } else { SameGroup(s, s', s.threads[s.queue[0]].at); }
    }
    SameLog(s, s', start);
  }

  // The leader has built its batch.
  lemma BatchKeepsInv(size: ByteSize, s: State, s': State, i: nat, n: nat, start: nat)
    requires Inv(s, start) && i < |s.threads| && s.threads[i].at.MakingRoom?
    requires IsGroup(size, WritersOf(s.threads, s.queue), n)
    requires var ops := Ops(WritersOf(s.threads, s.queue)[..n]);
      s'.threads == s.threads[i := s.threads[i].(at := Writing(s.queue[n - 1], ops))]
    requires s' == s.(threads := s'.threads, tmpBatch := s'.tmpBatch)
    ensures Inv(s', start)
  {
    hide LogInv, Ops, AllWriters, GroupOf;
    LeaderIsFront(s, start, i);
    var ws := WritersOf(s.threads, s.queue);
    GroupsAreSynced(size, ws, n);
    assert ws[..n] == WritersOf(s.threads, s.queue[..n]) == WritersOf(s'.threads, s'.queue[..n]);
    hide IsGroup, GroupIsSynced;
    assert WritesGroup(s', s'.threads[i].at);
    assert forall j :: 0 <= j < |s.threads| && j != i ==> s'.threads[j] == s.threads[j];
    hide WritesGroup;
    forall q | 0 <= q < |s'.queue| ensures IsQueued(s', q) {
      assert IsQueued(s, q);
    }
    SameLog(s, s', start);
  }

  lemma LeaveIsLeaving(s: State, s': State, leader: nat, lastWriter: nat, tried: bool, logged: bool, ok: bool)
    returns (n: nat, g: Group)
    requires ValidIds(s) && s.queue != [] && s.queue[0] == leader && Leave(s, s', leader, lastWriter, tried, logged, ok)
    ensures 0 < n <= |s.queue| && s.queue[n - 1] == lastWriter
    ensures g == Group(WritersOf(s.threads, s.queue[..n]), tried, logged, ok) && Leaving(s, s', leader, n, g)
    ensures s' == s.(threads := s'.threads, queue := s'.queue, left := s.left + [g])
  {
    hide Done, Signal, WritersOf;
    n :| 0 < n <= |s.queue| && s.queue[n - 1] == lastWriter && lastWriter !in s.queue[..n - 1]
      && s' == s.(threads := Signal(Done(s.threads, s.queue, n, leader, ok), s.queue[n..]), queue := s.queue[n..],
                  left := s.left + [Group(WritersOf(s.threads, s.queue[..n]), tried, logged, ok)]);
    g := Group(WritersOf(s.threads, s.queue[..n]), tried, logged, ok);
  }

  // The leader gives up on making room, or only wanted that.
  lemma GivingUpKeepsInv(s: State, s': State, i: nat, ok: bool, start: nat)
    requires Inv(s, start) && i < |s.threads| && s.threads[i].at.MakingRoom?
    requires (ok ==> s.threads[i].writer.batch.None?) && Leave(s, s', i, i, false, false, ok)
    ensures Inv(s', start)
  {
    hide Leave, Leaving, HasLeft, AllWriters, GroupOf, Ops, Numbered, LogOf;
    LeaderIsFront(s, start, i);
    var n, g := LeaveIsLeaving(s, s', i, i, false, false, ok);
    GroupLength(s, n, 1);
    LeavingKeepsThreads(s, s', i, n, g);
    NothingNumbered(s.left, g, start);
    assert g.writers == [s.threads[i].writer];
    assert s.tmpBatch == [];
  }

  lemma WrittenKeepsInv(s: State, s': State, i: nat, logged: bool, ok: bool, start: nat)
    requires Inv(s, start) && Written(s, s', i, logged, ok)
    ensures Inv(s', start)
  {
    hide Leave, Leaving, HasLeft, AllWriters, GroupOf, Ops, Numbered, LogOf;
    LeaderIsFront(s, start, i);
    var at := s.threads[i].at;
    var t := s.(tmpBatch := [], lastSequence := s.lastSequence + |at.ops|,
                log := s.log + if logged then [LogRecord(s.lastSequence + 1, at.ops)] else []);
    assert ValidIds(t) && QueueInv(t);
    assert ThreadsInv(t) by { SameThreads(s, t); }
    var n, g := LeaveIsLeaving(t, s', i, at.lastWriter, true, logged, ok);
    LeavingKeepsThreads(t, s', i, n, g);
    hide ThreadsInv;
    GroupIsLeaders(s, at, n);
    GroupNumbered(s.left, g, start);
  }

  lemma SameThreads(s: State, t: State)
    requires ValidIds(s) && ThreadsInv(s) && t.threads == s.threads && t.queue == s.queue && t.left == s.left
    ensures ThreadsInv(t)
  {
    if s.queue != [] { SameGroup(s, t, s.threads[s.queue[0]].at); }
    hide WritesGroup, HasLeft, GroupOf, AllWriters;
    forall q | 0 <= q < |t.queue| ensures IsQueued(t, q) {
      assert IsQueued(s, q);
    }
  }

  lemma GroupIsLeaders(s: State, at: Place, n: nat)
    requires ValidIds(s) && QueueInv(s) && WritesGroup(s, at) && at.Writing?
    requires 0 < n <= |s.queue| && s.queue[n - 1] == at.lastWriter
    ensures at.ops == Ops(WritersOf(s.threads, s.queue[..n])) && GroupIsSynced(WritersOf(s.threads, s.queue[..n]))
  {
    hide Ops, GroupIsSynced;
    var m :| 0 < m <= |s.queue| && at.lastWriter == s.queue[m - 1]
             && at.ops == Ops(WritersOf(s.threads, s.queue[..m])) && GroupIsSynced(WritersOf(s.threads, s.queue[..m]));
    GroupLength(s, n, m);
  }

  lemma GroupNumbered(gs: seq<Group>, g: Group, start: nat)
    requires g.tried
    ensures Numbered(gs + [g]) == Numbered(gs) + |Ops(g.writers)|
    ensures LogOf(gs + [g], start) ==
      LogOf(gs, start) + if g.logged then [LogRecord(start + Numbered(gs) + 1, Ops(g.writers))] else []
  {
    assert (gs + [g])[..|gs|] == gs;
  }

  lemma RoomMadeKeepsInv(size: ByteSize, s: State, s': State, i: nat, ok: bool, start: nat)
    requires Inv(s, start) && RoomMade(size, s, s', i, ok)
    ensures Inv(s', start)
  {
    hide Inv, Leave, MayJoin, Ops, Batches;
    if ok && s.threads[i].writer.batch.Some? {
      var ws := WritersOf(s.threads, s.queue);
      var n: nat :| IsGroup(size, ws, n) && s' == s.(
        threads := s.threads[i := s.threads[i].(at := Writing(s.queue[n - 1], Ops(ws[..n])))],
        tmpBatch := if Batches(ws[..n]) > 1 then Ops(ws[..n]) else s.tmpBatch);
      BatchKeepsInv(size, s, s', i, n, start);
    } else {
      GivingUpKeepsInv(s, s', i, ok, start);
    }
  }

  lemma StepKeepsInv(size: ByteSize, s: State, s': State, start: nat)
    requires Inv(s, start) && Step(size, s, s')
    ensures Inv(s', start)
  {
    hide Inv, Arrive, Wake, RoomMade, Written;
    if w :| Arrive(s, s', w) {
      ArriveKeepsInv(s, s', w, start);
    } else if i :| Wake(s, s', i) {
      WakeKeepsInv(s, s', i, start);
    } else if i, ok :| RoomMade(size, s, s', i, ok) {
      RoomMadeKeepsInv(size, s, s', i, ok, start);
    } else if i, logged, ok :| Written(s, s', i, logged, ok) {
      WrittenKeepsInv(s, s', i, logged, ok, start);
    }
  }

  lemma {:induction false} RunHoldsInv(size: ByteSize, start: nat, states: seq<State>)
    requires Run(size, start, states)
    ensures Inv(states[|states| - 1], start)
  {
    if |states| > 1 {
      hide Inv, Step;
      var front := states[..|states| - 1];
      RunHoldsInv(size, start, front);
      StepKeepsInv(size, states[|states| - 2], states[|states| - 1], start);
    }
  }

  // ----- who leads, and who returns ----------------------------------------------------------------

  // In every run at most one writer is past the wait; it is at the front of the
  // queue and not done.
  lemma OnlyTheFrontLeads(size: ByteSize, start: nat, states: seq<State>, i: nat, j: nat)
    requires Run(size, start, states)
    ensures var s := states[|states| - 1];
      && (i < |s.threads| && PastTheWait(s.threads[i]) ==> s.queue != [] && s.queue[0] == i && !s.threads[i].done)
      && (i < |s.threads| && j < |s.threads| && PastTheWait(s.threads[i]) && PastTheWait(s.threads[j]) ==> i == j)
  {
    hide Inv, Step, Init;
    RunHoldsInv(size, start, states);
    var s := states[|states| - 1];
    if i < |s.threads| && PastTheWait(s.threads[i]) { LeaderIsFront(s, start, i); }
    if j < |s.threads| && PastTheWait(s.threads[j]) { LeaderIsFront(s, start, j); }
  }

  // A writer that has returned left the queue before, and returned the status of
  // the group that holds its place in the order of arrival.
  lemma ReturnsItsGroupsStatus(size: ByteSize, start: nat, states: seq<State>, i: nat)
    requires Run(size, start, states)
    requires var s := states[|states| - 1]; i < |s.threads| && s.threads[i].at.Returned?
    ensures var s := states[|states| - 1];
      && i < |AllWriters(s.left)| && AllWriters(s.left)[i] == s.threads[i].writer
      && s.threads[i].at.ok == GroupOf(s.left, i).ok
  {
    hide Step, Init, WritesGroup, LogInv, TmpInv, GroupOf, AllWriters;
    RunHoldsInv(size, start, states);
    var s := states[|states| - 1];
    var n := |AllWriters(s.left)|;
    if i < n { LeftAreDone(s, i); } else { OthersAreQueued(s, i); }
  }

  // A writer returns once: no step touches it again.
  lemma ReturningIsFinal(size: ByteSize, s: State, s': State, start: nat, i: nat)
    requires Inv(s, start) && Step(size, s, s') && i < |s.threads| && s.threads[i].at.Returned?
    ensures i < |s'.threads| && s'.threads[i] == s.threads[i]
  {
    hide GroupOf, AllWriters, WritesGroup, LogInv, TmpInv, IsGroup, Arrive, Wake, RoomMade, Written;
    forall q | 0 <= q < |s.queue| ensures s.queue[q] != i {
      assert IsQueued(s, q);
    }
    hide Inv;
    if w :| Arrive(s, s', w) {
      ArriveTouches(s, s', w, i);
    } else if j :| Wake(s, s', j) {
      WakeTouches(s, s', j, i);
    } else if j, ok :| RoomMade(size, s, s', j, ok) {
      RoomMadeTouches(size, s, s', j, ok, i);
    } else if j, logged, ok :| Written(s, s', j, logged, ok) {
      WrittenTouches(s, s', j, logged, ok, i);
    }
  }

  lemma ArriveTouches(s: State, s': State, w: Writer, i: nat)
    requires Arrive(s, s', w) && i < |s.threads|
    ensures i < |s'.threads| && s'.threads[i] == s.threads[i]
  {
  }

  lemma WakeTouches(s: State, s': State, j: nat, i: nat)
    requires Wake(s, s', j) && i < |s.threads| && s.threads[i].at.Returned?
    ensures i < |s'.threads| && s'.threads[i] == s.threads[i]
  {
  }

  lemma LeaveTouches(s: State, s': State, leader: nat, lastWriter: nat, tried: bool, logged: bool, ok: bool, i: nat)
    requires Leave(s, s', leader, lastWriter, tried, logged, ok) && i < |s.threads| && i != leader
    requires forall q :: 0 <= q < |s.queue| ==> s.queue[q] != i
    ensures i < |s'.threads| && s'.threads[i] == s.threads[i]
  {
  }

  lemma RoomMadeTouches(size: ByteSize, s: State, s': State, j: nat, ok: bool, i: nat)
    requires RoomMade(size, s, s', j, ok) && i < |s.threads| && s.threads[i].at.Returned?
    requires forall q :: 0 <= q < |s.queue| ==> s.queue[q] != i
    ensures i < |s'.threads| && s'.threads[i] == s.threads[i]
  {
    hide Leave, IsGroup, Ops, Batches;
    if !(ok && s.threads[j].writer.batch.Some?) { LeaveTouches(s, s', j, j, false, false, ok, i); }
  }

  lemma WrittenTouches(s: State, s': State, j: nat, logged: bool, ok: bool, i: nat)
    requires Written(s, s', j, logged, ok) && i < |s.threads| && s.threads[i].at.Returned?
    requires forall q :: 0 <= q < |s.queue| ==> s.queue[q] != i
    ensures i < |s'.threads| && s'.threads[i] == s.threads[i]
  {
    hide Leave;
    var at := s.threads[j].at;
    var t := s.(tmpBatch := [], lastSequence := s.lastSequence + |at.ops|,
                log := s.log + if logged then [LogRecord(s.lastSequence + 1, at.ops)] else []);
    LeaveTouches(t, s', j, at.lastWriter, true, logged, ok, i);
  }

  // Whoever can go on has been woken up: no writer that is done, and no writer at
  // the front, sleeps on without a signal.
  lemma NobodySleepsOn(size: ByteSize, start: nat, states: seq<State>, i: nat)
    requires Run(size, start, states)
    requires var s := states[|states| - 1];
      i < |s.threads| && s.threads[i].at.Waiting? && (s.threads[i].done || (s.queue != [] && s.queue[0] == i))
    ensures states[|states| - 1].threads[i].signalled
  {
    hide Step, Init, WritesGroup, LogInv, TmpInv, GroupOf, AllWriters;
    RunHoldsInv(size, start, states);
    var s := states[|states| - 1];
    var n := |AllWriters(s.left)|;
    if i < n { LeftAreDone(s, i); } else { OthersAreQueued(s, i); }
  }

  // ----- what that means for a writer ----------------------------------------------------------

  // The sequence number of operation i of writer j of group k, if it was tried.
  function NumberOf(gs: seq<Group>, start: nat, k: nat, j: nat, i: nat): nat
    requires k < |gs| && j <= |gs[k].writers|
  {
    start + Numbered(gs[..k]) + 1 + |Ops(gs[k].writers[..j])| + i
  }

  lemma {:induction false} OpsSplit(ws: seq<Writer>, j: nat)
    requires j < |ws| && ws[j].batch.Some?
    ensures Ops(ws[..j]) + ws[j].batch.value <= Ops(ws)
  {
    var last := |ws| - 1;
    if j == last {
      assert ws[..j] == ws[..last];
    } else {
      OpsSplit(ws[..last], j);
      assert ws[..last][..j] == ws[..j] && ws[..last][j] == ws[j];
    }
  }

  lemma {:induction false} NumberedGrows(gs: seq<Group>, k: nat)
    requires k < |gs|
    ensures Numbered(gs[..k]) + (if gs[k].tried then |Ops(gs[k].writers)| else 0) <= Numbered(gs)
  {
    var last := |gs| - 1;
    if k < last {
      NumberedGrows(gs[..last], k);
      assert gs[..last][..k] == gs[..k];
    }
  }

  lemma {:induction false} GroupIsLogged(gs: seq<Group>, start: nat, k: nat)
    requires k < |gs| && gs[k].logged
    ensures LogRecord(start + Numbered(gs[..k]) + 1, Ops(gs[k].writers)) in LogOf(gs, start)
  {
    var last := |gs| - 1;
    if k < last {
      GroupIsLogged(gs[..last], start, k);
      assert gs[..last][..k] == gs[..k];
    }
  }

  predicate HasOp(r: LogRecord, number: nat, op: Op) {
    r.first <= number < r.first + |r.ops| && r.ops[number - r.first] == op
  }

  // An operation of a logged group is in the log, in its writer's place and
  // under its own sequence number.
  lemma OperationIsLogged(gs: seq<Group>, start: nat, k: nat, j: nat, i: nat)
    requires k < |gs| && gs[k].logged && j < |gs[k].writers|
    requires gs[k].writers[j].batch.Some? && i < |gs[k].writers[j].batch.value|
    ensures exists r: LogRecord ::
      r in LogOf(gs, start) && HasOp(r, NumberOf(gs, start, k, j, i), gs[k].writers[j].batch.value[i])
  {
    var ws := gs[k].writers;
    var r := LogRecord(start + Numbered(gs[..k]) + 1, Ops(ws));
    GroupIsLogged(gs, start, k);
    OpsSplit(ws, j);
    var at := |Ops(ws[..j])| + i;
    assert Ops(ws)[at] == (Ops(ws[..j]) + ws[j].batch.value)[at];
    assert NumberOf(gs, start, k, j, i) - r.first == at;
  }

  // No sequence number is given twice: they increase in the order of arrival.
  lemma NumbersIncrease(gs: seq<Group>, start: nat, k: nat, j: nat, i: nat, k': nat, j': nat, i': nat)
    requires k < |gs| && k' < |gs| && gs[k].tried
    requires j < |gs[k].writers| && gs[k].writers[j].batch.Some? && i < |gs[k].writers[j].batch.value|
    requires j' < |gs[k'].writers| && gs[k'].writers[j'].batch.Some? && i' < |gs[k'].writers[j'].batch.value|
    requires k < k' || (k == k' && (j < j' || (j == j' && i < i')))
    ensures NumberOf(gs, start, k, j, i) < NumberOf(gs, start, k', j', i')
  {
    OpsSplit(gs[k].writers, j);
    if k < k' {
      NumberedGrows(gs[..k'], k);
      assert gs[..k'][..k] == gs[..k];
    } else if j < j' {
      var front := gs[k].writers[..j'];
      OpsSplit(front, j);
      assert front[..j] == gs[k].writers[..j];
    }
  }

  // If every batch tried was logged then the log has no gap.
  lemma {:induction false} LogHasNoGap(gs: seq<Group>, start: nat, m: nat)
    requires forall g :: g in gs ==> (g.tried <==> g.logged)
    requires m < |LogOf(gs, start)|
    ensures var log := LogOf(gs, start);
      && log[m].first == (if m == 0 then start + 1 else log[m - 1].first + |log[m - 1].ops|)
      && (m == |log| - 1 ==> log[m].first + |log[m].ops| == start + Numbered(gs) + 1)
  {
    var last := |gs| - 1;
    var front := gs[..last];
    if m < |LogOf(front, start)| {
      LogHasNoGap(front, start, m);
    } else if m > 0 {
      LogHasNoGap(front, start, m - 1);
    } else {
      NothingLoggedYet(front, start);
    }
  }

  lemma {:induction false} NothingLoggedYet(gs: seq<Group>, start: nat)
    requires LogOf(gs, start) == [] && forall g :: g in gs ==> (g.tried <==> g.logged)
    ensures Numbered(gs) == 0
  {
    if gs != [] {
      assert gs[|gs| - 1] in gs;
      NothingLoggedYet(gs[..|gs| - 1], start);
    }
  }

  // ----- the queue ------------------------------------------------------------------------------

  // DBImpl::Write, cut where the mutex is released.
  class WriterQueue {
    const size: ByteSize
    var threads: seq<Thread>
    var writers: seq<nat>
    var tmpBatch: seq<Op>
    var lastSequence: nat
    var log: seq<LogRecord>
    ghost var left: seq<Group>

    ghost function Abs(): State
      reads this
    {
      State(threads, writers, tmpBatch, lastSequence, log, left)
    }

    constructor (size: ByteSize, lastSequence: nat)
      ensures Init(Abs(), lastSequence) && this.size == size
    {
      this.size, this.lastSequence := size, lastSequence;
      threads, writers, tmpBatch, log := [], [], [], [];
      left := [];
    }

    // The loop that waits, from where the mutex is held to where it is released.
    method WaitOrGoOn(i: nat)
      requires i < |threads|
      modifies this`threads
      ensures Abs() == Loop(old(Abs()), i)
    {
      var t := threads[i];
      if !t.done && (writers == [] || i != writers[0]) {
        t := t.(at := Waiting, signalled := false);
      } else if t.done {
        t := t.(at := Returned(t.ok));
      } else {
        t := t.(at := MakingRoom);
      }
      threads := threads[i := t];
    }

    method Enqueue(w: Writer) returns (i: nat)
      modifies this`writers, this`threads
      ensures i == |old(threads)| && Arrive(old(Abs()), Abs(), w)
    {
      i := |threads|;
      threads := threads + [Thread(w, false, false, false, Waiting)];
      writers := writers + [i];
      assert Abs() == Queued(old(Abs()), w);
      WaitOrGoOn(i);
    }

    method WakeUp(i: nat)
      requires i < |threads| && threads[i].at.Waiting?
      modifies this`threads
      ensures Wake(old(Abs()), Abs(), i)
    {
      WaitOrGoOn(i);
    }

    // From MakeRoomForWrite to the release of the mutex.
    method RoomIsMade(i: nat, ok: bool, ghost start: nat)
      requires Inv(Abs(), start) && i < |threads| && threads[i].at.MakingRoom?
      modifies this
      ensures RoomMade(size, old(Abs()), Abs(), i, ok)
    {
      hide Leave, MayJoin, Ops, Batches;
      LeaderIsFront(Abs(), start, i);
      TmpIsFree(Abs(), start, i);
      if ok && threads[i].writer.batch.Some? {
        ghost var s := Abs();
        var count, ops := BuildBatchGroup();
        threads := threads[i := threads[i].(at := Writing(writers[count - 1], ops))];
        assert IsGroup(size, WritersOf(s.threads, s.queue), count);
      } else {
        PopGroup(i, i, ok, 1, false, false);
      }
    }

    method BuildBatchGroup() returns (count: nat, result: seq<Op>)
      requires ValidIds(Abs()) && tmpBatch == []
      requires writers != [] && threads[writers[0]].writer.batch.Some?
      modifies this`tmpBatch
      ensures var ws := WritersOf(threads, writers);
        && IsGroup(size, ws, count) && result == Ops(ws[..count])
        && tmpBatch == if Batches(ws[..count]) > 1 then result else []
    {
      hide MaxSize, Size, Ops, Batches;
      ghost var ws := WritersOf(threads, writers);
      var first := threads[writers[0]].writer;
      FirstWriter(size, ws);
      result := first.batch.value;
      var total := size(result);
      var maxSize := MaxSize(total);
      var usesTmp := false;
      count := 1;
      while count < |writers|
        invariant 1 <= count <= |writers| && total == Size(size, ws[..count])
        invariant forall i :: 0 < i < count ==> MayJoin(size, ws, i)
        invariant result == Ops(ws[..count]) && tmpBatch == (if usesTmp then result else [])
        invariant Batches(ws[..count]) >= 1 && (usesTmp <==> Batches(ws[..count]) > 1)
      {
        var w := threads[writers[count]].writer;
        NextWriter(size, ws, count);
        if w.sync && !first.sync {
          // Do not include a sync write into a batch handled by a non-sync write.
          return;
        }
        if w.batch.Some? {
          total := total + size(w.batch.value);
          if total > maxSize {
            // Do not make batch too big
            return;
          }
          if !usesTmp {
            // Switch to temporary batch instead of disturbing caller's batch
            usesTmp := true;
            tmpBatch := tmpBatch + result;
          }
          tmpBatch := tmpBatch + w.batch.value;
          result := tmpBatch;
        }
        count := count + 1;
      }
    }

    // After the log and the memtable have been written and the mutex is taken again.
    method WriteIsDone(i: nat, logged: bool, ok: bool, ghost start: nat)
      requires Inv(Abs(), start) && i < |threads| && threads[i].at.Writing? && (ok ==> logged)
      modifies this
      ensures Written(old(Abs()), Abs(), i, logged, ok)
    {
      hide Leave, Ops;
      ghost var s := Abs();
      ghost var count := LeadersGroup(s, start, i);
      var at := threads[i].at;
      if logged { log := log + [LogRecord(lastSequence + 1, at.ops)]; }
      tmpBatch := [];
      lastSequence := lastSequence + |at.ops|;
      assert Abs() == s.(tmpBatch := [], lastSequence := s.lastSequence + |at.ops|,
                         log := s.log + if logged then [LogRecord(s.lastSequence + 1, at.ops)] else []);
      PopGroup(i, at.lastWriter, ok, count, true, logged);
    }

    // Takes the writers up to the last one of the group off the queue, and tells
    // them that they are done.
    method PopWriters(leader: nat, lastWriter: nat, ok: bool, ghost count: nat)
      requires ValidIds(Abs()) && 0 < count <= |writers|
      requires writers[count - 1] == lastWriter && lastWriter !in writers[..count - 1]
      modifies this`writers, this`threads
      ensures writers == old(writers)[count..] && threads == Popped(old(threads), old(writers), count, leader, ok)
    {
      ghost var queue, popped: nat := writers, 0;
      hide Popped;
      NonePopped(threads, queue, leader, ok);
      while true
        invariant popped < count && writers == queue[popped..]
        invariant threads == Popped(old(threads), queue, popped, leader, ok)
        decreases count - popped
      {
        var ready := writers[0];
        PopOne(old(threads), queue, popped, leader, ok);
        writers := writers[1..];
        if ready != leader {
          threads := threads[ready := threads[ready].(done := true, ok := ok, signalled := true)];
        }
        popped := popped + 1;
        if ready == lastWriter { return; }
      }
    }

    // The group leaves, the leader returns, and the next front is woken up.
    method PopGroup(leader: nat, lastWriter: nat, ok: bool, ghost count: nat, ghost tried: bool, ghost logged: bool)
      requires ValidIds(Abs()) && 0 < count <= |writers| && leader < |threads|
      requires writers[count - 1] == lastWriter && lastWriter !in writers[..count - 1]
      modifies this`writers, this`threads, this`left
      ensures Leave(old(Abs()), Abs(), leader, lastWriter, tried, logged, ok)
    {
      hide Popped, Done;
      ghost var g := Group(WritersOf(threads, writers[..count]), tried, logged, ok);
      PoppedIsDone(threads, writers, count, leader, ok);
      PopWriters(leader, lastWriter, ok, count);
      threads := threads[leader := threads[leader].(at := Returned(ok))];
      if writers != [] {
        threads := threads[writers[0] := threads[writers[0]].(signalled := true)];
      }
      left := left + [g];
    }
  }

  // The first n writers in the queue, but for the leader, have been told.
  function Popped(threads: seq<Thread>, queue: seq<nat>, n: nat, leader: nat, ok: bool): (r: seq<Thread>)
    requires n <= |queue|
    ensures |r| == |threads|
  {
    seq(|threads|, i requires 0 <= i < |threads| =>
      if i != leader && i in queue[..n] then threads[i].(done := true, ok := ok, signalled := true) else threads[i])
  }

  lemma NonePopped(threads: seq<Thread>, queue: seq<nat>, leader: nat, ok: bool)
    ensures Popped(threads, queue, 0, leader, ok) == threads
  {
  }

  lemma PopOne(threads: seq<Thread>, queue: seq<nat>, n: nat, leader: nat, ok: bool)
    requires n < |queue| && queue[n] < |threads|
    ensures var before := Popped(threads, queue, n, leader, ok);
      Popped(threads, queue, n + 1, leader, ok) ==
        if queue[n] == leader then before
        else before[queue[n] := before[queue[n]].(done := true, ok := ok, signalled := true)]
  {
    assert queue[..n + 1] == queue[..n] + [queue[n]];
  }

  lemma PoppedIsDone(threads: seq<Thread>, queue: seq<nat>, n: nat, leader: nat, ok: bool)
    requires n <= |queue| && leader < |threads|
    ensures var before := Popped(threads, queue, n, leader, ok);
      Done(threads, queue, n, leader, ok) == before[leader := before[leader].(at := Returned(ok))]
  {
  }

  lemma TmpIsFree(s: State, start: nat, i: nat)
    requires Inv(s, start) && i < |s.threads| && s.threads[i].at.MakingRoom? && s.queue != [] && s.queue[0] == i
    ensures s.tmpBatch == []
  {
  }

  // How many writers the leader's group has.
  lemma LeadersGroup(s: State, start: nat, i: nat) returns (n: nat)
    requires Inv(s, start) && i < |s.threads| && s.threads[i].at.Writing?
    ensures ValidIds(s) && 0 < n <= |s.queue|
    ensures s.queue[n - 1] == s.threads[i].at.lastWriter && s.threads[i].at.lastWriter !in s.queue[..n - 1]
  {
    hide LogInv, Ops, GroupIsSynced, GroupOf, AllWriters;
    LeaderIsFront(s, start, i);
    n :| 0 < n <= |s.queue| && s.threads[i].at.lastWriter == s.queue[n - 1];
  }

  lemma NextWriter(size: ByteSize, ws: seq<Writer>, n: nat)
    requires n < |ws|
    ensures Size(size, ws[..n + 1]) == Size(size, ws[..n]) + if ws[n].batch.Some? then size(ws[n].batch.value) else 0
    ensures Ops(ws[..n + 1]) == Ops(ws[..n]) + if ws[n].batch.Some? then ws[n].batch.value else []
    ensures Batches(ws[..n + 1]) == Batches(ws[..n]) + if ws[n].batch.Some? then 1 else 0
  {
    assert ws[..n + 1][..n] == ws[..n];
  }

  lemma FirstWriter(size: ByteSize, queue: seq<Writer>)
    requires queue != [] && queue[0].batch.Some?
    ensures var b := queue[0].batch.value;
      Size(size, queue[..1]) == size(b) && Ops(queue[..1]) == b && Batches(queue[..1]) == 1
  {
    assert queue[..1][..0] == [];
  }

  // ----- what a writer is told ------------------------------------------------------------------

  // When a batch has been written, its leader returns with the status of that write,
  // and everyone else in the group is told the same.
  lemma WrittenIsTold(size: ByteSize, s: State, s': State, i: nat, logged: bool, ok: bool, start: nat)
    requires Inv(s, start) && Written(s, s', i, logged, ok)
    ensures i < |s'.threads| && s'.threads[i].at == Returned(ok)
    ensures exists n ::
      && 0 < n <= |s.queue| && s'.queue == s.queue[n..] && s.queue[0] == i
      && forall q :: 0 < q < n ==>
           s.queue[q] < |s'.threads| && var t := s'.threads[s.queue[q]]; t.done && t.ok == ok && t.signalled
  {
    LeaderIsFront(s, start, i);
    hide Leave, ThreadsInv, TmpInv, LogInv, QueueInv, ValidIds;
    var at := s.threads[i].at;
    var u := s.(tmpBatch := [], lastSequence := s.lastSequence + |at.ops|,
                log := s.log + if logged then [LogRecord(s.lastSequence + 1, at.ops)] else []);
    SameQueue(s, u);
    LeaveTells(u, s', i, at.lastWriter, true, logged, ok);
  }

  lemma SameQueue(s: State, u: State)
    requires QueueInv(s) && u.threads == s.threads && u.queue == s.queue && u.left == s.left
    ensures QueueInv(u)
  {
  }

  // A writer for which there is no room, or that only wanted the memtable switched,
  // returns alone, with the status of that.
  lemma NoRoomIsTold(size: ByteSize, s: State, s': State, i: nat, ok: bool, start: nat)
    requires Inv(s, start) && RoomMade(size, s, s', i, ok) && (!ok || s.threads[i].writer.batch.None?)
    ensures i < |s'.threads| && s'.threads[i].at == Returned(ok) && s'.queue == s.queue[1..]
    ensures s'.log == s.log && s'.lastSequence == s.lastSequence
  {
    LeaderIsFront(s, start, i);
    LeaveTells(s, s', i, i, false, false, ok);
    var n :| 0 < n <= |s.queue| && s.queue[n - 1] == i && i !in s.queue[..n - 1] && s'.queue == s.queue[n..];
    FirstIsLast(s.queue, n);
  }

  lemma FirstIsLast(queue: seq<nat>, n: nat)
    requires 0 < n <= |queue|
    ensures queue[0] !in queue[..n - 1] ==> n == 1
  {
    assert n > 1 ==> queue[..n - 1][0] == queue[0];
  }

  lemma LeaveTells(s: State, s': State, leader: nat, lastWriter: nat, tried: bool, logged: bool, ok: bool)
    requires Leave(s, s', leader, lastWriter, tried, logged, ok) && QueueInv(s)
    requires leader < |s.threads| && s.queue != [] && s.queue[0] == leader
    ensures leader < |s'.threads| && s'.threads[leader].at == Returned(ok)
    ensures exists n ::
      && 0 < n <= |s.queue| && s'.queue == s.queue[n..]
      && s.queue[n - 1] == lastWriter && lastWriter !in s.queue[..n - 1]
      && forall q :: 0 < q < n ==>
           s.queue[q] < |s'.threads| && var t := s'.threads[s.queue[q]]; t.done && t.ok == ok && t.signalled
  {
    hide Done, Signal, QueueInv, WritersOf;
    var n :| 0 < n <= |s.queue| && s.queue[n - 1] == lastWriter && lastWriter !in s.queue[..n - 1] && ValidIds(s) &&
      s' == s.(threads := Signal(Done(s.threads, s.queue, n, leader, ok), s.queue[n..]), queue := s.queue[n..],
               left := s.left + [Group(WritersOf(s.threads, s.queue[..n]), tried, logged, ok)]);
    forall q | 0 < q < n
      ensures s.queue[q] < |s'.threads| && var t := s'.threads[s.queue[q]]; t.done && t.ok == ok && t.signalled
    {
      DoneTells(s, n, leader, ok, q);
    }
    DoneReturns(s, n, leader, ok);
  }

  lemma DoneTells(s: State, n: nat, leader: nat, ok: bool, q: nat)
    requires ValidIds(s) && QueueInv(s) && 0 < q < n <= |s.queue| && s.queue[0] == leader
    ensures var threads := Signal(Done(s.threads, s.queue, n, leader, ok), s.queue[n..]);
      s.queue[q] < |threads| && var t := threads[s.queue[q]]; t.done && t.ok == ok && t.signalled
  {
    assert s.queue[..n][q] == s.queue[q] && s.queue[q] != leader;
  }

  lemma DoneReturns(s: State, n: nat, leader: nat, ok: bool)
    requires ValidIds(s) && leader < |s.threads| && n <= |s.queue|
    ensures var threads := Signal(Done(s.threads, s.queue, n, leader, ok), s.queue[n..]);
      leader < |threads| && threads[leader].at == Returned(ok)
  {
  }
}
