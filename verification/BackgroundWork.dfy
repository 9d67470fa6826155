/**
 When the background thread runs (db/db_impl.cc): a state machine whose steps
 are taken with the mutex held.  Threads that wait for background work are
 counted; SignalAll wakes all of them.
 */
module BackgroundWork {
  const L0_COMPACTION_TRIGGER: nat := 4
  const L0_STOP_WRITES_TRIGGER: nat := 12

  datatype State = State(
    hasImm: bool,
    // A manual compaction is requested
    manual: bool,
    level0Files: nat,
    // A deeper level is too big, or a file was sought too often
    otherWork: bool,
    scheduled: bool,
    // The background thread is inside BackgroundCompaction, for a manual one or not
    running: bool,
    runningManual: bool,
    error: bool,
    shuttingDown: bool,
    waiting: nat)

  // The score of level 0 is its number of files over the trigger.
  predicate NeedsCompaction(s: State) {
    s.level0Files >= L0_COMPACTION_TRIGGER || s.otherWork
  }

  predicate HasWork(s: State) {
    s.hasImm || s.manual || NeedsCompaction(s)
  }

  function MaybeScheduleCompaction(s: State): State {
    if s.scheduled || s.shuttingDown || s.error || !HasWork(s) then s else s.(scheduled := true)
  }

  function RecordBackgroundError(s: State): State {
    if s.error then s else s.(error := true, waiting := 0)
  }

  // ----- foreground steps ------------------------------------------------------------------

  ghost predicate Open(s: State) {
    s == MaybeScheduleCompaction(State(false, false, s.level0Files, s.otherWork, false, false, false, false, false, 0))
  }

  // What MakeRoomForWrite does when the memtable is full or a switch is forced.
  function MakeRoom(s: State): State {
    if s.error then s
    else if s.hasImm || s.level0Files >= L0_STOP_WRITES_TRIGGER then s.(waiting := s.waiting + 1)
    else MaybeScheduleCompaction(s.(hasImm := true))
  }

  // A read has used up a file's seeks.
  function UpdateStats(s: State): State {
    MaybeScheduleCompaction(s.(otherWork := true))
  }

  // A turn of the loop of CompactRange on a level, and its end.
  function RequestManual(s: State): State {
    if s.shuttingDown || s.error then s
    else if !s.manual then MaybeScheduleCompaction(s.(manual := true))
    else s.(waiting := s.waiting + 1)
  }

  function CancelManual(s: State): State {
    if s.shuttingDown || s.error then s.(manual := false) else s
  }

  // Waiting for the old memtable to be flushed.
  function AwaitFlush(s: State): State {
    if s.hasImm && !s.error then s.(waiting := s.waiting + 1) else s
  }

  // ----- background steps --------------------------------------------------------------------

  ghost predicate Foreground(s: State, s': State) {
    || s' == MakeRoom(s)
    || s' == UpdateStats(s)
    || s' == RequestManual(s)
    || s' == CancelManual(s)
    || s' == AwaitFlush(s)
    || s' == RecordBackgroundError(s)
    || s' == s.(shuttingDown := true)
  }

  // BackgroundCall begins: unless there is nothing left to do, it goes on to compact.
  function BeginJob(s: State): State {
    if s.shuttingDown || s.error then EndJob(s)
    else s.(running := true, runningManual := !s.hasImm && s.manual)
  }

  // A flush is installed, alone or in the middle of a compaction, whose loop
  // signals afterwards.
  ghost predicate FlushDone(s: State, s': State) {
    && s.running && s.hasImm
    && s' == s.(hasImm := false, level0Files := s'.level0Files, otherWork := s'.otherWork, waiting := s'.waiting)
    && (s'.waiting == 0 || s'.waiting == s.waiting)
  }

  // A compaction or a trivial move is installed.
  ghost predicate CompactionDone(s: State, s': State) {
    s.running && s' == s.(level0Files := s'.level0Files, otherWork := s'.otherWork)
  }

  // The end of BackgroundCall: there may be more work.
  function EndJob(s: State): State {
    MaybeScheduleCompaction(s.(running := false, runningManual := false, scheduled := false,
                               manual := s.manual && !s.runningManual)).(waiting := 0)
  }

  ghost predicate Background(s: State, s': State) {
    || (s.scheduled && !s.running && s' == BeginJob(s))
    || FlushDone(s, s')
    || CompactionDone(s, s')
    || (s.running && s' == RecordBackgroundError(s))
    || (s.running && s' == EndJob(s))
  }

  ghost predicate Step(s: State, s': State) {
    Foreground(s, s') || Background(s, s')
  }

  ghost predicate Run(states: seq<State>) {
    && states != [] && Open(states[0])
    && forall i :: 0 <= i < |states| - 1 ==> Step(states[i], states[i + 1])
  }

  // ----- no work is stranded -----------------------------------------------------------------

  ghost predicate Inv(s: State) {
    && (HasWork(s) && !s.error && !s.shuttingDown ==> s.scheduled)
    && (s.running ==> s.scheduled)
    // Whoever waits will be signalled: by the job that is scheduled, whose end
    // wakes everyone
    && (s.waiting > 0 && !s.shuttingDown ==> s.scheduled)
    && (s.error ==> s.waiting == 0)
  }

  lemma StepKeepsInv(s: State, s': State)
    requires Inv(s) && Step(s, s')
    ensures Inv(s')
  {
    hide Inv, Foreground, Background;
    if Foreground(s, s') { ForegroundKeepsInv(s, s'); } else { BackgroundKeepsInv(s, s'); }
  }

  lemma ForegroundKeepsInv(s: State, s': State)
    requires Inv(s) && Foreground(s, s')
    ensures Inv(s')
  {
    RequestsKeepInv(s);
    WaitsKeepInv(s);
    hide Inv, MakeRoom, UpdateStats, RequestManual, CancelManual, AwaitFlush, RecordBackgroundError;
  }

  lemma RequestsKeepInv(s: State)
    requires Inv(s)
    ensures Inv(MakeRoom(s)) && Inv(UpdateStats(s)) && Inv(RequestManual(s))
  {
  }

  lemma WaitsKeepInv(s: State)
    requires Inv(s)
    ensures Inv(CancelManual(s)) && Inv(AwaitFlush(s)) && Inv(RecordBackgroundError(s)) && Inv(s.(shuttingDown := true))
  {
  }

  lemma BackgroundKeepsInv(s: State, s': State)
    requires Inv(s) && Background(s, s')
    ensures Inv(s')
  {
  }

  // In every run, as long as there is no error and the database is not being
  // closed, work to do means that a job is scheduled; and no thread waits with
  // no job to wake it.
  lemma {:induction false} NoWorkIsStranded(states: seq<State>)
    requires Run(states)
    ensures Inv(states[|states| - 1])
  {
    hide Step;
    if |states| > 1 {
      NoWorkIsStranded(states[..|states| - 1]);
      StepKeepsInv(states[|states| - 2], states[|states| - 1]);
    }
  }

  // ----- and none is made up -------------------------------------------------------------------

  // A step that schedules a job, or ends one and schedules the next, leaves work
  // for it, and nothing is scheduled after an error or when closing.
  lemma JobsHaveWork(s: State, s': State)
    requires Step(s, s') && s'.scheduled && (!s.scheduled || (s.running && !s'.running))
    ensures HasWork(s') && !s'.error && !s'.shuttingDown
  {
    hide Foreground, Background;
    if Foreground(s, s') { RequestsHaveWork(s, s'); } else { BackgroundHasWork(s, s'); }
  }

  lemma ScheduledForWork(s: State)
    ensures var t := MaybeScheduleCompaction(s);
      && t == s.(scheduled := t.scheduled) && (s.scheduled ==> t.scheduled)
      && (t.scheduled && !s.scheduled ==> HasWork(t) && !t.error && !t.shuttingDown)
  {
  }

  lemma RequestsHaveWork(s: State, s': State)
    requires Foreground(s, s') && s'.scheduled && (!s.scheduled || (s.running && !s'.running))
    ensures HasWork(s') && !s'.error && !s'.shuttingDown
  {
    ScheduledForWork(s.(hasImm := true));
    ScheduledForWork(s.(otherWork := true));
    ScheduledForWork(s.(manual := true));
    hide MaybeScheduleCompaction, HasWork;
  }

  lemma BackgroundHasWork(s: State, s': State)
    requires Background(s, s') && s'.scheduled && (!s.scheduled || (s.running && !s'.running))
    ensures HasWork(s') && !s'.error && !s'.shuttingDown
  {
    var ended := s.(running := false, runningManual := false, scheduled := false,
                    manual := s.manual && !s.runningManual);
    ScheduledForWork(ended);
    hide MaybeScheduleCompaction;
  }

  // A writer that needs room waits while there is an immutable memtable or level 0
  // is full, and otherwise its memtable becomes the immutable one.
  lemma RoomIsMadeOrAwaited(s: State)
    requires Inv(s) && !s.error && !s.shuttingDown
    ensures var t := MakeRoom(s);
      && t.scheduled
      && if s.hasImm || s.level0Files >= 12 then t == s.(waiting := s.waiting + 1)
         else t.hasImm && t.waiting == s.waiting && t.level0Files == s.level0Files
  {
  }

  // Requests become work, and work a job.
  lemma RequestsAreScheduled(s: State)
    requires Inv(s) && !s.error && !s.shuttingDown
    ensures UpdateStats(s).scheduled && UpdateStats(s).otherWork
    ensures RequestManual(s).scheduled && RequestManual(s).manual
    ensures s.hasImm ==> AwaitFlush(s).scheduled && AwaitFlush(s).waiting == s.waiting + 1
  {
  }

  // The end of a job wakes everyone, and is followed by another if there is work.
  lemma JobsEnd(s: State)
    requires s.running
    ensures var t := EndJob(s);
      && t.waiting == 0 && !t.running && t.hasImm == s.hasImm && t.manual == (s.manual && !s.runningManual)
      && (t.scheduled <==> HasWork(t) && !s.error && !s.shuttingDown)
  {
  }

  // A job is for the immutable memtable first, and for a manual compaction only if
  // there is none.
  lemma JobsBegin(s: State)
    requires s.scheduled && !s.running && !s.error && !s.shuttingDown
    ensures BeginJob(s) == s.(running := true, runningManual := s.manual && !s.hasImm)
  {
  }

  // An error wakes everyone, stays, and ends manual compactions that wait.
  lemma ErrorsEndWaiting(s: State)
    requires Inv(s)
    ensures var t := RecordBackgroundError(s); t.error && t.waiting == 0 && !CancelManual(t).manual
  {
  }
}
