/**
 * The save/load operation protocol of android/src/save_states.cpp and the lifecycle entry points
 * of android/src/emucorec-android.cpp that must not run during an operation.
 *
 * The lifecycle mutex makes the body of each callback and entry point a critical section. The
 * sections are not atomic: defer_stop and busy use only the short stop mutex, and notifications
 * from the emulator need no lock, so both may fall between any two steps of a section. The
 * emulator is an environment that may do anything its interface allows. Posted callbacks may run
 * in any order, which includes the order in which the dispatcher runs them.
 */
module SaveOperation {
  import Slots = SlotStore

  type Bytes = seq<Slots.Integrity.Byte>

  datatype Option<T> = None | Some(value: T)

  type OpId = nat

  /**
   * struct operation, without its path. History: requestedAt is the emulation identifier when it was
   * accepted; published says that capture_slot returned true for it, payload is what it captured
   * then, absorbed says that a defer_stop returned true because of it, ran that a run notification
   * was accepted for it.
   */
  datatype Op = Op(
    title: string,
    slot: nat,
    save: bool,
    stopRequested: bool,
    written: bool,
    awaitingRun: bool,
    captured: bool,
    resumeIdentifier: nat,
    requestedAt: nat,
    published: bool,
    payload: Bytes,
    absorbed: bool,
    ran: bool)

  function NewOp(title: string, slot: nat, save: bool, identifier: nat): Op {
    Op(title, slot, save, false, false, false, false, 0, identifier, false, [], false, false)
  }

  /** What waits to be run by the main-thread dispatcher. */
  datatype Task =
    | StartTask(op: OpId)
    | AfterKillTask(op: OpId)
    | StopTask(op: OpId)
    | RunTask(identifier: nat)
    | PrepareFailedTask(op: OpId)

  /**
   * The entry points that act on the emulator directly. The worker that builds caches waits for the
   * emulator to be stopped and never asks whether an operation is under way; the others do.
   */
  datatype Entry = Close | Boot | Install | BuildCache

  /** Who holds the lifecycle mutex, and how far they are. */
  datatype Section =
    | Free
    | Requesting(op: OpId)
    | Starting(op: OpId)
    | StartReady(op: OpId)
    | Capturing(op: OpId)
    | Captured(op: OpId, saved: bool)
    | Resuming(op: OpId, saved: bool)
    | Booting(op: OpId)
    | Finishing(op: OpId, success: bool)
    | Retired(op: OpId, success: bool, stop: bool)
    | Holding(entry: Entry)
    | Acting(entry: Entry)

  datatype Report = Report(op: OpId, success: bool)

  /**
   * afterKill is Emu.after_kill_callback, continuous the continuous mode, identifier the emulation
   * identifier, running whether the emulator runs or is paused, sha the hash and disk the disk that
   * hold the slots. History: reports in order, the operations whose end killed the emulator, and
   * the identifiers for which a run notification was raised.
   */
  datatype State = State(
    sha: Slots.Hash,
    disk: Slots.Disk,
    running: bool,
    ops: map<OpId, Op>,
    pending: Option<OpId>,
    stoppable: Option<OpId>,
    section: Section,
    posted: multiset<Task>,
    afterKill: Option<OpId>,
    continuous: bool,
    identifier: nat,
    reports: seq<Report>,
    killed: set<OpId>,
    raised: set<nat>)

  function Initial(sha: Slots.Hash, disk: Slots.Disk): State {
    State(sha, disk, false, map[], None, None, Free, multiset{}, None, false, 0, [], {}, {})
  }

  datatype Step =
    // Without the lifecycle mutex
    | DeferStop
    | StoppedNotice(op: OpId)
    | RunningNotice(identifier: nat)
    | EmulatorStarted
    | EmulatorStopped
    | PrepareGuard
    | DiskChanges(disk: Slots.Disk)
    // request
    | RequestBegin(op: OpId, title: string, slot: nat, save: bool)
    | RequestEnd
    // Callbacks and notifications that take the mutex
    | RunTaskStep(task: Task)
    | Completed(success: bool, gameStopped: bool)
    // Inside a critical section
    | StartAbort
    | StartCheck
    | StartGo
    | CaptureDone(saved: bool, path: string, after: Slots.Disk)
    | CaptureCheck
    | ResumeMark
    | BootDone(ok: bool)
    | Throw
    | FinishRetire
    | FinishEnd
    // Close, boot, install and cache building
    | EntryLock(entry: Entry)
    | EntryCheck
    | EntryAct

  // ----- Steps without the lifecycle mutex -----

  /** defer_stop: marks the stoppable operation, if there is one, and says whether there was. */
  function AfterDefer(s: State): State {
    if s.stoppable.Some? && s.stoppable.value in s.ops
    then s.(ops := s.ops[s.stoppable.value := s.ops[s.stoppable.value].(stopRequested := true, absorbed := true)])
    else s
  }

  ghost predicate Defer(s: State, step: Step, t: State) {
    step.DeferStop? && t == AfterDefer(s)
  }

  /** The notifications of the emulator, which only post callbacks. */
  ghost predicate Notices(s: State, step: Step, t: State) {
    match step
    case StoppedNotice(op) =>
      && op in s.ops && s.ops[op].awaitingRun
      && t == s.(posted := s.posted + multiset{StopTask(op)})
    case RunningNotice(identifier) =>
      && identifier <= s.identifier
      && t == s.(posted := s.posted + multiset{RunTask(identifier)}, raised := s.raised + {identifier})
    case _ => false
  }

  /** What the emulator and the rest of the device do on their own. */
  ghost predicate Environment(s: State, step: Step, t: State) {
    match step
    case EmulatorStarted => t == s.(running := true)
    case PrepareGuard => t == s.(afterKill := None, continuous := false)
    case DiskChanges(disk) =>
      && (forall op :: s.pending == Some(op) && op in s.ops && s.ops[op].published ==>
            Slots.SlotSame(s.disk, disk, s.ops[op].title, s.ops[op].slot))
      && t == s.(disk := disk)
    case _ => false
  }

  /** The emulator has stopped: a new identifier, and the after-kill callback is on its way. */
  ghost predicate Stops(s: State, step: Step, t: State) {
    && step.EmulatorStopped?
    && t == s.(running := false, identifier := s.identifier + 1, afterKill := None,
               posted := if s.afterKill.None? then s.posted
                         else s.posted + multiset{AfterKillTask(s.afterKill.value)})
  }

  // ----- Steps that take the mutex -----

  ghost predicate Accepts(s: State, step: Step, t: State) {
    && step.RequestBegin? && s.section.Free? && s.pending.None? && step.op !in s.ops
    && s.running && Slots.ValidTitle(step.title) && step.slot < Slots.SLOT_COUNT
    && t == s.(ops := s.ops[step.op := NewOp(step.title, step.slot, step.save, s.identifier)],
               pending := Some(step.op), section := Requesting(step.op))
  }

  ghost predicate RunsTask(s: State, step: Step, t: State) {
    && step.RunTaskStep? && s.section.Free? && step.task in s.posted
    && t == AfterTask(s.(posted := s.posted - multiset{step.task}), step.task)
  }

  ghost predicate Completes(s: State, step: Step, t: State) {
    match step
    case Completed(success, gameStopped) =>
      && s.section.Free?
      && (match s.pending
          case None => t == s
          case Some(op) =>
            && op in s.ops
            && if !s.ops[op].save then t == s
               else t == s.(ops := s.ops[op := s.ops[op].(written := success)],
                            posted := if gameStopped then s.posted
                                      else s.posted + multiset{PrepareFailedTask(op)}))
    case _ => false
  }

  /** The callback bodies up to their first test of pending. */
  function AfterTask(s: State, task: Task): State {
    match task
    case StartTask(op) => if s.pending == Some(op) then s.(section := Starting(op)) else s
    case AfterKillTask(op) => if s.pending == Some(op) then s.(section := Capturing(op)) else s
    case StopTask(op) => if s.pending == Some(op) then s.(section := Finishing(op, false)) else s
    case PrepareFailedTask(op) =>
      if s.pending == Some(op) then s.(section := Finishing(op, false), continuous := false) else s
    case RunTask(identifier) => AfterRun(s, identifier)
  }

  function AfterRun(s: State, identifier: nat): State {
    if s.pending.Some? && s.pending.value in s.ops && s.ops[s.pending.value].awaitingRun
       && s.ops[s.pending.value].resumeIdentifier == identifier
    then
      var op := s.pending.value;
      s.(section := Finishing(op, s.ops[op].captured), ops := s.ops[op := s.ops[op].(ran := true)])
    else s
  }

  // ----- Steps inside a critical section -----

  ghost predicate Starts(s: State, step: Step, t: State) {
    match step
    case RequestEnd =>
      && s.section.Requesting?
      && t == s.(stoppable := Some(s.section.op), section := Free,
                 posted := s.posted + multiset{StartTask(s.section.op)})
    case StartAbort =>
      && (s.section.Starting? || s.section.StartReady?)
      && s.section.op in s.ops && (s.section.StartReady? ==> !s.ops[s.section.op].save)
      && t == s.(section := Finishing(s.section.op, false))
    case StartCheck =>
      && s.section.Starting? && s.section.op in s.ops
      && t == s.(section := if s.ops[s.section.op].stopRequested then Finishing(s.section.op, false)
                            else StartReady(s.section.op))
    case StartGo =>
      && s.section.StartReady?
      && t == s.(section := Free, continuous := true, afterKill := Some(s.section.op))
    case _ => false
  }

  /** The body of the after-kill callback; a capture acts on the disk as capture_slot does. */
  ghost predicate Captures(s: State, step: Step, t: State) {
    && step.CaptureDone? && s.section.Capturing? && s.section.op in s.ops
    && var op, o := s.section.op, s.ops[s.section.op];
       if o.save then
         && var source := Slots.SourceOf(s.disk, step.path);
            && (step.saved ==> o.written)
            && Slots.CaptureEffect(s.sha, s.disk, o.title, o.slot, source, step.saved, step.after)
            && t == s.(section := Captured(op, step.saved), disk := step.after,
                       ops := if step.saved then s.ops[op := o.(published := true, payload := source)] else s.ops)
       else step.saved && t == s.(section := Captured(op, true))
  }

  ghost predicate Checks(s: State, step: Step, t: State) {
    && step.CaptureCheck? && s.section.Captured? && s.section.op in s.ops
    && var op, o := s.section.op, s.ops[s.section.op];
       t == if o.stopRequested
            then s.(section := Finishing(op, o.save && s.section.saved), continuous := false)
            else s.(section := Resuming(op, s.section.saved))
  }

  ghost predicate Marks(s: State, step: Step, t: State) {
    && step.ResumeMark? && s.section.Resuming? && s.section.op in s.ops
    && var op, o := s.section.op, s.ops[s.section.op];
       t == s.(section := Booting(op),
               ops := s.ops[op := o.(awaitingRun := true, captured := s.section.saved,
                                     resumeIdentifier := s.identifier)])
  }

  ghost predicate Boots(s: State, step: Step, t: State) {
    && step.BootDone? && s.section.Booting? && s.section.op in s.ops
    && var op, o := s.section.op, s.ops[s.section.op];
       t == if step.ok then s.(section := Free)
            else s.(section := Finishing(op, false), continuous := false,
                    ops := s.ops[op := o.(stopRequested := true)])
  }

  /** An exception anywhere in the work of run_operation. */
  ghost predicate Throws(s: State, step: Step, t: State) {
    && step.Throw? && InWork(s.section) && s.section.op in s.ops
    && var op, o := s.section.op, s.ops[s.section.op];
       t == s.(section := Finishing(op, false), ops := s.ops[op := o.(stopRequested := true)])
  }

  ghost predicate Retires(s: State, step: Step, t: State) {
    && step.FinishRetire? && s.section.Finishing? && s.section.op in s.ops
    && t == s.(stoppable := None,
               section := Retired(s.section.op, s.section.success, s.ops[s.section.op].stopRequested))
  }

  ghost predicate Reports(s: State, step: Step, t: State) {
    && step.FinishEnd? && s.section.Retired? && s.section.op in s.ops
    && var Retired(op, success, stop) := s.section;
       t == s.(section := Free, pending := None, continuous := false,
               afterKill := if stop then None else s.afterKill,
               killed := if stop then s.killed + {op} else s.killed,
               reports := s.reports + [Report(op, success && !(stop && !s.ops[op].save))])
  }

  ghost predicate Enters(s: State, step: Step, t: State) {
    match step
    case EntryLock(entry) => s.section.Free? && t == s.(section := Holding(entry))
    case EntryAct => s.section.Acting? && t == s.(section := Free)
    case _ => false
  }

  /** The test of an entry point under the mutex. */
  ghost predicate Asks(s: State, step: Step, t: State) {
    && step.EntryCheck? && s.section.Holding?
    && t == (if s.section.entry.BuildCache? then s.(section := if s.running then Free else Acting(BuildCache))
             else if s.stoppable.None? then s.(section := Acting(s.section.entry))
             else if s.section.entry.Close? then AfterDefer(s).(section := Free)
             else s.(section := Free))
  }

  /** The parts of run_operation that may throw before finish. */
  predicate InWork(section: Section) {
    section.Starting? || section.StartReady? || section.Capturing? || section.Captured?
    || section.Resuming? || section.Booting?
  }

  /** The steps that neither accept nor report an operation. */
  ghost predicate Quietly(s: State, step: Step, t: State) {
    || Defer(s, step, t) || Notices(s, step, t) || Environment(s, step, t) || Stops(s, step, t)
    || RunsTask(s, step, t) || Completes(s, step, t) || Starts(s, step, t)
    || Captures(s, step, t) || Checks(s, step, t) || Marks(s, step, t) || Boots(s, step, t) || Throws(s, step, t)
    || Retires(s, step, t) || Enters(s, step, t) || Asks(s, step, t)
  }

  ghost predicate Next(s: State, step: Step, t: State) {
    Quietly(s, step, t) || Accepts(s, step, t) || Reports(s, step, t)
  }

  // ----- Invariant -----

  /** How pending and stoppable relate, depending on who holds the mutex. */
  ghost predicate HandlesOk(s: State) {
    match s.section
    case Free => s.pending == s.stoppable
    case Holding(_) => s.pending == s.stoppable
    case Acting(entry) => s.pending == s.stoppable && (s.pending.Some? ==> entry.BuildCache?)
    case Requesting(op) => s.pending == Some(op) && s.stoppable.None?
    case Retired(op, _, stop) =>
      s.pending == Some(op) && s.stoppable.None? && op in s.ops && stop == s.ops[op].stopRequested
    case _ => s.pending == s.stoppable == Some(s.section.op)
  }

  /** Why an operation may be reported as a success. */
  ghost predicate Earned(o: Op) {
    if o.save then o.published else o.ran
  }

  /** The after-kill callback of an operation runs only once the emulation it found has stopped. */
  ghost predicate Stopped(s: State, op: OpId) {
    op in s.ops && s.ops[op].requestedAt < s.identifier
  }

  ghost predicate SectionOk(s: State) {
    match s.section
    case Capturing(op) => Stopped(s, op)
    case Captured(op, saved) => Stopped(s, op) && (saved && s.ops[op].save ==> s.ops[op].published)
    case Resuming(op, saved) => Stopped(s, op) && (saved && s.ops[op].save ==> s.ops[op].published)
    case Finishing(op, success) => op in s.ops && (success ==> Earned(s.ops[op]))
    case Retired(op, success, _) => op in s.ops && (success ==> Earned(s.ops[op]))
    case _ => true
  }

  ghost predicate ControlOk(s: State) {
    && HandlesOk(s) && SectionOk(s)
    && (s.pending.Some? ==> s.pending.value in s.ops)
    && (s.pending.None? ==> !s.continuous)
    && (s.pending.Some? && s.ops[s.pending.value].ran ==> s.section.Finishing? || s.section.Retired?)
    && (s.afterKill.Some? ==> s.afterKill.value in s.ops)
  }

  ghost predicate OpOk(o: Op, raised: set<nat>, identifier: nat) {
    && (o.absorbed ==> o.stopRequested)
    && (o.captured && o.save ==> o.published)
    && (o.ran ==> o.awaitingRun && o.resumeIdentifier in raised)
    && (o.awaitingRun ==> o.requestedAt < o.resumeIdentifier)
    && o.requestedAt <= identifier
  }

  ghost predicate OpsOk(s: State) {
    forall op :: op in s.ops ==> OpOk(s.ops[op], s.raised, s.identifier)
  }

  ghost predicate Reported(s: State, op: OpId) {
    exists i :: 0 <= i < |s.reports| && s.reports[i].op == op
  }

  /** A reported operation: done with, and its report was truthful. */
  ghost predicate ReportOk(s: State, r: Report) {
    && r.op in s.ops && s.pending != Some(r.op)
    && (s.ops[r.op].absorbed ==> r.op in s.killed)
    && (r.success ==> Earned(s.ops[r.op]) && (s.ops[r.op].save || !s.ops[r.op].absorbed))
  }

  ghost predicate ReportsOk(s: State) {
    && (forall i :: 0 <= i < |s.reports| ==> ReportOk(s, s.reports[i]))
    && (forall i, j :: 0 <= i < j < |s.reports| ==> s.reports[i].op != s.reports[j].op)
    && forall op :: op in s.ops && s.pending != Some(op) ==> Reported(s, op)
  }

  ghost predicate TasksOk(s: State) {
    forall task :: task in s.posted ==>
      && (task.RunTask? ==> task.identifier in s.raised)
      && (task.AfterKillTask? ==> Stopped(s, task.op))
  }

  ghost predicate Core(s: State) {
    ControlOk(s) && TasksOk(s) && OpsOk(s)
  }

  /** The slot of an operation that has published its capture holds it, and would be accepted. */
  ghost predicate DiskOk(s: State) {
    s.pending.Some? && s.pending.value in s.ops && s.ops[s.pending.value].published ==>
      Holds(s, s.ops[s.pending.value])
  }

  ghost predicate Holds(s: State, o: Op) {
    Slots.HasNew(s.sha, s.disk, o.title, o.slot, o.payload)
  }

  ghost predicate Invariant(s: State) {
    Core(s) && DiskOk(s) && ReportsOk(s)
  }

  /** The steps that may make defer_stop return true. */
  ghost predicate Defers(step: Step) {
    step.DeferStop? || step.EntryCheck?
  }

  /** How one step may change an operation, and which steps may set each history flag. */
  ghost predicate OpGrows(o: Op, step: Step, p: Op) {
    && p.save == o.save && p.requestedAt == o.requestedAt && p.title == o.title && p.slot == o.slot
    && (o.absorbed ==> p.absorbed)
    && (!o.absorbed && p.absorbed ==> Defers(step))
    && (step.CaptureDone? || (p.published == o.published && p.payload == o.payload))
    && (!o.ran && p.ran ==> step == RunTaskStep(RunTask(p.resumeIdentifier)))
  }

  /** A step that changes no operation but the pending one, and reports nothing. */
  ghost predicate Quiet(s: State, step: Step, t: State) {
    && t.pending == s.pending && t.reports == s.reports && t.killed == s.killed
    && t.raised == (if step.RunningNotice? then s.raised + {step.identifier} else s.raised)
    && s.identifier <= t.identifier && t.ops.Keys == s.ops.Keys && t.sha == s.sha
    && (step.CaptureDone? || step.DiskChanges? || t.disk == s.disk)
    && (forall op :: op in s.ops && Some(op) != s.pending ==> t.ops[op] == s.ops[op])
    && (s.pending.Some? && s.pending.value in s.ops ==>
          && OpOk(t.ops[s.pending.value], t.raised, t.identifier)
          && OpGrows(s.ops[s.pending.value], step, t.ops[s.pending.value]))
  }

  lemma QuietKeeps(s: State, step: Step, t: State)
    requires OpsOk(s) && ReportsOk(s) && Quiet(s, step, t)
    ensures OpsOk(t) && ReportsOk(t)
  {
    forall op | op in t.ops
      ensures OpOk(t.ops[op], t.raised, t.identifier)
    {
      assert op in s.ops && OpOk(s.ops[op], s.raised, s.identifier);
    }
    forall i | 0 <= i < |t.reports|
      ensures ReportOk(t, t.reports[i])
    {
      assert ReportOk(s, s.reports[i]);
    }
    forall op | op in t.ops && t.pending != Some(op)
      ensures Reported(t, op)
    {
      assert Reported(s, op);
    }
  }

  /** What every step but the first and the last of an operation shows. */
  ghost predicate Kept(s: State, step: Step, t: State) {
    ControlOk(t) && TasksOk(t) && Quiet(s, step, t)
  }

  lemma DeferKeeps(s: State, step: Step)
    requires Core(s) && Defers(step)
    ensures Kept(s, step, AfterDefer(s))
  {
    if s.stoppable.Some? {
      var op := s.stoppable.value;
      assert OpOk(s.ops[op], s.raised, s.identifier);
    }
  }

  lemma NoticesKeeps(s: State, step: Step, t: State)
    requires Core(s) && Notices(s, step, t)
    ensures Kept(s, step, t)
  {
  }

  lemma EnvironmentKeeps(s: State, step: Step, t: State)
    requires Core(s) && Environment(s, step, t)
    ensures Kept(s, step, t)
  {
  }

  lemma StopsKeeps(s: State, step: Step, t: State)
    requires Core(s) && Stops(s, step, t)
    ensures Kept(s, step, t)
  {
  }

  lemma AfterRunControl(s: State, identifier: nat)
    requires Core(s) && s.section.Free? && identifier in s.raised
    ensures ControlOk(AfterRun(s, identifier)) && TasksOk(AfterRun(s, identifier))
  {
  }

  lemma AfterRunQuiet(s: State, identifier: nat)
    requires Core(s) && s.section.Free? && identifier in s.raised
    ensures Quiet(s, RunTaskStep(RunTask(identifier)), AfterRun(s, identifier))
  {
  }

  lemma AfterRunKeeps(s: State, identifier: nat)
    requires Core(s) && s.section.Free? && identifier in s.raised
    ensures Kept(s, RunTaskStep(RunTask(identifier)), AfterRun(s, identifier))
  {
    AfterRunControl(s, identifier);
    AfterRunQuiet(s, identifier);
  }

  lemma AfterTaskKeeps(s: State, task: Task)
    requires Core(s) && s.section.Free?
    requires task.RunTask? ==> task.identifier in s.raised
    requires task.AfterKillTask? ==> Stopped(s, task.op)
    ensures Kept(s, RunTaskStep(task), AfterTask(s, task))
  {
    if task.RunTask? {
      AfterRunKeeps(s, task.identifier);
    } else {
      AfterOtherTaskKeeps(s, task);
    }
  }

  lemma AfterOtherTaskControl(s: State, task: Task)
    requires Core(s) && s.section.Free? && !task.RunTask?
    requires task.AfterKillTask? ==> Stopped(s, task.op)
    ensures ControlOk(AfterTask(s, task)) && TasksOk(AfterTask(s, task))
  {
  }

  lemma SectionIsQuiet(s: State, task: Task, t: State, section: Section, continuous: bool)
    requires Core(s) && t == s.(section := section, continuous := continuous)
    ensures Quiet(s, RunTaskStep(task), t)
  {
  }

  lemma AfterOtherTaskQuiet(s: State, task: Task)
    requires Core(s) && !task.RunTask?
    ensures Quiet(s, RunTaskStep(task), AfterTask(s, task))
  {
    var t := AfterTask(s, task);
    SectionIsQuiet(s, task, t, t.section, t.continuous);
  }

  lemma AfterOtherTaskKeeps(s: State, task: Task)
    requires Core(s) && s.section.Free? && !task.RunTask?
    requires task.AfterKillTask? ==> Stopped(s, task.op)
    ensures Kept(s, RunTaskStep(task), AfterTask(s, task))
  {
    AfterOtherTaskControl(s, task);
    AfterOtherTaskQuiet(s, task);
  }

  lemma RunsTaskKeeps(s: State, step: Step, t: State)
    requires Core(s) && RunsTask(s, step, t)
    ensures Kept(s, step, t)
  {
    AfterTaskKeeps(s.(posted := s.posted - multiset{step.task}), step.task);
  }

  lemma CompletesControl(s: State, step: Step, t: State)
    requires Core(s) && Completes(s, step, t)
    ensures ControlOk(t) && TasksOk(t)
  {
  }

  lemma CompletesQuiet(s: State, step: Step, t: State)
    requires Core(s) && Completes(s, step, t)
    ensures Quiet(s, step, t)
  {
  }

  lemma CompletesKeeps(s: State, step: Step, t: State)
    requires Core(s) && Completes(s, step, t)
    ensures Kept(s, step, t)
  {
    CompletesControl(s, step, t);
    CompletesQuiet(s, step, t);
  }

  lemma StartsKeeps(s: State, step: Step, t: State)
    requires Core(s) && Starts(s, step, t)
    ensures Kept(s, step, t)
  {
  }

  lemma CapturesKeeps(s: State, step: Step, t: State)
    requires Core(s) && Captures(s, step, t)
    ensures Kept(s, step, t)
  {
  }

  lemma ChecksKeeps(s: State, step: Step, t: State)
    requires Core(s) && Checks(s, step, t)
    ensures Kept(s, step, t)
  {
  }

  lemma MarksKeeps(s: State, step: Step, t: State)
    requires Core(s) && Marks(s, step, t)
    ensures Kept(s, step, t)
  {
  }

  lemma BootsKeeps(s: State, step: Step, t: State)
    requires Core(s) && Boots(s, step, t)
    ensures Kept(s, step, t)
  {
  }

  lemma ThrowsKeeps(s: State, step: Step, t: State)
    requires Core(s) && Throws(s, step, t)
    ensures Kept(s, step, t)
  {
  }

  lemma RetiresKeeps(s: State, step: Step, t: State)
    requires Core(s) && Retires(s, step, t)
    ensures Kept(s, step, t)
  {
  }

  lemma EntersKeeps(s: State, step: Step, t: State)
    requires Core(s) && Enters(s, step, t)
    ensures Kept(s, step, t)
  {
  }

  lemma AsksAndDefers(s: State, step: Step, t: State)
    requires Core(s) && Asks(s, step, t) && s.section.entry.Close? && s.stoppable.Some?
    ensures Kept(s, step, t)
  {
    DeferKeeps(s, step);
  }

  lemma AsksOnly(s: State, step: Step, t: State)
    requires Core(s) && Asks(s, step, t) && !(s.section.entry.Close? && s.stoppable.Some?)
    ensures Kept(s, step, t)
  {
  }

  lemma AsksKeeps(s: State, step: Step, t: State)
    requires Core(s) && Asks(s, step, t)
    ensures Kept(s, step, t)
  {
    if s.section.entry.Close? && s.stoppable.Some? {
      AsksAndDefers(s, step, t);
    } else {
      AsksOnly(s, step, t);
    }
  }

  lemma QuietlyKeeps(s: State, step: Step, t: State)
    requires Core(s) && Quietly(s, step, t)
    ensures Kept(s, step, t)
  {
    if Defer(s, step, t) { DeferKeeps(s, step); }
    if Notices(s, step, t) { NoticesKeeps(s, step, t); }
    if Environment(s, step, t) { EnvironmentKeeps(s, step, t); }
    if Stops(s, step, t) { StopsKeeps(s, step, t); }
    if RunsTask(s, step, t) { RunsTaskKeeps(s, step, t); }
    if Completes(s, step, t) { CompletesKeeps(s, step, t); }
    if Starts(s, step, t) { StartsKeeps(s, step, t); }
    if Captures(s, step, t) { CapturesKeeps(s, step, t); }
    if Checks(s, step, t) { ChecksKeeps(s, step, t); }
    if Marks(s, step, t) { MarksKeeps(s, step, t); }
    if Boots(s, step, t) { BootsKeeps(s, step, t); }
    if Throws(s, step, t) { ThrowsKeeps(s, step, t); }
    if Retires(s, step, t) { RetiresKeeps(s, step, t); }
    if Enters(s, step, t) { EntersKeeps(s, step, t); }
    if Asks(s, step, t) { AsksKeeps(s, step, t); }
  }

  // ----- The slot on disk -----

  lemma CaptureKeepsDisk(s: State, step: Step, t: State)
    requires Core(s) && DiskOk(s) && Captures(s, step, t)
    ensures DiskOk(t)
  {
    var o := s.ops[s.section.op];
    if o.save && !step.saved && o.published {
      Slots.NewStays(s.sha, s.disk, t.disk, o.title, o.slot, o.payload);
    }
  }

  lemma ChangeKeepsDisk(s: State, step: Step, t: State)
    requires Core(s) && DiskOk(s) && step.DiskChanges? && Environment(s, step, t)
    ensures DiskOk(t)
  {
    if s.pending.Some? && s.ops[s.pending.value].published {
      var o := s.ops[s.pending.value];
      Slots.NewStays(s.sha, s.disk, t.disk, o.title, o.slot, o.payload);
    }
  }

  lemma DiskKeeps(s: State, step: Step, t: State)
    requires Core(s) && DiskOk(s) && Quietly(s, step, t) && Quiet(s, step, t)
    ensures DiskOk(t)
  {
    if step.CaptureDone? {
      CaptureKeepsDisk(s, step, t);
    } else if step.DiskChanges? {
      ChangeKeepsDisk(s, step, t);
    }
  }

  lemma AcceptsKeeps(s: State, step: Step, t: State)
    requires Invariant(s) && Accepts(s, step, t)
    ensures Invariant(t)
  {
    forall op | op in t.ops && t.pending != Some(op)
      ensures Reported(t, op)
    {
      assert Reported(s, op);
    }
  }

  lemma ReportsKeeps(s: State, step: Step, t: State)
    requires Invariant(s) && Reports(s, step, t)
    ensures Core(t) && DiskOk(t)
    ensures forall i :: 0 <= i < |t.reports| ==> ReportOk(t, t.reports[i])
    ensures forall i, j :: 0 <= i < j < |t.reports| ==> t.reports[i].op != t.reports[j].op
  {
    assert forall i :: 0 <= i < |s.reports| ==> t.reports[i] == s.reports[i];
  }

  lemma ReportsAll(s: State, step: Step, t: State)
    requires Invariant(s) && Reports(s, step, t)
    ensures forall op :: op in t.ops ==> Reported(t, op)
  {
    var n := |s.reports|;
    assert t.reports[n].op == s.section.op;
    forall op | op in t.ops
      ensures Reported(t, op)
    {
      if op != s.section.op {
        assert Reported(s, op);
        var i :| 0 <= i < n && s.reports[i].op == op;
        assert t.reports[i].op == op;
      }
    }
  }

  lemma NextKeepsInvariant(s: State, step: Step, t: State)
    requires Invariant(s) && Next(s, step, t)
    ensures Invariant(t)
  {
    if Accepts(s, step, t) {
      AcceptsKeeps(s, step, t);
    } else if Reports(s, step, t) {
      ReportsKeeps(s, step, t);
      ReportsAll(s, step, t);
    } else {
      QuietlyKeeps(s, step, t);
      QuietKeeps(s, step, t);
      DiskKeeps(s, step, t);
    }
  }

  // ----- What never goes back -----

  ghost predicate Grows(s: State, t: State) {
    && s.reports <= t.reports && s.killed <= t.killed && s.identifier <= t.identifier
    && forall op :: op in s.ops ==>
      && op in t.ops && t.ops[op].save == s.ops[op].save && t.ops[op].requestedAt == s.ops[op].requestedAt
      && (s.ops[op].absorbed ==> t.ops[op].absorbed)
  }

  lemma QuietGrows(s: State, step: Step, t: State)
    requires Quiet(s, step, t)
    ensures Grows(s, t)
  {
  }

  lemma AcceptsGrows(s: State, step: Step, t: State)
    requires Accepts(s, step, t)
    ensures Grows(s, t)
  {
  }

  lemma ReportsGrows(s: State, step: Step, t: State)
    requires Reports(s, step, t)
    ensures Grows(s, t)
  {
  }

  lemma NextGrows(s: State, step: Step, t: State)
    requires Core(s) && Next(s, step, t)
    ensures Grows(s, t)
  {
    if Quietly(s, step, t) {
      QuietlyKeeps(s, step, t);
      QuietGrows(s, step, t);
    } else if Accepts(s, step, t) {
      AcceptsGrows(s, step, t);
    } else {
      ReportsGrows(s, step, t);
    }
  }

  // ----- Runs -----

  datatype Run = Run(states: seq<State>, steps: seq<Step>) {
    ghost predicate StepAt(i: nat)
      requires i < |steps| && |states| == |steps| + 1
    {
      Next(states[i], steps[i], states[i + 1])
    }

    ghost predicate Valid() {
      && |states| == |steps| + 1
      && states[0] == Initial(states[0].sha, states[0].disk)
      && forall i :: 0 <= i < |steps| ==> StepAt(i)
    }
  }

  lemma {:induction false} ReachableInvariant(run: Run, i: nat)
    requires run.Valid() && i < |run.states|
    ensures Invariant(run.states[i])
  {
    if i > 0 {
      ReachableInvariant(run, i - 1);
      assert run.StepAt(i - 1);
      NextKeepsInvariant(run.states[i - 1], run.steps[i - 1], run.states[i]);
    }
  }

  lemma GrowsOn(s: State, t: State, u: State)
    requires Grows(s, t) && Grows(t, u)
    ensures Grows(s, u)
  {
  }

  lemma StepGrows(run: Run, i: nat)
    requires run.Valid() && i < |run.steps|
    ensures Grows(run.states[i], run.states[i + 1])
  {
    ReachableInvariant(run, i);
    assert run.StepAt(i);
    NextGrows(run.states[i], run.steps[i], run.states[i + 1]);
  }

  lemma {:induction false} RunGrows(run: Run, i: nat, j: nat)
    requires run.Valid() && i <= j < |run.states|
    ensures Grows(run.states[i], run.states[j])
  {
    if i < j {
      RunGrows(run, i, j - 1);
      StepGrows(run, j - 1);
      GrowsOn(run.states[i], run.states[j - 1], run.states[j]);
    }
  }

  // ----- One operation at a time, each reported exactly once -----

  /**
   * While the mutex is free both handles agree, an accepted operation is either the pending one or
   * has been reported, and continuous mode is off when nothing is pending.
   */
  lemma OneOperationAtATime(run: Run, i: nat, op: OpId)
    requires run.Valid() && i < |run.states|
    ensures run.states[i].section.Free? ==> run.states[i].pending == run.states[i].stoppable
    ensures run.states[i].pending.None? ==> !run.states[i].continuous
    ensures op in run.states[i].ops ==> (run.states[i].pending != Some(op) <==> Reported(run.states[i], op))
  {
    ReachableInvariant(run, i);
    var s := run.states[i];
    if Reported(s, op) {
      var k :| 0 <= k < |s.reports| && s.reports[k].op == op;
      assert ReportOk(s, s.reports[k]);
    }
  }

  lemma ReportedOnce(run: Run, i: nat, j: nat, k: nat)
    requires run.Valid() && i < |run.states|
    requires j < |run.states[i].reports| && k < |run.states[i].reports|
    requires run.states[i].reports[j].op == run.states[i].reports[k].op
    ensures j == k
  {
    ReachableInvariant(run, i);
  }

  // ----- Stops -----

  /** This step is a defer_stop that returns true because of op. */
  ghost predicate AbsorbsStop(s: State, step: Step, op: OpId) {
    s.stoppable == Some(op) && (step.DeferStop? || (step.EntryCheck? && s.section == Holding(Close)))
  }

  lemma AbsorbedStays(run: Run, i: nat, j: nat, op: OpId)
    requires run.Valid() && i < j < |run.states|
    requires AbsorbsStop(run.states[i], run.steps[i], op)
    ensures op in run.states[j].ops && run.states[j].ops[op].absorbed
  {
    ReachableInvariant(run, i);
    assert run.StepAt(i);
    assert run.states[i + 1].ops[op].absorbed;
    RunGrows(run, i + 1, j);
  }

  /**
   * A stop that defer_stop accepted is carried out: by the time the operation that took it is
   * reported, its finish has killed the emulator, and a load is never reported as a success.
   */
  lemma StopIsHonoured(run: Run, i: nat, j: nat, k: nat)
    requires run.Valid() && i < j < |run.states| && k < |run.states[j].reports|
    requires AbsorbsStop(run.states[i], run.steps[i], run.states[j].reports[k].op)
    ensures run.states[j].reports[k].op in run.states[j].killed
    ensures |run.states[i].reports| <= k
    ensures run.states[j].reports[k].op in run.states[j].ops
    ensures run.states[j].reports[k].success ==> run.states[j].ops[run.states[j].reports[k].op].save
  {
    var r := run.states[j].reports[k];
    AbsorbedStays(run, i, j, r.op);
    ReachableInvariant(run, i);
    ReachableInvariant(run, j);
    RunGrows(run, i, j);
    assert ReportOk(run.states[j], r);
  }

  /** An operation that was asked to stop before its start callback looked never gets to the kill. */
  lemma StopBeforeStart(run: Run, i: nat, j: nat, op: OpId)
    requires run.Valid() && i < j < |run.steps| && AbsorbsStop(run.states[i], run.steps[i], op)
    requires run.steps[j] == StartCheck && run.states[j].section == Starting(op)
    ensures run.states[j + 1].section == Finishing(op, false)
  {
    AbsorbedStays(run, i, j, op);
    ReachableInvariant(run, j);
    assert run.StepAt(j);
    assert OpOk(run.states[j].ops[op], run.states[j].raised, run.states[j].identifier);
  }

  /**
   * Close, boot and install act on the emulator only when no operation is under way: everything
   * accepted so far has been reported and continuous mode is off.
   */
  lemma DirectActionsAreExclusive(run: Run, i: nat, op: OpId)
    requires run.Valid() && i < |run.states|
    requires run.states[i].section.Acting? && !run.states[i].section.entry.BuildCache?
    ensures run.states[i].pending.None? && run.states[i].stoppable.None? && !run.states[i].continuous
    ensures op in run.states[i].ops ==> Reported(run.states[i], op)
  {
    ReachableInvariant(run, i);
  }

  /**
   * The cache builder starts on a stopped emulator. It is alone exactly when busy() would have been
   * false at the moment it took the mutex.
   */
  lemma CacheBuildIsExclusiveIff(run: Run, i: nat, op: OpId)
    requires run.Valid() && i < |run.steps| && run.steps[i] == EntryCheck
    requires run.states[i].section == Holding(BuildCache) && run.states[i + 1].section.Acting?
    ensures !run.states[i].running
    ensures run.states[i + 1].pending.None? <==> run.states[i].stoppable.None?
    ensures run.states[i].stoppable.None? && op in run.states[i + 1].ops ==> Reported(run.states[i + 1], op)
  {
    ReachableInvariant(run, i);
    ReachableInvariant(run, i + 1);
    assert run.StepAt(i);
  }

  lemma RunExtended(run: Run, step: Step, t: State)
    requires run.Valid() && Next(run.states[|run.steps|], step, t)
    ensures Run(run.states + [t], run.steps + [step]).Valid()
  {
    var longer := Run(run.states + [t], run.steps + [step]);
    forall i | 0 <= i < |longer.steps|
      ensures longer.StepAt(i)
    {
      assert i < |run.steps| ==> run.StepAt(i);
    }
  }

  /** A run up to the kill with which a save begins. */
  lemma RunToKill(sha: Slots.Hash, disk: Slots.Disk) returns (run: Run)
    ensures run.Valid()
    ensures var s := run.states[|run.steps|];
            s.section.Free? && s.pending == s.stoppable == Some(0) && s.afterKill == Some(0)
  {
    var s0 := Initial(sha, disk);
    run := Run([s0], []);
    var s1 := s0.(running := true);
    RunExtended(run, EmulatorStarted, s1);
    run := Run(run.states + [s1], run.steps + [EmulatorStarted]);
    var s2 := s1.(ops := s1.ops[0 := NewOp("A", 0, true, 0)], pending := Some(0), section := Requesting(0));
    assert Slots.ValidTitle("A");
    RunExtended(run, RequestBegin(0, "A", 0, true), s2);
    run := Run(run.states + [s2], run.steps + [RequestBegin(0, "A", 0, true)]);
    var s3 := s2.(stoppable := Some(0), section := Free, posted := s2.posted + multiset{StartTask(0)});
    RunExtended(run, RequestEnd, s3);
    run := Run(run.states + [s3], run.steps + [RequestEnd]);
    run := RunStart(run);
  }

  lemma RunStart(run: Run) returns (longer: Run)
    requires run.Valid()
    requires var s := run.states[|run.steps|];
             s.section.Free? && s.pending == s.stoppable == Some(0) && 0 in s.ops && !s.ops[0].stopRequested
             && StartTask(0) in s.posted
    ensures longer.Valid()
    ensures var t := longer.states[|longer.steps|];
            t.section.Free? && t.pending == t.stoppable == Some(0) && t.afterKill == Some(0)
  {
    var s3 := run.states[|run.steps|];
    var s4 := s3.(section := Starting(0), posted := s3.posted - multiset{StartTask(0)});
    RunExtended(run, RunTaskStep(StartTask(0)), s4);
    longer := Run(run.states + [s4], run.steps + [RunTaskStep(StartTask(0))]);
    var s5 := s4.(section := StartReady(0));
    RunExtended(longer, StartCheck, s5);
    longer := Run(longer.states + [s5], longer.steps + [StartCheck]);
    var s6 := s5.(section := Free, continuous := true, afterKill := Some(0));
    RunExtended(longer, StartGo, s6);
    longer := Run(longer.states + [s6], longer.steps + [StartGo]);
  }

  /** It need not be alone: it may act between the kill and the resume of an operation. */
  lemma CacheBuildOverlaps(sha: Slots.Hash, disk: Slots.Disk) returns (run: Run)
    ensures run.Valid()
    ensures var s := run.states[|run.steps|];
            s.section == Acting(BuildCache) && s.pending == Some(0) && AfterKillTask(0) in s.posted
  {
    run := RunToKill(sha, disk);
    var s6 := run.states[|run.steps|];
    var s7 := s6.(running := false, identifier := s6.identifier + 1, afterKill := None,
                  posted := s6.posted + multiset{AfterKillTask(0)});
    RunExtended(run, EmulatorStopped, s7);
    run := Run(run.states + [s7], run.steps + [EmulatorStopped]);
    var s8 := s7.(section := Holding(BuildCache));
    RunExtended(run, EntryLock(BuildCache), s8);
    run := Run(run.states + [s8], run.steps + [EntryLock(BuildCache)]);
    var s9 := s8.(section := Acting(BuildCache));
    RunExtended(run, EntryCheck, s9);
    run := Run(run.states + [s9], run.steps + [EntryCheck]);
  }

  // ----- Truthful reports -----

  lemma AcceptedAt(run: Run, i: nat, op: OpId)
    requires run.Valid() && i < |run.steps| && op in run.states[i + 1].ops && op !in run.states[i].ops
    ensures run.steps[i].RequestBegin? && run.steps[i].op == op
    ensures run.steps[i].save == run.states[i + 1].ops[op].save
    ensures run.states[i].identifier == run.states[i + 1].ops[op].requestedAt
  {
    ReachableInvariant(run, i);
    assert run.StepAt(i);
    if Quietly(run.states[i], run.steps[i], run.states[i + 1]) {
      QuietlyKeeps(run.states[i], run.steps[i], run.states[i + 1]);
    }
  }

  lemma {:induction false} AcceptedHasStep(run: Run, n: nat, op: OpId) returns (k: nat)
    requires run.Valid() && n < |run.states| && op in run.states[n].ops
    ensures k < n && run.steps[k].RequestBegin? && run.steps[k].op == op
    ensures run.steps[k].save == run.states[n].ops[op].save
    ensures run.states[k].identifier == run.states[n].ops[op].requestedAt
  {
    if op in run.states[n - 1].ops {
      StepGrows(run, n - 1);
      k := AcceptedHasStep(run, n - 1, op);
    } else {
      AcceptedAt(run, n - 1, op);
      k := n - 1;
    }
  }

  /** This step is a capture_slot for op that returned true and captured bytes. */
  ghost predicate PublishStep(s: State, step: Step, op: OpId, bytes: Bytes) {
    && step.CaptureDone? && step.saved && s.section == Capturing(op)
    && op in s.ops && s.ops[op].written && bytes == Slots.SourceOf(s.disk, step.path)
  }

  lemma PublishedBy(s: State, step: Step, t: State, op: OpId)
    requires Core(s) && Next(s, step, t) && op in t.ops && t.ops[op].published
    requires !(op in s.ops && s.ops[op].published && s.ops[op].payload == t.ops[op].payload)
    ensures PublishStep(s, step, op, t.ops[op].payload)
  {
    if Captures(s, step, t) {
      CapturePublishes(s, step, t, op);
    } else if Quietly(s, step, t) {
      QuietPublishesNothing(s, step, t, op);
    } else {
      EndsPublishNothing(s, step, t, op);
    }
  }

  lemma QuietPublishesNothing(s: State, step: Step, t: State, op: OpId)
    requires Core(s) && Quietly(s, step, t) && !Captures(s, step, t) && op in t.ops
    ensures op in s.ops && t.ops[op].published == s.ops[op].published && t.ops[op].payload == s.ops[op].payload
  {
    QuietlyKeeps(s, step, t);
    if step.CaptureDone? {
      OnlyCaptures(s, step, t);
    }
  }

  lemma EndsPublishNothing(s: State, step: Step, t: State, op: OpId)
    requires (Accepts(s, step, t) || Reports(s, step, t)) && op in t.ops && t.ops[op].published
    ensures op in s.ops && s.ops[op] == t.ops[op]
  {
  }

  lemma CapturePublishes(s: State, step: Step, t: State, op: OpId)
    requires Captures(s, step, t) && op in t.ops && t.ops[op].published
    requires !(op in s.ops && s.ops[op].published && s.ops[op].payload == t.ops[op].payload)
    ensures PublishStep(s, step, op, t.ops[op].payload)
  {
  }

  lemma PublishedAt(run: Run, i: nat, op: OpId)
    requires run.Valid() && i < |run.steps| && op in run.states[i + 1].ops && run.states[i + 1].ops[op].published
    requires var s := run.states[i];
             !(op in s.ops && s.ops[op].published && s.ops[op].payload == run.states[i + 1].ops[op].payload)
    ensures PublishStep(run.states[i], run.steps[i], op, run.states[i + 1].ops[op].payload)
  {
    ReachableInvariant(run, i);
    assert run.StepAt(i);
    PublishedBy(run.states[i], run.steps[i], run.states[i + 1], op);
  }

  lemma {:induction false} PublishedHasStep(run: Run, n: nat, op: OpId) returns (k: nat)
    requires run.Valid() && n < |run.states|
    requires op in run.states[n].ops && run.states[n].ops[op].published
    ensures k < n && PublishStep(run.states[k], run.steps[k], op, run.states[n].ops[op].payload)
  {
    var s, bytes := run.states[n - 1], run.states[n].ops[op].payload;
    if op in s.ops && s.ops[op].published && s.ops[op].payload == bytes {
      k := PublishedHasStep(run, n - 1, op);
    } else {
      PublishedAt(run, n - 1, op);
      k := n - 1;
    }
  }

  lemma RaisedBy(s: State, step: Step, t: State, identifier: nat)
    requires Core(s) && Next(s, step, t) && identifier in t.raised && identifier !in s.raised
    ensures step == RunningNotice(identifier) && identifier <= s.identifier
  {
    if Quietly(s, step, t) {
      QuietlyKeeps(s, step, t);
    }
  }

  lemma RaisedAt(run: Run, i: nat, identifier: nat)
    requires run.Valid() && i < |run.steps|
    requires identifier in run.states[i + 1].raised && identifier !in run.states[i].raised
    ensures run.steps[i] == RunningNotice(identifier) && identifier <= run.states[i].identifier
  {
    ReachableInvariant(run, i);
    assert run.StepAt(i);
    RaisedBy(run.states[i], run.steps[i], run.states[i + 1], identifier);
  }

  lemma {:induction false} RaisedHasStep(run: Run, n: nat, identifier: nat) returns (k: nat)
    requires run.Valid() && n < |run.states| && identifier in run.states[n].raised
    ensures k < n && run.steps[k] == RunningNotice(identifier) && identifier <= run.states[k].identifier
  {
    if identifier in run.states[n - 1].raised {
      k := RaisedHasStep(run, n - 1, identifier);
    } else {
      RaisedAt(run, n - 1, identifier);
      k := n - 1;
    }
  }

  // ----- Each operation captures at most once -----

  /** How many captures of op are still to come. */
  function Tokens(s: State, op: OpId): nat {
    s.posted[StartTask(op)] + s.posted[AfterKillTask(op)] + (if s.afterKill == Some(op) then 1 else 0)
    + (if s.section in {Starting(op), StartReady(op), Capturing(op)} then 1 else 0)
  }

  predicate Unused(o: Op) {
    !o.published && !o.awaitingRun
  }

  /** What the body of the after-kill callback remembers about the capture. */
  ghost predicate Remembers(s: State, op: OpId, o: Op) {
    && (s.section == Requesting(op) ==> Tokens(s, op) == 0 && Unused(o))
    && (Tokens(s, op) == 1 ==> Unused(o))
    && ((s.section.Captured? || s.section.Resuming?) && s.section.op == op ==>
          Tokens(s, op) == 0 && !o.awaitingRun && s.section.saved == (o.save ==> o.published))
    && (o.awaitingRun ==> o.captured == (o.save ==> o.published))
  }

  ghost predicate Once(s: State, op: OpId) {
    && Tokens(s, op) <= 1
    && (op !in s.ops ==> Tokens(s, op) == 0)
    && (op in s.ops ==> Remembers(s, op, s.ops[op]))
  }

  predicate SameCapture(o: Op, p: Op) {
    p.save == o.save && p.published == o.published && p.awaitingRun == o.awaitingRun && p.captured == o.captured
  }

  /** A step that brings no capture nearer. */
  ghost predicate Onward(s: State, t: State, op: OpId) {
    && Tokens(t, op) <= Tokens(s, op) && t.ops.Keys == s.ops.Keys
    && (op in s.ops ==> SameCapture(s.ops[op], t.ops[op]))
    && (t.section == s.section || !(t.section.Requesting? || t.section.Captured? || t.section.Resuming?))
  }

  lemma OnwardOnce(s: State, t: State, op: OpId)
    requires Once(s, op) && Onward(s, t, op)
    ensures Once(t, op)
  {
  }

  lemma DeferOnward(s: State, op: OpId)
    ensures Onward(s, AfterDefer(s), op) && AfterDefer(s).section == s.section
    ensures Tokens(AfterDefer(s), op) == Tokens(s, op)
  {
  }

  lemma EntryOnward(s: State, t: State, op: OpId, section: Section)
    requires s.section.Holding? && (section.Free? || section.Acting?) && t == s.(section := section)
    ensures Onward(s, t, op)
  {
  }

  lemma OnwardTwice(s: State, t: State, u: State, op: OpId)
    requires Onward(s, t, op) && Onward(t, u, op)
    ensures Onward(s, u, op)
  {
  }

  lemma AsksOnward(s: State, step: Step, t: State, op: OpId)
    requires Asks(s, step, t)
    ensures Onward(s, t, op)
  {
    if s.section.entry.Close? && s.stoppable.Some? {
      DeferOnward(s, op);
      EntryOnward(AfterDefer(s), t, op, Free);
      OnwardTwice(s, AfterDefer(s), t, op);
    } else {
      EntryOnward(s, t, op, t.section);
    }
  }

  lemma OutsideOnward(s: State, step: Step, t: State, op: OpId)
    requires Notices(s, step, t) || Environment(s, step, t)
    ensures Onward(s, t, op)
  {
  }

  lemma StopsOnward(s: State, step: Step, t: State, op: OpId)
    requires Stops(s, step, t)
    ensures Onward(s, t, op)
  {
    if s.afterKill == Some(op) {
      assert t.posted[AfterKillTask(op)] == s.posted[AfterKillTask(op)] + 1;
    }
  }

  lemma TaskTokens(s: State, task: Task, op: OpId)
    requires task in s.posted && s.section.Free?
    ensures var rest := s.(posted := s.posted - multiset{task});
            Tokens(rest, op) == Tokens(s, op) - if task in {StartTask(op), AfterKillTask(op)} then 1 else 0
  {
  }

  lemma AfterRunOnward(s: State, identifier: nat, op: OpId)
    requires s.section.Free?
    ensures Onward(s, AfterRun(s, identifier), op)
  {
  }

  lemma AfterTaskTokens(s: State, task: Task, op: OpId)
    requires s.section.Free? && !task.RunTask?
    ensures var t := AfterTask(s, task);
            && t.ops == s.ops && !(t.section.Requesting? || t.section.Captured? || t.section.Resuming?)
            && Tokens(t, op) <= Tokens(s, op) + if task in {StartTask(op), AfterKillTask(op)} then 1 else 0
  {
  }

  lemma TaskOnward(s: State, step: Step, t: State, op: OpId)
    requires RunsTask(s, step, t)
    ensures Onward(s, t, op)
  {
    var rest := s.(posted := s.posted - multiset{step.task});
    TaskTokens(s, step.task, op);
    if step.task.RunTask? {
      AfterRunOnward(rest, step.task.identifier, op);
    } else {
      AfterTaskTokens(rest, step.task, op);
    }
  }

  lemma CompletesOnward(s: State, step: Step, t: State, op: OpId)
    requires Completes(s, step, t)
    ensures Onward(s, t, op)
  {
  }

  lemma EndsOnward(s: State, step: Step, t: State, op: OpId)
    requires Boots(s, step, t) || Throws(s, step, t)
    ensures Onward(s, t, op)
  {
  }

  lemma LastOnward(s: State, step: Step, t: State, op: OpId)
    requires Retires(s, step, t) || Reports(s, step, t) || Enters(s, step, t)
    ensures Onward(s, t, op)
  {
  }

  lemma StartsOnce(s: State, step: Step, t: State, op: OpId)
    requires Core(s) && Once(s, op) && Starts(s, step, t)
    ensures Once(t, op)
  {
  }

  lemma CapturesOnce(s: State, step: Step, t: State, op: OpId)
    requires Core(s) && Once(s, op) && Captures(s, step, t)
    ensures Once(t, op)
  {
  }

  lemma ChecksOnce(s: State, step: Step, t: State, op: OpId)
    requires Once(s, op) && Checks(s, step, t)
    ensures Once(t, op)
  {
  }

  lemma MarksOnce(s: State, step: Step, t: State, op: OpId)
    requires Once(s, op) && Marks(s, step, t)
    ensures Once(t, op)
  {
  }

  lemma AcceptsOnce(s: State, step: Step, t: State, op: OpId)
    requires Core(s) && Once(s, op) && Accepts(s, step, t)
    ensures Once(t, op)
  {
  }

  lemma NextOnce(s: State, step: Step, t: State, op: OpId)
    requires Core(s) && Once(s, op) && Next(s, step, t)
    ensures Once(t, op)
  {
    if Starts(s, step, t) {
      StartsOnce(s, step, t, op);
    } else if Captures(s, step, t) {
      CapturesOnce(s, step, t, op);
    } else if Checks(s, step, t) {
      ChecksOnce(s, step, t, op);
    } else if Marks(s, step, t) {
      MarksOnce(s, step, t, op);
    } else if Accepts(s, step, t) {
      AcceptsOnce(s, step, t, op);
    } else {
      RestOnward(s, step, t, op);
      OnwardOnce(s, t, op);
    }
  }

  lemma RestOnward(s: State, step: Step, t: State, op: OpId)
    requires Next(s, step, t) && !Starts(s, step, t) && !Captures(s, step, t)
    requires !Checks(s, step, t) && !Marks(s, step, t) && !Accepts(s, step, t)
    ensures Onward(s, t, op)
  {
    if Defer(s, step, t) { DeferOnward(s, op); }
    if Asks(s, step, t) { AsksOnward(s, step, t, op); }
    if Notices(s, step, t) || Environment(s, step, t) { OutsideOnward(s, step, t, op); }
    if Stops(s, step, t) { StopsOnward(s, step, t, op); }
    if RunsTask(s, step, t) { TaskOnward(s, step, t, op); }
    if Completes(s, step, t) { CompletesOnward(s, step, t, op); }
    if Boots(s, step, t) || Throws(s, step, t) { EndsOnward(s, step, t, op); }
    if Retires(s, step, t) || Reports(s, step, t) || Enters(s, step, t) { LastOnward(s, step, t, op); }
  }

  lemma OnceAt(run: Run, i: nat, op: OpId)
    requires run.Valid() && i < |run.steps| && Once(run.states[i], op)
    ensures Once(run.states[i + 1], op)
  {
    ReachableCore(run, i);
    assert run.StepAt(i);
    NextOnce(run.states[i], run.steps[i], run.states[i + 1], op);
  }

  lemma ReachableCore(run: Run, i: nat)
    requires run.Valid() && i < |run.states|
    ensures Core(run.states[i])
  {
    ReachableInvariant(run, i);
  }

  lemma {:induction false} ReachableOnce(run: Run, i: nat, op: OpId)
    requires run.Valid() && i < |run.states|
    ensures Once(run.states[i], op)
  {
    if i > 0 {
      ReachableOnce(run, i - 1, op);
      OnceAt(run, i - 1, op);
    }
  }

  // ----- Exactly which operations succeed -----

  /** This step is the run notification that op waits for. */
  ghost predicate RanStep(s: State, step: Step, op: OpId) {
    && s.section.Free? && s.pending == Some(op) && op in s.ops
    && s.ops[op].awaitingRun && step == RunTaskStep(RunTask(s.ops[op].resumeIdentifier))
  }

  /** This step sees a stop request just after the capture of op. */
  ghost predicate CutStep(s: State, step: Step, op: OpId) {
    step == CaptureCheck && s.section.Captured? && s.section.op == op && op in s.ops && s.ops[op].stopRequested
  }

  /** This step ends the chance of a load to be stopped, and no stop was asked for. */
  ghost predicate UnstoppedStep(s: State, step: Step, op: OpId) {
    step == FinishRetire && s.section.Finishing? && s.section.op == op && op in s.ops && !s.ops[op].stopRequested
  }

  ghost predicate ReportAt(run: Run, j: nat, op: OpId, success: bool)
    requires run.Valid()
  {
    && j < |run.steps| && run.steps[j] == FinishEnd
    && run.states[j + 1].reports == run.states[j].reports + [Report(op, success)]
  }

  /** The steps that leave the critical section alone. */
  ghost predicate Elsewhere(s: State, step: Step, t: State) {
    Defer(s, step, t) || Notices(s, step, t) || Environment(s, step, t) || Stops(s, step, t) || Completes(s, step, t)
  }

  lemma SectionStays(s: State, step: Step, t: State)
    requires Elsewhere(s, step, t)
    ensures t.section == s.section
  {
  }

  /** The steps of somebody who is not finishing an operation. */
  ghost predicate Unfinished(s: State, step: Step, t: State) {
    || RunsTask(s, step, t) || Starts(s, step, t) || Captures(s, step, t) || Checks(s, step, t) || Marks(s, step, t)
    || Boots(s, step, t) || Throws(s, step, t) || Enters(s, step, t) || Asks(s, step, t) || Accepts(s, step, t)
  }

  lemma UnfinishedSection(s: State, step: Step, t: State)
    requires Unfinished(s, step, t)
    ensures !s.section.Finishing? && !s.section.Retired?
  {
  }

  lemma StepKinds(s: State, step: Step, t: State)
    requires Next(s, step, t)
    ensures Elsewhere(s, step, t) || Unfinished(s, step, t) || Retires(s, step, t) || Reports(s, step, t)
  {
  }

  /** Whoever finishes an operation keeps the mutex until it is reported. */
  lemma FinishHolds(s: State, step: Step, t: State)
    requires Next(s, step, t) && (s.section.Finishing? || s.section.Retired?)
    ensures t.section == s.section || Retires(s, step, t) || Reports(s, step, t)
  {
    StepKinds(s, step, t);
    if Elsewhere(s, step, t) {
      SectionStays(s, step, t);
    } else if Unfinished(s, step, t) {
      UnfinishedSection(s, step, t);
    }
  }

  lemma FinishStep(s: State, step: Step, t: State, op: OpId, b: bool)
    requires Next(s, step, t) && s.section == Finishing(op, b) && op in s.ops
    ensures t.section == Finishing(op, b)
         || (step == FinishRetire && t.section == Retired(op, b, s.ops[op].stopRequested))
  {
    FinishHolds(s, step, t);
  }

  lemma RetiredStep(s: State, step: Step, t: State, op: OpId, b: bool, stop: bool)
    requires Next(s, step, t) && s.section == Retired(op, b, stop) && op in s.ops
    ensures t.section == Retired(op, b, stop) || t.reports == s.reports + [Report(op, b && !(stop && !s.ops[op].save))]
  {
    FinishHolds(s, step, t);
  }

  /** Where a finish that began at i stands at n. */
  ghost predicate FinishAt(run: Run, i: nat, n: nat, op: OpId, b: bool, m: nat)
    requires run.Valid() && i <= n < |run.states|
  {
    || Reported(run.states[n], op)
    || run.states[n].section == Finishing(op, b)
    || (i <= m < n && run.steps[m] == FinishRetire && run.states[m].section == Finishing(op, b)
        && op in run.states[m].ops
        && run.states[n].section == Retired(op, b, run.states[m].ops[op].stopRequested))
  }

  lemma ReportedStays(run: Run, n: nat, op: OpId)
    requires run.Valid() && n < |run.steps| && Reported(run.states[n], op)
    ensures Reported(run.states[n + 1], op)
  {
    StepGrows(run, n);
    var i :| 0 <= i < |run.states[n].reports| && run.states[n].reports[i].op == op;
    assert run.states[n + 1].reports[i].op == op;
  }

  lemma JustReported(s: State, t: State, r: Report)
    requires t.reports == s.reports + [r]
    ensures Reported(t, r.op)
  {
    assert t.reports[|s.reports|].op == r.op;
  }

  lemma FinishOneMore(run: Run, i: nat, n: nat, op: OpId, b: bool, m: nat) returns (m': nat)
    requires run.Valid() && i <= n < |run.steps| && FinishAt(run, i, n, op, b, m)
    ensures FinishAt(run, i, n + 1, op, b, m')
  {
    var s, step, t := run.states[n], run.steps[n], run.states[n + 1];
    ReachableInvariant(run, n);
    assert run.StepAt(n);
    m' := m;
    if Reported(s, op) {
      ReportedStays(run, n, op);
    } else if s.section == Finishing(op, b) {
      FinishStep(s, step, t, op, b);
      m' := n;
    } else {
      var stop := s.section.stop;
      RetiredStep(s, step, t, op, b, stop);
      if t.section != s.section {
        JustReported(s, t, Report(op, b && !(stop && !s.ops[op].save)));
      }
    }
  }

  lemma {:induction false} FinishLeads(run: Run, i: nat, n: nat, op: OpId, b: bool) returns (m: nat)
    requires run.Valid() && i <= n < |run.states| && run.states[i].section == Finishing(op, b)
    ensures FinishAt(run, i, n, op, b, m)
    decreases n - i
  {
    m := 0;
    if i < n {
      m := FinishLeads(run, i, n - 1, op, b);
      m := FinishOneMore(run, i, n - 1, op, b, m);
    }
  }

  /** A report, seen from the state before it. */
  lemma ReportIs(run: Run, j: nat, op: OpId, success: bool)
    requires run.Valid() && ReportAt(run, j, op, success)
    ensures var s := run.states[j];
            && s.section.Retired? && s.section.op == op && op in s.ops && !Reported(s, op)
            && success == (s.section.success && !(s.section.stop && !s.ops[op].save))
  {
    var s, t := run.states[j], run.states[j + 1];
    ReachableInvariant(run, j);
    assert run.StepAt(j);
    assert Reports(s, FinishEnd, t);
    assert t.reports[|s.reports|] == Report(op, success);
    PendingIsUnreported(s, op);
  }

  lemma PendingIsUnreported(s: State, op: OpId)
    requires ReportsOk(s) && s.pending == Some(op)
    ensures !Reported(s, op)
  {
    forall i | 0 <= i < |s.reports|
      ensures s.reports[i].op != op
    {
      assert ReportOk(s, s.reports[i]);
    }
  }

  /** The report of an operation whose finish began with success b. */
  lemma FinishIsReported(run: Run, i: nat, j: nat, op: OpId, b: bool, success: bool) returns (m: nat)
    requires run.Valid() && i <= j && ReportAt(run, j, op, success) && run.states[i].section == Finishing(op, b)
    ensures i <= m < j && run.steps[m] == FinishRetire && run.states[m].section == Finishing(op, b)
    ensures op in run.states[m].ops && op in run.states[j].ops
    ensures success == (b && (run.states[j].ops[op].save || !run.states[m].ops[op].stopRequested))
  {
    ReportIs(run, j, op, success);
    m := FinishLeads(run, i, j, op, b);
  }

  // ----- Where a finish comes from -----

  /** Who may have begun a finish, and with which success. */
  ghost predicate FinishFrom(s: State, step: Step, op: OpId, b: bool) {
    && (RanStep(s, step, op) ==> b == s.ops[op].captured)
    && (CutStep(s, step, op) ==> b == (s.ops[op].save && s.section.saved))
    && (b ==> RanStep(s, step, op) || CutStep(s, step, op))
  }

  lemma RunFinishes(s: State, step: Step, t: State, op: OpId, b: bool)
    requires RunsTask(s, step, t) && step.task.RunTask? && t.section == Finishing(op, b)
    ensures RanStep(s, step, op) && b == s.ops[op].captured
  {
  }

  lemma OtherTaskFinishes(s: State, step: Step, t: State, op: OpId, b: bool)
    requires RunsTask(s, step, t) && !step.task.RunTask? && t.section == Finishing(op, b)
    ensures !b
  {
  }

  lemma TaskFinishes(s: State, step: Step, t: State, op: OpId, b: bool)
    requires RunsTask(s, step, t) && t.section == Finishing(op, b)
    ensures FinishFrom(s, step, op, b)
  {
    if step.task.RunTask? {
      RunFinishes(s, step, t, op, b);
    } else {
      OtherTaskFinishes(s, step, t, op, b);
    }
  }

  lemma CheckFinishes(s: State, step: Step, t: State, op: OpId, b: bool)
    requires Checks(s, step, t) && t.section == Finishing(op, b)
    ensures FinishFrom(s, step, op, b)
  {
  }

  lemma WorkFinishes(s: State, step: Step, t: State, op: OpId, b: bool)
    requires Starts(s, step, t) || Boots(s, step, t) || Throws(s, step, t)
    requires t.section == Finishing(op, b)
    ensures FinishFrom(s, step, op, b)
  {
  }

  /** The steps that finish or retire nothing. */
  lemma OthersDoNotFinish(s: State, step: Step, t: State)
    requires Next(s, step, t) && t.section != s.section
    requires !RunsTask(s, step, t) && !Checks(s, step, t) && !Retires(s, step, t)
    requires !(Starts(s, step, t) || Boots(s, step, t) || Throws(s, step, t))
    ensures !t.section.Finishing? && !t.section.Retired?
  {
    StepKinds(s, step, t);
    if Elsewhere(s, step, t) {
      SectionStays(s, step, t);
    } else {
      RestSections(s, step, t);
    }
  }

  lemma RestSections(s: State, step: Step, t: State)
    requires Captures(s, step, t) || Marks(s, step, t) || Enters(s, step, t) || Asks(s, step, t)
          || Accepts(s, step, t) || Reports(s, step, t)
    ensures !t.section.Finishing? && !t.section.Retired?
  {
  }

  lemma FinishComes(s: State, step: Step, t: State, op: OpId, b: bool)
    requires Next(s, step, t) && t.section == Finishing(op, b) && s.section != t.section
    ensures FinishFrom(s, step, op, b)
  {
    if RunsTask(s, step, t) {
      TaskFinishes(s, step, t, op, b);
    } else if Checks(s, step, t) {
      CheckFinishes(s, step, t, op, b);
    } else if Starts(s, step, t) || Boots(s, step, t) || Throws(s, step, t) {
      WorkFinishes(s, step, t, op, b);
    } else if !Retires(s, step, t) {
      OthersDoNotFinish(s, step, t);
    }
  }

  lemma {:induction false} FinishHasStep(run: Run, n: nat, op: OpId, b: bool) returns (i: nat)
    requires run.Valid() && n < |run.states| && run.states[n].section == Finishing(op, b)
    ensures i < n && run.states[i + 1].section == Finishing(op, b) && run.states[i].section != Finishing(op, b)
  {
    if run.states[n - 1].section == Finishing(op, b) {
      i := FinishHasStep(run, n - 1, op, b);
    } else {
      i := n - 1;
    }
  }

  lemma RetiredComes(s: State, step: Step, t: State, op: OpId, b: bool, stop: bool)
    requires Next(s, step, t) && t.section == Retired(op, b, stop) && s.section != t.section
    ensures s.section == Finishing(op, b) && step == FinishRetire && op in s.ops && stop == s.ops[op].stopRequested
  {
    if !Retires(s, step, t) {
      WorkDoesNotRetire(s, step, t);
    }
  }

  lemma WorkDoesNotRetire(s: State, step: Step, t: State)
    requires Next(s, step, t) && t.section != s.section && !Retires(s, step, t)
    ensures !t.section.Retired?
  {
    if RunsTask(s, step, t) {
      TaskDoesNotRetire(s, step, t);
    } else if Checks(s, step, t) || Starts(s, step, t) || Boots(s, step, t) || Throws(s, step, t) {
      BodyDoesNotRetire(s, step, t);
    } else {
      OthersDoNotFinish(s, step, t);
    }
  }

  lemma TaskDoesNotRetire(s: State, step: Step, t: State)
    requires RunsTask(s, step, t)
    ensures !t.section.Retired?
  {
  }

  lemma BodyDoesNotRetire(s: State, step: Step, t: State)
    requires Checks(s, step, t) || Starts(s, step, t) || Boots(s, step, t) || Throws(s, step, t)
    ensures !t.section.Retired?
  {
  }

  lemma {:induction false} RetiredHasStep(run: Run, n: nat, op: OpId, b: bool, stop: bool) returns (m: nat)
    requires run.Valid() && n < |run.states| && run.states[n].section == Retired(op, b, stop)
    ensures m < n && run.steps[m] == FinishRetire && run.states[m].section == Finishing(op, b)
    ensures op in run.states[m].ops && stop == run.states[m].ops[op].stopRequested
  {
    if run.states[n - 1].section == Retired(op, b, stop) {
      m := RetiredHasStep(run, n - 1, op, b, stop);
    } else {
      assert run.StepAt(n - 1);
      RetiredComes(run.states[n - 1], run.steps[n - 1], run.states[n], op, b, stop);
      m := n - 1;
    }
  }

  // ----- Truthful and complete reports -----

  lemma PublishedStep(s: State, step: Step, t: State, op: OpId, bytes: Bytes)
    requires Captures(s, step, t) && PublishStep(s, step, op, bytes) && s.ops[op].save
    ensures op in t.ops && t.ops[op].published
  {
  }

  lemma PublishedKept(s: State, step: Step, t: State, op: OpId)
    requires Core(s) && Next(s, step, t) && op in s.ops && s.ops[op].published
    ensures op in t.ops && t.ops[op].published
  {
    if Captures(s, step, t) {
      CapturesPublished(s, step, t, op);
    } else if Quietly(s, step, t) {
      QuietlyKeeps(s, step, t);
      QuietPublished(s, step, t, op);
    }
  }

  lemma CapturesPublished(s: State, step: Step, t: State, op: OpId)
    requires Captures(s, step, t) && op in s.ops && s.ops[op].published
    ensures op in t.ops && t.ops[op].published
  {
  }

  lemma QuietPublished(s: State, step: Step, t: State, op: OpId)
    requires Quietly(s, step, t) && !Captures(s, step, t) && Quiet(s, step, t) && op in s.ops && s.ops[op].published
    ensures op in t.ops && t.ops[op].published
  {
    if step.CaptureDone? {
      OnlyCaptures(s, step, t);
    }
  }

  lemma PublishedKeptAt(run: Run, n: nat, op: OpId)
    requires run.Valid() && n < |run.steps| && op in run.states[n].ops && run.states[n].ops[op].published
    ensures op in run.states[n + 1].ops && run.states[n + 1].ops[op].published
  {
    ReachableCore(run, n);
    assert run.StepAt(n);
    PublishedKept(run.states[n], run.steps[n], run.states[n + 1], op);
  }

  lemma {:induction false} PublishedStays(run: Run, k: nat, n: nat, op: OpId)
    requires run.Valid() && k <= n < |run.states| && op in run.states[k].ops && run.states[k].ops[op].published
    ensures op in run.states[n].ops && run.states[n].ops[op].published
  {
    if k < n {
      PublishedStays(run, k, n - 1, op);
      PublishedKeptAt(run, n - 1, op);
    }
  }

  /** Some capture_slot for op before n returned true. */
  ghost predicate PublishedBefore(run: Run, n: nat, op: OpId)
    requires run.Valid()
  {
    exists k, bytes :: 0 <= k < n && k < |run.steps| && PublishStep(run.states[k], run.steps[k], op, bytes)
  }

  lemma PublishedIff(run: Run, n: nat, op: OpId)
    requires run.Valid() && n < |run.states| && op in run.states[n].ops && run.states[n].ops[op].save
    ensures run.states[n].ops[op].published <==> PublishedBefore(run, n, op)
  {
    if run.states[n].ops[op].published {
      var k := PublishedHasStep(run, n, op);
    } else if PublishedBefore(run, n, op) {
      var k, bytes :| 0 <= k < n && k < |run.steps| && PublishStep(run.states[k], run.steps[k], op, bytes);
      RunGrows(run, k, n);
      CaptureAt(run, k, op, bytes);
      PublishedStays(run, k + 1, n, op);
    }
  }

  lemma CaptureAt(run: Run, k: nat, op: OpId, bytes: Bytes)
    requires run.Valid() && k < |run.steps| && PublishStep(run.states[k], run.steps[k], op, bytes)
    requires run.states[k].ops[op].save
    ensures op in run.states[k + 1].ops && run.states[k + 1].ops[op].published
  {
    assert run.StepAt(k);
    OnlyCaptures(run.states[k], run.steps[k], run.states[k + 1]);
    PublishedStep(run.states[k], run.steps[k], run.states[k + 1], op, bytes);
  }

  lemma OnlyCaptures(s: State, step: Step, t: State)
    requires Next(s, step, t) && step.CaptureDone?
    ensures Captures(s, step, t)
  {
  }

  /** The steps that let a save succeed: its run notification, or a stop seen just after its capture. */
  ghost predicate EndStep(s: State, step: Step, op: OpId) {
    RanStep(s, step, op) || CutStep(s, step, op)
  }

  lemma EndFinishes(s: State, step: Step, t: State, op: OpId)
    requires Core(s) && Once(s, op) && Next(s, step, t) && EndStep(s, step, op)
    ensures var o := s.ops[op];
            t.section == Finishing(op, if RanStep(s, step, op) then o.save ==> o.published else o.save && o.published)
  {
    if RanStep(s, step, op) {
      OnlyRunsTask(s, step, t);
    } else {
      OnlyChecks(s, step, t);
    }
  }

  lemma OnlyRunsTask(s: State, step: Step, t: State)
    requires Next(s, step, t) && step.RunTaskStep?
    ensures RunsTask(s, step, t)
  {
  }

  lemma OnlyChecks(s: State, step: Step, t: State)
    requires Next(s, step, t) && step.CaptureCheck?
    ensures Checks(s, step, t)
  {
  }

  lemma EndFinishesAt(run: Run, i: nat, op: OpId)
    requires run.Valid() && i < |run.steps| && EndStep(run.states[i], run.steps[i], op)
    ensures op in run.states[i].ops
    ensures var s, o := run.states[i], run.states[i].ops[op];
            run.states[i + 1].section
            == Finishing(op, if RanStep(s, run.steps[i], op) then o.save ==> o.published else o.save && o.published)
  {
    ReachableInvariant(run, i);
    ReachableOnce(run, i, op);
    assert run.StepAt(i);
    EndFinishes(run.states[i], run.steps[i], run.states[i + 1], op);
  }

  /** A save whose capture succeeded and which then ran again, or was stopped right then, is reported as a success. */
  lemma PublishedSaveSucceeds(run: Run, i: nat, j: nat, op: OpId, success: bool)
    requires run.Valid() && i < j && ReportAt(run, j, op, success)
    requires EndStep(run.states[i], run.steps[i], op) && PublishedBefore(run, i, op)
    requires op in run.states[i].ops && run.states[i].ops[op].save
    ensures success
  {
    PublishedIff(run, i, op);
    EndFinishesAt(run, i, op);
    RunGrows(run, i, j);
    var m := FinishIsReported(run, i + 1, j, op, true, success);
  }

  /** Why a report is a success: the step that began the finish, and the one that closed it to stops. */
  lemma SuccessHasSteps(run: Run, j: nat, op: OpId) returns (i: nat, m: nat)
    requires run.Valid() && ReportAt(run, j, op, true)
    ensures i < m < j && EndStep(run.states[i], run.steps[i], op) && run.states[i + 1].section == Finishing(op, true)
    ensures run.steps[m] == FinishRetire && run.states[m].section == Finishing(op, true)
    ensures op in run.states[m].ops && op in run.states[j].ops
    ensures run.states[j].ops[op].save || !run.states[m].ops[op].stopRequested
  {
    ReportIs(run, j, op, true);
    var s := run.states[j];
    m := RetiredHasStep(run, j, op, true, s.section.stop);
    i := FinishHasStep(run, m, op, true);
    assert run.StepAt(i);
    FinishComes(run.states[i], run.steps[i], run.states[i + 1], op, true);
  }

  /** A step before j lets op end well, its capture having succeeded. */
  ghost predicate SaveEndsWell(run: Run, i: nat, op: OpId)
    requires run.Valid()
  {
    i < |run.steps| && EndStep(run.states[i], run.steps[i], op) && PublishedBefore(run, i, op)
  }

  /**
   * A save is reported as a success exactly when its capture succeeded and afterwards either the run
   * notification it waited for arrived or a stop was seen right after the capture.
   */
  lemma SaveReportIff(run: Run, j: nat, op: OpId, success: bool)
    requires run.Valid() && ReportAt(run, j, op, success)
    requires op in run.states[j].ops && run.states[j].ops[op].save
    ensures success <==> exists i :: 0 <= i < j && SaveEndsWell(run, i, op)
  {
    if success {
      var i, m := SuccessHasSteps(run, j, op);
      EndFinishesAt(run, i, op);
      RunGrows(run, i, j);
      PublishedIff(run, i, op);
      assert SaveEndsWell(run, i, op);
    } else if exists i :: 0 <= i < j && SaveEndsWell(run, i, op) {
      var i :| 0 <= i < j && SaveEndsWell(run, i, op);
      EndFinishesAt(run, i, op);
      RunGrows(run, i, j);
      PublishedSaveSucceeds(run, i, j, op, success);
    }
  }

  /** The run notification of a load, and the end of its finish without a stop. */
  ghost predicate LoadEndsWell(run: Run, i: nat, m: nat, op: OpId)
    requires run.Valid()
  {
    && i < |run.steps| && m < |run.steps|
    && RanStep(run.states[i], run.steps[i], op) && UnstoppedStep(run.states[m], run.steps[m], op)
  }

  /**
   * A load is reported as a success exactly when the run notification it waited for arrived and no
   * stop had been requested when its finish retired it.
   */
  lemma LoadReportIff(run: Run, j: nat, op: OpId, success: bool)
    requires run.Valid() && ReportAt(run, j, op, success)
    requires op in run.states[j].ops && !run.states[j].ops[op].save
    ensures success <==> exists i, m :: 0 <= i < m < j && LoadEndsWell(run, i, m, op)
  {
    if success {
      var i, m := LoadSuccessHasSteps(run, j, op);
    } else if exists i, m :: 0 <= i < m < j && LoadEndsWell(run, i, m, op) {
      var i, m :| 0 <= i < m < j && LoadEndsWell(run, i, m, op);
      RunLoadSucceeds(run, i, m, j, op, success);
    }
  }

  lemma LoadSuccessHasSteps(run: Run, j: nat, op: OpId) returns (i: nat, m: nat)
    requires run.Valid() && ReportAt(run, j, op, true)
    requires op in run.states[j].ops && !run.states[j].ops[op].save
    ensures i < m < j && LoadEndsWell(run, i, m, op)
  {
    i, m := SuccessHasSteps(run, j, op);
    EndFinishesAt(run, i, op);
    RunGrows(run, i, j);
  }

  lemma RunLoadSucceeds(run: Run, i: nat, m: nat, j: nat, op: OpId, success: bool)
    requires run.Valid() && i < m < j && LoadEndsWell(run, i, m, op) && ReportAt(run, j, op, success)
    requires op in run.states[j].ops && !run.states[j].ops[op].save
    ensures success
  {
    EndFinishesAt(run, i, op);
    RunGrows(run, i, j);
    UnstoppedLoad(run, i + 1, m, j, op, success);
  }

  lemma UnstoppedLoad(run: Run, i: nat, m: nat, j: nat, op: OpId, success: bool)
    requires run.Valid() && i <= m < j && ReportAt(run, j, op, success) && run.states[i].section == Finishing(op, true)
    requires UnstoppedStep(run.states[m], run.steps[m], op)
    ensures success
  {
    var n := FinishIsReported(run, i, j, op, true, success);
    RetiresOnce(run, m, n, j, op, true, success);
  }

  /** An operation retires only once. */
  lemma RetiresOnce(run: Run, m: nat, n: nat, j: nat, op: OpId, b: bool, success: bool)
    requires run.Valid() && m < j && n < j && ReportAt(run, j, op, success)
    requires run.steps[m] == FinishRetire && run.states[m].section.Finishing? && run.states[m].section.op == op
    requires run.steps[n] == FinishRetire && run.states[n].section == Finishing(op, b)
    ensures m == n
  {
    ReportIs(run, j, op, success);
    if m < n {
      RetiresBefore(run, m, n, j, op);
    } else if n < m {
      RetiresBefore(run, n, m, j, op);
    }
  }

  lemma RetiresBefore(run: Run, m: nat, n: nat, j: nat, op: OpId)
    requires run.Valid() && m < n < j < |run.states| && run.steps[m] == FinishRetire
    requires run.states[m].section.Finishing? && run.states[m].section.op == op && run.states[n].section.Finishing?
    ensures Reported(run.states[j], op)
  {
    ReachableInvariant(run, m);
    assert run.StepAt(m);
    RetiresTo(run.states[m], run.states[m + 1]);
    RetiredLeads(run, m + 1, n, op);
    ReportedFrom(run, n, j, op);
  }

  lemma RetiresTo(s: State, t: State)
    requires Next(s, FinishRetire, t) && s.section.Finishing?
    ensures t.section.Retired? && t.section.op == s.section.op
  {
  }

  lemma {:induction false} ReportedFrom(run: Run, n: nat, j: nat, op: OpId)
    requires run.Valid() && n <= j < |run.states| && Reported(run.states[n], op)
    ensures Reported(run.states[j], op)
    decreases j
  {
    if n < j {
      ReportedFrom(run, n, j - 1, op);
      ReportedStays(run, j - 1, op);
    }
  }

  lemma RetiredOneMore(run: Run, n: nat, op: OpId)
    requires run.Valid() && n < |run.steps| && run.states[n].section.Retired? && run.states[n].section.op == op
    ensures Reported(run.states[n + 1], op)
         || (run.states[n + 1].section.Retired? && run.states[n + 1].section.op == op)
  {
    var s, t := run.states[n], run.states[n + 1];
    ReachableInvariant(run, n);
    assert run.StepAt(n);
    var Retired(_, b, stop) := s.section;
    RetiredStep(s, run.steps[n], t, op, b, stop);
    if t.section != s.section {
      JustReported(s, t, Report(op, b && !(stop && !s.ops[op].save)));
    }
  }

  lemma {:induction false} RetiredLeads(run: Run, i: nat, n: nat, op: OpId)
    requires run.Valid() && i <= n < |run.states| && run.states[i].section.Retired? && run.states[i].section.op == op
    ensures Reported(run.states[n], op) || (run.states[n].section.Retired? && run.states[n].section.op == op)
    decreases n
  {
    if i < n {
      RetiredLeads(run, i, n - 1, op);
      if Reported(run.states[n - 1], op) {
        ReportedStays(run, n - 1, op);
      } else {
        RetiredOneMore(run, n - 1, op);
      }
    }
  }

  /**
   * A save reported as a success: at that moment the slot is accepted and holds exactly the bytes
   * that capture_slot copied, in an earlier step, from a state file that had been written.
   */
  lemma SaveSuccessIsTruthful(run: Run, j: nat, op: OpId) returns (k: nat)
    requires run.Valid() && ReportAt(run, j, op, true)
    requires op in run.states[j].ops && run.states[j].ops[op].save
    ensures var o, t := run.states[j].ops[op], run.states[j + 1];
            Slots.Accepted(t.sha, t.disk, o.title, o.slot) && Slots.Contents(t.disk, o.title, o.slot) == o.payload
    ensures k < j && PublishStep(run.states[k], run.steps[k], op, run.states[j].ops[op].payload)
  {
    ReachableInvariant(run, j);
    assert run.StepAt(j);
    var s, o := run.states[j], run.states[j].ops[op];
    ReportedIs(s, run.states[j + 1], op);
    assert Holds(s, o);
    Slots.NewIsAccepted(s.sha, s.disk, o.title, o.slot, o.payload);
    k := PublishedHasStep(run, j, op);
  }

  lemma ReportedIs(s: State, t: State, op: OpId)
    requires Core(s) && Reports(s, FinishEnd, t) && t.reports == s.reports + [Report(op, true)]
    ensures s.pending == Some(op) && op in s.ops && Earned(s.ops[op]) && t.disk == s.disk && t.sha == s.sha
  {
    assert t.reports[|s.reports|] == Report(op, true);
  }

  /**
   * A load reported as a success saw a run notification carrying the identifier it recorded. That
   * notification was raised after the emulation found by the request had stopped, so it is not one
   * of an earlier boot, and no stop was absorbed at any point.
   */
  lemma LoadSuccessIsTruthful(run: Run, n: nat, r: Report) returns (k: nat, i: nat)
    requires run.Valid() && n < |run.states| && r in run.states[n].reports
    requires r.success && r.op in run.states[n].ops && !run.states[n].ops[r.op].save
    ensures k < i < n && run.steps[k].RequestBegin? && run.steps[k].op == r.op && !run.steps[k].save
    ensures run.steps[i] == RunningNotice(run.states[n].ops[r.op].resumeIdentifier)
    ensures run.states[k].identifier < run.states[i].identifier
    ensures forall j :: 0 <= j < n ==> !AbsorbsStop(run.states[j], run.steps[j], r.op)
  {
    ReachableInvariant(run, n);
    assert ReportOk(run.states[n], r);
    var o := run.states[n].ops[r.op];
    k := AcceptedHasStep(run, n, r.op);
    i := RaisedHasStep(run, n, o.resumeIdentifier);
    if i <= k {
      RunGrows(run, i, k);
    }
    forall j | 0 <= j < n
      ensures !AbsorbsStop(run.states[j], run.steps[j], r.op)
    {
      if AbsorbsStop(run.states[j], run.steps[j], r.op) {
        AbsorbedStays(run, j, n, r.op);
      }
    }
  }
}
