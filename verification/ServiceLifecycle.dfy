/** The Windows service lifecycle: control handler, startup reporter, ready
    callback and stop path, each working under one mutex on `ControlState`. */
module ServiceLifecycle {

  const U32_MAX: nat := 0xFFFF_FFFF

  datatype Phase = Starting | Running | Stopping | Stopped

  datatype Status = StartPending(checkpoint: nat) | IsRunning | StopPending | IsStopped

  /** What the outside sees, in order. */
  datatype Event = Reported(status: Status) | StopTaken | ShutdownSent

  /** How far `run_service` itself has come. */
  datatype MainPc = Registering | InApplication | ReadyCalled | Returned

  datatype ReporterPc = NotSpawned | Spawned | InWait | Done

  datatype Control = Control(
    phase: Phase,
    checkpoint: nat,
    hasHandle: bool,
    hasSender: bool,
    log: seq<Event>,
    main: MainPc,
    reporter: ReporterPc)

  const INITIAL: Control := Control(Starting, 1, false, true, [], Registering, NotSpawned)

  /** The critical sections; `ok` says whether the status report got through. */
  datatype Section =
    | TakeStop(ok: bool)
    | Register(ok: bool)
    | ReporterStarts
    | ReporterWakes(ok: bool)
    | Ready(ok: bool)
    | Exit(ok: bool)

  function Report(c: Control, status: Status, ok: bool): Control {
    if ok then c.(log := c.log + [Reported(status)]) else c
  }

  predicate Enabled(c: Control, a: Section) {
    match a
    case TakeStop(_) => true
    case Register(_) => c.main.Registering?
    case ReporterStarts => c.reporter.Spawned?
    case ReporterWakes(_) => c.reporter.InWait?
    case Ready(_) => c.main.InApplication?
    case Exit(_) => c.main.InApplication? || c.main.ReadyCalled?
  }

  function Apply(c: Control, a: Section): Control
    requires Enabled(c, a)
  {
    match a
    case TakeStop(ok) =>
      var taken := c.(phase := Stopping, log := c.log + [StopTaken]);
      var reported := if c.hasHandle then Report(taken, StopPending, ok) else taken;
      if c.hasSender then reported.(hasSender := false, log := reported.log + [ShutdownSent]) else reported
    case Register(ok) =>
      var reported := Report(c.(hasHandle := true), StartPending(c.checkpoint), ok);
      if ok then reported.(main := InApplication, reporter := Spawned) else reported.(main := Returned)
    case ReporterStarts =>
      c.(reporter := if c.phase.Starting? then InWait else Done)
    case ReporterWakes(ok) =>
      if !c.phase.Starting? then c.(reporter := Done)
      else
        var next := if c.checkpoint < U32_MAX then c.checkpoint + 1 else U32_MAX;
        var reported := if c.hasHandle then Report(c.(checkpoint := next), StartPending(next), ok)
          else c.(checkpoint := next);
        if ok then reported else reported.(reporter := Done)
    case Ready(ok) =>
      if !c.phase.Starting? || !ok then c.(main := ReadyCalled)
      else Report(c, IsRunning, true).(phase := Running, main := ReadyCalled)
    case Exit(ok) => Report(c.(phase := Stopped, main := Returned), IsStopped, ok)
  }

  /** The object behind the mutex. Each method is one critical section. */
  class ControlState {
    var phase: Phase
    var checkpoint: nat
    var statusHandle: bool
    var shutdownTx: bool
    var log: seq<Event>

    ghost function View(main: MainPc, reporter: ReporterPc): Control
      reads this
    {
      Control(phase, checkpoint, statusHandle, shutdownTx, log, main, reporter)
    }

    constructor ()
      ensures View(Registering, NotSpawned) == INITIAL
    {
      phase, checkpoint, statusHandle, shutdownTx, log := Starting, 1, false, true, [];
    }

    /** `set_service_status`, which may fail. */
    method SetServiceStatus(status: Status, ok: bool)
      modifies this`log
      ensures log == if ok then old(log) + [Reported(status)] else old(log)
    {
      if ok { log := log + [Reported(status)]; }
    }

    method OnStop(ok: bool, ghost main: MainPc, ghost reporter: ReporterPc)
      modifies this
      ensures View(main, reporter) == Apply(old(View(main, reporter)), TakeStop(ok))
    {
      phase := Stopping;
      log := log + [StopTaken];
      if statusHandle { SetServiceStatus(StopPending, ok); }
      if shutdownTx {
        shutdownTx := false;
        log := log + [ShutdownSent];
      }
    }

    method OnRegistered(ok: bool) returns (main: MainPc, reporter: ReporterPc)
      modifies this
      ensures View(main, reporter) == Apply(old(View(Registering, NotSpawned)), Register(ok))
    {
      statusHandle := true;
      SetServiceStatus(StartPending(checkpoint), ok);
      main, reporter := if ok then InApplication else Returned, if ok then Spawned else NotSpawned;
    }

    /** The reporter's loop body once its wait is over. */
    method OnReporterWoken(ok: bool, ghost main: MainPc) returns (reporter: ReporterPc)
      modifies this
      ensures View(main, reporter) == Apply(old(View(main, InWait)), ReporterWakes(ok))
    {
      if phase != Starting { return Done; }
      checkpoint := if checkpoint < U32_MAX then checkpoint + 1 else U32_MAX;
      if statusHandle { SetServiceStatus(StartPending(checkpoint), ok); }
      reporter := if ok then InWait else Done;
    }

    method OnReady(ok: bool, ghost reporter: ReporterPc) returns (accepted: bool)
      modifies this
      ensures View(ReadyCalled, reporter) == Apply(old(View(InApplication, reporter)), Ready(ok))
      ensures accepted <==> old(phase).Starting? && ok
    {
      if phase != Starting { return false; }
      SetServiceStatus(IsRunning, ok);
      if !ok { return false; }
      phase := Running;
      return true;
    }

    method OnExit(ok: bool, ghost main: MainPc, ghost reporter: ReporterPc)
      requires main.InApplication? || main.ReadyCalled?
      modifies this
      ensures View(Returned, reporter) == Apply(old(View(main, reporter)), Exit(ok))
    {
      phase := Stopped;
      SetServiceStatus(IsStopped, ok);
    }
  }

  // ---------------------------------------------------------------------
  // What every log says.
  // ---------------------------------------------------------------------

  predicate Starts(e: Event) { e.Reported? && e.status.StartPending? }
  predicate PastStart(e: Event) { e.Reported? && !e.status.StartPending? }

  /** No StartPending after a Running, StopPending or Stopped report, and the
      checkpoints reported rise, until they saturate. */
  ghost predicate StartsFirst(log: seq<Event>) {
    && (forall i, j :: 0 <= i < j < |log| && PastStart(log[i]) ==> !Starts(log[j]))
    && (forall i, j :: 0 <= i < j < |log| && Starts(log[i]) && Starts(log[j]) ==> Rises(log[i], log[j]))
  }

  predicate Rises(earlier: Event, later: Event)
    requires Starts(earlier) && Starts(later)
  {
    earlier.status.checkpoint < later.status.checkpoint || later.status.checkpoint == U32_MAX
  }

  /** Running is reported at most once, and never after a stop was taken. */
  ghost predicate RunsOnce(log: seq<Event>) {
    forall i, j :: 0 <= i < j < |log| && (log[i] == Reported(IsRunning) || log[i] == StopTaken) ==>
      log[j] != Reported(IsRunning)
  }

  /** The shutdown signal fires at most once, and only for a stop taken. */
  ghost predicate SignalsOnce(log: seq<Event>) {
    && (forall i, j :: 0 <= i < j < |log| && log[i] == ShutdownSent ==> log[j] != ShutdownSent)
    && (forall j :: 0 <= j < |log| && log[j] == ShutdownSent ==> exists i :: 0 <= i < j && log[i] == StopTaken)
  }

  ghost predicate Safe(log: seq<Event>) { StartsFirst(log) && RunsOnce(log) && SignalsOnce(log) }

  ghost predicate Inv(c: Control) {
    && Safe(c.log)
    && (c.phase.Starting? ==> forall i :: 0 <= i < |c.log| ==> !PastStart(c.log[i]) && c.log[i] != StopTaken)
    && (forall i :: 0 <= i < |c.log| && Starts(c.log[i]) ==> c.log[i].status.checkpoint <= c.checkpoint)
    && (c.main.Registering? ==>
          !c.hasHandle && c.reporter.NotSpawned? && forall i :: 0 <= i < |c.log| ==> !c.log[i].Reported?)
    && (c.hasSender <==> forall i :: 0 <= i < |c.log| ==> c.log[i] != ShutdownSent)
    && (c.reporter.NotSpawned? || c.hasHandle)
    && c.checkpoint <= U32_MAX
    && ((exists i :: 0 <= i < |c.log| && c.log[i] == StopTaken) ==> !c.hasSender)
  }

  lemma AppendKeeps(log: seq<Event>, e: Event)
    requires Safe(log)
    requires Starts(e) ==> forall i :: 0 <= i < |log| ==>
             !PastStart(log[i]) && (Starts(log[i]) ==> Rises(log[i], e))
    requires e == Reported(IsRunning) ==> forall i :: 0 <= i < |log| ==> log[i] != e && log[i] != StopTaken
    requires e == ShutdownSent ==> (forall i :: 0 <= i < |log| ==> log[i] != e) && StopTaken in log
    ensures Safe(log + [e])
  {
    var longer := log + [e];
    assert forall i :: 0 <= i < |log| ==> longer[i] == log[i];
    forall j | 0 <= j < |longer| && longer[j] == ShutdownSent
      ensures exists i :: 0 <= i < j && longer[i] == StopTaken
    {
      var i :| 0 <= i < (if j < |log| then j else |log|) && log[i] == StopTaken;
      assert longer[i] == StopTaken;
    }
  }

  lemma StopKeepsInv(c: Control, ok: bool)
    requires Inv(c)
    ensures Inv(Apply(c, TakeStop(ok)))
  {
    hide Safe;
    var log1 := c.log + [StopTaken];
    AppendKeeps(c.log, StopTaken);
    var log2 := if c.hasHandle && ok then log1 + [Reported(StopPending)] else log1;
    if c.hasHandle && ok { AppendKeeps(log1, Reported(StopPending)); }
    assert log2[|c.log|] == StopTaken;
    if c.hasSender { AppendKeeps(log2, ShutdownSent); }
    var t := Apply(c, TakeStop(ok));
    assert forall i :: 0 <= i < |c.log| ==> t.log[i] == c.log[i];
    if c.hasSender {
      assert t.log[|t.log| - 1] == ShutdownSent;
    } else {
      var i :| 0 <= i < |c.log| && c.log[i] == ShutdownSent;
      assert t.log[i] == ShutdownSent;
    }
  }

  lemma InvKept(c: Control, a: Section)
    requires Inv(c) && Enabled(c, a)
    ensures Inv(Apply(c, a))
  {
    hide Safe;
    var t := Apply(c, a);
    if a.TakeStop? {
      StopKeepsInv(c, a.ok);
    } else if t.log != c.log {
      AppendKeeps(c.log, t.log[|c.log|]);
      assert t.log == c.log + [t.log[|c.log|]];
      assert forall i :: 0 <= i < |c.log| ==> t.log[i] == c.log[i];
      assert (exists i :: 0 <= i < |t.log| && t.log[i] == StopTaken) ==> StopTaken in c.log;
    }
  }

  ghost predicate IsRun(states: seq<Control>, sections: seq<Section>) {
    && |states| == |sections| + 1 && states[0] == INITIAL
    && forall k :: 0 <= k < |sections| ==>
      Enabled(states[k], sections[k]) && states[k + 1] == Apply(states[k], sections[k])
  }

  lemma {:induction false} RunKeepsInv(states: seq<Control>, sections: seq<Section>, k: nat)
    requires IsRun(states, sections) && k < |states|
    ensures Inv(states[k])
    decreases k
  {
    hide Apply, Enabled;
    if k > 0 {
      RunKeepsInv(states, sections, k - 1);
      InvKept(states[k - 1], sections[k - 1]);
    }
  }

  /** Every interleaving of handler, reporter, callback and stop path reports
      in order, runs once and signals once. */
  lemma EveryRunIsSafe(states: seq<Control>, sections: seq<Section>, k: nat)
    requires IsRun(states, sections) && k < |states|
    ensures StartsFirst(states[k].log) && RunsOnce(states[k].log) && SignalsOnce(states[k].log)
    // A stop request that was taken has been passed on.
    ensures StopTaken in states[k].log ==> ShutdownSent in states[k].log
  {
    hide IsRun;
    RunKeepsInv(states, sections, k);
  }

  /** The start is reported for as long as it takes: once registered the reporter
      waits, and each time it wakes it reports the next checkpoint and waits on. */
  lemma {:induction false} StartIsReported(n: nat) returns (states: seq<Control>, sections: seq<Section>)
    requires n < U32_MAX
    ensures IsRun(states, sections) && |sections| == n + 2
    ensures sections[0] == Register(true) && sections[1] == ReporterStarts
    ensures forall k :: 2 <= k < |sections| ==> sections[k] == ReporterWakes(true)
    ensures var c := states[n + 2];
      && c.phase.Starting? && c.hasHandle && c.reporter.InWait? && c.checkpoint == n + 1 && |c.log| == n + 1
      && forall i :: 0 <= i <= n ==> c.log[i] == Reported(StartPending(i + 1))
    decreases n
  {
    if n == 0 {
      var s1 := Apply(INITIAL, Register(true));
      states, sections := [INITIAL, s1, Apply(s1, ReporterStarts)], [Register(true), ReporterStarts];
    } else {
      var before, earlier := StartIsReported(n - 1);
      var c := before[n + 1];
      states, sections := before + [Apply(c, ReporterWakes(true))], earlier + [ReporterWakes(true)];
      assert IsRun(states, sections) by {
        forall k | 0 <= k < |sections|
          ensures Enabled(states[k], sections[k]) && states[k + 1] == Apply(states[k], sections[k])
        {
          if k < n + 1 { assert before[k + 1] == Apply(before[k], earlier[k]); }
        }
      }
    }
  }

  // ---------------------------------------------------------------------
  // Reports after Stopped.
  // ---------------------------------------------------------------------

  /** Some report follows the report of Stopped. */
  ghost predicate ReportsAfterStopped(log: seq<Event>) {
    exists i, j :: 0 <= i < j < |log| && log[i] == Reported(IsStopped) && log[j].Reported?
  }

  /** Some stop that gets its report through comes after an exit that did. */
  ghost predicate StoppedLate(sections: seq<Section>, n: nat)
    requires n <= |sections|
  {
    exists e, k :: 0 <= e < k < n && sections[e] == Exit(true) && sections[k] == TakeStop(true)
  }

  ghost predicate ExitReported(sections: seq<Section>, n: nat)
    requires n <= |sections|
  {
    exists e :: 0 <= e < n && sections[e] == Exit(true)
  }

  lemma RunStep(states: seq<Control>, sections: seq<Section>, k: nat)
    requires IsRun(states, sections) && k < |sections|
    ensures Enabled(states[k], sections[k]) && states[k + 1] == Apply(states[k], sections[k])
  {}

  /** What the reports so far say of where the service is. */
  ghost predicate Placed(c: Control) {
    && (c.main.Registering? || c.hasHandle)
    && (Reported(IsStopped) in c.log ==> c.main.Returned? && !c.phase.Starting?)
  }

  lemma PlacedKept(c: Control, a: Section)
    requires Placed(c) && Enabled(c, a)
    ensures Placed(Apply(c, a))
    ensures Reported(IsStopped) in Apply(c, a).log <==> Reported(IsStopped) in c.log || a == Exit(true)
  {
    var t := Apply(c, a);
    assert forall e :: e in t.log[|c.log|..] ==> e in t.log;
    assert t.log == c.log + t.log[|c.log|..];
    if a == Exit(true) { assert t.log[|c.log|] == Reported(IsStopped); }
  }

  lemma {:induction false} StoppedIsReportedByExit(states: seq<Control>, sections: seq<Section>, n: nat)
    requires IsRun(states, sections) && n < |states|
    ensures Placed(states[n])
    ensures Reported(IsStopped) in states[n].log <==> ExitReported(sections, n)
    decreases n
  {
    hide Apply, Enabled, Placed;
    if n == 0 {
      PlacedAtFirst();
    } else {
      StoppedIsReportedByExit(states, sections, n - 1);
      RunStep(states, sections, n - 1);
      PlacedKept(states[n - 1], sections[n - 1]);
      if sections[n - 1] == Exit(true) { assert ExitReported(sections, n); }
    }
  }

  lemma PlacedAtFirst()
    ensures Placed(INITIAL) && Reported(IsStopped) !in INITIAL.log
  {}

  predicate HasReport(log: seq<Event>) { exists i :: 0 <= i < |log| && log[i].Reported? }

  lemma ReportsInParts(log: seq<Event>, more: seq<Event>)
    requires !ReportsAfterStopped(more)
    ensures ReportsAfterStopped(log + more) <==>
            ReportsAfterStopped(log) || (Reported(IsStopped) in log && HasReport(more))
  {
    var all := log + more;
    assert forall i :: 0 <= i < |log| ==> all[i] == log[i];
    assert forall i :: 0 <= i < |more| ==> all[|log| + i] == more[i];
    if i, j :| 0 <= i < j < |all| && all[i] == Reported(IsStopped) && all[j].Reported? {
      if j >= |log| { assert more[j - |log|] == all[j]; }
    }
    if Reported(IsStopped) in log && HasReport(more) {
      var i :| 0 <= i < |log| && log[i] == Reported(IsStopped);
      var j :| 0 <= j < |more| && more[j].Reported?;
      assert all[i] == Reported(IsStopped) && all[|log| + j].Reported?;
    }
  }

  /** What a section adds to the log. */
  function Added(c: Control, a: Section): seq<Event>
    requires Enabled(c, a)
  {
    var log := Apply(c, a).log;
    if |c.log| <= |log| then log[|c.log|..] else []
  }

  lemma AddedIsShort(c: Control, a: Section)
    requires Enabled(c, a)
    ensures Apply(c, a).log == c.log + Added(c, a)
    ensures !ReportsAfterStopped(Added(c, a))
    ensures c.main.Returned? && !c.phase.Starting? && c.hasHandle ==> (HasReport(Added(c, a)) <==> a == TakeStop(true))
  {
    var more := Added(c, a);
    if a == TakeStop(true) && c.hasHandle { assert more[1] == Reported(StopPending); }
  }

  /** Once Stopped is reported, only a stop reports again. */
  lemma OnlyStopsReportAfterwards(c: Control, a: Section)
    requires Placed(c) && Enabled(c, a)
    ensures ReportsAfterStopped(Apply(c, a).log) <==>
            ReportsAfterStopped(c.log) || (Reported(IsStopped) in c.log && a == TakeStop(true))
  {
    hide Apply, Enabled, HasReport, ReportsAfterStopped, Added;
    AddedIsShort(c, a);
    ReportsInParts(c.log, Added(c, a));
  }

  lemma LateOneMore(sections: seq<Section>, n: nat)
    requires n < |sections|
    ensures StoppedLate(sections, n + 1) <==>
            StoppedLate(sections, n) || (ExitReported(sections, n) && sections[n] == TakeStop(true))
  {
    if ExitReported(sections, n) && sections[n] == TakeStop(true) {
      var e :| 0 <= e < n && sections[e] == Exit(true);
      assert StoppedLate(sections, n + 1);
    }
  }

  /** The exact condition, over every run: a report follows Stopped if and only if
      a stop whose report gets through comes after the exit. */
  lemma {:induction false} StoppedIsLastUnlessStopped(states: seq<Control>, sections: seq<Section>, n: nat)
    requires IsRun(states, sections) && n < |states|
    ensures ReportsAfterStopped(states[n].log) <==> StoppedLate(sections, n)
    decreases n
  {
    hide Apply, Enabled, Placed, ReportsAfterStopped, StoppedLate, ExitReported;
    if n == 0 {
      NothingReported(sections);
    } else {
      StoppedIsLastUnlessStopped(states, sections, n - 1);
      StoppedIsReportedByExit(states, sections, n - 1);
      RunStep(states, sections, n - 1);
      OnlyStopsReportAfterwards(states[n - 1], sections[n - 1]);
      LateOneMore(sections, n - 1);
    }
  }

  lemma NothingReported(sections: seq<Section>)
    ensures !ReportsAfterStopped(INITIAL.log) && !StoppedLate(sections, 0)
  {}

  /** "Stopped is the last report" is false: the handler does not look at the
      phase. Here the service registers, runs, exits, and is then told to stop. */
  lemma StopAfterExitReportsAgain()
    ensures exists states: seq<Control> ::
              && IsRun(states, [Register(true), Ready(true), Exit(true), TakeStop(true)])
              && states[4].log == [Reported(StartPending(1)), Reported(IsRunning), Reported(IsStopped), StopTaken,
                                   Reported(StopPending), ShutdownSent]
  {
    var sections := [Register(true), Ready(true), Exit(true), TakeStop(true)];
    var s1 := Apply(INITIAL, sections[0]);
    var s2 := Apply(s1, sections[1]);
    var s3 := Apply(s2, sections[2]);
    var s4 := Apply(s3, sections[3]);
    assert IsRun([INITIAL, s1, s2, s3, s4], sections);
  }
}
