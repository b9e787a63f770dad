/** The provider probe of the settings page: overlapping runs, resets, and the guard against stale responses. */
module ProviderProbe {
  import opened Prelude

  datatype ProbeState =
    | Idle
    | Running
    | Success(result: string, diagnosticsError: Option<string>)
    | Error(message: string)

  /** What a run that has not ended waits for. */
  datatype Phase = AwaitingResult | AwaitingDiagnostics

  /** Clicks, and the continuations of runs as their promises settle. */
  datatype Event =
    | Probe
    | Reset
    | Result(run: nat, value: string)
    | Failure(run: nat, message: string)
    | DiagnosticsLoaded(run: nat)
    | DiagnosticsFailed(run: nat, message: string)

  /** `diagnostics` is the run whose diagnostics were installed last. */
  datatype State = State(active: nat, probe: ProbeState, diagnostics: Option<nat>, pending: map<nat, Phase>)

  const INITIAL: State := State(0, Idle, None, map[])

  predicate IsStart(e: Event) {
    e.Probe? || e.Reset?
  }

  /** A continuation runs only for a run that waits for it. */
  predicate Enabled(s: State, e: Event) {
    match e
    case Probe => true
    case Reset => true
    case Result(run, _) => run in s.pending && s.pending[run] == AwaitingResult
    case Failure(run, _) => run in s.pending && s.pending[run] == AwaitingResult
    case DiagnosticsLoaded(run) => run in s.pending && s.pending[run] == AwaitingDiagnostics
    case DiagnosticsFailed(run, _) => run in s.pending && s.pending[run] == AwaitingDiagnostics
  }

  /** What the event does to the shown state when its run is the active one. */
  function Shown(probe: ProbeState, e: Event): ProbeState {
    match e
    case Probe => Running
    case Reset => Idle
    case Result(_, value) => Success(value, None)
    case Failure(_, message) => Error(message)
    case DiagnosticsLoaded(_) => probe
    case DiagnosticsFailed(_, message) => if probe.Success? then Success(probe.result, Some(message)) else probe
  }

  function Step(s: State, e: Event): State {
    match e
    case Probe => State(s.active + 1, Running, s.diagnostics, s.pending[s.active + 1 := AwaitingResult])
    case Reset => State(s.active + 1, Idle, s.diagnostics, s.pending)
    case Result(run, _) =>
      if run == s.active then s.(probe := Shown(s.probe, e), pending := s.pending[run := AwaitingDiagnostics])
      else s.(pending := s.pending - {run})
    case DiagnosticsLoaded(run) =>
      s.(diagnostics := if run == s.active then Some(run) else s.diagnostics, pending := s.pending - {run})
    case _ =>
      s.(probe := if e.run == s.active then Shown(s.probe, e) else s.probe, pending := s.pending - {e.run})
  }

  // ----- The page's module variables

  class ProbePanel {
    var activeProbeRunId: nat
    var probeState: ProbeState
    var diagnostics: Option<nat>
    /** The suspended runs; the source keeps them in the runtime's queue of promises. */
    ghost var pending: map<nat, Phase>

    ghost function Now(): State
      reads this
    {
      State(activeProbeRunId, probeState, diagnostics, pending)
    }

    constructor ()
      ensures Now() == INITIAL
    {
      activeProbeRunId, probeState, diagnostics, pending := 0, Idle, None, map[];
    }

    method ResetClicked()
      modifies this
      ensures Now() == Step(old(Now()), Event.Reset)
    {
      activeProbeRunId := activeProbeRunId + 1;
      probeState := Idle;
    }

    /** `runProviderProbe` up to its first await. */
    method StartProbe() returns (runId: nat)
      modifies this
      ensures Now() == Step(old(Now()), Event.Probe)
      ensures runId == activeProbeRunId
    {
      runId := activeProbeRunId + 1;
      activeProbeRunId := runId;
      probeState := Running;
      pending := pending[runId := AwaitingResult];
    }

    /** The rest of `runProviderProbe` when the operation resolves, up to awaiting the diagnostics. */
    method ResultArrives(runId: nat, result: string)
      requires Enabled(Now(), Event.Result(runId, result))
      modifies this
      ensures Now() == Step(old(Now()), Event.Result(runId, result))
    {
      if runId != activeProbeRunId {
        pending := pending - {runId};
      } else {
        probeState := Success(result, None);
        pending := pending[runId := AwaitingDiagnostics];
      }
    }

    /** The rest of `runProviderProbe` when the operation is rejected. */
    method ResultFails(runId: nat, message: string)
      requires Enabled(Now(), Event.Failure(runId, message))
      modifies this
      ensures Now() == Step(old(Now()), Event.Failure(runId, message))
    {
      pending := pending - {runId};
      if runId == activeProbeRunId {
        probeState := Error(message);
      }
    }

    /** The rest of `refreshDiagnosticsAfterProbe` when everything has loaded. */
    method DiagnosticsArrive(runId: nat)
      requires Enabled(Now(), Event.DiagnosticsLoaded(runId))
      modifies this
      ensures Now() == Step(old(Now()), Event.DiagnosticsLoaded(runId))
    {
      pending := pending - {runId};
      if runId == activeProbeRunId {
        diagnostics := Some(runId);
      }
    }

    /** The rest of `refreshDiagnosticsAfterProbe` when loading fails. */
    method DiagnosticsFail(runId: nat, message: string)
      requires Enabled(Now(), Event.DiagnosticsFailed(runId, message))
      modifies this
      ensures Now() == Step(old(Now()), Event.DiagnosticsFailed(runId, message))
    {
      pending := pending - {runId};
      if runId == activeProbeRunId && probeState.Success? {
        probeState := probeState.(diagnosticsError := Some(message));
      }
    }
  }

  // ----- Runs of events

  predicate Possible(events: seq<Event>) {
    events == [] || (Possible(events[..|events| - 1]) && Enabled(After(events[..|events| - 1]), events[|events| - 1]))
  }

  function After(events: seq<Event>): State {
    if events == [] then INITIAL else Step(After(events[..|events| - 1]), events[|events| - 1])
  }

  /** Only runs up to the active one wait, and what the active one waits for is what is shown. */
  ghost predicate Consistent(s: State) {
    && (forall run | run in s.pending :: run <= s.active)
    && (s.probe == Running <==> s.active in s.pending && s.pending[s.active] == AwaitingResult)
    && (s.active in s.pending && s.pending[s.active] == AwaitingDiagnostics ==>
          s.probe.Success? && s.probe.diagnosticsError.None?)
    && (s.probe.Idle? ==> s.active !in s.pending)
    && (s.diagnostics.Some? ==> s.diagnostics.value <= s.active)
  }

  lemma {:induction false} RunsAreConsistent(events: seq<Event>)
    requires Possible(events)
    ensures Consistent(After(events))
    decreases events
  {
    if events != [] { RunsAreConsistent(events[..|events| - 1]); }
  }

  /** While "running" is shown, the active run is still waiting for its result. */
  lemma RunningIsPending(events: seq<Event>)
    requires Possible(events) && After(events).probe == Running
    ensures After(events).active in After(events).pending
  {
    RunsAreConsistent(events);
  }

  // ----- Which sequences of events are possible

  /** Clicks number the runs. */
  function Clicks(events: seq<Event>): nat {
    if events == [] then 0 else Clicks(events[..|events| - 1]) + if IsStart(events[|events| - 1]) then 1 else 0
  }

  /** Click number `run` was on Probe. */
  predicate Begun(events: seq<Event>, run: nat) {
    events != []
    && var before, e := events[..|events| - 1], events[|events| - 1];
       Begun(before, run) || (e.Probe? && Clicks(before) + 1 == run)
  }

  /** The run's operation has been resolved or rejected. */
  predicate Settled(events: seq<Event>, run: nat) {
    exists e | e in events :: (e.Result? || e.Failure?) && e.run == run
  }

  /** It was resolved while the run was still the last click. */
  predicate Refreshing(events: seq<Event>, run: nat) {
    events != []
    && var before, e := events[..|events| - 1], events[|events| - 1];
       Refreshing(before, run) || (e.Result? && e.run == run && Clicks(before) == run)
  }

  /** The refresh of the diagnostics after that has loaded or failed. */
  predicate RefreshEnded(events: seq<Event>, run: nat) {
    exists e | e in events :: (e.DiagnosticsLoaded? || e.DiagnosticsFailed?) && e.run == run
  }

  /** A run settles once after it began, and its diagnostics end once if they were asked for. */
  predicate AtItsTime(before: seq<Event>, e: Event) {
    match e
    case Probe => true
    case Reset => true
    case Result(run, _) => Begun(before, run) && !Settled(before, run)
    case Failure(run, _) => Begun(before, run) && !Settled(before, run)
    case DiagnosticsLoaded(run) => Refreshing(before, run) && !RefreshEnded(before, run)
    case DiagnosticsFailed(run, _) => Refreshing(before, run) && !RefreshEnded(before, run)
  }

  lemma OneMoreEvent(events: seq<Event>, run: nat)
    requires events != []
    ensures var before, e := events[..|events| - 1], events[|events| - 1];
      && (Settled(events, run) <==> Settled(before, run) || ((e.Result? || e.Failure?) && e.run == run))
      && (RefreshEnded(events, run) <==> RefreshEnded(before, run) || ((e.DiagnosticsLoaded? || e.DiagnosticsFailed?) && e.run == run))
  {
    var before, e := events[..|events| - 1], events[|events| - 1];
    assert events == before + [e];
    assert e in events && forall x | x in before :: x in events;
  }

  lemma {:induction false} PendingIs(events: seq<Event>, run: nat)
    requires Possible(events)
    ensures var s := After(events);
      && s.active == Clicks(events)
      && (run in s.pending && s.pending[run] == AwaitingResult <==> Begun(events, run) && !Settled(events, run))
      && (run in s.pending && s.pending[run] == AwaitingDiagnostics <==> Refreshing(events, run) && !RefreshEnded(events, run))
    ensures Begun(events, run) ==> run <= Clicks(events)
    ensures Settled(events, run) ==> Begun(events, run)
    ensures Refreshing(events, run) ==> Settled(events, run)
    ensures RefreshEnded(events, run) ==> Refreshing(events, run)
    decreases events
  {
    if events != [] {
      PendingIs(events[..|events| - 1], run);
      OneMoreEvent(events, run);
      hide Settled, RefreshEnded;
    }
  }

  lemma EnabledIs(events: seq<Event>, e: Event)
    requires Possible(events)
    ensures Enabled(After(events), e) <==> AtItsTime(events, e)
  {
    hide Possible, After, Begun, Settled, Refreshing, RefreshEnded;
    if !IsStart(e) { PendingIs(events, e.run); }
  }

  ghost predicate InTime(events: seq<Event>) {
    forall k | 0 <= k < |events| :: AtItsTime(events[..k], events[k])
  }

  lemma InTimeStep(events: seq<Event>)
    requires events != []
    ensures var before, e := events[..|events| - 1], events[|events| - 1];
      InTime(events) <==> InTime(before) && AtItsTime(before, e)
  {
    hide AtItsTime;
    var last := |events| - 1;
    var before := events[..last];
    assert forall k | 0 <= k < last :: before[..k] == events[..k] && before[k] == events[k];
    if InTime(events) {
      forall k | 0 <= k < last ensures AtItsTime(before[..k], before[k]) {
        assert AtItsTime(events[..k], events[k]);
      }
      assert AtItsTime(events[..last], events[last]);
    }
    if InTime(before) && AtItsTime(before, events[last]) {
      forall k | 0 <= k < |events| ensures AtItsTime(events[..k], events[k]) {
        if k < last { assert AtItsTime(before[..k], before[k]); }
      }
    }
  }

  /** The possible sequences are exactly those in which every event comes at its time. */
  lemma {:induction false} PossibleAre(events: seq<Event>)
    ensures Possible(events) <==> InTime(events)
    decreases events
  {
    hide AtItsTime, Enabled, InTime;
    if events != [] {
      var before := events[..|events| - 1];
      PossibleAre(before);
      InTimeStep(events);
      if Possible(before) { EnabledIs(before, events[|events| - 1]); }
    } else {
      NothingIsInTime();
    }
  }

  lemma NothingIsInTime()
    ensures InTime([])
  {
  }

  // ----- Stale responses leave no trace

  /** The events of one run, without the clicks. */
  function OfRun(events: seq<Event>, run: nat): seq<Event> {
    if events == [] then []
    else
      var e := events[|events| - 1];
      OfRun(events[..|events| - 1], run) + if !IsStart(e) && e.run == run then [e] else []
  }

  /** What a run's own events show, starting from `probe`. */
  function Replay(probe: ProbeState, events: seq<Event>): ProbeState {
    if events == [] then probe else Shown(Replay(probe, events[..|events| - 1]), events[|events| - 1])
  }

  /** What the last click on Probe or Reset shows at once. */
  function LastStart(events: seq<Event>): ProbeState {
    if events == [] then Idle
    else if IsStart(events[|events| - 1]) then Shown(Idle, events[|events| - 1])
    else LastStart(events[..|events| - 1])
  }

  lemma {:induction false} LaterRunsHaveNoEvents(events: seq<Event>, run: nat)
    requires Possible(events) && run > After(events).active
    ensures OfRun(events, run) == []
    decreases events
  {
    if events != [] {
      var before := events[..|events| - 1];
      RunsAreConsistent(before);
      LaterRunsHaveNoEvents(before, run);
    }
  }

  /**
   * What is shown depends on the last click and on the events of the active run alone: every event of another run,
   * early or late, could be left out.
   */
  lemma {:induction false} StaleRunsAreErased(events: seq<Event>)
    requires Possible(events)
    ensures After(events).probe == Replay(LastStart(events), OfRun(events, After(events).active))
    decreases events
  {
    if events != [] {
      var before, e := events[..|events| - 1], events[|events| - 1];
      StaleRunsAreErased(before);
      var active := After(before).active;
      if IsStart(e) {
        LaterRunsHaveNoEvents(before, active + 1);
        assert OfRun(events, active + 1) == [];
      } else if e.run == active {
        var own := OfRun(events, active);
        assert own == OfRun(before, active) + [e] && own[..|own| - 1] == OfRun(before, active);
      } else {
        assert OfRun(events, active) == OfRun(before, active);
      }
    }
  }

  /** A result, an error and a diagnostics error that are shown were reported by the active run. */
  lemma {:induction false} ShownBelongsToTheActiveRun(events: seq<Event>)
    requires Possible(events)
    ensures var s := After(events);
      match s.probe
      case Success(value, error) =>
        Event.Result(s.active, value) in events && (error.Some? ==> Event.DiagnosticsFailed(s.active, error.value) in events)
      case Error(message) => Event.Failure(s.active, message) in events
      case _ => OfRun(events, s.active) == []
    decreases events
  {
    if events != [] {
      var before, e := events[..|events| - 1], events[|events| - 1];
      assert events == before + [e];
      ShownBelongsToTheActiveRun(before);
      RunsAreConsistent(before);
      if IsStart(e) { LaterRunsHaveNoEvents(before, After(before).active + 1); }
    }
  }

  /** After a reset the page stays idle, whatever comes back, until Probe is clicked again. */
  lemma {:induction false} ResetStaysIdle(events: seq<Event>, n: nat)
    requires Possible(events) && 0 < n <= |events| && events[n - 1] == Reset
    requires forall k | n <= k < |events| :: events[k] != Event.Probe
    ensures After(events).probe == Idle
    decreases |events|
  {
    if n < |events| {
      var before := events[..|events| - 1];
      ResetStaysIdle(before, n);
      RunsAreConsistent(before);
    }
  }

  // ----- What a run shows, and whose diagnostics are installed

  /** The four ways a run can have gone so far. */
  datatype Course =
    | Waiting
    | Resulted(value: string)
    | Refreshed(value: string, failure: Option<string>)
    | Failed(message: string)

  ghost predicate Took(events: seq<Event>, run: nat, course: Course) {
    match course
    case Waiting => events == []
    case Resulted(value) => events == [Event.Result(run, value)]
    case Refreshed(value, None) => events == [Event.Result(run, value), Event.DiagnosticsLoaded(run)]
    case Refreshed(value, Some(message)) => events == [Event.Result(run, value), Event.DiagnosticsFailed(run, message)]
    case Failed(message) => events == [Event.Failure(run, message)]
  }

  /** The active run has taken one of them, and waits accordingly. */
  lemma {:induction false} ActiveRunTook(events: seq<Event>) returns (course: Course)
    requires Possible(events)
    ensures var s := After(events);
      && Took(OfRun(events, s.active), s.active, course)
      && (s.active in s.pending ==>
            if s.pending[s.active] == AwaitingResult then course == Waiting else course.Resulted?)
    decreases events
  {
    course := Waiting;
    if events != [] {
      var before, e := events[..|events| - 1], events[|events| - 1];
      var active := After(before).active;
      RunsAreConsistent(before);
      RunsAreConsistent(events);
      if IsStart(e) {
        LaterRunsHaveNoEvents(before, active + 1);
      } else {
        course := ActiveRunTook(before);
        if e.run == active {
          match e
          case Result(_, value) => course := Resulted(value);
          case Failure(_, message) => course := Failed(message);
          case DiagnosticsLoaded(_) => course := Refreshed(course.value, None);
          case DiagnosticsFailed(_, message) => course := Refreshed(course.value, Some(message));
        }
      }
    }
  }

  /** What each of them shows: running or idle, the result, the result with an error beside it, or the error. */
  lemma ActiveRunShows(events: seq<Event>, course: Course)
    requires Possible(events) && Took(OfRun(events, After(events).active), After(events).active, course)
    ensures After(events).probe ==
      match course
      case Waiting => LastStart(events)
      case Resulted(value) => Success(value, None)
      case Refreshed(value, failure) => Success(value, failure)
      case Failed(message) => Error(message)
  {
    StaleRunsAreErased(events);
    var start, run, own := LastStart(events), After(events).active, OfRun(events, After(events).active);
    hide After, Possible, OfRun, LastStart, Replay, Shown;
    CourseReplayed(start, run, own, course);
  }

  lemma ReplayOneMore(probe: ProbeState, events: seq<Event>, e: Event)
    ensures Replay(probe, []) == probe
    ensures Replay(probe, events + [e]) == Shown(Replay(probe, events), e)
  {
    assert (events + [e])[..|events|] == events;
  }

  lemma CourseReplayed(start: ProbeState, run: nat, own: seq<Event>, course: Course)
    requires Took(own, run, course)
    ensures Replay(start, own) ==
      match course
      case Waiting => start
      case Resulted(value) => Success(value, None)
      case Refreshed(value, failure) => Success(value, failure)
      case Failed(message) => Error(message)
  {
    hide Replay;
    if |own| > 0 {
      ReplayOneMore(start, [], own[0]);
      assert [] + [own[0]] == [own[0]];
    }
    if |own| == 2 {
      ReplayOneMore(start, [own[0]], own[1]);
      assert own == [own[0]] + [own[1]];
    } else if |own| == 1 {
      assert own == [own[0]];
    } else {
      ReplayOneMore(start, own, Event.Probe);
    }
  }

  /** A click on Probe shows running, and a reset, or no click yet, idle. */
  lemma {:induction false} LastClickShows(events: seq<Event>, k: nat)
    ensures k < |events| && events[k] == Event.Probe && (forall i | k < i < |events| :: !IsStart(events[i])) ==> LastStart(events) == Running
    ensures k < |events| && events[k] == Event.Reset && (forall i | k < i < |events| :: !IsStart(events[i])) ==> LastStart(events) == Idle
    ensures (forall i | 0 <= i < |events| :: !IsStart(events[i])) ==> LastStart(events) == Idle
    decreases events
  {
    if events != [] {
      var before := events[..|events| - 1];
      LastClickShows(before, k);
      assert forall i | 0 <= i < |before| :: before[i] == events[i];
    }
  }

  /** Event `k` installs diagnostics: they loaded for the run that is active then. */
  ghost predicate Installs(events: seq<Event>, k: nat) {
    k < |events| && events[k].DiagnosticsLoaded? && events[k].run == After(events[..k]).active
  }

  /** The diagnostics shown are the last that loaded for a run while it was active. */
  lemma {:induction false} DiagnosticsAreTheLastInstalled(events: seq<Event>, k: nat)
    ensures Installs(events, k) && (forall i | k < i < |events| :: !Installs(events, i)) ==>
      After(events).diagnostics == Some(events[k].run)
    ensures (forall i: nat :: !Installs(events, i)) ==> After(events).diagnostics == None
    decreases events
  {
    if events != [] {
      var last := |events| - 1;
      var before := events[..last];
      DiagnosticsAreTheLastInstalled(before, k);
      forall i: nat | i < last ensures Installs(before, i) <==> Installs(events, i) {
        assert before[..i] == events[..i] && before[i] == events[i];
      }
      forall i: nat | i >= last ensures !Installs(before, i) {}
      assert Installs(events, last) || !Installs(events, last);
    }
  }
}
