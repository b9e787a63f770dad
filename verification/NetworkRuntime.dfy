/**
 The refreshable network configuration. A refresh lowers the timeout floor in one critical section and
 installs its configuration in another, so other threads run between the two.
 */
module NetworkRuntime {
  import opened Prelude

  /** A validated configuration; `other` stands for everything but the request timeout. */
  datatype NetworkConfig = NetworkConfig(requestTimeout: nat, other: int)

  function Min(a: nat, b: nat): nat {
    if b < a then b else a
  }

  /** The two values the locks protect. */
  datatype Shared = Shared(floor: nat, active: NetworkConfig)

  function Created(config: NetworkConfig): Shared {
    Shared(config.requestTimeout, config)
  }

  function FloorLowered(shared: Shared, config: NetworkConfig): Shared {
    shared.(floor := Min(shared.floor, config.requestTimeout))
  }

  function Installed(shared: Shared, config: NetworkConfig): Shared {
    shared.(active := config)
  }

  /** The handle itself. Each method but the last is one critical section, or one lock acquisition. */
  class Runtime {
    var inner: NetworkConfig
    var requestTimeoutFloor: nat

    function Value(): Shared
      reads this
    {
      Shared(requestTimeoutFloor, inner)
    }

    constructor FromConfig(config: NetworkConfig)
      ensures Value() == Created(config)
    {
      requestTimeoutFloor := config.requestTimeout;
      inner := config;
    }

    method Current() returns (config: NetworkConfig)
      ensures config == Value().active
    {
      config := inner;
    }

    method RequestTimeoutFloor() returns (floor: nat)
      ensures floor == Value().floor
    {
      floor := requestTimeoutFloor;
    }

    method LowerFloor(config: NetworkConfig)
      modifies this
      ensures Value() == FloorLowered(old(Value()), config)
    {
      requestTimeoutFloor := Min(requestTimeoutFloor, config.requestTimeout);
    }

    method Install(config: NetworkConfig)
      modifies this
      ensures Value() == Installed(old(Value()), config)
    {
      inner := config;
    }

    /** A refresh that nobody interrupts. `overrides` is the outcome of validating them. */
    method RefreshFromOverrides<E>(overrides: Result<NetworkConfig, E>) returns (result: Result<NetworkConfig, E>)
      modifies this
      ensures result == overrides
      ensures Value() == if overrides.Ok? then Installed(FloorLowered(old(Value()), overrides.value), overrides.value)
                         else old(Value())
    {
      if overrides.Ok? {
        LowerFloor(overrides.value);
        Install(overrides.value);
      }
      result := overrides;
    }
  }

  // ----- Any number of threads

  type Thread = nat

  /** The shared values, and the refreshes between their two critical sections. */
  datatype System = System(shared: Shared, pending: map<Thread, NetworkConfig>)

  /** One atomic step of one thread. Readers take a step too, but it changes nothing. */
  datatype Event =
    | Lower(thread: Thread, config: NetworkConfig)
    | Install(thread: Thread)
    | Reject(thread: Thread)

  predicate Enabled(s: System, e: Event) {
    match e
    case Lower(thread, _) => thread !in s.pending
    case Install(thread) => thread in s.pending
    case Reject(thread) => thread !in s.pending
  }

  function Next(s: System, e: Event): System
    requires Enabled(s, e)
  {
    match e
    case Lower(thread, config) => System(FloorLowered(s.shared, config), s.pending[thread := config])
    case Install(thread) => System(Installed(s.shared, s.pending[thread]), s.pending - {thread})
    case Reject(_) => s
  }

  /** The states of an interleaving, the first being a fresh runtime. */
  ghost predicate Execution(initial: NetworkConfig, events: seq<Event>, states: seq<System>) {
    && |states| == |events| + 1
    && states[0] == System(Created(initial), map[])
    && forall k | 0 <= k < |events| :: Enabled(states[k], events[k]) && states[k + 1] == Next(states[k], events[k])
  }

  /** The least timeout among the initial configuration and every refresh past its first critical section. */
  function LeastTimeout(initial: NetworkConfig, events: seq<Event>): nat {
    if events == [] then initial.requestTimeout
    else
      var last := events[|events| - 1];
      var least := LeastTimeout(initial, events[..|events| - 1]);
      if last.Lower? then Min(least, last.config.requestTimeout) else least
  }

  lemma {:induction false} FloorIsLeast(initial: NetworkConfig, events: seq<Event>, states: seq<System>, k: nat)
    requires Execution(initial, events, states) && k <= |events|
    ensures states[k].shared.floor == LeastTimeout(initial, events[..k])
    decreases k
  {
    if k > 0 {
      FloorIsLeast(initial, events, states, k - 1);
      assert Enabled(states[k - 1], events[k - 1]) && states[k] == Next(states[k - 1], events[k - 1]);
      assert events[..k][..k - 1] == events[..k - 1];
    }
  }

  /** What `LeastTimeout` is: reached by one of them, exceeded by none. */
  lemma {:induction false} LeastTimeoutIsMinimum(initial: NetworkConfig, events: seq<Event>)
    ensures LeastTimeout(initial, events) <= initial.requestTimeout
    ensures forall e | e in events && e.Lower? :: LeastTimeout(initial, events) <= e.config.requestTimeout
    ensures || LeastTimeout(initial, events) == initial.requestTimeout
            || exists e | e in events :: e.Lower? && LeastTimeout(initial, events) == e.config.requestTimeout
  {
    if events != [] {
      var last := events[|events| - 1];
      LeastTimeoutIsMinimum(initial, events[..|events| - 1]);
      assert events == events[..|events| - 1] + [last];
      assert last in events;
    }
  }

  /** The floor bounds the active configuration and every configuration still waiting to be installed. */
  lemma {:induction false} FloorBoundsConfigurations(initial: NetworkConfig, events: seq<Event>, states: seq<System>, k: nat)
    requires Execution(initial, events, states) && k <= |events|
    ensures states[k].shared.floor <= states[k].shared.active.requestTimeout
    ensures forall t | t in states[k].pending :: states[k].shared.floor <= states[k].pending[t].requestTimeout
    decreases k
  {
    if k > 0 {
      FloorBoundsConfigurations(initial, events, states, k - 1);
      assert Enabled(states[k - 1], events[k - 1]) && states[k] == Next(states[k - 1], events[k - 1]);
    }
  }

  lemma {:induction false} FloorNeverRises(initial: NetworkConfig, events: seq<Event>, states: seq<System>, i: nat, j: nat)
    requires Execution(initial, events, states) && i <= j <= |events|
    ensures states[j].shared.floor <= states[i].shared.floor
    decreases j
  {
    if i < j {
      FloorNeverRises(initial, events, states, i, j - 1);
      assert Enabled(states[j - 1], events[j - 1]) && states[j] == Next(states[j - 1], events[j - 1]);
    }
  }

  /**
   A thread that takes the configuration and later the floor sees a floor no greater than the timeout it holds,
   whatever ran in between: a listener's deadline is never exceeded by the floor.
   */
  lemma CurrentThenFloor(initial: NetworkConfig, events: seq<Event>, states: seq<System>, i: nat, j: nat)
    requires Execution(initial, events, states) && i <= j <= |events|
    ensures states[j].shared.floor <= states[i].shared.active.requestTimeout
  {
    FloorBoundsConfigurations(initial, events, states, i);
    FloorNeverRises(initial, events, states, i, j);
  }

  /** The other order can go wrong: a refresh between the two reads leaves the reader above the timeout. */
  lemma FloorThenCurrentCanExceed()
    returns (initial: NetworkConfig, events: seq<Event>, states: seq<System>, i: nat, j: nat)
    ensures Execution(initial, events, states) && i <= j <= |events|
    ensures states[i].shared.floor > states[j].shared.active.requestTimeout
  {
    initial := NetworkConfig(30, 0);
    var faster := NetworkConfig(10, 0);
    events := [Lower(0, faster), Install(0)];
    var s0 := System(Created(initial), map[]);
    var s1 := Next(s0, events[0]);
    states := [s0, s1, Next(s1, events[1])];
    i, j := 0, 2;
  }

  /** Before event `j`, thread `t` has been between its critical sections since event `k`, with `config`. */
  predicate WaitingSince(events: seq<Event>, j: nat, k: nat, t: Thread, config: NetworkConfig)
    requires j <= |events|
  {
    k < j && events[k] == Lower(t, config) && forall n | k < n < j :: events[n] != Install(t)
  }

  /** Thread `t` began its refresh at event `k` and finished it at `m`, and nobody has installed since. */
  predicate LastInstall(events: seq<Event>, j: nat, k: nat, m: nat, t: Thread, config: NetworkConfig)
    requires j <= |events|
  {
    && k < m < j && WaitingSince(events, m, k, t, config) && events[m] == Install(t)
    && forall n | m < n < j :: !events[n].Install?
  }

  lemma LastStep(initial: NetworkConfig, events: seq<Event>, states: seq<System>, j: nat)
    requires Execution(initial, events, states) && 0 < j <= |events|
    ensures Enabled(states[j - 1], events[j - 1]) && states[j] == Next(states[j - 1], events[j - 1])
  {
  }

  /** What the events say about a waiting refresh is what the runtime holds for it. */
  lemma {:induction false} WaitingIsPending(initial: NetworkConfig, events: seq<Event>, states: seq<System>, j: nat, k: nat, t: Thread, config: NetworkConfig)
    requires Execution(initial, events, states) && j <= |events| && WaitingSince(events, j, k, t, config)
    ensures t in states[j].pending && states[j].pending[t] == config
    decreases j
  {
    LastStep(initial, events, states, j);
    if k < j - 1 { WaitingIsPending(initial, events, states, j - 1, k, t, config); }
  }

  /** And the last install before `j` decides the active configuration. */
  lemma {:induction false} LastInstallIsActive(initial: NetworkConfig, events: seq<Event>, states: seq<System>, j: nat, k: nat, m: nat, t: Thread, config: NetworkConfig)
    requires Execution(initial, events, states) && j <= |events| && LastInstall(events, j, k, m, t, config)
    ensures states[j].shared.active == config
    decreases j
  {
    LastStep(initial, events, states, j);
    if m < j - 1 {
      LastInstallIsActive(initial, events, states, j - 1, k, m, t, config);
    } else {
      WaitingIsPending(initial, events, states, m, k, t, config);
    }
  }

  /** Before the first install the initial configuration is active. */
  lemma {:induction false} InitialIsActive(initial: NetworkConfig, events: seq<Event>, states: seq<System>, j: nat)
    requires Execution(initial, events, states) && j <= |events| && forall n | 0 <= n < j :: !events[n].Install?
    ensures states[j].shared.active == initial
    decreases j
  {
    if j > 0 {
      LastStep(initial, events, states, j);
      InitialIsActive(initial, events, states, j - 1);
    }
  }

  /** At event `j` thread `t` has lowered the floor and not installed its configuration since. */
  ghost predicate Inside(events: seq<Event>, j: nat, t: Thread)
    requires j <= |events|
  {
    exists k | 0 <= k < j :: events[k].Lower? && events[k].thread == t && forall n | k < n < j :: events[n] != Install(t)
  }

  lemma InsideStep(events: seq<Event>, j: nat, t: Thread)
    requires 0 < j <= |events|
    ensures var e := events[j - 1];
      Inside(events, j, t) <==> (e.Lower? && e.thread == t) || (e != Install(t) && Inside(events, j - 1, t))
  {
    var e := events[j - 1];
    if e != Install(t) && Inside(events, j - 1, t) {
      var k :| 0 <= k < j - 1 && events[k].Lower? && events[k].thread == t && forall n | k < n < j - 1 :: events[n] != Install(t);
      assert forall n | k < n < j :: events[n] != Install(t);
    }
    if Inside(events, j, t) && !(e.Lower? && e.thread == t) {
      var k :| 0 <= k < j && events[k].Lower? && events[k].thread == t && forall n | k < n < j :: events[n] != Install(t);
      assert k < j - 1;
    }
  }

  lemma {:induction false} PendingIsInside(initial: NetworkConfig, events: seq<Event>, states: seq<System>, j: nat, t: Thread)
    requires Execution(initial, events, states) && j <= |events|
    ensures t in states[j].pending <==> Inside(events, j, t)
    decreases j
  {
    if j > 0 {
      LastStep(initial, events, states, j);
      InsideStep(events, j, t);
      PendingIsInside(initial, events, states, j - 1, t);
      hide Inside;
    }
  }

  /** A thread installs only inside a refresh, and begins another, or has one rejected, only outside. */
  ghost predicate InTurn(events: seq<Event>, j: nat)
    requires j < |events|
  {
    Inside(events, j, events[j].thread) == events[j].Install?
  }

  lemma TurnsOfFewer(events: seq<Event>, j: nat, t: Thread)
    requires events != [] && j < |events|
    ensures Inside(events[..|events| - 1], j, t) == Inside(events, j, t)
  {
    var fewer := events[..|events| - 1];
    assert forall k | 0 <= k < j :: fewer[k] == events[k];
  }

  lemma {:induction false} TurnsMakeStates(initial: NetworkConfig, events: seq<Event>) returns (states: seq<System>)
    requires forall j | 0 <= j < |events| :: InTurn(events, j)
    ensures Execution(initial, events, states)
  {
    hide Inside;
    if events == [] {
      states := [System(Created(initial), map[])];
    } else {
      var last := |events| - 1;
      var fewer := events[..last];
      forall j | 0 <= j < last ensures InTurn(fewer, j) {
        assert InTurn(events, j) && fewer[j] == events[j];
        TurnsOfFewer(events, j, events[j].thread);
      }
      var before := TurnsMakeStates(initial, fewer);
      var e := events[last];
      assert InTurn(events, last);
      TurnsOfFewer(events, last, e.thread);
      PendingIsInside(initial, fewer, before, last, e.thread);
      states := before + [Next(before[last], e)];
      forall k | 0 <= k < |events| ensures Enabled(states[k], events[k]) && states[k + 1] == Next(states[k], events[k]) {
        if k < last { assert fewer[k] == events[k] && states[k] == before[k] && states[k + 1] == before[k + 1]; }
      }
    }
  }

  /** The interleavings are exactly the event sequences in which every thread keeps to that. */
  lemma InterleavingsAre(initial: NetworkConfig, events: seq<Event>)
    ensures (exists states :: Execution(initial, events, states)) <==> forall j | 0 <= j < |events| :: InTurn(events, j)
  {
    hide Inside;
    if states :| Execution(initial, events, states) {
      forall j | 0 <= j < |events| ensures InTurn(events, j) {
        PendingIsInside(initial, events, states, j, events[j].thread);
        assert Enabled(states[j], events[j]);
      }
    }
    if forall j | 0 <= j < |events| :: InTurn(events, j) { var states := TurnsMakeStates(initial, events); }
  }

  /** A waiting refresh below a floor read earlier began after that floor was read. */
  lemma {:induction false} PendingBelowIsLater(initial: NetworkConfig, events: seq<Event>, states: seq<System>, i: nat, j: nat, t: Thread) returns (k: nat)
    requires Execution(initial, events, states) && i <= j <= |events|
    requires t in states[j].pending && states[j].pending[t].requestTimeout < states[i].shared.floor
    ensures i <= k && WaitingSince(events, j, k, t, states[j].pending[t])
    decreases j
  {
    if i == j {
      FloorBoundsConfigurations(initial, events, states, i);
      assert false;
    } else {
      LastStep(initial, events, states, j);
      if events[j - 1].Lower? && events[j - 1].thread == t {
        k := j - 1;
      } else {
        k := PendingBelowIsLater(initial, events, states, i, j - 1, t);
      }
    }
  }

  /** So does an active configuration below it, installed since by the same thread. */
  lemma {:induction false} ActiveBelowIsLater(initial: NetworkConfig, events: seq<Event>, states: seq<System>, i: nat, j: nat)
    returns (k: nat, m: nat, t: Thread)
    requires Execution(initial, events, states) && i <= j <= |events|
    requires states[j].shared.active.requestTimeout < states[i].shared.floor
    ensures i <= k && LastInstall(events, j, k, m, t, states[j].shared.active)
    decreases j
  {
    if i == j {
      FloorBoundsConfigurations(initial, events, states, i);
      assert false;
    } else {
      LastStep(initial, events, states, j);
      if events[j - 1].Install? {
        m, t := j - 1, events[j - 1].thread;
        k := PendingBelowIsLater(initial, events, states, i, m, t);
      } else {
        k, m, t := ActiveBelowIsLater(initial, events, states, i, j - 1);
      }
    }
  }

  /** Between the two reads some thread began and finished a refresh below the floor, and nobody installed after it. */
  ghost predicate OvertakenByRefresh(events: seq<Event>, i: nat, j: nat, floor: nat)
    requires j <= |events|
  {
    exists k: nat, m: nat, t: Thread, config: NetworkConfig :: i <= k && config.requestTimeout < floor && LastInstall(events, j, k, m, t, config)
  }

  /**
   It goes wrong exactly when, after the floor was read, one thread ran both sections of a refresh to a timeout below
   that floor and its install is the last before the configuration is read.
   */
  lemma FloorThenCurrent(initial: NetworkConfig, events: seq<Event>, states: seq<System>, i: nat, j: nat)
    requires Execution(initial, events, states) && i <= j <= |events|
    ensures states[i].shared.floor > states[j].shared.active.requestTimeout <==>
            OvertakenByRefresh(events, i, j, LeastTimeout(initial, events[..i]))
  {
    hide LastInstall;
    FloorIsLeast(initial, events, states, i);
    var floor := states[i].shared.floor;
    if floor > states[j].shared.active.requestTimeout {
      var k, m, t := ActiveBelowIsLater(initial, events, states, i, j);
    }
    if k: nat, m: nat, t: Thread, config: NetworkConfig :| i <= k && config.requestTimeout < floor && LastInstall(events, j, k, m, t, config) {
      LastInstallIsActive(initial, events, states, j, k, m, t, config);
    }
  }

  /** A rejected refresh leaves every value as it was, and so does running the interleaving without it. */
  lemma RejectionChangesNothing(initial: NetworkConfig, events: seq<Event>, states: seq<System>, k: nat)
    requires Execution(initial, events, states) && k < |events| && events[k].Reject?
    ensures states[k + 1] == states[k]
    ensures Execution(initial, events[..k] + events[k + 1..], states[..k] + states[k + 1..])
  {
    var es, ss := events[..k] + events[k + 1..], states[..k] + states[k + 1..];
    assert Enabled(states[k], events[k]) && states[k + 1] == Next(states[k], events[k]);
    forall i | 0 <= i < |es| ensures Enabled(ss[i], es[i]) && ss[i + 1] == Next(ss[i], es[i]) {
      var o := if i < k then i else i + 1;
      assert es[i] == events[o] && Enabled(states[o], events[o]) && states[o + 1] == Next(states[o], events[o]);
    }
  }
}
