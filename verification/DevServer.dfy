/** The development server: file changes start one timer, a timer that fires starts a
    regeneration, and a change during a regeneration makes one more follow. */
module DevServer {
  import opened JsText
  import opened TypeText

  /** `generating`, `queued` and `debounceTimer` are the variables of the script.  `pending` are the
      timers that will still fire and `running` counts the regenerations spawned and not closed.
      The rest is history: the number of events, of timers fired and of regenerations started, and
      when the last change and the last start happened. */
  datatype State = State(
    generating: bool,
    queued: bool,
    debounceTimer: Option<nat>,
    pending: set<nat>,
    running: nat,
    clock: nat,
    fired: nat,
    started: nat,
    lastChange: Option<nat>,
    lastStart: Option<nat>)

  datatype Event =
    | Changed(filename: Option<string>)
    | Fired(timer: nat)
    | Closed(code: int)

  const INITIAL: State := State(false, false, None, {}, 0, 0, 0, 0, None, None)

  /** What the runtime can deliver. */
  predicate Enabled(s: State, e: Event) {
    match e
    case Changed(_) => true
    case Fired(timer) => timer in s.pending
    case Closed(_) => s.running > 0
  }

  predicate Watched(filename: Option<string>) {
    filename.Some? && EndsWith(filename.value, ".ts")
  }

  /** Only a file whose name ends in `.ts` counts; an event without a name does not. */
  lemma WatchedExactly(filename: Option<string>)
    ensures Watched(filename) <==> exists stem :: filename == Some(stem + ".ts")
  {
    if Watched(filename) {
      var name := filename.value;
      assert name == name[..|name| - 3] + ".ts";
    }
    if stem :| filename == Some(stem + ".ts") {
      assert (stem + ".ts")[|stem|..] == ".ts";
    }
  }

  function Regenerate(s: State): State {
    if s.generating then s.(queued := true)
    else s.(generating := true, running := s.running + 1, started := s.started + 1, lastStart := Some(s.clock))
  }

  function Handle(s: State, e: Event): State
    requires Enabled(s, e)
  {
    match e
    case Changed(filename) =>
      if !Watched(filename) then s
      else
        var others := if s.debounceTimer.Some? then s.pending - {s.debounceTimer.value} else s.pending;
        s.(debounceTimer := Some(s.clock), pending := others + {s.clock}, lastChange := Some(s.clock))
    case Fired(timer) => Regenerate(s.(pending := s.pending - {timer}, fired := s.fired + 1))
    case Closed(_) =>
      var closed := s.(running := s.running - 1, generating := false);
      if closed.queued then Regenerate(closed.(queued := false)) else closed
  }

  /** One event; a timer is named after the event that sets it. */
  function Next(s: State, e: Event): State
    requires Enabled(s, e)
  {
    Handle(s.(clock := s.clock + 1), e)
  }

  /** The module's variables and the handlers that update them. */
  class DevLoop {
    var generating: bool
    var queued: bool
    var debounceTimer: Option<nat>
    var pending: set<nat>
    var running: nat
    var clock: nat
    ghost var fired: nat
    ghost var started: nat
    ghost var lastChange: Option<nat>
    ghost var lastStart: Option<nat>

    ghost function Now(): State
      reads this
    {
      State(generating, queued, debounceTimer, pending, running, clock, fired, started, lastChange, lastStart)
    }

    constructor ()
      ensures Now() == INITIAL
    {
      generating, queued, debounceTimer := false, false, None;
      pending, running, clock := {}, 0, 0;
      fired, started, lastChange, lastStart := 0, 0, None, None;
    }

    method Generate()
      modifies this
      ensures Now() == Regenerate(old(Now()))
    {
      if generating {
        queued := true;
        return;
      }
      generating := true;
      running := running + 1;
      started := started + 1;
      lastStart := Some(clock);
    }

    method OnChange(filename: Option<string>)
      modifies this
      ensures Now() == Next(old(Now()), Changed(filename))
    {
      clock := clock + 1;
      if filename.None? || !EndsWith(filename.value, ".ts") {
        return;
      }
      if debounceTimer.Some? {
        pending := pending - {debounceTimer.value};
      }
      debounceTimer := Some(clock);
      pending := pending + {clock};
      lastChange := Some(clock);
    }

    method OnTimer(timer: nat)
      requires timer in pending
      modifies this
      ensures Now() == Next(old(Now()), Fired(timer))
    {
      clock := clock + 1;
      pending := pending - {timer};
      fired := fired + 1;
      Generate();
    }

    method OnClose(code: int)
      requires running > 0
      modifies this
      ensures Now() == Next(old(Now()), Closed(code))
    {
      clock := clock + 1;
      running := running - 1;
      generating := false;
      if queued {
        queued := false;
        Generate();
      }
    }
  }

  // ---- runs

  predicate Feasible(s: State, events: seq<Event>)
    decreases |events|
  {
    events == [] || (Enabled(s, events[0]) && Feasible(Next(s, events[0]), events[1..]))
  }

  function Run(s: State, events: seq<Event>): State
    requires Feasible(s, events)
    decreases |events|
  {
    if events == [] then s else Run(Next(s, events[0]), events[1..])
  }

  /** The last change has been picked up by a start after it. */
  predicate UpToDate(s: State) {
    s.lastChange.Some? ==> s.lastStart.Some? && s.lastStart.value > s.lastChange.value
  }

  predicate Quiet(s: State) {
    s.pending == {} && !s.generating && !s.queued
  }

  predicate Invariant(s: State) {
    && s.running == (if s.generating then 1 else 0)
    && (s.queued ==> s.generating)
    && (forall t :: t in s.pending ==> s.debounceTimer == Some(t) && s.lastChange == Some(t))
    && (s.lastChange.Some? ==> s.lastChange.value <= s.clock)
    && s.started + (if s.queued then 1 else 0) <= s.fired
    && (s.pending == {} && !s.queued ==> UpToDate(s))
  }

  lemma NextKeeps(s: State, e: Event)
    requires Invariant(s) && Enabled(s, e)
    ensures Invariant(Next(s, e))
  {
    var next := Next(s, e);
    match e {
      case Changed(filename) =>
        if Watched(filename) {
          assert s.clock + 1 in next.pending;
          assert forall t :: t in next.pending ==> t == s.clock + 1;
        }
      case Fired(timer) =>
        assert s.pending - {timer} == {};
      case Closed(code) =>
    }
  }

  lemma {:induction false} RunKeeps(s: State, events: seq<Event>)
    requires Invariant(s) && Feasible(s, events)
    ensures Invariant(Run(s, events))
    decreases |events|
  {
    if events != [] {
      NextKeeps(s, events[0]);
      RunKeeps(Next(s, events[0]), events[1..]);
    }
  }

  /** In every reachable state at most one regeneration runs, a queued one implies a running one,
      at most one timer is pending, no more regenerations have started than timers have fired,
      and a quiet server has started its last regeneration after the last change. */
  lemma Safety(events: seq<Event>)
    requires Feasible(INITIAL, events)
    ensures (var s := Run(INITIAL, events);
             && s.running <= 1 && (s.running == 1 <==> s.generating) && (s.queued ==> s.generating)
             && |s.pending| <= 1 && s.started <= s.fired
             && (Quiet(s) ==> UpToDate(s)))
  {
    RunKeeps(INITIAL, events);
    var s := Run(INITIAL, events);
    hide *;
    InvariantMeans(s);
  }

  lemma InvariantMeans(s: State)
    requires Invariant(s)
    ensures s.running <= 1 && (s.running == 1 <==> s.generating) && (s.queued ==> s.generating)
    ensures |s.pending| <= 1 && s.started <= s.fired && (Quiet(s) ==> UpToDate(s))
  {
    if s.pending != {} {
      var t :| t in s.pending;
      assert s.pending == {t};
    }
  }

  // ---- coming to rest

  /** How many events can still happen when no file changes any more. */
  function Remaining(s: State): nat {
    2 * |s.pending| + (if s.queued then 1 else 0) + (if s.generating then 1 else 0)
  }

  predicate NoChange(events: seq<Event>) {
    forall i :: 0 <= i < |events| ==> !events[i].Changed?
  }

  lemma RemainingFalls(s: State, e: Event)
    requires Invariant(s) && Enabled(s, e) && !e.Changed?
    ensures Remaining(Next(s, e)) < Remaining(s)
  {
    match e {
      case Fired(timer) =>
        assert s.pending == {timer};
        assert s.pending - {timer} == {};
      case Closed(code) =>
    }
  }

  lemma {:induction false} Bounded(s: State, events: seq<Event>)
    requires Invariant(s) && Feasible(s, events) && NoChange(events)
    ensures |events| + Remaining(Run(s, events)) <= Remaining(s)
    decreases |events|
  {
    if events != [] {
      RemainingFalls(s, events[0]);
      NextKeeps(s, events[0]);
      Bounded(Next(s, events[0]), events[1..]);
    }
  }

  /** Once files stop changing at most four more events happen, and nothing more can happen exactly
      when the server is quiet; then it is up to date. */
  lemma ComesToRest(before: seq<Event>, after: seq<Event>)
    requires Feasible(INITIAL, before) && Feasible(Run(INITIAL, before), after) && NoChange(after)
    ensures |after| <= 4
    ensures (var s := Run(Run(INITIAL, before), after);
             (forall e :: Enabled(s, e) ==> e.Changed?) <==> Quiet(s))
    ensures (var s := Run(Run(INITIAL, before), after); Quiet(s) ==> UpToDate(s))
  {
    hide Run, Feasible, Invariant;
    InitialHolds();
    RunKeeps(INITIAL, before);
    var middle := Run(INITIAL, before);
    RunKeeps(middle, after);
    Bounded(middle, after);
    InvariantMeans(middle);
    var s := Run(middle, after);
    InvariantMeans(s);
    if forall e :: Enabled(s, e) ==> e.Changed? {
      assert !Enabled(s, Closed(0));
      assert forall t :: t in s.pending ==> Enabled(s, Fired(t));
      assert s.pending == {};
    }
  }

  lemma InitialHolds()
    ensures Invariant(INITIAL)
  {
  }
}
