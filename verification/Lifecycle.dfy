/** The proxy's life as a state machine: queued operations, cut at every await, and what they do to the environment. */
module Lifecycle {
  import opened Bytes
  import opened Environments

  datatype Op = Start | Stop | Restart | Update

  datatype Status = Stopped | Starting | Running | Failed | Disabled | NoSubscription

  /** The configuration an operation resolves when it begins; `noProxy` is the composed NO_PROXY value. */
  datatype Section = Section(enabled: bool, noProxy: string)

  /** Where the current operation awaits. `Stuck` awaits an operation that is queued behind itself. */
  datatype Point =
    | Idle
    | Stuck
    | StopDispatcher
    | UpdateLoad(section: Section)
    | StartDispatcher(section: Section)
    | StartEnv(section: Section)
    | Load(section: Section)
    | LoadState(section: Section)
    | Listen(section: Section)
    | Install(section: Section)
    | FailDispatcher
    | FailEnv

  /** How an awaited call ends, with what the code behind it does before the next await: building the engine or the
      server may throw, installing the dispatcher may yield a disposer, and setting up the timers may throw. */
  datatype Outcome = Done | Threw | Loaded | Missing | Listening(port: nat) | Installed(disposer: bool, timersSet: bool)

  datatype State = State(
    status: Status, hasServer: bool, port: nat, undoEnv: Option<Saved>, undoDispatcher: bool, subscription: bool,
    runtimeOff: bool, env: Env, pending: seq<Op>, at: Point)

  datatype Event =
    | Enqueue(op: Op)
    | SetRuntimeOff(off: bool)
    | Outside(key: string, value: Option<string>)
    | Begin(section: Section)
    | Resume(outcome: Outcome)

  function Initial(env: Env): State {
    State(Stopped, false, 0, None, false, false, false, env, [], Idle)
  }

  function Undo(env: Env, undo: Option<Saved>): Env {
    if undo.Some? then Restored(env, undo.value) else env
  }

  /** The outcomes the awaited call can have. */
  predicate Fits(s: State, o: Outcome) {
    match s.at
    case StopDispatcher => o.Done? || (o.Threw? && s.undoDispatcher)
    case StartDispatcher(_) => o.Done? || (o.Threw? && s.undoDispatcher)
    case FailDispatcher => o.Done? || (o.Threw? && s.undoDispatcher)
    case UpdateLoad(_) => o.Loaded? || o.Missing? || o.Threw?
    case Load(_) => if s.subscription then o.Done? else o.Loaded? || o.Missing? || o.Threw?
    case Listen(_) => o.Listening? || o.Threw?
    case Install(_) => o.Installed? || o.Threw?
    case StartEnv(_) => o.Done?
    case LoadState(_) => o.Done? || o.Threw?
    case FailEnv => o.Done?
    case Idle => false
    case Stuck => false
  }

  function StartCore(s: State, section: Section): State {
    s.(status := Starting, at := StartDispatcher(section))
  }

  function FailStart(s: State): State {
    s.(status := Failed, hasServer := false, at := FailDispatcher)
  }

  predicate Off(s: State, section: Section) {
    !section.enabled || s.runtimeOff
  }

  function BeginOp(s: State, op: Op, section: Section): State {
    match op
    case Start =>
      if s.hasServer || Off(s, section) then s.(status := if Off(s, section) then Disabled else s.status)
      else StartCore(s, section)
    case Stop => s.(at := StopDispatcher)
    case Restart =>
      if Off(s, section) then s.(at := Stuck, pending := s.pending + [Stop]) else StartCore(s, section)
    case Update =>
      if section.enabled then s.(at := UpdateLoad(section)) else s
  }

  function Continue(s: State, o: Outcome): State
    requires Fits(s, o)
  {
    match s.at
    case StopDispatcher =>
      if o.Threw? then s.(at := Idle)
      else s.(undoDispatcher := false, env := Undo(s.env, s.undoEnv), undoEnv := None, hasServer := false, port := 0,
              status := if s.status.Disabled? || s.status.NoSubscription? then s.status else Stopped, at := Idle)
    case UpdateLoad(section) =>
      if o.Threw? then s.(at := Idle)
      else StartCore(s.(subscription := o.Loaded?), section)
    case StartDispatcher(section) =>
      if o.Threw? then s.(at := Idle)
      else s.(undoDispatcher := false, env := Undo(s.env, s.undoEnv), at := StartEnv(section))
    case StartEnv(section) => s.(undoEnv := None, at := Load(section))
    case Load(section) =>
      if o.Threw? then FailStart(s)
      else if o.Missing? then s.(subscription := false, status := NoSubscription, at := Idle)
      else s.(subscription := true, at := LoadState(section))
    case LoadState(section) =>
      if o.Threw? then FailStart(s) else s.(hasServer := true, at := Listen(section))
    case Listen(section) =>
      if o.Threw? then FailStart(s)
      else s.(port := o.port, undoEnv := Some(Snapshot(s.env)), env := Injected(s.env, o.port, section.noProxy), at := Install(section))
    case Install(section) =>
      if o.Threw? then FailStart(s)
      else if !o.timersSet then FailStart(s.(undoDispatcher := o.disposer))
      else s.(undoDispatcher := o.disposer, status := Running, at := Idle)
    case FailDispatcher =>
      if o.Threw? then s.(at := Idle)
      else s.(undoDispatcher := false, env := Undo(s.env, s.undoEnv), at := FailEnv)
    case FailEnv => s.(undoEnv := None, at := Idle)
  }

  function Step(s: State, e: Event): State {
    match e
    case Enqueue(op) => s.(pending := s.pending + [op])
    case SetRuntimeOff(off) => s.(runtimeOff := off)
    case Outside(key, value) => s.(env := Put(s.env, key, value))
    case Begin(section) =>
      if s.at.Idle? && s.pending != [] then BeginOp(s.(pending := s.pending[1..]), s.pending[0], section) else s
    case Resume(o) => if Fits(s, o) then Continue(s, o) else s
  }

  function Run(s: State, events: seq<Event>): State
    decreases |events|
  {
    if events == [] then s else Run(Step(s, events[0]), events[1..])
  }

  // ---- the environment over whole runs -----------------------------------------------------

  /** Nobody else writes the proxy variables. */
  predicate Undisturbed(events: seq<Event>) {
    forall i :: 0 <= i < |events| && events[i].Outside? ==> events[i].key !in PROXY_ENV_KEYS
  }

  function Written(env: Env, e: Event): Env {
    if e.Outside? then Put(env, e.key, e.value) else env
  }

  /** The environment as it would be without the proxy. */
  function OutsideOnly(env: Env, events: seq<Event>): Env
    decreases |events|
  {
    if events == [] then env else OutsideOnly(Written(env, events[0]), events[1..])
  }

  /** A pending undo holds the original values; without one the variables have them. In between, right behind the
      disposer call, both are true. */
  predicate EnvKept(s: State, original: Saved) {
    && (s.undoEnv.Some? ==> s.undoEnv.value == original)
    && (s.undoEnv.None? || s.at.StartEnv? || s.at.FailEnv? ==> Snapshot(s.env) == original)
    && (s.undoEnv.Some? && !s.at.StartEnv? && !s.at.FailEnv? ==> Points(s.env, s.port))
  }

  /** What else the machine keeps: where an undo may be pending, and when it may call itself running. */
  predicate Shape(s: State) {
    && (s.at.Load? || s.at.LoadState? || s.at.Listen? ==> s.undoEnv.None?)
    && (s.at.Install? ==> s.undoEnv.Some?)
    && (s.status.Running? ==> s.undoEnv.Some? && s.hasServer && (s.at.Idle? || s.at.Stuck? || s.at.StopDispatcher? || s.at.UpdateLoad?))
    && (s.at.StartDispatcher? || s.at.StartEnv? || s.at.Load? || s.at.LoadState? || s.at.Listen? || s.at.Install? ==> s.status.Starting?)
    && (s.at.FailDispatcher? || s.at.FailEnv? ==> s.status.Failed? && !s.hasServer)
    && (s.at.Listen? || s.at.Install? ==> s.hasServer)
  }

  ghost predicate Inv(s: State, original: Saved) {
    Complete(original) && EnvKept(s, original) && Shape(s)
  }

  lemma UndoRestores(s: State, original: Saved)
    requires Inv(s, original)
    ensures Snapshot(Undo(s.env, s.undoEnv)) == original && Others(Undo(s.env, s.undoEnv)) == Others(s.env)
  {
    if s.undoEnv.Some? {
      RestoredHolds(s.env, original);
    }
  }

  /** Segments behind a dispatcher's disposer put the environment back. */
  lemma UndoingKeeps(s: State, o: Outcome, original: Saved)
    requires Inv(s, original) && Fits(s, o) && (s.at.StopDispatcher? || s.at.StartDispatcher? || s.at.FailDispatcher?)
    ensures Inv(Continue(s, o), original) && Others(Continue(s, o).env) == Others(s.env)
  {
    UndoRestores(s, original);
  }

  lemma ListenKeeps(s: State, o: Outcome, original: Saved)
    requires Inv(s, original) && Fits(s, o) && s.at.Listen?
    ensures Inv(Continue(s, o), original) && Others(Continue(s, o).env) == Others(s.env)
  {
    if o.Listening? {
      InjectedHolds(s.env, o.port, s.at.section.noProxy);
    }
  }

  lemma LoadKeeps(s: State, o: Outcome, original: Saved)
    requires Inv(s, original) && Fits(s, o) && (s.at.UpdateLoad? || s.at.Load? || s.at.LoadState?)
    ensures Inv(Continue(s, o), original) && Continue(s, o).env == s.env
  {
  }

  lemma QuietKeeps(s: State, o: Outcome, original: Saved)
    requires Inv(s, original) && Fits(s, o) && (s.at.StartEnv? || s.at.Install? || s.at.FailEnv?)
    ensures Inv(Continue(s, o), original) && Continue(s, o).env == s.env
  {
  }

  lemma ContinueKeeps(s: State, o: Outcome, original: Saved)
    requires Inv(s, original) && Fits(s, o)
    ensures Inv(Continue(s, o), original) && Others(Continue(s, o).env) == Others(s.env)
  {
    if s.at.Listen? {
      ListenKeeps(s, o, original);
    } else if s.at.StopDispatcher? || s.at.StartDispatcher? || s.at.FailDispatcher? {
      UndoingKeeps(s, o, original);
    } else if s.at.UpdateLoad? || s.at.Load? || s.at.LoadState? {
      LoadKeeps(s, o, original);
    } else {
      QuietKeeps(s, o, original);
    }
  }

  lemma BeginKeeps(s: State, op: Op, section: Section, original: Saved)
    requires Inv(s, original) && s.at.Idle?
    ensures Inv(BeginOp(s, op, section), original) && BeginOp(s, op, section).env == s.env
  {
    match op {
      case Start =>
      case Stop =>
      case Restart =>
      case Update =>
    }
  }

  lemma StepKeeps(s: State, e: Event, original: Saved)
    requires Inv(s, original) && (e.Outside? ==> e.key !in PROXY_ENV_KEYS)
    ensures Inv(Step(s, e), original)
    ensures Others(Step(s, e).env) == Others(Written(s.env, e))
  {
    match e {
      case Enqueue(_) =>
      case SetRuntimeOff(_) =>
      case Outside(key, value) => OutsideKeeps(s, key, value, original);
      case Begin(section) =>
        if s.at.Idle? && s.pending != [] {
          BeginKeeps(s.(pending := s.pending[1..]), s.pending[0], section, original);
        }
      case Resume(o) =>
        if Fits(s, o) {
          ContinueKeeps(s, o, original);
        }
    }
  }

  lemma OutsideKeeps(s: State, key: string, value: Option<string>, original: Saved)
    requires Inv(s, original) && key !in PROXY_ENV_KEYS
    ensures Inv(s.(env := Put(s.env, key, value)), original)
  {
    PutIsLocal(s.env, key, value);
  }

  lemma OthersOfPut(a: Env, b: Env, key: string, value: Option<string>)
    requires Others(a) == Others(b) && key !in PROXY_ENV_KEYS
    ensures Others(Put(a, key, value)) == Others(Put(b, key, value))
  {
    var x, y := Put(a, key, value), Put(b, key, value);
    forall k
      ensures k in Others(x) <==> k in Others(y)
      ensures k in Others(x) ==> Others(x)[k] == Others(y)[k]
    {
      PutIsLocal(a, key, value);
      PutIsLocal(b, key, value);
      assert k in Others(a) <==> k in Others(b);
      assert k in x <==> Get(x, k).Some?;
      assert k in y <==> Get(y, k).Some?;
    }
  }

  lemma WrittenKeeps(a: Env, b: Env, e: Event)
    requires Others(a) == Others(b) && (e.Outside? ==> e.key !in PROXY_ENV_KEYS)
    ensures Others(Written(a, e)) == Others(Written(b, e)) && Snapshot(Written(b, e)) == Snapshot(b)
  {
    if e.Outside? {
      PutIsLocal(b, e.key, e.value);
      OthersOfPut(a, b, e.key, e.value);
    }
  }

  /** Every run keeps the invariant, and other variables hold what was written to them. */
  lemma {:induction false} RunKeeps(s: State, base: Env, events: seq<Event>)
    requires Inv(s, Snapshot(base)) && Others(s.env) == Others(base) && Undisturbed(events)
    ensures Inv(Run(s, events), Snapshot(base))
    ensures Others(Run(s, events).env) == Others(OutsideOnly(base, events))
    ensures Snapshot(OutsideOnly(base, events)) == Snapshot(base)
    decreases |events|
  {
    if events != [] {
      var e, rest := events[0], events[1..];
      assert forall i :: 0 <= i < |rest| ==> rest[i] == events[i + 1];
      StepKeeps(s, e, Snapshot(base));
      WrittenKeeps(s.env, base, e);
      RunKeeps(Step(s, e), Written(base, e), rest);
    }
  }

  lemma InitialHolds(env: Env)
    ensures Inv(Initial(env), Snapshot(env))
  {
  }

  /** A stop that completes leaves the environment as it would be had the proxy never run. */
  lemma StopRestores(env: Env, events: seq<Event>)
    requires Undisturbed(events) && Run(Initial(env), events).at.StopDispatcher?
    ensures var after := Step(Run(Initial(env), events), Resume(Done));
            after.env == OutsideOnly(env, events) && after.undoEnv == None && !after.hasServer && after.port == 0 && after.at.Idle?
  {
    InitialHolds(env);
    RunKeeps(Initial(env), env, events);
    var s := Run(Initial(env), events);
    UndoRestores(s, Snapshot(env));
    SameEnv(Undo(s.env, s.undoEnv), OutsideOnly(env, events));
  }

  /** Between operations: running means a server and a pending undo; with an undo pending the environment names the
      port and the original is saved; with none pending the environment is untouched. */
  lemma AtRest(env: Env, events: seq<Event>)
    requires Undisturbed(events) && Run(Initial(env), events).at.Idle?
    ensures var s := Run(Initial(env), events);
            && (s.status.Running? ==> s.hasServer && s.undoEnv.Some?)
            && (s.undoEnv.Some? ==> s.undoEnv.value == Snapshot(env) && Points(s.env, s.port))
            && (s.undoEnv.None? ==> s.env == OutsideOnly(env, events))
  {
    InitialHolds(env);
    RunKeeps(Initial(env), env, events);
    var s := Run(Initial(env), events);
    if s.undoEnv.None? {
      SameEnv(s.env, OutsideOnly(env, events));
    }
  }

  // ---- operations settle, except one ---------------------------------------------------------

  function Rank(p: Point): nat {
    match p
    case UpdateLoad(_) => 9
    case StartDispatcher(_) => 8
    case StartEnv(_) => 7
    case Load(_) => 6
    case LoadState(_) => 5
    case Listen(_) => 4
    case Install(_) => 3
    case FailDispatcher => 2
    case FailEnv => 1
    case StopDispatcher => 1
    case Idle => 0
    case Stuck => 0
  }

  predicate Busy(s: State) {
    !s.at.Idle? && !s.at.Stuck?
  }

  /** The awaits the operation under way has come back from. */
  function Resumed(s: State, events: seq<Event>): nat
    decreases |events|
  {
    if events == [] then 0
    else (if events[0].Resume? && Fits(s, events[0].outcome) then 1 else 0) + Resumed(Step(s, events[0]), events[1..])
  }

  /** The operation under way has not ended at any moment of the run. */
  predicate StaysBusy(s: State, events: seq<Event>)
    decreases |events|
  {
    Busy(s) && (events != [] ==> StaysBusy(Step(s, events[0]), events[1..]))
  }

  /** Coming back from an await leads on towards the end of the operation. */
  lemma Advances(s: State, o: Outcome)
    requires Fits(s, o)
    ensures Rank(Continue(s, o).at) < Rank(s.at) && !Continue(s, o).at.Stuck?
  {
    match s.at {
      case StopDispatcher =>
      case UpdateLoad(_) =>
      case StartDispatcher(_) =>
      case StartEnv(_) =>
      case Load(_) =>
      case LoadState(_) =>
      case Listen(_) =>
      case Install(_) =>
      case FailDispatcher =>
      case FailEnv =>
    }
  }

  lemma BusyStep(s: State, e: Event)
    requires Busy(s)
    ensures if e.Resume? && Fits(s, e.outcome) then Rank(Step(s, e).at) < Rank(s.at) && !Step(s, e).at.Stuck?
            else Step(s, e).at == s.at
  {
    if e.Resume? && Fits(s, e.outcome) {
      Advances(s, e.outcome);
    }
  }

  lemma CanResume(s: State)
    requires Busy(s)
    ensures exists o :: Fits(s, o)
  {
    assert Fits(s, Done) || Fits(s, Threw);
  }

  /** An awaited call can always come back, and an operation is over after at most nine awaits, whatever happens meanwhile. */
  lemma {:induction false} Settles(s: State, events: seq<Event>)
    requires StaysBusy(s, events)
    ensures Resumed(s, events) + Rank(Run(s, events).at) <= Rank(s.at) <= 9
    ensures exists o :: Fits(Run(s, events), o)
    decreases |events|
  {
    if events == [] {
      CanResume(s);
    } else {
      BusyStep(s, events[0]);
      Settles(Step(s, events[0]), events[1..]);
    }
  }

  /** An operation gets stuck exactly when it is a restart that begins while the proxy is switched off. */
  lemma StuckIff(s: State, e: Event)
    requires !s.at.Stuck?
    ensures Step(s, e).at.Stuck?
            <==> e.Begin? && s.at.Idle? && s.pending != [] && s.pending[0].Restart? && (!e.section.enabled || s.runtimeOff)
  {
    if Busy(s) {
      BusyStep(s, e);
    }
  }

  /** From then on no operation runs any more: the queue only grows, and the environment stays as it is. */
  lemma {:induction false} StuckForever(s: State, events: seq<Event>)
    requires s.at.Stuck?
    ensures var after := Run(s, events);
            after.at.Stuck? && s.pending <= after.pending && after.env == OutsideOnly(s.env, events) && after.status == s.status
    decreases |events|
  {
    if events != [] {
      StuckStep(s, events[0]);
      StuckForever(Step(s, events[0]), events[1..]);
    }
  }

  lemma StuckStep(s: State, e: Event)
    requires s.at.Stuck?
    ensures var after := Step(s, e);
            after.at.Stuck? && s.pending <= after.pending && after.env == Written(s.env, e) && after.status == s.status
  {
  }

  // ---- switched off at run time ------------------------------------------------------------

  /** No operation under way that could bring the proxy up. */
  predicate Quiet(s: State) {
    s.at.Idle? || s.at.Stuck? || s.at.StopDispatcher?
  }

  /** The switch stays off for the whole run. */
  predicate KeptOff(events: seq<Event>) {
    forall i :: 0 <= i < |events| ==> events[i] != SetRuntimeOff(false)
  }

  /** An update begins with the section enabled. */
  predicate UpdateBegins(s: State, e: Event) {
    e.Begin? && s.at.Idle? && s.pending != [] && s.pending[0].Update? && e.section.enabled
  }

  /** Some enabled update begins during the run. */
  predicate SomeUpdateBegins(s: State, events: seq<Event>)
    decreases |events|
  {
    events != [] && (UpdateBegins(s, events[0]) || SomeUpdateBegins(Step(s, events[0]), events[1..]))
  }

  /** Nothing that could bring the proxy up is under way at any moment of the run, and no server appears. */
  predicate StaysDown(s: State, events: seq<Event>)
    decreases |events|
  {
    Quiet(s) && (events != [] ==>
                   (Step(s, events[0]).hasServer ==> s.hasServer) && StaysDown(Step(s, events[0]), events[1..]))
  }

  lemma OffStep(s: State, e: Event)
    requires s.runtimeOff && Quiet(s) && e != SetRuntimeOff(false)
    ensures Step(s, e).runtimeOff
    ensures Quiet(Step(s, e)) <==> !UpdateBegins(s, e)
    ensures Step(s, e).hasServer ==> s.hasServer
  {
  }

  /** While it is kept switched off, the proxy stays down exactly as long as no enabled update begins. */
  lemma {:induction false} StaysDownIff(s: State, events: seq<Event>)
    requires s.runtimeOff && Quiet(s) && KeptOff(events)
    ensures StaysDown(s, events) <==> !SomeUpdateBegins(s, events)
    decreases |events|
  {
    if events != [] {
      var rest := events[1..];
      assert forall i :: 0 <= i < |rest| ==> rest[i] == events[i + 1];
      OffStep(s, events[0]);
      if !UpdateBegins(s, events[0]) {
        StaysDownIff(Step(s, events[0]), rest);
      } else {
        assert !StaysDown(Step(s, events[0]), rest);
      }
    }
  }

  lemma {:induction false} RunAppend(s: State, a: seq<Event>, b: seq<Event>)
    ensures Run(s, a + b) == Run(Run(s, a), b)
    decreases |a|
  {
    if a == [] {
      assert a + b == b;
    } else {
      assert (a + b)[0] == a[0] && (a + b)[1..] == a[1..] + b;
      RunAppend(Step(s, a[0]), a[1..], b);
    }
  }

  lemma RunTwo(s: State, e: Event, f: Event)
    ensures Run(s, [e, f]) == Step(Step(s, e), f)
  {
    assert [e, f][1..] == [f] && [f][1..] == [];
    assert Run(Step(s, e), [f]) == Run(Step(Step(s, e), f), []);
  }

  /** An update with the switch off, and a start in which nothing goes wrong. */
  function UpdateEvents(section: Section): seq<Event> {
    [SetRuntimeOff(true), Enqueue(Update)] + [Begin(section), Resume(Loaded)]
  }

  function StartEvents(port: nat): seq<Event> {
    [Resume(Done), Resume(Done)] + [Resume(Done), Resume(Done)] + [Resume(Listening(port)), Resume(Installed(true, true))]
  }

  /** And an update does bring it up: switched off all the time, the proxy ends up running. */
  lemma UpdateRunsWhileOff(env: Env, section: Section, port: nat)
    requires section.enabled
    ensures var s := Run(Initial(env), UpdateEvents(section) + StartEvents(port));
            s.status == Running && s.hasServer && s.runtimeOff && s.port == port
  {
    RunAppend(Initial(env), UpdateEvents(section), StartEvents(port));
    UpdateStarts(env, section);
    StartRuns(Run(Initial(env), UpdateEvents(section)), section, port);
  }

  lemma UpdateStarts(env: Env, section: Section)
    requires section.enabled
    ensures Run(Initial(env), UpdateEvents(section))
            == StartCore(Initial(env).(runtimeOff := true, subscription := true), section)
  {
    var a, b := [SetRuntimeOff(true), Enqueue(Update)], [Begin(section), Resume(Loaded)];
    RunAppend(Initial(env), a, b);
    RunTwo(Initial(env), a[0], a[1]);
    RunTwo(Initial(env).(runtimeOff := true, pending := [Update]), b[0], b[1]);
    assert [Update][1..] == [] && [] + [Update] == [Update];
  }

  /** A start in which nothing goes wrong. */
  lemma StartRuns(s: State, section: Section, port: nat)
    requires s.at == StartDispatcher(section) && s.subscription && s.undoEnv.None?
    ensures var t := Run(s, StartEvents(port));
            t.status == Running && t.hasServer && t.runtimeOff == s.runtimeOff && t.port == port
  {
    var a, b, c := [Resume(Done), Resume(Done)], [Resume(Done), Resume(Done)], [Resume(Listening(port)), Resume(Installed(true, true))];
    var s2 := s.(undoDispatcher := false, at := Load(section));
    var s4 := s2.(hasServer := true, at := Listen(section));
    RunAppend(s, a + b, c);
    RunAppend(s, a, b);
    assert Run(s, a) == s2 by { UndoneStart(s, section); }
    assert Run(s2, b) == s4 by { LoadedStart(s2, section); }
    RunTwo(s4, c[0], c[1]);
  }

  lemma UndoneStart(s: State, section: Section)
    requires s.at == StartDispatcher(section) && s.undoEnv.None?
    ensures Run(s, [Resume(Done), Resume(Done)]) == s.(undoDispatcher := false, at := Load(section))
  {
    RunTwo(s, Resume(Done), Resume(Done));
  }

  lemma LoadedStart(s: State, section: Section)
    requires s.at == Load(section) && s.subscription
    ensures Run(s, [Resume(Done), Resume(Done)]) == s.(hasServer := true, at := Listen(section))
  {
    RunTwo(s, Resume(Done), Resume(Done));
  }

  // ---- what an operation leads to --------------------------------------------------------------

  /** Where the next queued operation goes: a start brings the proxy up unless it has a server or is off, a restart unless
      it is off, an update unless its section is disabled, and a stop takes it down. */
  lemma BeginIff(s: State, section: Section)
    requires s.at.Idle? && s.pending != []
    ensures var (op, off, t) := (s.pending[0], !section.enabled || s.runtimeOff, Step(s, Begin(section)));
            && (t.at == StartDispatcher(section) <==> (op == Start && !s.hasServer && !off) || (op == Restart && !off))
            && (t.at == UpdateLoad(section) <==> op == Update && section.enabled)
            && (t.at == StopDispatcher <==> op == Stop)
            && (t.at == Stuck <==> op == Restart && off)
            && (t.at.StartDispatcher? ==> t.status == Starting)
            && (t.at.Idle? ==> t.status == if op == Start && off then Disabled else s.status)
            && t.(at := s.at, status := s.status, pending := s.pending)
               == s && t.pending == s.pending[1..] + if t.at.Stuck? then [Stop] else []
  {
  }

  /** The awaited calls end one after the other in these ways. */
  predicate Comes(s: State, outcomes: seq<Outcome>)
    decreases |outcomes|
  {
    outcomes == [] || (Fits(s, outcomes[0]) && Comes(Continue(s, outcomes[0]), outcomes[1..]))
  }

  function After(s: State, outcomes: seq<Outcome>): State
    requires Comes(s, outcomes)
    decreases |outcomes|
  {
    if outcomes == [] then s else After(Continue(s, outcomes[0]), outcomes[1..])
  }

  /** Every call of a start ends well. */
  predicate Succeeds(outcomes: seq<Outcome>) {
    && |outcomes| == 6 && outcomes[0].Done? && outcomes[1].Done? && !outcomes[2].Threw? && !outcomes[2].Missing?
    && outcomes[3].Done? && outcomes[4].Listening? && outcomes[5].Installed? && outcomes[5].timersSet
  }

  /** How a start that is over has ended. */
  predicate EndsWell(s: State, t: State, section: Section, port: nat) {
    && t.status == Running && t.hasServer && t.port == port && t.subscription
    && t.env == Injected(s.env, port, section.noProxy) && t.undoEnv == Some(Snapshot(s.env))
  }

  /** Behind the listening server: the installation decides. */
  lemma InstallEnds(s: State, outcomes: seq<Outcome>)
    requires s.at.Install? && Comes(s, outcomes) && After(s, outcomes).at.Idle?
    ensures var t := After(s, outcomes);
            if outcomes != [] && outcomes[0].Installed? && outcomes[0].timersSet
            then |outcomes| == 1 && t == s.(undoDispatcher := outcomes[0].disposer, status := Running, at := Idle)
            else t.status == Failed && !t.hasServer
  {
    if outcomes != [] {
      var t := Continue(s, outcomes[0]);
      if t.at.Idle? {
        NothingComes(t, outcomes[1..]);
      } else {
        FailureEnds(t, outcomes[1..]);
      }
    }
  }

  lemma NothingComes(s: State, outcomes: seq<Outcome>)
    requires s.at.Idle? && Comes(s, outcomes)
    ensures outcomes == [] && After(s, outcomes) == s
  {
  }

  /** How the catch block of a start ends: with the environment put back, unless the dispatcher cannot be undone. */
  lemma FailureEnds(s: State, outcomes: seq<Outcome>)
    requires s.at.FailDispatcher? && Comes(s, outcomes) && After(s, outcomes).at.Idle?
    ensures After(s, outcomes) == if outcomes[0].Threw? then s.(at := Idle) else TakenBack(s)
    ensures |outcomes| == if outcomes[0].Threw? then 1 else 2
  {
    var t := Continue(s, outcomes[0]);
    if t.at.Idle? {
      NothingComes(t, outcomes[1..]);
    } else {
      NothingComes(Continue(t, outcomes[1..][0]), outcomes[1..][1..]);
    }
  }

  function TakenBack(s: State): State {
    s.(undoDispatcher := false, env := Undo(s.env, s.undoEnv), undoEnv := None, at := Idle)
  }

  /** How a stop ends: no server, no port and the environment put back, and stopped unless it was disabled or without a
      subscription; but if the dispatcher cannot be undone, nothing is stopped. */
  lemma StopEnds(s: State, outcomes: seq<Outcome>)
    requires s.at.StopDispatcher? && Comes(s, outcomes) && After(s, outcomes).at.Idle?
    ensures |outcomes| == 1
    ensures var status := if s.status == Disabled || s.status == NoSubscription then s.status else Stopped;
            After(s, outcomes) == if outcomes[0].Threw? then s.(at := Idle)
                                  else TakenBack(s).(hasServer := false, port := 0, status := status)
  {
    NothingComes(Continue(s, outcomes[0]), outcomes[1..]);
  }

  /** An update goes on as a start once the subscription was fetched, or there is none; if that throws, it is over. */
  lemma UpdateGoesOn(s: State, section: Section, o: Outcome)
    requires s.at == UpdateLoad(section) && Fits(s, o)
    ensures Continue(s, o) == if o.Threw? then s.(at := Idle)
                              else s.(subscription := o == Loaded, status := Starting, at := StartDispatcher(section))
  {
  }

  /** Behind the load: the stored selection, the server and the installation must all end well. */
  lemma ServerEnds(s: State, section: Section, outcomes: seq<Outcome>)
    requires s.at == LoadState(section) && s.undoEnv.None? && s.subscription && Comes(s, outcomes) && After(s, outcomes).at.Idle?
    ensures var t := After(s, outcomes);
            if |outcomes| == 3 && outcomes[0].Done? && outcomes[1].Listening? && outcomes[2].Installed? && outcomes[2].timersSet
            then EndsWell(s, t, section, outcomes[1].port)
            else t.status == Failed && !t.hasServer
  {
    if outcomes != [] {
      var t := Continue(s, outcomes[0]);
      if outcomes[0].Threw? {
        FailureEnds(t, outcomes[1..]);
      } else {
        ListenEnds(t, section, outcomes[1..]);
      }
    }
  }

  lemma ListenEnds(s: State, section: Section, outcomes: seq<Outcome>)
    requires s.at == Listen(section) && s.hasServer && s.undoEnv.None? && s.subscription
    requires Comes(s, outcomes) && After(s, outcomes).at.Idle?
    ensures var t := After(s, outcomes);
            if |outcomes| == 2 && outcomes[0].Listening? && outcomes[1].Installed? && outcomes[1].timersSet
            then EndsWell(s, t, section, outcomes[0].port)
            else t.status == Failed && !t.hasServer
  {
    if outcomes != [] {
      var t := Continue(s, outcomes[0]);
      if outcomes[0].Threw? {
        FailureEnds(t, outcomes[1..]);
      } else {
        InstallEnds(t, outcomes[1..]);
      }
    }
  }

  /** A start that is over left the proxy running exactly if every call ended well: then the server listens and the
      environment, restored first, points at it. With no subscription there is no server to start; if already the old
      dispatcher cannot be undone nothing else happens; and any other failure leaves no server. */
  lemma StartEndsIff(s: State, section: Section, outcomes: seq<Outcome>)
    requires s.at == StartDispatcher(section) && s.status == Starting && Comes(s, outcomes) && After(s, outcomes).at.Idle?
    ensures var t := After(s, outcomes);
            if Succeeds(outcomes) then EndsWell(s.(env := Undo(s.env, s.undoEnv)), t, section, outcomes[4].port)
            else if outcomes != [] && outcomes[0].Threw? then t == s.(at := Idle)
            else if |outcomes| == 3 && outcomes[2].Missing? then t.status == NoSubscription && !t.subscription
            else t.status == Failed && !t.hasServer
  {
    if outcomes != [] {
      var a := Continue(s, outcomes[0]);
      if outcomes[0].Threw? {
        NothingComes(a, outcomes[1..]);
      } else if |outcomes| > 1 {
        var more := outcomes[1..];
        var b := Continue(a, more[0]);
        assert b.at == Load(section) && b.env == Undo(s.env, s.undoEnv) && b.undoEnv.None?;
        LoadEnds(b, section, more[1..]);
      }
    }
  }

  lemma LoadEnds(s: State, section: Section, outcomes: seq<Outcome>)
    requires s.at == Load(section) && s.undoEnv.None? && Comes(s, outcomes) && After(s, outcomes).at.Idle?
    ensures var t := After(s, outcomes);
            if |outcomes| == 4 && !outcomes[0].Threw? && !outcomes[0].Missing? && outcomes[1].Done? && outcomes[2].Listening?
               && outcomes[3].Installed? && outcomes[3].timersSet
            then EndsWell(s, t, section, outcomes[2].port)
            else if |outcomes| == 1 && outcomes[0].Missing? then t.status == NoSubscription && !t.subscription
            else t.status == Failed && !t.hasServer
  {
    if outcomes != [] {
      var t := Continue(s, outcomes[0]);
      if outcomes[0].Threw? {
        FailureEnds(t, outcomes[1..]);
      } else if outcomes[0].Missing? {
        NothingComes(t, outcomes[1..]);
      } else {
        ServerEnds(t, section, outcomes[1..]);
      }
    }
  }

  /** From a fresh manager to a running proxy: a start is queued and begins while the section is enabled, and every call
      ends well. */
  lemma StartBringsUp(env: Env, section: Section, port: nat, disposer: bool)
    requires section.enabled
    ensures var events := [Enqueue(Start), Begin(section)]
                        + [Resume(Done), Resume(Done), Resume(Loaded), Resume(Done), Resume(Listening(port)),
                           Resume(Installed(disposer, true))];
            var t := Run(Initial(env), events);
            && t.at.Idle? && EndsWell(Initial(env), t, section, port)
  {
    var outcomes := [Done, Done, Loaded, Done, Listening(port), Installed(disposer, true)];
    var s := StartCore(Initial(env), section);
    RunTwo(Initial(env), Enqueue(Start), Begin(section));
    assert [] + [Start] == [Start] && [Start][1..] == [];
    SuccessComes(s, section, outcomes);
    StartEndsIff(s, section, outcomes);
    ResumedAfter(s, outcomes);
    var resumes := [Resume(Done), Resume(Done), Resume(Loaded), Resume(Done), Resume(Listening(port)),
                    Resume(Installed(disposer, true))];
    assert Resumes(outcomes) == resumes;
    RunAppend(Initial(env), [Enqueue(Start), Begin(section)], resumes);
  }

  /** Every awaited call that comes back counts. */
  lemma {:induction false} AllResumed(s: State, outcomes: seq<Outcome>)
    requires Comes(s, outcomes)
    ensures Resumed(s, Resumes(outcomes)) == |outcomes|
    decreases |outcomes|
  {
    if outcomes != [] {
      assert Resumes(outcomes)[1..] == Resumes(outcomes[1..]);
      AllResumed(Continue(s, outcomes[0]), outcomes[1..]);
    }
  }

  /** Stopping a fresh manager changes nothing. */
  lemma StopOfFresh(env: Env, section: Section)
    ensures Step(Run(Initial(env), [Enqueue(Stop), Begin(section)]), Resume(Done)) == Initial(env)
  {
    RunTwo(Initial(env), Enqueue(Stop), Begin(section));
    assert [] + [Stop] == [Stop] && [Stop][1..] == [];
  }

  function Resumes(outcomes: seq<Outcome>): seq<Event> {
    seq(|outcomes|, i requires 0 <= i < |outcomes| => Resume(outcomes[i]))
  }

  lemma {:induction false} ResumedAfter(s: State, outcomes: seq<Outcome>)
    requires Comes(s, outcomes)
    ensures Run(s, Resumes(outcomes)) == After(s, outcomes)
    decreases |outcomes|
  {
    if outcomes != [] {
      assert Resumes(outcomes)[1..] == Resumes(outcomes[1..]);
      ResumedAfter(Continue(s, outcomes[0]), outcomes[1..]);
    }
  }

  /** A successful start can always come about. */
  lemma SuccessComes(s: State, section: Section, outcomes: seq<Outcome>)
    requires s.at == StartDispatcher(section) && Succeeds(outcomes) && (if s.subscription then outcomes[2].Done? else outcomes[2].Loaded?)
    ensures Comes(s, outcomes) && After(s, outcomes).at.Idle?
  {
    var s1 := Continue(s, outcomes[0]);
    var s2 := Continue(s1, outcomes[1]);
    var s3 := Continue(s2, outcomes[2]);
    var s4 := Continue(s3, outcomes[3]);
    var s5 := Continue(s4, outcomes[4]);
    var s6 := Continue(s5, outcomes[5]);
    OneComes(s5, outcomes, 5);
    OneComes(s4, outcomes, 4);
    OneComes(s3, outcomes, 3);
    OneComes(s2, outcomes, 2);
    OneComes(s1, outcomes, 1);
    OneComes(s, outcomes, 0);
    assert outcomes[0..] == outcomes && s6.at.Idle?;
  }

  lemma OneComes(s: State, outcomes: seq<Outcome>, i: nat)
    requires i < |outcomes| && Fits(s, outcomes[i]) && Comes(Continue(s, outcomes[i]), outcomes[i + 1..])
    ensures Comes(s, outcomes[i..]) && After(s, outcomes[i..]) == After(Continue(s, outcomes[i]), outcomes[i + 1..])
  {
    assert outcomes[i..][1..] == outcomes[i + 1..];
  }

  /** Switching the proxy off at run time and then changing the configuration is enough. */
  lemma SwitchedOffThenReconfigured(env: Env, section: Section)
    ensures Run(Initial(env), [SetRuntimeOff(true), Enqueue(Stop)] + [Begin(section), Resume(Done)]
                              + [Enqueue(Restart), Begin(section)]).at.Stuck?
  {
    var a, b, c := [SetRuntimeOff(true), Enqueue(Stop)], [Begin(section), Resume(Done)], [Enqueue(Restart), Begin(section)];
    RunAppend(Initial(env), a + b, c);
    RunAppend(Initial(env), a, b);
    RunTwo(Initial(env), a[0], a[1]);
    var s := Initial(env).(runtimeOff := true, pending := [Stop]);
    assert [] + [Stop] == [Stop] && [Stop][1..] == [];
    RunTwo(s, b[0], b[1]);
    RunTwo(Run(s, b), c[0], c[1]);
  }
}
