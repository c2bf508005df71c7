/** The manager object: one method for every stretch of code between two awaits. */
module Managers {
  import opened Bytes
  import opened Environments
  import opened Lifecycle

  class ClashManager {
    var status: Status
    var hasServer: bool
    var port: nat
    var undoEnv: Option<Saved>
    var undoDispatcher: bool
    var subscription: bool
    var runtimeOff: bool
    var pending: seq<Op>
    var at: Point
    const process: Process

    function Now(): State
      reads this, process
    {
      State(status, hasServer, port, undoEnv, undoDispatcher, subscription, runtimeOff, process.env, pending, at)
    }

    /** What is saved is a whole snapshot. */
    ghost predicate Valid()
      reads this
    {
      undoEnv.Some? ==> Complete(undoEnv.value)
    }

    constructor (process: Process)
      ensures Valid() && this.process == process && Now() == Initial(process.env)
    {
      status, hasServer, port := Stopped, false, 0;
      undoEnv, undoDispatcher, subscription, runtimeOff := None, false, false, false;
      pending, at := [], Idle;
      this.process := process;
    }

    method Queue(op: Op)
      modifies this`pending
      ensures Now() == Step(old(Now()), Enqueue(op))
    {
      pending := pending + [op];
    }

    method TurnOff(off: bool)
      modifies this`runtimeOff
      ensures Now() == Step(old(Now()), SetRuntimeOff(off))
    {
      runtimeOff := off;
    }

    /** The next queued operation runs up to its first await. */
    method BeginNext(section: Section)
      requires at.Idle? && pending != []
      modifies this`pending, this`at, this`status
      ensures Now() == Step(old(Now()), Begin(section))
    {
      var op := pending[0];
      pending := pending[1..];
      match op {
        case Start =>
          if hasServer || !section.enabled || runtimeOff {
            status := if !section.enabled || runtimeOff then Disabled else status;
          } else {
            StartTheCore(section);
          }
        case Stop => at := StopDispatcher;
        case Restart =>
          if !section.enabled || runtimeOff {
            pending := pending + [Stop];
            at := Stuck;
          } else {
            StartTheCore(section);
          }
        case Update =>
          if section.enabled {
            at := UpdateLoad(section);
          }
      }
    }

    method StartTheCore(section: Section)
      modifies this`at, this`status
      ensures Now() == StartCore(old(Now()), section)
    {
      status := Starting;
      at := StartDispatcher(section);
    }

    method UndoEnvironment()
      requires Valid()
      modifies process
      ensures process.env == Undo(old(process.env), undoEnv)
    {
      if undoEnv.Some? {
        process.Restore(undoEnv.value);
      }
    }

    method FailTheStart()
      modifies this`at, this`status, this`hasServer
      ensures Now() == FailStart(old(Now()))
    {
      status := Failed;
      hasServer := false;
      at := FailDispatcher;
    }

    /** Behind the dispatcher's disposer in `stop`. */
    method AfterStopDispatcher(outcome: Outcome)
      requires Valid() && at.StopDispatcher? && Fits(Now(), outcome)
      modifies this, process
      ensures Valid() && Now() == Continue(old(Now()), outcome)
    {
      if outcome.Threw? {
        at := Idle;
        return;
      }
      undoDispatcher := false;
      UndoEnvironment();
      undoEnv := None;
      hasServer := false;
      port := 0;
      if !status.Disabled? && !status.NoSubscription? {
        status := Stopped;
      }
      at := Idle;
    }

    /** Behind the dispatcher's disposer at the head of a start. */
    method AfterStartDispatcher(outcome: Outcome)
      requires Valid() && at.StartDispatcher? && Fits(Now(), outcome)
      modifies this`undoDispatcher, this`at, process
      ensures Now() == Continue(old(Now()), outcome)
    {
      if outcome.Threw? {
        at := Idle;
        return;
      }
      undoDispatcher := false;
      UndoEnvironment();
      at := StartEnv(at.section);
    }

    /** Behind the dispatcher's disposer in the catch block of a start. */
    method AfterFailDispatcher(outcome: Outcome)
      requires Valid() && at.FailDispatcher? && Fits(Now(), outcome)
      modifies this`undoDispatcher, this`at, process
      ensures Now() == Continue(old(Now()), outcome)
    {
      if outcome.Threw? {
        at := Idle;
        return;
      }
      undoDispatcher := false;
      UndoEnvironment();
      at := FailEnv;
    }

    /** Behind the forced load of an update. */
    method AfterUpdateLoad(outcome: Outcome)
      requires at.UpdateLoad? && Fits(Now(), outcome)
      modifies this`subscription, this`status, this`at
      ensures Now() == Continue(old(Now()), outcome)
    {
      if outcome.Threw? {
        at := Idle;
        return;
      }
      subscription := outcome.Loaded?;
      if outcome.Missing? {
        status := NoSubscription;
      }
      StartTheCore(at.section);
    }

    /** Behind the load of a start. */
    method AfterLoad(outcome: Outcome)
      requires at.Load? && Fits(Now(), outcome)
      modifies this`subscription, this`status, this`at, this`hasServer
      ensures Now() == Continue(old(Now()), outcome)
    {
      if outcome.Threw? {
        FailTheStart();
      } else if outcome.Missing? {
        subscription := false;
        status := NoSubscription;
        at := Idle;
      } else {
        subscription := true;
        at := LoadState(at.section);
      }
    }

    /** Behind the stored selection: the engine and the server are made. */
    method AfterLoadState(outcome: Outcome)
      requires at.LoadState? && Fits(Now(), outcome)
      modifies this`status, this`at, this`hasServer
      ensures Now() == Continue(old(Now()), outcome)
    {
      if outcome.Threw? {
        FailTheStart();
      } else {
        hasServer := true;
        at := Listen(at.section);
      }
    }

    /** Behind the installation of the dispatcher. */
    method AfterInstall(outcome: Outcome)
      requires at.Install? && Fits(Now(), outcome)
      modifies this`undoDispatcher, this`status, this`at, this`hasServer
      ensures Now() == Continue(old(Now()), outcome)
    {
      if outcome.Threw? {
        FailTheStart();
        return;
      }
      undoDispatcher := outcome.disposer;
      if outcome.timersSet {
        status := Running;
        at := Idle;
      } else {
        FailTheStart();
      }
    }

    /** Behind the listening server: the environment is saved and pointed at it. */
    method AfterListen(outcome: Outcome)
      requires Valid() && at.Listen? && Fits(Now(), outcome)
      modifies this`port, this`undoEnv, this`status, this`at, this`hasServer, process
      ensures Valid() && Now() == Continue(old(Now()), outcome)
    {
      if outcome.Threw? {
        FailTheStart();
        return;
      }
      port := outcome.port;
      var saved := process.Inject(port, at.section.noProxy);
      undoEnv := Some(saved);
      at := Install(at.section);
    }

    /** The awaited call has ended: the operation goes on to its next await or to its end. */
    method Return(outcome: Outcome)
      requires Valid() && Fits(Now(), outcome)
      modifies this, process
      ensures Valid() && Now() == Step(old(Now()), Resume(outcome))
    {
      match at {
        case StopDispatcher => AfterStopDispatcher(outcome);
        case UpdateLoad(_) => AfterUpdateLoad(outcome);
        case StartDispatcher(_) => AfterStartDispatcher(outcome);
        case StartEnv(section) =>
          undoEnv := None;
          at := Load(section);
        case Load(_) => AfterLoad(outcome);
        case LoadState(_) => AfterLoadState(outcome);
        case Listen(_) => AfterListen(outcome);
        case Install(_) => AfterInstall(outcome);
        case FailDispatcher => AfterFailDispatcher(outcome);
        case FailEnv =>
          undoEnv := None;
          at := Idle;
      }
    }

    /** Any schedule of calls, awaited results and writes of others to the environment: the object runs as the state
        machine does, so that what holds of its runs holds of the object. */
    method Drive(events: seq<Event>)
      requires Valid()
      modifies this, process
      ensures Valid() && Now() == Run(old(Now()), events)
    {
      assert events[0..] == events && events[|events|..] == [];
      for i := 0 to |events|
        invariant Valid() && Run(Now(), events[i..]) == Run(old(Now()), events)
      {
        assert events[i..][0] == events[i] && events[i..][1..] == events[i + 1..];
        match events[i] {
          case Enqueue(op) => Queue(op);
          case SetRuntimeOff(off) => TurnOff(off);
          case Outside(key, value) => process.env := Put(process.env, key, value);
          case Begin(section) =>
            if at.Idle? && pending != [] {
              BeginNext(section);
            }
          case Resume(outcome) =>
            if Fits(Now(), outcome) {
              Return(outcome);
            }
        }
      }
    }

    /** So a manager that has been stopped leaves the environment as if the proxy had never run, whatever happened before. */
    method DriveToStop(events: seq<Event>)
      requires Valid() && Now() == Initial(process.env)
      requires Undisturbed(events)
      requires Run(Now(), events).at.StopDispatcher?
      modifies this, process
      ensures process.env == OutsideOnly(old(process.env), events) && !hasServer && port == 0 && undoEnv == None
    {
      StopRestores(process.env, events);
      Drive(events);
      Return(Done);
    }
  }
}
