/** The seven-state machine of one slot: what each method body and each goroutine wake-up does to the
    slot's fields, and the invariant that every such step keeps. */
module SlotMachine {
  import opened Prelude
  import opened Process

  datatype State = Idle | Mounting | Starting | Running | Stopping | Crashed | Error

  predicate CanStartFrom(s: State) { s.Idle? || s.Crashed? || s.Error? }

  predicate CanStopFrom(s: State) { s.Running? || s.Starting? }

  /** The fields under the slot's mutex. `lastErr` keeps the error code; a directory stands for the
      mounted server and for the lock held on it; processes and abort channels go by number. */
  datatype Fields = Fields(state: State, lastErr: Option<string>, server: Option<string>, process: Option<nat>,
                           lock: Option<string>, stopping: bool, stopAbort: Option<nat>)

  const NEW_SLOT := Fields(Idle, None, None, None, None, false, None)

  const STARTUP_TIMEOUT := "startup_timeout"
  const KILLED_AFTER_GRACE := "killed_after_grace"
  const EXITED_NONZERO := "process_exited_nonzero"

  /** The codes `Start` reports when a mount fails before the JVM runs. */
  const MOUNT_CODES: set<string> := {
    "server_not_found", "server_incompatible", "config_error", "internal", "properties_error", "server_in_use",
    "launch_plan", "spawn" }

  function Transition(f: Fields, to: State, err: Option<string>): Fields {
    f.(state := to, lastErr := if err.Some? then err else if to.Idle? then None else f.lastErr)
  }

  function BeginStart(f: Fields): Fields {
    f.(state := Mounting, lastErr := None, stopping := false)
  }

  function FailMount(f: Fields, code: string): Fields {
    f.(state := Error, lastErr := Some(code), server := None, process := None, lock := None)
  }

  function Attach(f: Fields, dir: string, proc: nat): Fields {
    f.(server := Some(dir), process := Some(proc), lock := Some(dir), state := Starting)
  }

  function BeginStop(f: Fields, abort: nat): Fields {
    Transition(f, Stopping, None).(stopping := true, stopAbort := Some(abort))
  }

  function RevertToRunning(f: Fields): Fields {
    Transition(if f.state.Stopping? then f.(stopping := false, stopAbort := None) else f, Running, None)
  }

  function Reap(f: Fields, r: Reason): Fields {
    var cleared := f.(lock := None, process := None, server := None);
    if f.stopping && r.Normal? then Transition(cleared, Idle, None)
    else if f.stopping && r.Killed? then Transition(cleared, Idle, Some(KILLED_AFTER_GRACE))
    else Transition(cleared, Crashed, Some(EXITED_NONZERO))
  }

  /** One round of the health loop. The second test uses the state read before the probe's success is
      acted on, so a first success after the deadline goes to running and at once to error. */
  function HealthTick(f: Fields, healthy: bool, late: bool): Fields {
    var up := if healthy && f.state.Starting? then Transition(f, Running, None) else f;
    if f.state.Starting? && late then Transition(up, Error, Some(STARTUP_TIMEOUT)) else up
  }

  /** The states a health round publishes on the event bus, in order. */
  function Published(f: Fields, healthy: bool, late: bool): seq<State> {
    (if healthy && f.state.Starting? then [Running] else []) + (if f.state.Starting? && late then [Error] else [])
  }

  /** A goroutine started by `Stop`, waiting on a process and on its own abort channel. */
  datatype Stopper = Stopper(proc: nat, abort: nat)

  /** A slot with the goroutines around it: `pending` is the lock a running `Start` has acquired but not
      attached, `channel` the exit channel of the attached process, `closed` the closed abort channels,
      `next` the next unused number, `terminating` whether a Terminate call waits for the process; such a
      call returns at once, without reading the channel, when the process has already exited. */
  datatype Cell = Cell(f: Fields, pending: Option<string>, channel: ExitChannel, stoppers: set<Stopper>,
                       closed: set<nat>, next: nat, terminating: bool)

  const NEW_CELL := Cell(NEW_SLOT, None, Open, {}, {}, 0, false)

  datatype Action =
    | Guard                             // Start passes its state test
    | MountFails(code: string)          // Start fails before or while acquiring the lock
    | Acquired(dir: string)             // Start's TryAcquire succeeded
    | LaunchFails(code: string)         // Start releases and fails
    | Launched                          // Start attaches the JVM it spawned
    | Stop                              // without a process, the goroutine it starts ends at once
    | AbortStop
    | AbortWakes(g: Stopper)            // the goroutine's select takes the abort case
    | StopperSeesExit(g: Stopper)       // ... the exit case
    | GraceExpires(g: Stopper)          // ... the timer case, and Terminate begins
    | TerminateSeesExit                 // a Terminate call reads the exit channel
    | ProcessExits(w: WaitStatus)
    | WatchExit                         // the exit watcher wakes
    | Health(healthy: bool, late: bool)

  /** When the code can take the action. */
  predicate Enabled(c: Cell, a: Action) {
    match a
    case Guard => CanStartFrom(c.f.state)
    case MountFails(code) => c.f.state.Mounting? && c.pending.None? && code in MOUNT_CODES
    case Acquired(_) => c.f.state.Mounting? && c.pending.None?
    case LaunchFails(code) => c.pending.Some? && code in MOUNT_CODES
    case Launched => c.pending.Some?
    case Stop => CanStopFrom(c.f.state)
    case AbortStop => c.f.state.Stopping? && c.f.stopAbort.Some?
    case AbortWakes(g) => g in c.stoppers && g.abort in c.closed
    case StopperSeesExit(g) => g in c.stoppers && (c.f.process == Some(g.proc) ==> Readable(c.channel))
    case GraceExpires(g) => g in c.stoppers
    case TerminateSeesExit => c.terminating && Readable(c.channel)
    case ProcessExits(_) => c.f.process.Some? && c.channel.Open?
    case WatchExit => c.f.process.Some? && Readable(c.channel)
    case Health(_, _) => true
  }

  function Apply(c: Cell, a: Action): Cell
    requires Enabled(c, a)
  {
    match a
    case Guard => c.(f := BeginStart(c.f))
    case MountFails(code) => c.(f := FailMount(c.f, code))
    case Acquired(dir) => c.(pending := Some(dir))
    case LaunchFails(code) => c.(f := FailMount(c.f, code), pending := None)
    case Launched =>
      c.(f := Attach(c.f, c.pending.value, c.next), pending := None, channel := Open, next := c.next + 1,
         terminating := false)
    case Stop =>
      c.(f := BeginStop(c.f, c.next), next := c.next + 1,
         stoppers := if c.f.process.Some? then c.stoppers + {Stopper(c.f.process.value, c.next)} else c.stoppers)
    case AbortStop => c.(f := c.f.(stopAbort := None), closed := c.closed + {c.f.stopAbort.value})
    case AbortWakes(g) => c.(f := RevertToRunning(c.f), stoppers := c.stoppers - {g})
    case StopperSeesExit(g) =>
      c.(stoppers := c.stoppers - {g}, channel := if c.f.process == Some(g.proc) then Drained else c.channel)
    case GraceExpires(g) =>
      c.(stoppers := c.stoppers - {g}, terminating := c.terminating || (c.f.process == Some(g.proc) && c.channel.Open?))
    case TerminateSeesExit => c.(channel := Drained)
    case ProcessExits(w) => c.(channel := Full(Reasoned(w)))
    case WatchExit => c.(f := Reap(c.f, Received(c.channel)), channel := Drained, terminating := false)
    case Health(healthy, late) =>
      c.(f := HealthTick(c.f, healthy, late),
         terminating := c.terminating || (c.f.state.Starting? && late && c.channel.Open?))
  }

  /** What the invariant needs of a run beyond the code: no `Start` is accepted while a timed-out JVM is
      still attached, and an abort reaches its goroutine before the watcher handles the exit. */
  predicate Disciplined(c: Cell, a: Action) {
    match a
    case Guard => c.f.process.None?
    case WatchExit => !exists g :: g in c.stoppers && g.abort in c.closed
    case _ => true
  }

  predicate TimedOut(f: Fields) {
    f.state.Error? && f.lastErr == Some(STARTUP_TIMEOUT)
  }

  predicate Mounted(f: Fields) {
    f.state.Starting? || f.state.Running? || f.state.Stopping? || TimedOut(f)
  }

  /** Server, process and lock are all set exactly in the mounted states, and the stop bookkeeping agrees. */
  ghost predicate FieldsInv(f: Fields) {
    && (if Mounted(f) then f.server.Some? && f.process.Some? && f.lock == f.server
        else f.server.None? && f.process.None? && f.lock.None?)
    && (f.state.Stopping? ==> f.stopping)
    && (f.state.Mounting? || (Mounted(f) && !f.state.Stopping?) ==> !f.stopping)
  }

  /** The goroutines `Stop` starts each have their own abort channel. */
  ghost predicate StoppersDistinct(c: Cell) {
    && (forall g :: g in c.stoppers ==> g.abort < c.next)
    && (forall g, h :: g in c.stoppers && h in c.stoppers && g.abort == h.abort ==> g == h)
  }

  /** An abort on its way to its goroutine, or still to come, concerns the attached process of a
      stopping slot, and there is at most one. */
  ghost predicate AbortsPending(c: Cell) {
    && (forall g :: g in c.stoppers && g.abort in c.closed ==>
                      c.f.state.Stopping? && c.f.process == Some(g.proc) && c.f.stopAbort.None?)
    && (forall g, h :: g in c.stoppers && h in c.stoppers && g.abort in c.closed && h.abort in c.closed ==> g == h)
    && (forall g :: g in c.stoppers && c.f.state.Stopping? && c.f.stopAbort == Some(g.abort) ==>
                      c.f.process == Some(g.proc))
  }

  ghost predicate CellInv(c: Cell) {
    && FieldsInv(c.f)
    && StoppersDistinct(c) && AbortsPending(c)
    && (c.pending.Some? ==> c.f.state.Mounting?)
    && (c.f.process.Some? ==> c.f.process.value < c.next)
    && (c.f.stopAbort.Some? ==> c.f.stopAbort.value < c.next && c.f.stopAbort.value !in c.closed)
    && (forall n :: n in c.closed ==> n < c.next)
  }

  lemma StepKeepsFields(c: Cell, a: Action)
    requires CellInv(c) && Enabled(c, a) && Disciplined(c, a)
    ensures FieldsInv(Apply(c, a).f)
  {
  }

  lemma StepKeepsStoppersDistinct(c: Cell, a: Action)
    requires CellInv(c) && Enabled(c, a)
    ensures StoppersDistinct(Apply(c, a))
  {
    hide AbortsPending, FieldsInv;
  }

  lemma StepKeepsAbortsPending(c: Cell, a: Action)
    requires CellInv(c) && Enabled(c, a) && Disciplined(c, a)
    ensures AbortsPending(Apply(c, a))
  {
    if a.AbortStop? {
      assert forall g :: g in c.stoppers && g.abort in Apply(c, a).closed ==> g.abort == c.f.stopAbort.value;
    }
  }

  lemma StepKeepsInv(c: Cell, a: Action)
    requires CellInv(c) && Enabled(c, a) && Disciplined(c, a)
    ensures CellInv(Apply(c, a))
  {
    hide StoppersDistinct, AbortsPending;
    StepKeepsFields(c, a);
    StepKeepsStoppersDistinct(c, a);
    StepKeepsAbortsPending(c, a);
  }

  /** The documented graph of slot states. */
  predicate Edge(from: State, to: State) {
    match from
    case Idle => to.Mounting?
    case Crashed => to.Mounting?
    case Mounting => to.Starting? || to.Error?
    case Starting => to.Running? || to.Stopping? || to.Error? || to.Crashed?
    case Running => to.Stopping? || to.Crashed?
    case Stopping => to.Idle? || to.Crashed? || to.Running?
    case Error => to.Mounting? || to.Crashed?
  }

  lemma StepFollowsGraph(c: Cell, a: Action)
    requires CellInv(c) && Enabled(c, a) && Disciplined(c, a)
    ensures Apply(c, a).f.state == c.f.state || Edge(c.f.state, Apply(c, a).f.state)
    ensures c.f.state.Error? && Apply(c, a).f.state.Crashed? ==> TimedOut(c.f)
  {
  }
}
