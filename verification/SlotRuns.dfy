/** Whole runs of one slot: the invariant, the state graph, the balance of lock acquisitions, and what
    the two run rules are needed for. */
module SlotRuns {
  import opened Prelude
  import opened Process
  import opened SlotMachine

  ghost predicate IsRun(cells: seq<Cell>, actions: seq<Action>) {
    && |cells| == |actions| + 1
    && cells[0] == NEW_CELL
    && (forall i :: 0 <= i < |actions| ==>
                      Enabled(cells[i], actions[i]) && Disciplined(cells[i], actions[i])
                      && cells[i + 1] == Apply(cells[i], actions[i]))
  }

  /** In every state of every run, server, process and lock are set together exactly in the mounted
      states, and each step stays or follows the documented graph. */
  lemma {:induction false} EveryStateIsGood(cells: seq<Cell>, actions: seq<Action>, i: nat)
    requires IsRun(cells, actions) && i < |cells|
    ensures CellInv(cells[i])
    ensures i > 0 ==> cells[i].f.state == cells[i - 1].f.state || Edge(cells[i - 1].f.state, cells[i].f.state)
  {
    if i > 0 {
      EveryStateIsGood(cells, actions, i - 1);
      StepKeepsInv(cells[i - 1], actions[i - 1]);
      StepFollowsGraph(cells[i - 1], actions[i - 1]);
    }
  }

  function Acquires(actions: seq<Action>): nat {
    if actions == [] then 0
    else Acquires(actions[..|actions| - 1]) + (if actions[|actions| - 1].Acquired? then 1 else 0)
  }

  /** The places that call Release: a failed launch and the exit watcher, which does so when a lock is set. */
  function Releases(cells: seq<Cell>, actions: seq<Action>): nat
    requires |cells| == |actions| + 1
  {
    if actions == [] then 0
    else
      var n := |actions| - 1;
      Releases(cells[..n + 1], actions[..n])
      + (if actions[n].LaunchFails? || (actions[n].WatchExit? && cells[n].f.lock.Some?) then 1 else 0)
  }

  predicate Holding(c: Cell) {
    c.pending.Some? || c.f.lock.Some?
  }

  /** Lock conservation: over every run the acquisitions exceed the releases by one exactly while the
      slot holds a lock, in hand or attached, and by nothing otherwise. */
  lemma {:induction false} LockConservation(cells: seq<Cell>, actions: seq<Action>)
    requires IsRun(cells, actions)
    ensures Acquires(actions) == Releases(cells, actions) + (if Holding(cells[|actions|]) then 1 else 0)
  {
    if actions != [] {
      var n := |actions| - 1;
      assert IsRun(cells[..n + 1], actions[..n]);
      LockConservation(cells[..n + 1], actions[..n]);
      EveryStateIsGood(cells, actions, n);
      assert Enabled(cells[n], actions[n]) && cells[n + 1] == Apply(cells[n], actions[n]);
    }
  }

  /** From the guard on, a start is the only way to acquire, and it never acquires a second lock before
      the first is released. */
  lemma AcquiresOnlyWhenFree(cells: seq<Cell>, actions: seq<Action>, i: nat)
    requires IsRun(cells, actions) && i < |actions| && actions[i].Acquired?
    ensures !Holding(cells[i]) && Holding(cells[i + 1])
  {
    EveryStateIsGood(cells, actions, i);
  }

  /** Accepting a start keeps the slot consistent exactly when no JVM is attached. */
  lemma GuardIsSafeIff(c: Cell)
    requires CellInv(c) && Enabled(c, Guard)
    ensures CellInv(Apply(c, Guard)) <==> c.f.process.None?
    ensures c.f.process.Some? <==> TimedOut(c.f)
  {
  }

  /** Handling the exit is safe exactly when no abort is still on its way to its goroutine; otherwise
      that goroutine goes on to report a running server in a slot that has none. */
  lemma WatchExitIsSafeIff(c: Cell)
    requires CellInv(c) && Enabled(c, WatchExit)
    ensures CellInv(Apply(c, WatchExit)) <==> !exists g :: g in c.stoppers && g.abort in c.closed
    ensures forall g :: g in c.stoppers && g.abort in c.closed ==>
              && Enabled(Apply(c, WatchExit), AbortWakes(g))
              && Apply(Apply(c, WatchExit), AbortWakes(g)).f.state.Running?
              && Apply(Apply(c, WatchExit), AbortWakes(g)).f.process.None?
  {
    if exists g :: g in c.stoppers && g.abort in c.closed {
      var g :| g in c.stoppers && g.abort in c.closed;
      assert g in Apply(c, WatchExit).stoppers && !Apply(c, WatchExit).f.state.Stopping?;
    }
  }

  /** The cell a script of actions leads to, none when the code cannot follow the script. */
  function Perform(c: Cell, actions: seq<Action>): Option<Cell>
    decreases |actions|
  {
    if actions == [] then Some(c)
    else
      var before := Perform(c, actions[..|actions| - 1]);
      var a := actions[|actions| - 1];
      if before.Some? && Enabled(before.value, a) then Some(Apply(before.value, a)) else None
  }

  /** One more action of a script that the code can follow. */
  lemma Follow(c: Cell, script: seq<Action>, k: nat)
    requires k < |script| && Perform(c, script[..k]).Some? && Enabled(Perform(c, script[..k]).value, script[k])
    ensures Perform(c, script[..k + 1]) == Some(Apply(Perform(c, script[..k]).value, script[k]))
    ensures Acquires(script[..k + 1]) == Acquires(script[..k]) + (if script[k].Acquired? then 1 else 0)
  {
    assert script[..k + 1][..k] == script[..k];
  }

  /** A mount that goes through. */
  function Mount(dir: string): seq<Action> {
    [Guard, Acquired(dir), Launched]
  }

  const FRESHLY_STARTED := NEW_SLOT.(state := Starting)

  lemma Mounts(dir: string, script: seq<Action>)
    requires Mount(dir) <= script
    ensures Acquires(script[..3]) == 1
    ensures Perform(NEW_CELL, script[..3]) ==
            Some(NEW_CELL.(f := FRESHLY_STARTED.(server := Some(dir), process := Some(0), lock := Some(dir)),
                           next := 1))
  {
    assert script[..3] == Mount(dir);
    assert script[..0] == [] && script[0] == Guard && script[1] == Acquired(dir) && script[2] == Launched;
    Follow(NEW_CELL, script, 0);
    Follow(NEW_CELL, script, 1);
    Follow(NEW_CELL, script, 2);
  }

  /** A start accepted on a timed-out slot acquires a second time without a release: the slot ends up
      with one lock field for two acquisitions, and the first JVM is no longer attached to anything. */
  lemma StartAfterTimeoutLosesALock(dir: string)
    ensures var script := Mount(dir) + [Health(false, true)] + Mount(dir);
            var end := Perform(NEW_CELL, script);
            && end.Some? && Acquires(script) == 2
            && end.value.f.process == Some(1) && end.value.f.lock == Some(dir)
  {
    hide Acquires, Perform;
    var script := Mount(dir) + [Health(false, true)] + Mount(dir);
    Mounts(dir, script);
    Follow(NEW_CELL, script, 3);
    Follow(NEW_CELL, script, 4);
    Follow(NEW_CELL, script, 5);
    Follow(NEW_CELL, script, 6);
    assert script[..7] == script;
  }

  /** An abort whose goroutine wakes after the watcher: the slot reports running with nothing mounted. */
  lemma LateAbortReportsRunning(dir: string)
    ensures var script := Mount(dir) + [Stop, AbortStop, ProcessExits(Exited(0)), WatchExit, AbortWakes(Stopper(0, 1))];
            var end := Perform(NEW_CELL, script);
            end.Some? && end.value.f.state.Running? && end.value.f.process.None? && end.value.f.lock.None?
  {
    hide Acquires, Perform;
    var script := Mount(dir) + [Stop, AbortStop, ProcessExits(Exited(0)), WatchExit, AbortWakes(Stopper(0, 1))];
    Mounts(dir, script);
    Follow(NEW_CELL, script, 3);
    Follow(NEW_CELL, script, 4);
    Follow(NEW_CELL, script, 5);
    Follow(NEW_CELL, script, 6);
    Follow(NEW_CELL, script, 7);
    assert script[..8] == script;
  }

  /** A stopping slot that nothing works on. */
  predicate Abandoned(c: Cell) {
    c.f.state.Stopping? && c.f.process.None? && c.stoppers == {} && c.pending.None?
  }

  /** No call and no goroutine gets an abandoned slot out of stopping, even against the run rules. */
  lemma {:induction false} AbandonedForGood(cells: seq<Cell>, actions: seq<Action>, i: nat)
    requires |cells| == |actions| + 1 && Abandoned(cells[0]) && i < |cells|
    requires forall k :: 0 <= k < |actions| ==>
                           Enabled(cells[k], actions[k]) && cells[k + 1] == Apply(cells[k], actions[k])
    ensures Abandoned(cells[i])
  {
    if i > 0 {
      AbandonedForGood(cells, actions, i - 1);
    }
  }

  /** A stop of the slot that a late abort has left in running abandons it. */
  lemma StopAfterLateAbortAbandons(dir: string)
    ensures var script := Mount(dir)
                          + [Stop, AbortStop, ProcessExits(Exited(0)), WatchExit, AbortWakes(Stopper(0, 1)), Stop];
            Perform(NEW_CELL, script).Some? && Abandoned(Perform(NEW_CELL, script).value)
  {
    hide Acquires, Perform;
    var script := Mount(dir) + [Stop, AbortStop, ProcessExits(Exited(0)), WatchExit, AbortWakes(Stopper(0, 1)), Stop];
    Mounts(dir, script);
    Follow(NEW_CELL, script, 3);
    Follow(NEW_CELL, script, 4);
    Follow(NEW_CELL, script, 5);
    Follow(NEW_CELL, script, 6);
    Follow(NEW_CELL, script, 7);
    Follow(NEW_CELL, script, 8);
    assert script[..9] == script;
  }

  /** A clean stop that the stop goroutine sees first: the slot reports a crash of a JVM that exited with 0. */
  lemma CleanStopMayReportCrash(dir: string)
    ensures var script := Mount(dir) + [Stop, ProcessExits(Exited(0)), StopperSeesExit(Stopper(0, 1)), WatchExit];
            var end := Perform(NEW_CELL, script);
            end.Some? && end.value.f.state.Crashed? && end.value.f.lastErr == Some(EXITED_NONZERO)
  {
    hide Acquires, Perform;
    var script := Mount(dir) + [Stop, ProcessExits(Exited(0)), StopperSeesExit(Stopper(0, 1)), WatchExit];
    Mounts(dir, script);
    Follow(NEW_CELL, script, 3);
    Follow(NEW_CELL, script, 4);
    Follow(NEW_CELL, script, 5);
    Follow(NEW_CELL, script, 6);
    assert script[..7] == script;
  }

  /** A first answer after the startup budget: one round reports running and a timeout. */
  lemma LateAnswerReportsBoth(dir: string)
    ensures var script := Mount(dir) + [Health(true, true)];
            var before, end := Perform(NEW_CELL, Mount(dir)), Perform(NEW_CELL, script);
            && before.Some? && Published(before.value.f, true, true) == [Running, Error]
            && end.Some? && TimedOut(end.value.f)
  {
    hide Acquires, Perform;
    var script := Mount(dir) + [Health(true, true)];
    Mounts(dir, script);
    Follow(NEW_CELL, script, 3);
    assert script[..4] == script && script[..3] == Mount(dir);
  }

  /** Whether the action takes a value off the exit channel of the attached process. */
  predicate Steals(c: Cell, a: Action) {
    a.TerminateSeesExit? || (a.StopperSeesExit? && c.f.process == Some(a.g.proc))
  }

  lemma ChannelStep(c: Cell, a: Action)
    requires CellInv(c) && Enabled(c, a) && Disciplined(c, a) && !a.WatchExit?
    requires c.f.process.Some? && Readable(c.channel)
    ensures Apply(c, a).f.process == c.f.process
    ensures Apply(c, a).channel == if Steals(c, a) then Drained else c.channel
  {
  }

  lemma {:induction false} StillReadable(cells: seq<Cell>, actions: seq<Action>, r: Reason)
    requires |cells| == |actions| + 1 && CellInv(cells[0])
    requires cells[0].f.process.Some? && cells[0].channel == Full(r)
    requires forall i :: 0 <= i < |actions| ==>
                           Enabled(cells[i], actions[i]) && Disciplined(cells[i], actions[i])
                           && !actions[i].WatchExit? && cells[i + 1] == Apply(cells[i], actions[i])
    ensures CellInv(cells[|actions|]) && cells[|actions|].f.process == cells[0].f.process
    ensures cells[|actions|].channel ==
            if forall i :: 0 <= i < |actions| ==> !Steals(cells[i], actions[i]) then Full(r) else Drained
  {
    if actions != [] {
      var n := |actions| - 1;
      var shorter, fewer := cells[..n + 1], actions[..n];
      assert forall i :: 0 <= i < n ==> shorter[i] == cells[i] && fewer[i] == actions[i];
      StillReadable(shorter, fewer, r);
      assert shorter[n] == cells[n];
      StepKeepsInv(cells[n], actions[n]);
      ChannelStep(cells[n], actions[n]);
    }
  }

  /** Where a stopped server lands, over every stretch between the process's exit and the watcher's
      waking: in idle exactly when the slot is still marked as stopping, the exit was normal or by
      signal, and no other goroutine has read the exit channel in between. */
  lemma {:induction false} LandsInIdleIff(cells: seq<Cell>, actions: seq<Action>, r: Reason)
    requires |cells| == |actions| + 1 && CellInv(cells[0])
    requires cells[0].f.process.Some? && cells[0].channel == Full(r)
    requires forall i :: 0 <= i < |actions| ==>
                           Enabled(cells[i], actions[i]) && Disciplined(cells[i], actions[i])
                           && !actions[i].WatchExit? && cells[i + 1] == Apply(cells[i], actions[i])
    ensures Enabled(cells[|actions|], WatchExit)
    ensures Apply(cells[|actions|], WatchExit).f.state.Idle? <==>
            && cells[|actions|].f.stopping && (r.Normal? || r.Killed?)
            && forall i :: 0 <= i < |actions| ==> !Steals(cells[i], actions[i])
  {
    StillReadable(cells, actions, r);
  }

  /** Where an exit lands, from every state it can meet: in idle without an error only when the slot was
      stopping and the watcher heard of a normal exit, in idle with one when it heard of a kill, and else in
      crashed; nothing stays attached. */
  lemma ExitLands(c: Cell)
    requires CellInv(c) && Enabled(c, WatchExit)
    ensures var f := Apply(c, WatchExit).f;
            && f.server.None? && f.process.None? && f.lock.None?
            && (f.state, f.lastErr) ==
               if c.f.state.Stopping? && c.channel == Full(Normal) then (Idle, None)
               else if c.f.state.Stopping? && c.channel == Full(Killed) then (Idle, Some("killed_after_grace"))
               else (Crashed, Some("process_exited_nonzero"))
  {
  }

  /** From the exit of a process to where its slot lands, over every stretch in between. */
  lemma ExitedServerLands(before: Cell, w: WaitStatus, cells: seq<Cell>, actions: seq<Action>)
    requires CellInv(before) && Enabled(before, ProcessExits(w))
    requires |cells| == |actions| + 1 && cells[0] == Apply(before, ProcessExits(w))
    requires forall i :: 0 <= i < |actions| ==>
                           Enabled(cells[i], actions[i]) && Disciplined(cells[i], actions[i])
                           && !actions[i].WatchExit? && cells[i + 1] == Apply(cells[i], actions[i])
    ensures var last := cells[|actions|];
            && Enabled(last, WatchExit)
            && var f := Apply(last, WatchExit).f;
               var heard := last.f.state.Stopping? && forall i :: 0 <= i < |actions| ==> !Steals(cells[i], actions[i]);
               (f.state, f.lastErr) ==
               if heard && w == Exited(0) then (Idle, None)
               else if heard && w == Signaled then (Idle, Some("killed_after_grace"))
               else (Crashed, Some("process_exited_nonzero"))
  {
    hide CellInv, Steals;
    StepKeepsInv(before, ProcessExits(w));
    StillReadable(cells, actions, Reasoned(w));
    ReasonOfExit(w);
    ExitLands(cells[|actions|]);
  }

  /** Where a health round lands: an answer in time is what gets a starting server to running, silence past
      the budget is what times it out, and nothing else changes anything. */
  lemma HealthLands(f: Fields, healthy: bool, late: bool)
    ensures HealthTick(f, healthy, late) ==
            if !f.state.Starting? || (!healthy && !late) then f
            else if !late then f.(state := Running)
            else f.(state := Error, lastErr := Some("startup_timeout"))
    ensures Published(f, healthy, late) ==
            if !f.state.Starting? || (!healthy && !late) then []
            else if !late then [Running]
            else if healthy then [Running, Error] else [Error]
  {
  }

  /** A start is accepted in just the states that have an edge to mounting, a stop in those with one to
      stopping, an abort only while stopping. */
  lemma CallsFollowGraph(c: Cell)
    ensures Enabled(c, Guard) <==> Edge(c.f.state, Mounting)
    ensures Enabled(c, Stop) <==> Edge(c.f.state, Stopping)
    ensures Enabled(c, AbortStop) ==> c.f.state.Stopping?
  {
  }

  /** What the calls and the goroutines they leave behind do to the fields. */
  lemma CallsLand(c: Cell, a: Action)
    requires Enabled(c, a)
    ensures var f, f' := c.f, Apply(c, a).f;
            match a
            case Guard => f' == f.(state := Mounting, lastErr := None, stopping := false)
            case Acquired(dir) => f' == f && Apply(c, a).pending == Some(dir)
            case MountFails(code) =>
              f' == f.(state := Error, lastErr := Some(code), server := None, process := None, lock := None)
            case LaunchFails(code) =>
              && Apply(c, a).pending.None?
              && f' == f.(state := Error, lastErr := Some(code), server := None, process := None, lock := None)
            case Launched =>
              f' == f.(state := Starting, server := c.pending, lock := c.pending, process := Some(c.next))
            case Stop => f' == f.(state := Stopping, stopping := true, stopAbort := Some(c.next))
            case AbortStop => f' == f.(stopAbort := None) && f.stopAbort.value in Apply(c, a).closed
            case AbortWakes(_) =>
              f' == if f.state.Stopping? then f.(state := Running, stopping := false, stopAbort := None)
                    else f.(state := Running)
            case GraceExpires(g) =>
              f' == f && (f.process == Some(g.proc) && c.channel.Open? ==> Apply(c, a).terminating)
            case Health(_, late) =>
              f.state.Starting? && late && c.channel.Open? ==> Apply(c, a).terminating
            case _ => true
  {
  }

  /** What a health round publishes follows the state graph exactly unless a starting server first
      answers after its startup budget has run out. */
  lemma HealthPublishesAlongGraphIff(f: Fields, healthy: bool, late: bool)
    ensures (forall i :: 0 <= i < |Published(f, healthy, late)| ==>
                           Edge(if i == 0 then f.state else Published(f, healthy, late)[i - 1],
                                Published(f, healthy, late)[i]))
            <==> !(f.state.Starting? && healthy && late)
    ensures HealthTick(f, healthy, late).state ==
            if Published(f, healthy, late) == [] then f.state
            else Published(f, healthy, late)[|Published(f, healthy, late)| - 1]
  {
    if f.state.Starting? && healthy && late {
      var p := Published(f, healthy, late);
      assert p == [Running, Error] && !Edge(p[0], p[1]);
    }
  }
}
