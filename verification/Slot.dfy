/** The slot object. Each method is a body or wake-up that the mutex makes one step, and is proved
    against the function of module SlotMachine that says what the step does to the fields. */
module Slot {
  import opened Prelude
  import opened Lock
  import opened Process
  import SM = SlotMachine

  /** The channel `AbortStop` closes to wake the stop goroutine. */
  class Abort {
    const id: nat
    var closed: bool

    constructor (id: nat)
      ensures this.id == id && !closed
    {
      this.id := id;
      closed := false;
    }
  }

  class Slot {
    var state: SM.State
    var lastErr: Option<string>
    var server: Option<string>
    var process: Process?
    var lock: Held?
    var stopping: bool
    var stopAbort: Abort?

    ghost function View(): SM.Fields
      reads this
    {
      SM.Fields(state, lastErr, server,
                if process == null then None else Some(process.id),
                if lock == null then None else Some(lock.file.dir),
                stopping,
                if stopAbort == null then None else Some(stopAbort.id))
    }

    constructor ()
      ensures View() == SM.NEW_SLOT
    {
      state := SM.Idle;
      lastErr, server := None, None;
      process, lock, stopAbort := null, null, null;
      stopping := false;
    }

    method Transition(to: SM.State, err: Option<string>)
      modifies this`state, this`lastErr
      ensures View() == SM.Transition(old(View()), to, err)
    {
      state := to;
      if err.Some? {
        lastErr := err;
      } else if to == SM.Idle {
        lastErr := None;
      }
    }

    method FailMount(code: string)
      modifies this
      ensures View() == SM.FailMount(old(View()), code)
    {
      state := SM.Error;
      lastErr := Some(code);
      server, process, lock := None, null, null;
    }

    /** The whole of Start. `prepared` is the code of a failure before the lock is tried, `launched` the
        outcome of planning and spawning the JVM: its number, or a code. */
    method Start(file: OwnerFile, c: Claim, seen: Time, stamp: Time,
                 prepared: Option<string>, launched: Result<nat, string>)
      returns (ok: bool)
      modifies this, file
      ensures ok <==> SM.CanStartFrom(old(state)) && prepared.None? && launched.Ok?
                      && AcquireFrom(old(file.content), c, seen, stamp).Ok?
      ensures !SM.CanStartFrom(old(state)) ==> View() == old(View()) && file.content == old(file.content)
      ensures SM.CanStartFrom(old(state)) && !ok ==>
                View() == SM.FailMount(SM.BeginStart(old(View())),
                                       if prepared.Some? then prepared.value
                                       else if AcquireFrom(old(file.content), c, seen, stamp).Err? then "server_in_use"
                                       else launched.error)
      ensures !ok ==> file.content ==
                      if SM.CanStartFrom(old(state)) && prepared.None?
                         && AcquireFrom(old(file.content), c, seen, stamp).Ok?
                      then Absent else old(file.content)
      ensures ok ==> View() == SM.Attach(SM.BeginStart(old(View())), file.dir, launched.value)
      ensures ok ==> process != null && fresh(process) && process.Valid() && process.channel.Open?
      ensures ok ==> lock != null && fresh(lock) && lock.beating && lock.file == file
                     && file.content == Holds(lock.owner)
                     && lock.owner == Owner(c.instance, c.slot, c.host, c.pid, stamp, stamp)
    {
      if !SM.CanStartFrom(state) {
        return false;
      }
      state := SM.Mounting;
      lastErr := None;
      stopping := false;
      if prepared.Some? {
        FailMount(prepared.value);
        return false;
      }
      var held := TryAcquire(file, c, seen, stamp);
      if held.Err? {
        FailMount("server_in_use");
        return false;
      }
      if launched.Err? {
        held.value.Release();
        FailMount(launched.error);
        return false;
      }
      server := Some(file.dir);
      process := new Process(launched.value);
      lock := held.value;
      state := SM.Starting;
      return true;
    }

    method Stop(abort: nat) returns (ok: bool)
      modifies this
      ensures ok <==> SM.CanStopFrom(old(state))
      ensures View() == if ok then SM.BeginStop(old(View()), abort) else old(View())
      ensures ok ==> stopAbort != null && fresh(stopAbort) && !stopAbort.closed
    {
      if !SM.CanStopFrom(state) {
        return false;
      }
      Transition(SM.Stopping, None);
      stopping := true;
      stopAbort := new Abort(abort);
      return true;
    }

    method AbortStop() returns (ok: bool)
      modifies this, stopAbort
      ensures ok <==> old(state).Stopping? && old(stopAbort) != null
      ensures View() == if ok then old(View()).(stopAbort := None) else old(View())
      ensures ok ==> old(stopAbort).closed
    {
      if !state.Stopping? || stopAbort == null {
        return false;
      }
      stopAbort.closed := true;
      stopAbort := null;
      return true;
    }

    /** The stop goroutine's abort case. */
    method AbortWakes()
      modifies this
      ensures View() == SM.RevertToRunning(old(View()))
    {
      if state.Stopping? {
        stopping := false;
        stopAbort := null;
      }
      Transition(SM.Running, None);
    }

    /** The exit watcher of process `proc` wakes. */
    method WatchExit(proc: Process)
      requires proc.Valid() && Readable(proc.channel)
      modifies this, proc`channel, lock, if lock == null then {} else {lock.file}
      ensures View() == SM.Reap(old(View()), Received(old(proc.channel)))
      ensures (state, lastErr) ==
              if old(stopping) && old(proc.channel) == Full(Normal) then (SM.Idle, None)
              else if old(stopping) && old(proc.channel) == Full(Killed) then (SM.Idle, Some("killed_after_grace"))
              else (SM.Crashed, Some("process_exited_nonzero"))
      ensures proc.Valid() && proc.channel == Drained
      ensures old(lock) != null ==> !old(lock).beating && old(lock).file.content == Absent
    {
      var r := proc.Receive();
      var wasStopping := stopping;
      if lock != null {
        lock.Release();
        lock := null;
      }
      process, server := null, None;
      if wasStopping && r == Normal {
        Transition(SM.Idle, None);
      } else if wasStopping && r == Killed {
        Transition(SM.Idle, Some(SM.KILLED_AFTER_GRACE));
      } else {
        Transition(SM.Crashed, Some(SM.EXITED_NONZERO));
      }
    }

    /** One round of the health loop; `kill` asks for the process to be terminated. */
    method Health(healthy: bool, late: bool) returns (kill: bool)
      modifies this`state, this`lastErr
      ensures View() == SM.HealthTick(old(View()), healthy, late)
      ensures state == if !old(state).Starting? then old(state) else if late then SM.Error
                       else if healthy then SM.Running else SM.Starting
      ensures kill <==> old(state).Starting? && late && process != null
    {
      var seen := state;
      kill := false;
      if healthy && seen.Starting? {
        Transition(SM.Running, None);
      }
      if seen.Starting? && late {
        Transition(SM.Error, Some(SM.STARTUP_TIMEOUT));
        kill := process != null;
      }
    }
  }

  /** A mount that times out, and a second start that the slot's own fresh record lets through. */
  method TimeoutThenStart(a: Slot, file: OwnerFile, c: Claim, now: Time) returns (first: Process, second: Process)
    requires a.View() == SM.NEW_SLOT && file.content == Absent
    modifies a, file
    ensures first != second && fresh(first) && fresh(second)
    ensures first.Valid() && first.channel.Open? && second.channel.Open?
    ensures a.process == second && a.lock != null && fresh(a.lock) && a.lock.file == file
  {
    var ok := a.Start(file, c, now, now, None, Ok(1));
    first := a.process;
    var killed := a.Health(false, true);
    assert killed;
    ok := a.Start(file, c, now, now, None, Ok(2));
    second := a.process;
  }

  /** What a start on a timed-out slot may end in. When the first JVM exits, its watcher releases the lock
      of the second start and detaches the second JVM, which runs on; and a slot of any instance then
      starts a third in the same directory, without force. */
  method TwoJvmsInOneDirectory(dir: string, ca: Claim, cb: Claim, now: Time)
    returns (a: Slot, b: Slot, file: OwnerFile, second: Process, third: Process)
    ensures second != third && second.channel.Open? && third.channel.Open?
    ensures a.process == null && a.lock == null && a.server.None?
    ensures b.process == third && b.server == Some(dir)
    ensures file.dir == dir && file.content == Holds(Owner(cb.instance, cb.slot, cb.host, cb.pid, now, now))
  {
    file := new OwnerFile(dir);
    a := new Slot();
    b := new Slot();
    var first;
    first, second := TimeoutThenStart(a, file, ca, now);
    first.WaitAndPublish(Signaled);
    a.WatchExit(first);
    var ok := b.Start(file, cb, now, now, None, Ok(3));
    third := b.process;
  }
}
