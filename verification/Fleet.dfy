/** Several instances, each with its slots, sharing server directories: the slot machines of module
    SlotMachine composed with the lock protocol of module LockProtocol. */
module Fleet {
  import opened Prelude
  import opened Lock
  import L = LockProtocol
  import S = SlotMachine

  datatype Fleet = Fleet(locks: L.Sys, slots: map<L.Key, S.Cell>)

  datatype Step =
    | Slot(who: L.Key, action: S.Action)
    | TryAcquire(who: L.Key, dir: string, host: string, pid: int, force: bool, seen: Time, stamp: Time)
    | Heartbeat(who: L.Key, stamp: Time)
    | Tick(elapsed: Time)
    | Die(instance: string)             // with its JVMs; its slots start afresh

  /** The directory whose lock a slot has, in hand or attached. */
  function LockDir(c: S.Cell): Option<string> {
    if c.pending.Some? then c.pending else c.f.lock
  }

  function LockStep(f: Fleet, st: Step): Option<L.Step> {
    match st
    case Slot(who, a) =>
      if who in f.slots && LockDir(f.slots[who]).Some? && (a.LaunchFails? || a.WatchExit?)
      then Some(L.Release(who, LockDir(f.slots[who]).value)) else None
    case TryAcquire(who, dir, host, pid, force, seen, stamp) =>
      Some(L.TryAcquire(who, dir, host, pid, force, seen, stamp))
    case Heartbeat(who, stamp) =>
      if who in f.slots && LockDir(f.slots[who]).Some? then Some(L.Refresh(who, LockDir(f.slots[who]).value, stamp))
      else None
    case Tick(elapsed) => Some(L.Tick(elapsed))
    case Die(instance) => Some(L.Die(instance))
  }

  /** What a step does in the slot that takes it. */
  function SlotAction(f: Fleet, st: Step): Option<S.Action> {
    match st
    case Slot(_, a) => Some(a)
    case TryAcquire(_, dir, _, _, _, _, _) =>
      Some(if L.Outcome(f.locks, LockStep(f, st).value).Ok? then S.Acquired(dir) else S.MountFails("server_in_use"))
    case _ => None
  }

  predicate Enabled(f: Fleet, st: Step) {
    && (LockStep(f, st).Some? ==> L.Enabled(f.locks, LockStep(f, st).value))
    && (SlotAction(f, st).Some? ==> st.who in f.slots && S.Enabled(f.slots[st.who], SlotAction(f, st).value))
    && (st.Slot? ==> !st.action.Acquired?)
    && (st.Heartbeat? ==> LockStep(f, st).Some?)
  }

  function Apply(f: Fleet, st: Step): Fleet
    requires Enabled(f, st)
  {
    Fleet(
      if LockStep(f, st).Some? then L.Apply(f.locks, LockStep(f, st).value) else f.locks,
      if SlotAction(f, st).Some? then f.slots[st.who := S.Apply(f.slots[st.who], SlotAction(f, st).value)]
      else if st.Die? then map k | k in f.slots :: if k.instance == st.instance then S.NEW_CELL else f.slots[k]
      else f.slots)
  }

  predicate Disciplined(f: Fleet, st: Step) {
    st.Slot? && st.who in f.slots ==> S.Disciplined(f.slots[st.who], st.action)
  }

  /** The lock protocol's holders are exactly the slots' locks. */
  ghost predicate Agree(f: Fleet) {
    && (forall h :: h in f.locks.holders ==> h.0 in f.slots && LockDir(f.slots[h.0]) == Some(h.1))
    && (forall k :: k in f.slots && LockDir(f.slots[k]).Some? ==> (k, LockDir(f.slots[k]).value) in f.locks.holders)
  }

  ghost predicate Inv(f: Fleet) {
    && L.Inv(f.locks)
    && (forall k :: k in f.slots ==> S.CellInv(f.slots[k]))
    && Agree(f)
  }

  ghost predicate Safe(f: Fleet) {
    && (forall k :: k in f.slots && f.slots[k].f.process.Some? ==>
          var dir := f.slots[k].f.server;
          && dir.Some? && dir.value in f.locks.files
          && L.Key(f.locks.files[dir.value].instance, f.locks.files[dir.value].slot) == k)
    && (forall k1, k2 ::
          k1 in f.slots && k2 in f.slots && f.slots[k1].f.process.Some? && f.slots[k2].f.process.Some?
          && f.slots[k1].f.server == f.slots[k2].f.server
          ==> k1 == k2)
  }

  lemma InvIsSafe(f: Fleet)
    requires Inv(f)
    ensures Safe(f)
  {
    forall k | k in f.slots && f.slots[k].f.process.Some?
      ensures var dir := f.slots[k].f.server;
              && dir.Some? && dir.value in f.locks.files
              && L.Key(f.locks.files[dir.value].instance, f.locks.files[dir.value].slot) == k
    {
      assert S.CellInv(f.slots[k]);
      assert (k, LockDir(f.slots[k]).value) in f.locks.holders;
    }
  }

  lemma NewCellIsGood()
    ensures S.CellInv(S.NEW_CELL)
  {
  }

  lemma SlotStepKeepsAgreement(f: Fleet, st: Step, c': S.Cell)
    requires Agree(f) && Enabled(f, st) && SlotAction(f, st).Some?
    requires c' == S.Apply(f.slots[st.who], SlotAction(f, st).value)
    requires var c, a := f.slots[st.who], SlotAction(f, st).value;
             && (a.Acquired? ==> LockDir(c).None? && LockDir(c') == Some(a.dir))
             && (a.LaunchFails? || a.WatchExit? ==> LockDir(c).Some? && LockDir(c').None?)
             && (!a.Acquired? && !a.LaunchFails? && !a.WatchExit? ==> LockDir(c') == LockDir(c))
    ensures Agree(Apply(f, st))
  {
    hide S.Apply, S.Enabled;
    var held, held' := f.locks.holders, Apply(f, st).locks.holders;
    var slots' := Apply(f, st).slots;
    assert slots' == f.slots[st.who := c'];
    if st.TryAcquire? && SlotAction(f, st).value.Acquired? {
      assert held'.Keys == held.Keys + {(st.who, st.dir)};
    } else if LockStep(f, st).Some? && !st.TryAcquire? {
      assert held'.Keys == held.Keys - {(st.who, LockDir(f.slots[st.who]).value)};
    } else {
      assert held' == held;
    }
  }

  lemma LockDirStep(c: S.Cell, a: S.Action)
    requires S.CellInv(c) && S.Enabled(c, a) && S.Disciplined(c, a)
    ensures a.Acquired? ==> LockDir(c).None? && LockDir(S.Apply(c, a)) == Some(a.dir)
    ensures a.LaunchFails? || a.WatchExit? ==> LockDir(c).Some? && LockDir(S.Apply(c, a)).None?
    ensures !a.Acquired? && !a.LaunchFails? && !a.WatchExit? ==> LockDir(S.Apply(c, a)) == LockDir(c)
  {
  }

  lemma StepKeepsAgreement(f: Fleet, st: Step)
    requires Inv(f) && Enabled(f, st) && Disciplined(f, st)
    ensures Agree(Apply(f, st))
  {
    hide S.Apply, S.CellInv, S.Enabled, S.Disciplined;
    if SlotAction(f, st).Some? {
      var c, a := f.slots[st.who], SlotAction(f, st).value;
      assert S.CellInv(c);
      LockDirStep(c, a);
      SlotStepKeepsAgreement(f, st, S.Apply(c, a));
    }
  }

  lemma StepKeepsInv(f: Fleet, st: Step)
    requires Inv(f) && L.Timely(f.locks) && Enabled(f, st) && Disciplined(f, st)
    ensures Inv(Apply(f, st))
  {
    hide S.Apply, S.Enabled, S.CellInv, L.Apply, L.Enabled, L.Inv, L.Timely, Agree;
    NewCellIsGood();
    if LockStep(f, st).Some? {
      L.StepKeepsInv(f.locks, LockStep(f, st).value);
    }
    if SlotAction(f, st).Some? {
      S.StepKeepsInv(f.slots[st.who], SlotAction(f, st).value);
    }
    StepKeepsAgreement(f, st);
  }

  /** A heartbeat renews the record of the slot's own lock, acquired or attached. */
  lemma HeartbeatRenews(f: Fleet, who: L.Key, stamp: Time)
    requires Inv(f) && Enabled(f, Heartbeat(who, stamp))
    ensures LockDir(f.slots[who]).Some?
    ensures var dir, files := LockDir(f.slots[who]).value, Apply(f, Heartbeat(who, stamp)).locks.files;
            dir in f.locks.files && dir in files && files[dir] == f.locks.files[dir].(heartbeat := stamp)
  {
    hide S.CellInv;
    assert (who, LockDir(f.slots[who]).value) in f.locks.holders;
  }

  /** `TryAcquire` is only ever called by a slot that holds nothing, whatever the directory. */
  lemma AcquirersHoldNothing(f: Fleet, who: L.Key, dir: string)
    requires Inv(f) && who in f.slots && S.Enabled(f.slots[who], S.Acquired(dir))
    ensures forall d :: (who, d) !in f.locks.holders
  {
    assert S.CellInv(f.slots[who]);
  }

  /** A run from any set of idle slots and any leftover owner files. */
  ghost predicate IsRun(states: seq<Fleet>, steps: seq<Step>) {
    && |states| == |steps| + 1
    && states[0].locks.holders == map[] && L.Records(states[0].locks)
    && (forall k :: k in states[0].slots ==> states[0].slots[k] == S.NEW_CELL)
    && (forall i :: 0 <= i < |states| ==> L.Timely(states[i].locks))
    && (forall i :: 0 <= i < |steps| ==>
                      Enabled(states[i], steps[i]) && Disciplined(states[i], steps[i])
                      && states[i + 1] == Apply(states[i], steps[i]))
  }

  /** Fleet safety: in every state of every run, a directory has at most one attached JVM, and the
      directory's owner file names the slot that JVM is attached to. */
  lemma {:induction false} OneJvmPerDirectory(states: seq<Fleet>, steps: seq<Step>, i: nat)
    requires IsRun(states, steps) && i < |states|
    ensures Inv(states[i]) && Safe(states[i])
  {
    if i > 0 {
      OneJvmPerDirectory(states, steps, i - 1);
      StepKeepsInv(states[i - 1], steps[i - 1]);
    }
    InvIsSafe(states[i]);
  }

  /** What the safety of the fleet costs: from a good state, a start on a timed-out slot whose JVM still
      runs is let through by the lock, without force, because the record is the slot's own and fresh. */
  lemma TimedOutSlotMayReacquire(f: Fleet, st: Step, stamp: Time)
    requires Inv(f) && L.Timely(f.locks) && st.TryAcquire? && !st.force && st.who in f.slots
    requires S.TimedOut(f.slots[st.who].f) && f.slots[st.who].f.server == Some(st.dir)
    requires L.Reads(f.locks, st.seen)
    ensures L.Outcome(f.locks, LockStep(f, st).value).Ok?
  {
    assert S.CellInv(f.slots[st.who]);
    assert (st.who, st.dir) in f.locks.holders;
    assert (st.who, st.dir).1 in f.locks.written;
  }
}
