/** Runs of the lock protocol: any number of instances and slots, any number of server directories,
    clocks that disagree. Each step is one operation of module Lock, the passing of time, or the death
    of an instance. */
module LockProtocol {
  import opened Prelude
  import opened Lock

  /** A claimant: one slot of one instance. Instance names are unique in a deployment. */
  datatype Key = Key(instance: string, slot: string)

  /** `files` are the owner files, `written` when each was last written, `holders` the locks in hand with
      the record each keeps in memory. A clock reads between the true time and `skew` later. */
  datatype Sys = Sys(now: Time, skew: Time, files: map<string, Owner>, written: map<string, Time>,
                     holders: map<(Key, string), Owner>)

  datatype Step =
    | TryAcquire(who: Key, dir: string, host: string, pid: int, force: bool, seen: Time, stamp: Time)
    | Refresh(who: Key, dir: string, stamp: Time)
    | Release(who: Key, dir: string)
    | Tick(elapsed: Time)
    | Die(instance: string)

  function Lookup(m: map<string, Owner>, dir: string): Option<Owner> {
    if dir in m then Some(m[dir]) else None
  }

  predicate Reads(s: Sys, t: Time) {
    s.now <= t <= s.now + s.skew
  }

  function Outcome(s: Sys, st: Step): Result<Owner, AcquireError>
    requires st.TryAcquire?
  {
    Acquire(Lookup(s.files, st.dir), Claim(st.who.instance, st.who.slot, st.host, st.pid, st.force), st.seen, st.stamp)
  }

  predicate Enabled(s: Sys, st: Step) {
    match st
    case TryAcquire(who, dir, _, _, _, seen, stamp) => Reads(s, seen) && Reads(s, stamp) && (who, dir) !in s.holders
    case Refresh(who, dir, stamp) => Reads(s, stamp) && (who, dir) in s.holders
    case Release(who, dir) => (who, dir) in s.holders
    case Tick(elapsed) => elapsed >= 0
    case Die(_) => true
  }

  function Write(s: Sys, who: Key, dir: string, o: Owner): Sys {
    s.(files := s.files[dir := o], written := s.written[dir := s.now], holders := s.holders[(who, dir) := o])
  }

  function Apply(s: Sys, st: Step): Sys
    requires Enabled(s, st)
  {
    match st
    case TryAcquire(who, dir, _, _, _, _, _) =>
      (match Outcome(s, st)
       case Err(_) => s
       case Ok(o) => Write(s, who, dir, o))
    case Refresh(who, dir, stamp) => Write(s, who, dir, s.holders[(who, dir)].(heartbeat := stamp))
    case Release(who, dir) =>
      s.(files := s.files - {dir}, written := s.written - {dir}, holders := s.holders - {(who, dir)})
    case Tick(elapsed) => s.(now := s.now + elapsed)
    case Die(instance) => s.(holders := map h | h in s.holders && h.0.instance != instance :: s.holders[h])
  }

  /** The promise a deployment makes: a live holder refreshes often enough that the time since its last
      write plus the clock skew stays within the staleness threshold. */
  ghost predicate Timely(s: Sys) {
    forall h :: h in s.holders && h.1 in s.written ==> s.now - s.written[h.1] + s.skew <= DEFAULT_STALE_AFTER
  }

  ghost predicate Records(s: Sys) {
    && s.files.Keys == s.written.Keys
    && 0 <= s.skew
    && (forall d :: d in s.files ==> s.written[d] <= s.files[d].heartbeat <= s.written[d] + s.skew)
  }

  /** Every lock in hand is on disk, word for word, under its holder's name. */
  ghost predicate HoldersOnDisk(s: Sys) {
    forall h :: h in s.holders ==>
                  h.1 in s.files && s.files[h.1] == s.holders[h] && Key(s.holders[h].instance, s.holders[h].slot) == h.0
  }

  ghost predicate Inv(s: Sys) {
    Records(s) && HoldersOnDisk(s)
  }

  ghost predicate Exclusive(s: Sys) {
    forall h1, h2 :: h1 in s.holders && h2 in s.holders && h1.1 == h2.1 ==> h1 == h2
  }

  lemma InvExcludes(s: Sys)
    requires Inv(s)
    ensures Exclusive(s)
  {
    forall h1, h2 | h1 in s.holders && h2 in s.holders && h1.1 == h2.1
      ensures h1 == h2
    {
      assert h1.0 == h2.0;
    }
  }

  lemma StepKeepsRecords(s: Sys, st: Step)
    requires Inv(s) && Enabled(s, st)
    ensures Records(Apply(s, st))
  {
  }

  /** Under timeliness, a claim succeeds only where nobody holds. */
  lemma ClaimedOnlyWhenUnheld(s: Sys, st: Step)
    requires Inv(s) && Timely(s) && Enabled(s, st) && st.TryAcquire? && Outcome(s, st).Ok?
    ensures forall h :: h in s.holders ==> h.1 != st.dir
  {
    forall h | h in s.holders
      ensures h.1 != st.dir
    {
      assert s.files[h.1] == s.holders[h] && h.1 in s.written;
    }
  }

  lemma WriteKeepsHolders(s: Sys, who: Key, dir: string, o: Owner)
    requires HoldersOnDisk(s) && who == Key(o.instance, o.slot)
    requires forall h :: h in s.holders && h.1 == dir ==> h.0 == who
    ensures HoldersOnDisk(Write(s, who, dir, o))
  {
  }

  lemma StepKeepsInv(s: Sys, st: Step)
    requires Inv(s) && Timely(s) && Enabled(s, st)
    ensures Inv(Apply(s, st))
  {
    hide Records, Timely, Write, Acquire;
    StepKeepsRecords(s, st);
    InvExcludes(s);
    match st
    case TryAcquire(who, dir, host, pid, force, seen, stamp) =>
      if Outcome(s, st).Ok? {
        ClaimedOnlyWhenUnheld(s, st);
        AcquireSucceedsIff(Lookup(s.files, dir), Claim(who.instance, who.slot, host, pid, force), seen, stamp);
        WriteKeepsHolders(s, who, dir, Outcome(s, st).value);
      }
    case Refresh(who, dir, stamp) => WriteKeepsHolders(s, who, dir, s.holders[(who, dir)].(heartbeat := stamp));
    case Release(_, _) =>
    case Tick(_) =>
    case Die(_) =>
  }

  /** A run: consecutive states related by enabled steps, in each of which live holders are timely. */
  ghost predicate IsRun(states: seq<Sys>, steps: seq<Step>) {
    && |states| == |steps| + 1
    && states[0].holders == map[] && Records(states[0])
    && (forall i :: 0 <= i < |states| ==> Timely(states[i]))
    && (forall i :: 0 <= i < |steps| ==> Enabled(states[i], steps[i]) && states[i + 1] == Apply(states[i], steps[i]))
  }

  /** Safety over whole runs, from any leftover owner files: never two pairs for one directory, forced
      acquisitions included, and the file of a held directory is exactly the holder's record. */
  lemma {:induction false} MutualExclusion(states: seq<Sys>, steps: seq<Step>, i: nat)
    requires IsRun(states, steps) && i < |states|
    ensures Exclusive(states[i]) && Inv(states[i])
  {
    if i > 0 {
      MutualExclusion(states, steps, i - 1);
      StepKeepsInv(states[i - 1], steps[i - 1]);
    }
    InvExcludes(states[i]);
  }

  /** The holders' promise is necessary: on a directory that `h` holds, another claimant's attempt
      leaves two holders exactly when it is forced and its clock reads `h`'s heartbeat as older than
      the threshold. */
  lemma StealIff(s: Sys, st: Step, h: (Key, string))
    requires Inv(s) && st.TryAcquire? && Enabled(s, st) && h in s.holders && h.1 == st.dir && h.0 != st.who
    ensures !Exclusive(Apply(s, st)) <==> st.force && st.seen - s.files[st.dir].heartbeat > DEFAULT_STALE_AFTER
  {
    if Outcome(s, st).Ok? {
      var s' := Apply(s, st);
      assert h in s'.holders && (st.who, st.dir) in s'.holders;
    } else {
      InvExcludes(s);
    }
  }

  /** The steal happens: a holder that does not refresh for more than the threshold, and a forced claim
      by anybody else, make two holders, with no skew and nothing else going wrong. */
  lemma SilentHolderLosesToForce(who: Key, other: Key, dir: string, host: string, pid: int)
    requires who != other
    ensures var s0 := Sys(0, 0, map[], map[], map[]);
            var claim := TryAcquire(who, dir, host, pid, false, 0, 0);
            var late := DEFAULT_STALE_AFTER + 1;
            var force := TryAcquire(other, dir, host, pid, true, late, late);
            && Inv(s0) && Enabled(s0, claim)
            && var s1 := Apply(s0, claim);
               Enabled(s1, Tick(late)) && var s2 := Apply(s1, Tick(late));
               Enabled(s2, force) && var s3 := Apply(s2, force);
               (who, dir) in s3.holders && (other, dir) in s3.holders && !Exclusive(s3)
  {
  }

  /** A release leaves the directory to anybody, without force. */
  lemma ReleaseFrees(s: Sys, who: Key, dir: string, claim: Step)
    requires Enabled(s, Release(who, dir)) && claim.TryAcquire? && claim.dir == dir
    ensures var s' := Apply(s, Release(who, dir));
            && dir !in s'.files && (who, dir) !in s'.holders
            && (Enabled(s', claim) ==> Outcome(s', claim).Ok? && (claim.who, dir) in Apply(s', claim).holders)
  {
  }

  /** A refresh renews the record: for a minute of any reader's clock nobody can claim the directory. */
  lemma RefreshRenews(s: Sys, who: Key, dir: string, stamp: Time, other: Key, seen: Time)
    requires Inv(s) && Enabled(s, Refresh(who, dir, stamp)) && seen <= stamp + 60_000_000_000
    ensures var s' := Apply(s, Refresh(who, dir, stamp));
            && dir in s'.files && s'.files[dir] == s.files[dir].(heartbeat := stamp) && s'.written[dir] == s.now
            && (other != who ==> forall host, pid, force ::
                  Acquire(Some(s'.files[dir]), Claim(other.instance, other.slot, host, pid, force), seen, seen).Err?)
  {
    assert s.files[dir] == s.holders[(who, dir)];
  }

  /** A record nobody has rewritten for the threshold plus the skew is stale for every reader, so that
      a forced claim by anybody gets it. */
  lemma AbandonedBecomesStale(s: Sys, dir: string, instance: string, seen: Time)
    requires Records(s) && dir in s.files && Reads(s, seen)
    requires s.now - s.written[dir] > DEFAULT_STALE_AFTER + s.skew
    ensures Classify(Some(s.files[dir]), instance, seen, DEFAULT_STALE_AFTER) == Stale
  {
  }

  /** Whether step `st` writes the owner file of `dir` when taken in state `s`. */
  predicate Writes(s: Sys, st: Step, dir: string) {
    match st
    case TryAcquire(_, d, _, _, _, _, _) => d == dir && Outcome(s, st).Ok?
    case Refresh(_, d, _) => d == dir
    case Release(_, d) => d == dir
    case _ => false
  }

  lemma {:induction false} UnwrittenSince(states: seq<Sys>, steps: seq<Step>, dir: string, i: nat, j: nat)
    requires IsRun(states, steps) && i <= j < |states| && dir in states[i].files
    requires forall k :: i <= k < j ==> !Writes(states[k], steps[k], dir)
    ensures dir in states[j].files && states[j].files[dir] == states[i].files[dir]
    ensures dir in states[j].written && dir in states[i].written && states[j].written[dir] == states[i].written[dir]
  {
    MutualExclusion(states, steps, i);
    if i < j {
      UnwrittenSince(states, steps, dir, i, j - 1);
    }
  }

  lemma {:induction false} WrittenInPast(states: seq<Sys>, steps: seq<Step>, i: nat)
    requires IsRun(states, steps) && i < |states|
    requires forall d :: d in states[0].written ==> states[0].written[d] <= states[0].now
    ensures forall d :: d in states[i].written ==> states[i].written[d] <= states[i].now
    ensures states[i].skew == states[0].skew
  {
    if i > 0 {
      WrittenInPast(states, steps, i - 1);
    }
  }

  lemma UnwrittenIsStaleForEveryone(states: seq<Sys>, steps: seq<Step>, dir: string, i: nat, j: nat,
                                    instance: string, seen: Time)
    requires IsRun(states, steps) && i <= j < |states| && dir in states[i].files
    requires forall d :: d in states[0].written ==> states[0].written[d] <= states[0].now
    requires forall k :: i <= k < j ==> !Writes(states[k], steps[k], dir)
    requires states[j].now - states[i].now > DEFAULT_STALE_AFTER + states[0].skew
    requires Reads(states[j], seen)
    ensures dir in states[j].files
    ensures Classify(Some(states[j].files[dir]), instance, seen, DEFAULT_STALE_AFTER) == Stale
  {
    UnwrittenSince(states, steps, dir, i, j);
    WrittenInPast(states, steps, i);
    WrittenInPast(states, steps, j);
    MutualExclusion(states, steps, j);
    AbandonedBecomesStale(states[j], dir, instance, seen);
  }

  ghost predicate Unheld(s: Sys, dir: string) {
    forall g :: g in s.holders ==> g.1 != dir
  }

  /** Where nobody holds, only a claim that succeeds writes. */
  lemma UnheldStaysUnwritten(s: Sys, st: Step, dir: string)
    requires Enabled(s, st) && Unheld(s, dir) && (st.TryAcquire? && st.dir == dir ==> Outcome(s, st).Err?)
    ensures Unheld(Apply(s, st), dir) && !Writes(s, st, dir)
  {
  }

  /** After the holder's death nobody holds the directory, and so nobody writes its file, until somebody
      claims it. */
  lemma {:induction false} DeadHolderWritesNothing(states: seq<Sys>, steps: seq<Step>, h: (Key, string), i: nat, j: nat)
    requires IsRun(states, steps) && i < j < |states| && h in states[i].holders && steps[i] == Die(h.0.instance)
    requires forall k :: i < k < j && steps[k].TryAcquire? && steps[k].dir == h.1 ==> Outcome(states[k], steps[k]).Err?
    ensures Unheld(states[j], h.1)
    ensures forall k :: i <= k < j ==> !Writes(states[k], steps[k], h.1)
  {
    if i + 1 == j {
      MutualExclusion(states, steps, i);
    } else {
      hide Apply, Writes, Outcome, Timely, Records;
      DeadHolderWritesNothing(states, steps, h, i, j - 1);
      UnheldStaysUnwritten(states[j - 1], steps[j - 1], h.1);
    }
  }

  /** A dead holder's lock over whole runs: from the holder's death on, and as long as no claim on the
      directory succeeds, its record stays and every instance, the dead one restarted included, classifies
      it stale once more than the threshold plus the skew has passed. */
  lemma DeadHolderIsStaleForEveryone(states: seq<Sys>, steps: seq<Step>, h: (Key, string), i: nat, j: nat,
                                     instance: string, seen: Time)
    requires IsRun(states, steps) && i < j < |states| && h in states[i].holders && steps[i] == Die(h.0.instance)
    requires forall d :: d in states[0].written ==> states[0].written[d] <= states[0].now
    requires forall k :: i < k < j && steps[k].TryAcquire? && steps[k].dir == h.1 ==> Outcome(states[k], steps[k]).Err?
    requires states[j].now - states[i].now > DEFAULT_STALE_AFTER + states[0].skew
    requires Reads(states[j], seen)
    ensures h.1 in states[j].files && states[j].files[h.1] == states[i].holders[h]
    ensures Classify(Some(states[j].files[h.1]), instance, seen, DEFAULT_STALE_AFTER) == Stale
  {
    MutualExclusion(states, steps, i);
    DeadHolderWritesNothing(states, steps, h, i, j);
    UnwrittenSince(states, steps, h.1, i, j);
    UnwrittenIsStaleForEveryone(states, steps, h.1, i, j, instance, seen);
  }
}
