/** How releasing a lock and its heartbeat goroutine wait for each other. Release takes the lock's mutex,
    cancels the goroutine and waits for it to end, all before it lets go of the mutex; the goroutine's
    refresh needs the same mutex. Module Lock models a Release that returns; this one says when it does. */
module LockRelease {
  /** Release has not started, has the mutex, has cancelled and waits, or has returned. */
  datatype Releaser = Away | Holding | Waiting | Returned

  /** The goroutine is in its select, wants the mutex for a refresh, has it, or has ended. */
  datatype Heart = Selecting | WantsMutex | Refreshing | Gone

  datatype State = State(releaser: Releaser, heart: Heart, cancelled: bool)

  datatype Step =
    | TakeMutex
    | Cancel
    | SeeDone                           // and Release returns
    | Tick                              // the select takes the timer case; it may while cancelled, too
    | HeartTakesMutex
    | HeartRefreshed
    | HeartSeesCancel

  const HELD := State(Away, Selecting, false)

  predicate ReleaserHasMutex(s: State) { s.releaser.Holding? || s.releaser.Waiting? }

  predicate Enabled(s: State, st: Step) {
    match st
    case TakeMutex => s.releaser.Away? && !s.heart.Refreshing?
    case Cancel => s.releaser.Holding?
    case SeeDone => s.releaser.Waiting? && s.heart.Gone?
    case Tick => s.heart.Selecting?
    case HeartTakesMutex => s.heart.WantsMutex? && !ReleaserHasMutex(s)
    case HeartRefreshed => s.heart.Refreshing?
    case HeartSeesCancel => s.heart.Selecting? && s.cancelled
  }

  function Apply(s: State, st: Step): State
    requires Enabled(s, st)
  {
    match st
    case TakeMutex => s.(releaser := Holding)
    case Cancel => s.(releaser := Waiting, cancelled := true)
    case SeeDone => s.(releaser := Returned)
    case Tick => s.(heart := WantsMutex)
    case HeartTakesMutex => s.(heart := Refreshing)
    case HeartRefreshed => s.(heart := Selecting)
    case HeartSeesCancel => s.(heart := Gone)
  }

  /** The mutex has one holder, and the goroutine ends only when cancelled. */
  predicate Inv(s: State) {
    && !(ReleaserHasMutex(s) && s.heart.Refreshing?)
    && (s.heart.Gone? ==> s.cancelled)
    && (s.cancelled <==> s.releaser.Waiting? || s.releaser.Returned?)
    && (s.releaser.Returned? ==> s.heart.Gone?)
  }

  ghost predicate IsRun(from: State, states: seq<State>, steps: seq<Step>) {
    && |states| == |steps| + 1 && states[0] == from
    && (forall i :: 0 <= i < |steps| ==> Enabled(states[i], steps[i]) && states[i + 1] == Apply(states[i], steps[i]))
  }

  lemma {:induction false} RunKeepsInv(from: State, states: seq<State>, steps: seq<Step>, i: nat)
    requires Inv(from) && IsRun(from, states, steps) && i < |states|
    ensures Inv(states[i])
  {
    if i > 0 {
      RunKeepsInv(from, states, steps, i - 1);
    }
  }

  /** Each waits for the other: the mutex is the releaser's, and the goroutine is past its select. */
  predicate Stuck(s: State) { ReleaserHasMutex(s) && s.heart.WantsMutex? }

  lemma {:induction false} StuckForGood(from: State, states: seq<State>, steps: seq<Step>, i: nat)
    requires Stuck(from) && IsRun(from, states, steps) && i < |states|
    ensures Stuck(states[i])
  {
    if i > 0 {
      StuckForGood(from, states, steps, i - 1);
    }
  }

  /** A way on for a releaser that has the mutex and is not stuck. */
  lemma WayOut(s: State) returns (states: seq<State>, steps: seq<Step>)
    requires Inv(s) && ReleaserHasMutex(s) && !Stuck(s)
    ensures IsRun(s, states, steps) && states[|steps|].releaser.Returned?
  {
    states, steps := [s], [];
    var at := s;
    if at.releaser.Holding? {
      at := Apply(at, Cancel);
      states, steps := states + [at], steps + [Cancel];
    }
    if at.heart.Selecting? {
      at := Apply(at, HeartSeesCancel);
      states, steps := states + [at], steps + [HeartSeesCancel];
    }
    at := Apply(at, SeeDone);
    states, steps := states + [at], steps + [SeeDone];
  }

  /** Once Release has the mutex: it can no longer return, whatever happens, exactly when the goroutine has
      left its select for a refresh. */
  lemma NeverReturnsIff(s: State)
    requires Inv(s) && ReleaserHasMutex(s)
    ensures (forall states: seq<State>, steps: seq<Step> ::
               IsRun(s, states, steps) ==> !states[|steps|].releaser.Returned?) <==> Stuck(s)
  {
    if Stuck(s) {
      forall states: seq<State>, steps: seq<Step> | IsRun(s, states, steps)
        ensures !states[|steps|].releaser.Returned?
      {
        StuckForGood(s, states, steps, |steps|);
      }
    } else {
      var states, steps := WayOut(s);
      assert IsRun(s, states, steps);
    }
  }

  /** It happens: a tick just before the release, or just after the cancel. */
  lemma ReleaseMayHang()
    ensures exists states: seq<State> :: IsRun(HELD, states, [Tick, TakeMutex, Cancel]) && Stuck(states[3])
    ensures exists states: seq<State> :: IsRun(HELD, states, [TakeMutex, Cancel, Tick]) && Stuck(states[3])
  {
    var hung := State(Waiting, WantsMutex, true);
    var before := [HELD, State(Away, WantsMutex, false), State(Holding, WantsMutex, false), hung];
    assert IsRun(HELD, before, [Tick, TakeMutex, Cancel]);
    var after := [HELD, State(Holding, Selecting, false), State(Waiting, Selecting, true), hung];
    assert IsRun(HELD, after, [TakeMutex, Cancel, Tick]);
  }
}
