/** How a supervised JVM reports its end: one real value on a channel of capacity one, which is then
    closed, so that every later read yields the zero value. */
module Process {
  import opened Prelude

  /** `Zero` is the empty reason of a zero ExitInfo. */
  datatype Reason = Normal | Killed | Abnormal | Zero

  /** What the operating system says of an ended child. */
  datatype WaitStatus = Exited(code: int) | Signaled | WaitError

  function Reasoned(w: WaitStatus): Reason {
    match w
    case Exited(code) => if code == 0 then Normal else Abnormal
    case Signaled => Killed
    case WaitError => Abnormal
  }

  /** Which exit counts as what: normal is exit code 0 and nothing else. */
  lemma ReasonOfExit(w: WaitStatus)
    ensures Reasoned(w) == Normal <==> w == Exited(0)
    ensures Reasoned(w) == Killed <==> w == Signaled
    ensures Reasoned(w) == Abnormal <==> w == WaitError || (w.Exited? && w.code != 0)
  {
  }

  datatype ExitChannel = Open | Full(value: Reason) | Drained

  predicate Readable(c: ExitChannel) {
    !c.Open?
  }

  function Received(c: ExitChannel): Reason
    requires Readable(c)
  {
    if c.Full? then c.value else Zero
  }

  /** `n` reads in a row. */
  function Reads(c: ExitChannel, n: nat): seq<Reason>
    requires Readable(c)
    decreases n
  {
    if n == 0 then [] else [Received(c)] + Reads(Drained, n - 1)
  }

  lemma {:induction false} DrainedReads(n: nat)
    ensures |Reads(Drained, n)| == n && forall k :: 0 <= k < n ==> Reads(Drained, n)[k] == Zero
  {
    if n > 0 {
      DrainedReads(n - 1);
    }
  }

  /** Whoever reads first gets the real value; all others, however many, get the zero value. */
  lemma {:induction false} OnlyTheFirstReaderLearns(w: WaitStatus, n: nat, k: nat)
    requires k < n
    ensures |Reads(Full(Reasoned(w)), n)| == n
    ensures Reads(Full(Reasoned(w)), n)[k] == if k == 0 then Reasoned(w) else Zero
    ensures Reads(Full(Reasoned(w)), n)[k] != Zero <==> k == 0
    ensures Reads(Full(Reasoned(w)), n)[k] == Normal <==> k == 0 && w == Exited(0)
    ensures Reads(Full(Reasoned(w)), n)[k] == Killed <==> k == 0 && w == Signaled
  {
    DrainedReads(n - 1);
  }

  class Process {
    const id: nat
    var exitInfo: Option<Reason>
    var channel: ExitChannel

    ghost predicate Valid()
      reads this
    {
      (exitInfo.None? <==> channel.Open?) && (channel.Full? ==> exitInfo == Some(channel.value))
    }

    constructor (id: nat)
      ensures this.id == id && Valid() && channel == Open
    {
      this.id := id;
      exitInfo := None;
      channel := Open;
    }

    method WaitAndPublish(w: WaitStatus)
      requires Valid() && channel.Open?
      modifies this
      ensures Valid() && exitInfo.Some? && channel == Full(exitInfo.value)
      ensures exitInfo == Some(Normal) <==> w == Exited(0)
      ensures exitInfo == Some(Killed) <==> w == Signaled
      ensures exitInfo == Some(Abnormal) <==> w == WaitError || (w.Exited? && w.code != 0)
    {
      exitInfo := Some(Reasoned(w));
      channel := Full(Reasoned(w));
    }

    method Receive() returns (r: Reason)
      requires Valid() && Readable(channel)
      modifies this`channel
      ensures Valid() && r == Received(old(channel)) && channel == Drained
    {
      r := if channel.Full? then channel.value else Zero;
      channel := Drained;
    }
  }
}
