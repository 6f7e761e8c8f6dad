/** The two bounded buffers of recent lines: a circular one for captured process output, a shifting one
    for the log tailer. Both keep the last lines of everything ever put in. */
module Ring {
  import opened Prelude

  /** What a circular buffer that has seen `all` answers for `n`. */
  function TailOf<T>(all: seq<T>, capacity: nat, n: int): seq<T> {
    LastN(LastN(all, capacity), n)
  }

  /** What a shifting history that has seen `all` answers for `n`: non-positive means everything. */
  function RecentOf<T>(all: seq<T>, capacity: nat, n: int): seq<T> {
    if n <= 0 then LastN(all, capacity) else LastN(LastN(all, capacity), n)
  }

  function Min(a: int, b: int): int { if a < b then a else b }

  /** The answer is the last min(n, capacity, number of pushes) lines, in order. */
  lemma TailIsSuffix<T>(all: seq<T>, capacity: nat, n: int)
    ensures |TailOf(all, capacity, n)| == if n < 0 then 0 else Min(n, Min(capacity, |all|))
    ensures TailOf(all, capacity, n) == all[|all| - |TailOf(all, capacity, n)|..]
  {
  }

  /** The two buffers answer alike exactly when the count is positive or nothing has been put in. */
  lemma BuffersAgreeIff<T>(all: seq<T>, capacity: nat, n: int)
    requires capacity > 0
    ensures TailOf(all, capacity, n) == RecentOf(all, capacity, n) <==> n > 0 || all == []
  {
    assert |LastN(all, capacity)| > 0 <==> all != [];
  }

  /** How a circular buffer lays out the last |data| elements of `pushed`. */
  ghost predicate Layout<T>(data: seq<T>, head: nat, full: bool, pushed: seq<T>) {
    && head < |data|
    && if full then |pushed| >= |data| && data[head..] + data[..head] == LastN(pushed, |data|)
       else data[..head] == pushed
  }

  lemma PushKeepsLayout<T>(data: seq<T>, head: nat, full: bool, pushed: seq<T>, l: T)
    requires Layout(data, head, full, pushed)
    ensures var next := if head + 1 == |data| then 0 else head + 1;
            Layout(data[head := l], next, full || next == 0, pushed + [l])
  {
    var data' := data[head := l];
    LastNAppend(pushed, l, |data|);
    assert data'[..head + 1] == data[..head] + [l];
    assert data'[head + 1..] == data[head + 1..];
    if full {
      assert (data[head..] + data[..head])[1..] == data[head + 1..] + data[..head];
      assert LastN(pushed + [l], |data|) == data[head + 1..] + data[..head] + [l];
    }
    if head + 1 == |data| {
      assert data'[0..] + data'[..0] == data'[..head + 1];
    }
  }

  /** An index taken round the buffer. */
  function Wrap(x: nat, m: nat): (r: nat)
    requires m > 0
    ensures r < m
  {
    x % m
  }

  lemma ModOnce(x: nat, m: nat)
    requires x < 2 * m
    ensures Wrap(x, m) == if x < m then x else x - m
  {
  }

  /** Where the i-th of the last m kept elements lies. */
  lemma TailIndex(len: nat, head: nat, full: bool, m: nat, i: nat)
    requires head < len && i < m <= if full then len else head
    ensures var k := (if full then len else head) - m + i;
            Wrap(Wrap(head - m + len, len) + i, len) ==
            if !full then k else if k < len - head then head + k else k - (len - head)
  {
    hide Wrap;
    ModOnce(head - m + len, len);
    var start := if m <= head then head - m else head - m + len;
    ModOnce(start + i, len);
  }

  function Kept<T>(data: seq<T>, head: nat, full: bool): seq<T>
    requires head <= |data|
  {
    if full then data[head..] + data[..head] else data[..head]
  }

  lemma KeptIsLast<T>(data: seq<T>, head: nat, full: bool, pushed: seq<T>)
    requires Layout(data, head, full, pushed)
    ensures Kept(data, head, full) == LastN(pushed, |data|)
    ensures |Kept(data, head, full)| == if full then |data| else head
  {
  }

  lemma TailElement<T>(data: seq<T>, head: nat, full: bool, m: nat, i: nat)
    requires head < |data| && i < m <= if full then |data| else head
    ensures data[Wrap(Wrap(head - m + |data|, |data|) + i, |data|)]
         == Kept(data, head, full)[|Kept(data, head, full)| - m + i]
  {
    hide Wrap;
    TailIndex(|data|, head, full, m, i);
  }

  lemma LastOf<T>(s: seq<T>, n: int)
    ensures LastN(s, n) == if n <= 0 || s == [] then [] else s[|s| - Min(n, |s|)..]
  {
  }

  class RingBuffer<T(0)> {
    ghost var pushed: seq<T>
    const data: array<T>
    var head: nat
    var full: bool

    ghost predicate Valid()
      reads this, data
    {
      Layout(data[..], head, full, pushed)
    }

    constructor (capacity: int)
      ensures Valid() && fresh(data) && pushed == [] && data.Length == if capacity < 1 then 1 else capacity
    {
      data := new T[if capacity < 1 then 1 else capacity];
      head, full, pushed := 0, false, [];
    }

    method Push(l: T)
      requires Valid()
      modifies this, data
      ensures Valid() && pushed == old(pushed) + [l]
    {
      PushKeepsLayout(data[..], head, full, pushed, l);
      ModOnce(head + 1, data.Length);
      ghost var before := data[..];
      data[head] := l;
      assert data[..] == before[head := l];
      head := Wrap(head + 1, data.Length);
      if head == 0 {
        full := true;
      }
      pushed := pushed + [l];
    }

    method Tail(n: int) returns (out: seq<T>)
      requires Valid()
      ensures out == TailOf(pushed, data.Length, n)
    {
      hide Wrap, Kept, LastN;
      ghost var d, kept := data[..], Kept(data[..], head, full);
      KeptIsLast(d, head, full, pushed);
      LastOf(kept, n);
      var have := if full then data.Length else head;
      var m := if n > have then have else n;
      if m <= 0 {
        return [];
      }
      var start := Wrap(head - m + data.Length, data.Length);
      out := [];
      for i := 0 to m
        invariant |out| == i
        invariant forall j :: 0 <= j < i ==> out[j] == kept[have - m + j]
      {
        TailElement(d, head, full, m, i);
        out := out + [data[Wrap(start + i, data.Length)]];
      }
      assert out == kept[have - m..];
    }
  }

  class History<T(0)> {
    ghost var emitted: seq<T>
    const data: array<T>
    var len: nat

    ghost predicate Valid()
      reads this, data
    {
      data.Length > 0 && len <= data.Length && data[..len] == LastN(emitted, data.Length)
    }

    constructor (historyN: int)
      ensures Valid() && fresh(data) && emitted == [] && data.Length == if historyN <= 0 then 5000 else historyN
    {
      data := new T[if historyN <= 0 then 5000 else historyN];
      len, emitted := 0, [];
    }

    method Emit(e: T)
      requires Valid()
      modifies this, data
      ensures Valid() && emitted == old(emitted) + [e]
    {
      ghost var before := data[..];
      LastNAppend(emitted, e, data.Length);
      if len == data.Length {
        for i := 0 to len - 1
          invariant len == data.Length && emitted == old(emitted)
          invariant forall j :: 0 <= j < len ==> data[j] == before[if j < i then j + 1 else j]
        {
          data[i] := data[i + 1];
        }
        data[len - 1] := e;
        assert data[..len] == before[1..] + [e];
      } else {
        data[len] := e;
        len := len + 1;
        assert data[..len] == before[..len - 1] + [e];
      }
      emitted := emitted + [e];
    }

    method Recent(n: int) returns (out: seq<T>)
      requires Valid()
      ensures out == RecentOf(emitted, data.Length, n)
    {
      var m := if n <= 0 || n > len then len else n;
      out := data[len - m..len];
    }
  }
}
