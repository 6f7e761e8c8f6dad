/** The audit log across restarts: append-only monthly files, the backward line scan that reads their
    ends, the id counter and the ring that a new logger rebuilds from them. */
module AuditLog {
  import opened Prelude
  import opened AuditPages

  // ---------- Lines ----------

  datatype Split = Split(done: seq<string>, rest: string)

  /** A text cut at its newlines: the finished lines, and what follows the last newline. */
  function Cut(b: string): Split {
    if b == "" then Split([], "")
    else
      var s, c := Cut(b[..|b| - 1]), b[|b| - 1];
      if c == '\n' then Split(s.done + [s.rest], "") else s.(rest := s.rest + [c])
  }

  function StripCR(l: string): string {
    if l != "" && l[|l| - 1] == '\r' then StripCR(l[..|l| - 1]) else l
  }

  function NonBlank(ls: seq<string>): seq<string> {
    if ls == [] then []
    else
      var l := StripCR(ls[|ls| - 1]);
      NonBlank(ls[..|ls| - 1]) + if l == "" then [] else [l]
  }

  /** The lines of a text, without the carriage returns they end in and without blank ones. */
  function TextLines(b: string): seq<string> {
    NonBlank(Cut(b).done + [Cut(b).rest])
  }

  lemma NonBlankSnoc(ls: seq<string>, l: string)
    ensures NonBlank(ls + [l]) == NonBlank(ls) + if StripCR(l) == "" then [] else [StripCR(l)]
  {
    assert (ls + [l])[..|ls|] == ls;
  }

  /** Trailing line ends do not matter. */
  lemma DropLineEnd(b: string)
    requires b != "" && (b[|b| - 1] == '\n' || b[|b| - 1] == '\r')
    ensures TextLines(b) == TextLines(b[..|b| - 1])
  {
    var s := Cut(b[..|b| - 1]);
    if b[|b| - 1] == '\n' {
      NonBlankSnoc(s.done + [s.rest], "");
    } else {
      NonBlankSnoc(s.done, s.rest);
      NonBlankSnoc(s.done, s.rest + ['\r']);
      assert (s.rest + ['\r'])[..|s.rest|] == s.rest;
    }
  }

  lemma {:induction false} CutLine(p: string, line: string)
    requires '\n' !in line
    ensures Cut(p + line) == Cut(p).(rest := Cut(p).rest + line)
  {
    if line == "" {
      assert p + line == p && Cut(p).rest + line == Cut(p).rest;
    } else {
      var n := |line| - 1;
      CutLine(p, line[..n]);
      assert (p + line)[..|p + line| - 1] == p + line[..n];
      assert Cut(p).rest + line[..n] + [line[n]] == Cut(p).rest + line;
    }
  }

  lemma NothingAfterLineEnd(p: string)
    requires p == "" || p[|p| - 1] == '\n'
    ensures Cut(p).rest == ""
  {
  }

  /** A non-blank last line, trimmed of its line end, is the last of the text's lines. */
  lemma LastLine(p: string, line: string)
    requires p == "" || p[|p| - 1] == '\n'
    requires line != "" && '\n' !in line && line[|line| - 1] != '\r'
    ensures TextLines(p + line) == TextLines(p) + [line]
  {
    hide Cut, NonBlank;
    CutLine(p, line);
    NothingAfterLineEnd(p);
    assert "" + line == line;
    NonBlankSnoc(Cut(p).done, line);
    NonBlankSnoc(Cut(p).done, "");
  }

  lemma CutLastLine(b: string, start: nat, end: nat)
    requires start < end <= |b| && (start > 0 ==> b[start - 1] == '\n')
    requires '\n' !in b[start..end] && b[end - 1] != '\r'
    ensures TextLines(b[..end]) == TextLines(b[..start]) + [b[start..end]]
  {
    hide TextLines;
    assert b[..end] == b[..start] + b[start..end];
    LastLine(b[..start], b[start..end]);
  }

  lemma Regroup(before: seq<string>, line: string, after: seq<string>)
    ensures before + [line] + after == before + ([line] + after)
  {
  }

  lemma LastOfSum(before: seq<string>, last: seq<string>, n: nat)
    requires |last| == n || (before == [] && |last| <= n)
    ensures LastN(before + last, n) == last
  {
  }

  lemma NoText()
    ensures TextLines("") == []
  {
    NonBlankSnoc([], "");
    assert [] + [""] == [""];
  }

  method TrimLineEnds(b: string, from: nat) returns (end: nat)
    requires from <= |b|
    ensures end <= from && TextLines(b[..end]) == TextLines(b[..from])
    ensures end > 0 ==> b[end - 1] != '\n' && b[end - 1] != '\r'
  {
    hide TextLines;
    end := from;
    while end > 0 && (b[end - 1] == '\n' || b[end - 1] == '\r')
      invariant end <= from && TextLines(b[..end]) == TextLines(b[..from])
    {
      DropLineEnd(b[..end]);
      assert b[..end][..end - 1] == b[..end - 1];
      end := end - 1;
    }
  }

  method LineStart(b: string, end: nat) returns (start: nat)
    requires 0 < end <= |b| && b[end - 1] != '\n'
    ensures start < end && (start > 0 ==> b[start - 1] == '\n') && '\n' !in b[start..end]
  {
    start := end;
    while start > 0 && b[start - 1] != '\n'
      invariant start <= end && '\n' !in b[start..end]
      invariant start == end ==> b[start - 1] != '\n'
    {
      start := start - 1;
    }
  }

  /** The backward scan, proved to give the last `n` of the text's lines for every text. */
  method SplitLinesLast(b: string, n: nat) returns (out: seq<string>)
    ensures out == LastN(TextLines(b), n)
  {
    out := [];
    var end := |b|;
    assert b[..end] == b && TextLines(b) == TextLines(b) + out;
    hide Cut, NonBlank, TextLines, LastN;
    while end > 0 && |out| < n
      invariant 0 <= end <= |b| && |out| <= n
      invariant TextLines(b) == TextLines(b[..end]) + out
    {
      end := TrimLineEnds(b, end);
      if end == 0 {
        break;
      }
      var start := LineStart(b, end);
      CutLastLine(b, start, end);
      Regroup(TextLines(b[..start]), b[start..end], out);
      out := [b[start..end]] + out;
      end := start;
    }
    NoText();
    assert b[..0] == "";
    LastOfSum(TextLines(b[..end]), out, n);
  }

  /** The scan for a file's highest id: its last non-blank line, the same one the backfill ends with. */
  method ScanLastLine(b: string) returns (line: Option<string>)
    ensures line == if TextLines(b) == [] then None else Some(TextLines(b)[|TextLines(b)| - 1])
  {
    hide TextLines;
    var end := TrimLineEnds(b, |b|);
    assert b[..|b|] == b;
    if end == 0 {
      NoText();
      assert b[..0] == "";
      return None;
    }
    var start := LineStart(b, end);
    CutLastLine(b, start, end);
    return Some(b[start..end]);
  }

  // ---------- Entries in files ----------

  /** A record encoder with its decoder; JSON is one. */
  datatype Codec = Codec(enc: Entry -> string, dec: string -> Option<Entry>)

  ghost predicate GoodCodec(c: Codec) {
    forall e :: && c.dec(c.enc(e)) == Some(e) && c.enc(e) != "" && '\n' !in c.enc(e)
                && c.enc(e)[|c.enc(e)| - 1] != '\r'
  }

  function FileOf(c: Codec, es: seq<Entry>): string {
    if es == [] then "" else FileOf(c, es[..|es| - 1]) + c.enc(es[|es| - 1]) + "\n"
  }

  function Encoded(c: Codec, es: seq<Entry>): seq<string> {
    seq(|es|, i requires 0 <= i < |es| => c.enc(es[i]))
  }

  lemma {:induction false} FileLines(c: Codec, es: seq<Entry>)
    requires GoodCodec(c)
    ensures TextLines(FileOf(c, es)) == Encoded(c, es)
    ensures FileOf(c, es) != "" ==> FileOf(c, es)[|FileOf(c, es)| - 1] == '\n'
  {
    if es == [] {
      NoText();
    } else {
      var n := |es| - 1;
      FileLines(c, es[..n]);
      var before, line := FileOf(c, es[..n]), c.enc(es[n]);
      LastLine(before, line);
      DropLineEnd(before + line + "\n");
      assert (before + line + "\n")[..|before + line|] == before + line;
      assert Encoded(c, es) == Encoded(c, es[..n]) + [line];
    }
  }

  function DecodeAll(c: Codec, lines: seq<string>): (r: seq<Entry>)
    ensures |r| <= |lines|
  {
    if lines == [] then []
    else
      var before := DecodeAll(c, lines[..|lines| - 1]);
      match c.dec(lines[|lines| - 1])
      case Some(e) => before + [e]
      case None => before
  }

  lemma {:induction false} DecodeEncoded(c: Codec, es: seq<Entry>)
    requires GoodCodec(c)
    ensures DecodeAll(c, Encoded(c, es)) == es
  {
    if es != [] {
      var n := |es| - 1;
      DecodeEncoded(c, es[..n]);
      assert Encoded(c, es)[..n] == Encoded(c, es[..n]);
      assert c.dec(c.enc(es[n])) == Some(es[n]);
      assert es[..n] + [es[n]] == es;
    }
  }

  /** Lines that do not decode are skipped, the others kept in order. */
  lemma {:induction false} GarbageIsSkipped(c: Codec, before: seq<string>, line: string, after: seq<string>)
    ensures DecodeAll(c, before + [line] + after) ==
            DecodeAll(c, before) + (match c.dec(line) case Some(e) => [e] case None => []) + DecodeAll(c, after)
    decreases |after|
  {
    var all := before + [line] + after;
    if after == [] {
      assert all[..|before|] == before && all[|before|] == line;
    } else {
      var n := |after| - 1;
      assert all[..|all| - 1] == before + [line] + after[..n] && all[|all| - 1] == after[n];
      GarbageIsSkipped(c, before, line, after[..n]);
    }
  }

  /** What the backfill gets from a file. */
  function Backfilled(c: Codec, body: string, capacity: nat): seq<Entry> {
    DecodeAll(c, LastN(TextLines(body), capacity))
  }

  /** The last `capacity` entries written to a file come back from it. */
  lemma BackfillReadsBack(c: Codec, es: seq<Entry>, capacity: nat)
    requires GoodCodec(c)
    ensures Backfilled(c, FileOf(c, es), capacity) == LastN(es, capacity)
  {
    FileLines(c, es);
    assert LastN(Encoded(c, es), capacity) == Encoded(c, LastN(es, capacity));
    DecodeEncoded(c, LastN(es, capacity));
  }

  /** The id on a file's last non-blank line, 0 when there is none or it does not decode. */
  function LastId(c: Codec, body: string): nat {
    var ls := TextLines(body);
    if ls == [] then 0
    else
      match c.dec(ls[|ls| - 1])
      case Some(e) => e.id
      case None => 0
  }

  /** The id an entry list ends with. */
  function Newest(es: seq<Entry>): nat {
    if es == [] then 0 else es[|es| - 1].id
  }

  /** The id found in a file that ends in a line, whether it decodes or not. */
  lemma LastIdOfLine(c: Codec, p: string, line: string)
    requires p == "" || p[|p| - 1] == '\n'
    requires line != "" && '\n' !in line && line[|line| - 1] != '\r'
    ensures LastId(c, "") == 0
    ensures LastId(c, p + line + "\n") == match c.dec(line) case Some(e) => e.id case None => 0
  {
    NoText();
    LastLine(p, line);
    DropLineEnd(p + line + "\n");
    assert (p + line + "\n")[..|p + line|] == p + line;
  }

  lemma LastIdReadsBack(c: Codec, es: seq<Entry>)
    requires GoodCodec(c)
    ensures LastId(c, FileOf(c, es)) == Newest(es)
  {
    FileLines(c, es);
    if es != [] {
      assert c.dec(c.enc(es[|es| - 1])) == Some(es[|es| - 1]);
    }
  }

  // ---------- The logger ----------

  const RING_CAP := 1000

  /** `entries` is what has been written to each month's file, `newest` the month written last. */
  datatype Log = Log(files: map<int, string>, nextId: nat, ring: seq<Entry>,
                     entries: map<int, seq<Entry>>, newest: Option<int>)

  datatype Step =
    | Append(e: Entry, month: int)     // the id of `e` is replaced by the next one
    | Reopen(month: int)               // the process ends and a new logger is created
    | Janitor(month: int)              // an old file is deleted

  ghost predicate IsMaxId(c: Codec, files: map<int, string>, m: nat) {
    && (forall f :: f in files ==> LastId(c, files[f]) <= m)
    && (m == 0 || exists f :: f in files && LastId(c, files[f]) == m)
  }

  lemma MaxIdBounds(c: Codec, files: map<int, string>, m: nat, f: int)
    requires IsMaxId(c, files, m) && f in files
    ensures LastId(c, files[f]) <= m
  {
  }

  function EntriesOf(s: Log, month: int): seq<Entry> {
    if month in s.entries then s.entries[month] else []
  }

  function FileAt(files: map<int, string>, month: int): string {
    if month in files then files[month] else ""
  }

  ghost predicate Next(c: Codec, s: Log, st: Step, s': Log) {
    match st
    case Append(e0, month) =>
      var e := e0.(id := s.nextId);
      s' == Log(s.files[month := FileAt(s.files, month) + c.enc(e) + "\n"], s.nextId + 1, LastN(s.ring + [e], RING_CAP),
                s.entries[month := EntriesOf(s, month) + [e]], Some(month))
    case Reopen(month) =>
      && s'.nextId >= 1 && IsMaxId(c, s.files, s'.nextId - 1)
      && s' == s.(nextId := s'.nextId, ring := Backfilled(c, FileAt(s.files, month), RING_CAP))
    case Janitor(month) =>
      s' == s.(files := s.files - {month}, entries := s.entries - {month})
  }

  /** The newest file is kept; nothing else is asked of a run. */
  ghost predicate Retained(s: Log) {
    s.newest.Some? ==> s.newest.value in s.files
  }

  /** A month's file holds that month's entries; the newest file ends with the last id given out. */
  ghost predicate MonthInv(c: Codec, s: Log, m: int)
    requires m in s.files && m in s.entries
  {
    && s.files[m] == FileOf(c, s.entries[m])
    && s.entries[m] != [] && Increasing(s.entries[m])
    && if s.newest == Some(m) then Newest(s.entries[m]) == s.nextId - 1 else Newest(s.entries[m]) < s.nextId - 1
  }

  ghost predicate CounterInv(s: Log) {
    if s.newest.None? then s.nextId == 1 && s.files == map[] else s.nextId >= 2
  }

  ghost predicate Inv(c: Codec, s: Log) {
    && s.files.Keys == s.entries.Keys
    && (forall m :: m in s.files ==> MonthInv(c, s, m))
    && CounterInv(s)
    && Increasing(s.ring) && Newest(s.ring) < s.nextId
  }

  lemma IncreasingSnoc(es: seq<Entry>, e: Entry)
    requires Increasing(es) && e.id >= 1 && Newest(es) < e.id
    ensures Increasing(es + [e])
  {
  }

  lemma IncreasingLastN(es: seq<Entry>, n: nat)
    requires Increasing(es)
    ensures Increasing(LastN(es, n)) && Newest(LastN(es, n)) <= Newest(es)
  {
  }

  /** A restart restores the counter exactly when the newest file is still there: otherwise ids repeat. */
  lemma ReopenKeepsCounterIff(c: Codec, s: Log, month: int, s': Log)
    requires GoodCodec(c) && Inv(c, s) && Next(c, s, Reopen(month), s')
    ensures s'.nextId == s.nextId <==> Retained(s)
    ensures s'.nextId <= s.nextId
  {
    hide FileOf, TextLines, Increasing, Backfilled, LastN;
    forall m | m in s.files
      ensures LastId(c, s.files[m]) == Newest(s.entries[m])
      ensures if s.newest == Some(m) then LastId(c, s.files[m]) == s.nextId - 1
              else LastId(c, s.files[m]) < s.nextId - 1
    {
      assert MonthInv(c, s, m);
      LastIdReadsBack(c, s.entries[m]);
    }
    if s.newest.Some? && Retained(s) {
      assert LastId(c, s.files[s.newest.value]) == s.nextId - 1;
      MaxIdBounds(c, s.files, s'.nextId - 1, s.newest.value);
    } else {
      assert forall f :: f in s.files ==> LastId(c, s.files[f]) < s.nextId - 1;
    }
  }

  lemma Reopened(c: Codec, past: Log, month: int, l: Logger)
    requires l.files == past.files && l.entries == past.entries && l.newest == past.newest
    requires l.nextId >= 1 && IsMaxId(c, past.files, l.nextId - 1)
    requires month in past.files ==> l.ring == Backfilled(c, past.files[month], RING_CAP)
    requires month !in past.files ==> l.ring == Backfilled(c, "", RING_CAP)
    ensures Next(c, past, Reopen(month), l.View())
  {
    hide IsMaxId, Backfilled, LastN;
  }

  lemma NothingToBackfill(c: Codec)
    ensures Backfilled(c, "", RING_CAP) == [] && RING_CAP > 0
  {
    NoText();
  }

  lemma ReopenRefillsRing(c: Codec, s: Log, month: int)
    requires GoodCodec(c) && Inv(c, s)
    ensures Backfilled(c, FileAt(s.files, month), RING_CAP) == LastN(EntriesOf(s, month), RING_CAP)
  {
    BackfillReadsBack(c, EntriesOf(s, month), RING_CAP);
  }

  lemma FileSnoc(c: Codec, es: seq<Entry>, e: Entry)
    ensures FileOf(c, es + [e]) == FileOf(c, es) + c.enc(e) + "\n" && FileOf(c, []) == ""
  {
    assert (es + [e])[..|es|] == es;
  }

  lemma NoneIncreasing()
    ensures Increasing([])
  {
  }

  lemma AppendKeepsInv(c: Codec, s: Log, e0: Entry, month: int, s': Log)
    requires Inv(c, s) && Next(c, s, Append(e0, month), s')
    ensures Inv(c, s')
  {
    hide Increasing, LastN, FileOf;
    var e := e0.(id := s.nextId);
    var es := EntriesOf(s, month);
    NoneIncreasing();
    assert month in s.files ==> MonthInv(c, s, month);
    IncreasingSnoc(es, e);
    IncreasingSnoc(s.ring, e);
    IncreasingLastN(s.ring + [e], RING_CAP);
    FileSnoc(c, es, e);
    forall m | m in s'.files
      ensures MonthInv(c, s', m)
    {
      assert m in s.files ==> MonthInv(c, s, m);
    }
  }

  lemma ReopenKeepsInv(c: Codec, s: Log, month: int, s': Log)
    requires GoodCodec(c) && Inv(c, s) && Retained(s) && Next(c, s, Reopen(month), s')
    ensures Inv(c, s')
  {
    hide Increasing, LastN, FileOf, GoodCodec, Backfilled, IsMaxId;
    ReopenKeepsCounterIff(c, s, month, s');
    assert month in s.files ==> MonthInv(c, s, month);
    assert forall m :: m in s.files ==> MonthInv(c, s, m) && MonthInv(c, s', m);
    ReopenRefillsRing(c, s, month);
    NoneIncreasing();
    IncreasingLastN(EntriesOf(s, month), RING_CAP);
  }

  lemma StepKeepsInv(c: Codec, s: Log, st: Step, s': Log)
    requires GoodCodec(c) && Inv(c, s) && Retained(s) && Next(c, s, st, s')
    ensures Inv(c, s')
  {
    match st
    case Append(e0, month) => AppendKeepsInv(c, s, e0, month, s');
    case Reopen(month) => ReopenKeepsInv(c, s, month, s');
    case Janitor(month) =>
      assert forall m :: m in s'.files ==> MonthInv(c, s, m) && MonthInv(c, s', m);
  }

  ghost predicate IsRun(c: Codec, states: seq<Log>, steps: seq<Step>) {
    && |states| == |steps| + 1
    && states[0] == Log(map[], 1, [], map[], None)
    && (forall i :: 0 <= i < |states| ==> Retained(states[i]))
    && (forall i :: 0 <= i < |steps| ==> Next(c, states[i], steps[i], states[i + 1]))
  }

  /** Over every run of appends, restarts and deletions of older files: the counter goes up by one with
      each append and never otherwise moves; and after a restart the ring is the last RING_CAP entries of
      the current month's file. */
  lemma {:induction false} CounterFollowsAppends(c: Codec, states: seq<Log>, steps: seq<Step>, i: nat)
    requires GoodCodec(c) && IsRun(c, states, steps) && i < |states|
    ensures Inv(c, states[i])
    ensures i > 0 ==> states[i].nextId == states[i - 1].nextId + (if steps[i - 1].Append? then 1 else 0)
    ensures i > 0 && steps[i - 1].Reopen? ==>
              states[i].ring == LastN(EntriesOf(states[i], steps[i - 1].month), 1000)
  {
    if i > 0 {
      CounterFollowsAppends(c, states, steps, i - 1);
      assert Next(c, states[i - 1], steps[i - 1], states[i]);
      StepKeepsInv(c, states[i - 1], steps[i - 1], states[i]);
      if steps[i - 1].Reopen? {
        ReopenKeepsCounterIff(c, states[i - 1], steps[i - 1].month, states[i]);
        ReopenRefillsRing(c, states[i - 1], steps[i - 1].month);
      }
    }
  }

  /** The id that step `i` of a run, an append, gives its entry. */
  function IdGiven(states: seq<Log>, steps: seq<Step>, i: nat): nat
    requires |states| == |steps| + 1 && i < |steps|
  {
    states[i].nextId
  }

  lemma {:induction false} CounterGrows(c: Codec, states: seq<Log>, steps: seq<Step>, i: nat, j: nat)
    requires GoodCodec(c) && IsRun(c, states, steps) && i <= j < |states|
    ensures states[i].nextId <= states[j].nextId
  {
    hide Next, Inv, GoodCodec, Retained;
    if i < j {
      CounterGrows(c, states, steps, i, j - 1);
      CounterFollowsAppends(c, states, steps, j);
    }
  }

  /** Of two appends of a run, however many restarts lie between them, the later gets the greater id. */
  lemma {:induction false} IdsNeverRepeat(c: Codec, states: seq<Log>, steps: seq<Step>, i: nat, j: nat)
    requires GoodCodec(c) && IsRun(c, states, steps) && i < j < |steps| && steps[i].Append? && steps[j].Append?
    ensures IdGiven(states, steps, i) < IdGiven(states, steps, j)
  {
    hide Next, Inv, GoodCodec, Retained;
    CounterGrows(c, states, steps, i + 1, j);
    CounterFollowsAppends(c, states, steps, i + 1);
  }

  /** Without the newest file they do repeat: an append, the deletion of its file, a restart and another
      append give the same id twice. */
  lemma DeletedFileRepeatsAnId(c: Codec, e1: Entry, e2: Entry, month: int, later: int)
    returns (states: seq<Log>, steps: seq<Step>)
    requires GoodCodec(c)
    ensures steps == [Append(e1, month), Janitor(month), Reopen(later), Append(e2, later)] && |states| == 5
    ensures states[0] == Log(map[], 1, [], map[], None)
    ensures forall i :: 0 <= i < 4 ==> Next(c, states[i], steps[i], states[i + 1])
    ensures IdGiven(states, steps, 0) == IdGiven(states, steps, 3)
  {
    hide Backfilled, LastN;
    var e := e1.(id := 1);
    var again := e2.(id := 1);
    var s0 := Log(map[], 1, [], map[], None);
    var s1 := Log(map[month := "" + c.enc(e) + "\n"], 2, LastN([] + [e], RING_CAP),
                  map[month := [] + [e]], Some(month));
    var s2 := Log(map[], 2, s1.ring, map[], Some(month));
    var s3 := Log(map[], 1, Backfilled(c, "", RING_CAP), map[], Some(month));
    var s4 := Log(map[later := "" + c.enc(again) + "\n"], 2, LastN(s3.ring + [again], RING_CAP),
                  map[later := [] + [again]], Some(later));
    states := [s0, s1, s2, s3, s4];
    steps := [Append(e1, month), Janitor(month), Reopen(later), Append(e2, later)];
    assert s1.files - {month} == map[] && s1.entries - {month} == map[];
    assert Next(c, s0, steps[0], s1) && Next(c, s1, steps[1], s2);
    assert Next(c, s2, steps[2], s3) && Next(c, s3, steps[3], s4);
  }

  // ---------- Pages over a run ----------

  /** A step at a time that does not go back: it concerns the newest month or one that has no file yet, and
      a restart happens in the newest month. */
  predicate Forward(s: Log, st: Step) {
    match st
    case Append(_, month) => s.newest == Some(month) || month !in s.files
    case Reopen(month) => s.newest.None? || s.newest == Some(month)
    case Janitor(_) => true
  }

  ghost predicate IsSuffix(a: seq<Entry>, b: seq<Entry>) {
    |a| <= |b| && b[|b| - |a|..] == a
  }

  /** The ring ends with what a restart would read from the newest file. */
  ghost predicate RingInv(s: Log) {
    if s.newest.None? then s.ring == [] else IsSuffix(LastN(EntriesOf(s, s.newest.value), RING_CAP), s.ring)
  }

  lemma SuffixGrows(a: seq<Entry>, b: seq<Entry>, e: Entry, n: nat)
    requires n > 0 && IsSuffix(a, b)
    ensures IsSuffix(LastN(a + [e], n), LastN(b + [e], n))
  {
  }

  lemma RingGrows(ring: seq<Entry>, e: Entry)
    requires Increasing(ring + [e])
    ensures Evolves(ring, LastN(ring + [e], RING_CAP))
  {
    var k := if |ring| + 1 <= RING_CAP then 0 else |ring| + 1 - RING_CAP;
    assert LastN(ring + [e], RING_CAP) == (ring + [e])[k..];
    assert EvolvesBy(ring, LastN(ring + [e], RING_CAP), [e], k);
  }

  lemma RingShrinks(ring: seq<Entry>, kept: seq<Entry>)
    requires Increasing(ring) && IsSuffix(kept, ring) && (ring != [] ==> kept != [])
    ensures Evolves(ring, kept)
  {
    assert ring + [] == ring;
    assert EvolvesBy(ring, kept, [], |ring| - |kept|);
  }

  lemma CounterIsPositive(s: Log)
    requires CounterInv(s)
    ensures s.nextId >= 1
  {
  }

  lemma AppendKeepsRing(s: Log, e: Entry, month: int, s': Log)
    requires RingInv(s) && Retained(s) && s.files.Keys == s.entries.Keys
    requires s.newest == Some(month) || month !in s.files
    requires s'.newest == Some(month) && s'.entries == s.entries[month := EntriesOf(s, month) + [e]]
    requires s'.ring == LastN(s.ring + [e], RING_CAP)
    ensures RingInv(s')
  {
    var es := EntriesOf(s, month);
    assert EntriesOf(s', month) == es + [e];
    if s.newest == Some(month) {
      SuffixGrows(LastN(es, RING_CAP), s.ring, e, RING_CAP);
      LastNAppend(es, e, RING_CAP);
    } else {
      assert es == [] && IsSuffix([], s.ring);
      SuffixGrows([], s.ring, e, RING_CAP);
    }
  }

  lemma LastNEnds(es: seq<Entry>)
    requires es != []
    ensures LastN(es, RING_CAP) != []
  {
  }

  lemma SuffixOfItself(a: seq<Entry>)
    ensures IsSuffix(a, a)
  {
  }

  lemma NothingKept(s: Log, month: int)
    requires s.newest.None? && CounterInv(s) && s.files.Keys == s.entries.Keys
    ensures LastN(EntriesOf(s, month), RING_CAP) == []
  {
  }

  /** An append, a restart and a deletion do to the ring what pagination allows for. */
  lemma StepEvolvesRing(c: Codec, s: Log, st: Step, s': Log)
    requires GoodCodec(c) && Inv(c, s) && Retained(s) && Next(c, s, st, s') && Forward(s, st) && RingInv(s)
    ensures Evolves(s.ring, s'.ring)
    ensures Retained(s') ==> RingInv(s')
  {
    match st
    case Append(e0, month) =>
      hide LastN, FileOf, GoodCodec, MonthInv, Increasing, Evolves, IsSuffix;
      var e := e0.(id := s.nextId);
      CounterIsPositive(s);
      IncreasingSnoc(s.ring, e);
      RingGrows(s.ring, e);
      AppendKeepsRing(s, e, month, s');
    case Reopen(month) =>
      hide LastN, FileOf, GoodCodec, Backfilled, Increasing, Evolves, IsSuffix, IsMaxId;
      ReopenRefillsRing(c, s, month);
      if s.newest.Some? {
        assert MonthInv(c, s, month);
        LastNEnds(EntriesOf(s, month));
        RingShrinks(s.ring, s'.ring);
        SuffixOfItself(s'.ring);
      } else {
        NothingKept(s, month);
        EvolvesToItself(s.ring);
      }
    case Janitor(month) =>
      EvolvesToItself(s.ring);
  }

  /** Times of a run of `n` states, none before the one ahead of it. */
  predicate AreTimes(n: nat, times: seq<nat>) {
    && (forall i :: 0 <= i < |times| ==> times[i] < n)
    && (forall i, j :: 0 <= i < j < |times| ==> times[i] <= times[j])
  }

  /** The rings that requests at these times of a run meet. */
  function RingsAt(states: seq<Log>, times: seq<nat>): (r: seq<seq<Entry>>)
    requires AreTimes(|states|, times)
    ensures |r| == |times| && forall i :: 0 <= i < |times| ==> r[i] == states[times[i]].ring
  {
    seq(|times|, i requires 0 <= i < |times| => states[times[i]].ring)
  }

  ghost predicate IsForwardRun(c: Codec, states: seq<Log>, steps: seq<Step>) {
    IsRun(c, states, steps) && forall i :: 0 <= i < |steps| ==> Forward(states[i], steps[i])
  }

  lemma EmptyRing(s: Log)
    requires s == Log(map[], 1, [], map[], None)
    ensures RingInv(s)
  {
  }

  lemma {:induction false} RunEvolvesRing(c: Codec, states: seq<Log>, steps: seq<Step>, i: nat, j: nat)
    requires GoodCodec(c) && IsForwardRun(c, states, steps) && i <= j < |states|
    ensures RingInv(states[j]) && Evolves(states[i].ring, states[j].ring) && Increasing(states[j].ring)
    decreases j
  {
    hide Next, GoodCodec, Increasing, Evolves, RingInv, MonthInv, CounterInv;
    CounterFollowsAppends(c, states, steps, j);
    if j == 0 {
      EmptyRing(states[0]);
      EvolvesToItself(states[0].ring);
    } else {
      if i == j {
        EvolvesToItself(states[j].ring);
      }
      var before := if i == j then i - 1 else i;
      RunEvolvesRing(c, states, steps, before, j - 1);
      CounterFollowsAppends(c, states, steps, j - 1);
      StepEvolvesRing(c, states[j - 1], steps[j - 1], states[j]);
      if i < j {
        EvolvesTransitively(states[i].ring, states[j - 1].ring, states[j].ring);
      }
    }
  }

  /** What requests meet over a run, with appends, restarts and deletions between them, is a history in the
      sense of the pagination. */
  lemma RunGivesHistory(c: Codec, states: seq<Log>, steps: seq<Step>, times: seq<nat>)
    requires GoodCodec(c) && IsForwardRun(c, states, steps)
    requires AreTimes(|states|, times)
    ensures History(RingsAt(states, times))
  {
    hide GoodCodec, IsForwardRun, Increasing, Evolves;
    var rings := RingsAt(states, times);
    forall i | 0 <= i < |rings|
      ensures Increasing(rings[i])
    {
      RunEvolvesRing(c, states, steps, times[i], times[i]);
    }
    forall i | 0 <= i < |rings| - 1
      ensures Evolves(rings[i], rings[i + 1])
    {
      RunEvolvesRing(c, states, steps, times[i], times[i + 1]);
    }
  }

  /** Pagination over a run of the log: a client that follows the cursor until an empty page, with appends,
      restarts and deletions between its requests, gets matching entries of its first request in order and
      once each, and among them every one that is still in the ring at its last. */
  lemma ClientOfARunMissesNothing(c: Codec, states: seq<Log>, steps: seq<Step>, times: seq<nat>, q: Query)
    requires GoodCodec(c) && IsForwardRun(c, states, steps) && times != []
    requires AreTimes(|states|, times)
    requires |Follow(RingsAt(states, times), q, 0)| < |times|
    ensures var rings := RingsAt(states, times);
            var got := Delivered(rings, q, 0);
            && Decreasing(got)
            && (forall e :: e in got ==> e in rings[0] && Matches(e, q))
            && (forall e :: e in rings[0] && Matches(e, q) && e in rings[|Follow(rings, q, 0)|] ==> e in got)
  {
    hide GoodCodec, IsForwardRun, History, Delivered, Follow, Matches;
    var rings := RingsAt(states, times);
    RunGivesHistory(c, states, steps, times);
    DeliveredOnceInOrder(rings, q, 0);
    forall e | e in rings[0] && Matches(e, q) && e in rings[|Follow(rings, q, 0)|]
      ensures e in Delivered(rings, q, 0)
    {
      NothingSkipped(rings, q, 0, e);
    }
  }

  // ---------- The code ----------

  /** The logger: fields of the object, and the monthly files of its directory. What has been written to
      each file and which was written last are kept for the specification. */
  class Logger {
    const codec: Codec
    var files: map<int, string>
    var nextId: nat
    var ring: seq<Entry>
    ghost var entries: map<int, seq<Entry>>
    ghost var newest: Option<int>

    ghost function View(): Log
      reads this
    {
      Log(files, nextId, ring, entries, newest)
    }

    /** A new logger on a directory that a log has left, at a time that falls into `month`. */
    constructor (codec: Codec, files: map<int, string>, month: int, ghost past: Log)
      requires past.files == files
      ensures |ring| <= RING_CAP && this.codec == codec
      ensures Next(codec, past, Reopen(month), View())
    {
      hide *;
      this.codec := codec;
      this.files := files;
      nextId, ring := 1, [];
      entries, newest := past.entries, past.newest;
      new;
      var maxId := ScanMaxId();
      nextId := maxId + 1;
      if month in files {
        BackfillRing(files[month]);
      } else {
        NothingToBackfill(codec);
      }
      Reopened(codec, past, month, this);
    }

    method ScanMaxId() returns (maxId: nat)
      ensures IsMaxId(codec, files, maxId)
    {
      hide TextLines;
      maxId := 0;
      ghost var best := None;
      var left := files.Keys;
      while left != {}
        invariant left <= files.Keys
        invariant forall f :: f in files && f !in left ==> LastId(codec, files[f]) <= maxId
        invariant maxId == 0 || (best.Some? && best.value in files && LastId(codec, files[best.value]) == maxId)
      {
        ghost var some := AnElement(left);
        assert some in left;
        var f :| f in left;
        left := left - {f};
        var line := ScanLastLine(files[f]);
        if line.Some? {
          var e := codec.dec(line.value);
          if e.Some? && e.value.id > maxId {
            maxId, best := e.value.id, Some(f);
          }
        }
      }
      if maxId != 0 {
        var f := best.value;
        assert f in files && LastId(codec, files[f]) == maxId;
      }
      assert forall f :: f in files ==> LastId(codec, files[f]) <= maxId;
    }

    method BackfillRing(body: string)
      requires ring == []
      modifies this`ring
      ensures |ring| <= RING_CAP && ring == Backfilled(codec, body, RING_CAP)
    {
      var lines := SplitLinesLast(body, RING_CAP);
      for i := 0 to |lines|
        invariant ring == DecodeAll(codec, lines[..i])
      {
        assert lines[..i + 1][..i] == lines[..i];
        var e := codec.dec(lines[i]);
        if e.Some? {
          ring := ring + [e.value];
        }
      }
      assert lines[..|lines|] == lines;
    }

    method Append(e0: Entry, month: int) returns (id: nat)
      requires |ring| <= RING_CAP
      modifies this
      ensures |ring| <= RING_CAP && id == old(nextId)
      ensures Next(codec, old(View()), Step.Append(e0, month), View())
    {
      id := nextId;
      var e := e0.(id := id);
      nextId := nextId + 1;
      if |ring| == RING_CAP {
        ring := ring[1..] + [e];
      } else {
        ring := ring + [e];
      }
      entries, newest := entries[month := EntriesOf(old(View()), month) + [e]], Some(month);
      files := files[month := FileAt(files, month) + codec.enc(e) + "\n"];
    }

    /** One page of the audit listing. */
    method List(q: Query, cursor: nat) returns (page: seq<Entry>, next: Option<nat>)
      ensures page == Page(ring, q, cursor) && next == NextCursor(page)
      ensures forall e :: e in page ==>
                && e in ring && (cursor > 0 ==> e.id < cursor)
                && (q.since.Some? ==> q.since.value <= e.at) && (q.until.Some? ==> e.at <= q.until.value)
                && (q.actor == "" || q.actor == e.actor) && (q.kind == "" || q.kind == e.kind)
    {
      hide Matches, Limit, NewestFirst, Page;
      page := [];
      NewestOfNone(q, cursor);
      PageCuts(ring, q, cursor);
      PageAsks(ring, q, cursor);
      var limit := Limit(q);
      var i := |ring|;
      ghost var all := NewestFirst(ring, q, cursor);
      assert ring[..|ring|] == ring && [] + all == all;
      while i > 0
        invariant 0 <= i <= |ring| && |page| < limit
        invariant all == page + NewestFirst(ring[..i], q, cursor)
      {
        i := i - 1;
        NewestStep(ring, i, q, cursor);
        var e := ring[i];
        if cursor > 0 && e.id >= cursor {
          continue;
        }
        if !Matches(e, q) {
          continue;
        }
        ghost var older := NewestFirst(ring[..i], q, cursor);
        assert page + ([e] + older) == (page + [e]) + older;
        page := page + [e];
        if |page| == limit {
          assert page <= all;
          break;
        }
      }
      next := NextCursor(page);
    }
  }
}
