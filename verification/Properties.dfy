/** server.properties: the reader, the line-preserving patcher, and why they agree. */
module Properties {
  import opened Prelude

  // ---------- Lines of a file, as bufio.Scanner yields them ----------

  function DropCR(s: string): string {
    if s != "" && s[|s| - 1] == '\r' then s[..|s| - 1] else s
  }

  function IndexOf(s: string, c: char): (i: nat)
    ensures i <= |s| && (i < |s| ==> s[i] == c) && forall j :: 0 <= j < i ==> s[j] != c
  {
    if s == "" || s[0] == c then 0 else 1 + IndexOf(s[1..], c)
  }

  function Lines(text: string): (ls: seq<string>)
    ensures forall l :: l in ls ==> '\n' !in l
  {
    if text == "" then []
    else
      var i := IndexOf(text, '\n');
      if i == |text| then [DropCR(text)] else [DropCR(text[..i])] + Lines(text[i + 1..])
  }

  function Join(ls: seq<string>): string {
    if ls == [] then "" else if |ls| == 1 then ls[0] else ls[0] + "\n" + Join(ls[1..])
  }

  /** A line that survives being written and scanned again. */
  predicate CleanLine(l: string) {
    '\n' !in l && (l != "" ==> l[|l| - 1] != '\r')
  }

  predicate CleanText(text: string) {
    forall l :: l in Lines(text) ==> CleanLine(l)
  }

  lemma FirstLine(l: string, rest: string)
    requires '\n' !in l
    ensures Lines(l + "\n" + rest) == [DropCR(l)] + Lines(rest)
  {
    var text := l + "\n" + rest;
    assert text[|l|] == '\n';
    assert forall j :: 0 <= j < |l| ==> text[j] == l[j];
    assert IndexOf(text, '\n') == |l|;
    assert text[..|l|] == l && text[|l| + 1..] == rest;
  }

  lemma EmptyText()
    ensures Lines("") == [] && Lines(Join([]) + "\n") == [""]
  {
  }

  /** Lines that are written out come back without one final CR each. */
  lemma {:induction false} LinesOfJoin(ls: seq<string>)
    requires ls != [] && forall l :: l in ls ==> '\n' !in l
    ensures |Lines(Join(ls) + "\n")| == |ls|
    ensures forall i :: 0 <= i < |ls| ==> Lines(Join(ls) + "\n")[i] == DropCR(ls[i])
  {
    hide Lines, DropCR;
    if |ls| == 1 {
      FirstLine(ls[0], "");
      EmptyText();
      assert ls[0] + "\n" == ls[0] + "\n" + "";
    } else {
      LinesOfJoin(ls[1..]);
      FirstLine(ls[0], Join(ls[1..]) + "\n");
      assert Join(ls) + "\n" == ls[0] + "\n" + (Join(ls[1..]) + "\n");
    }
  }

  lemma CleanLinesOfJoin(ls: seq<string>)
    requires forall l :: l in ls ==> CleanLine(l)
    ensures Lines(Join(ls) + "\n") == if ls == [] then [""] else ls
  {
    if ls == [] {
      EmptyText();
    } else {
      hide Lines, Join;
      LinesOfJoin(ls);
      assert forall i :: 0 <= i < |ls| ==> CleanLine(ls[i]);
    }
  }

  // ---------- One line ----------

  predicate IsBlank(c: char) { c == ' ' || c == '\t' }

  predicate IsSep(c: char) { c == '=' || c == ':' }

  function TrimLeft(s: string): (r: string)
    ensures r != "" ==> !IsBlank(r[0])
    ensures s != "" && !IsBlank(s[0]) ==> r == s
  {
    if s != "" && IsBlank(s[0]) then TrimLeft(s[1..]) else s
  }

  function TrimRight(s: string): (r: string)
    ensures |r| <= |s| && s[..|r|] == r
    ensures r != "" ==> !IsBlank(r[|r| - 1])
  {
    if s != "" && IsBlank(s[|s| - 1]) then TrimRight(s[..|s| - 1]) else s
  }

  lemma {:induction false} TrimRightDropsBlanks(s: string, i: nat)
    requires |TrimRight(s)| <= i < |s|
    ensures IsBlank(s[i])
  {
    if i < |s| - 1 {
      TrimRightDropsBlanks(s[..|s| - 1], i);
    }
  }

  /** A separator not preceded by a backslash. */
  predicate SepAt(s: string, i: int) {
    0 <= i < |s| && IsSep(s[i]) && (i == 0 || s[i - 1] != '\\')
  }

  function FindSepFrom(s: string, from: nat): (r: int)
    requires from <= |s|
    ensures r == -1 || (from <= r && SepAt(s, r))
    decreases |s| - from
  {
    if from == |s| then -1 else if SepAt(s, from) then from else FindSepFrom(s, from + 1)
  }

  /** The first unescaped separator, or -1. */
  function FindSep(s: string): int {
    FindSepFrom(s, 0)
  }

  lemma {:induction false} FindSepFromIsFirst(s: string, from: nat)
    requires from <= |s|
    ensures FindSepFrom(s, from) == -1 || (from <= FindSepFrom(s, from) && SepAt(s, FindSepFrom(s, from)))
    ensures forall j :: from <= j && SepAt(s, j) ==> 0 <= FindSepFrom(s, from) <= j
    decreases |s| - from
  {
    if from < |s| && !SepAt(s, from) {
      FindSepFromIsFirst(s, from + 1);
    }
  }

  lemma FindSepIs(s: string, i: nat)
    requires SepAt(s, i) && forall j :: 0 <= j < i ==> !SepAt(s, j)
    ensures FindSep(s) == i
  {
    FindSepFromIsFirst(s, 0);
  }

  datatype Entry = Entry(key: string, sep: char, value: string)

  /** None for comments, blank lines and lines without a separator. */
  function ParseLine(raw: string): Option<Entry> {
    var t := TrimLeft(raw);
    if t == "" || t[0] == '#' || t[0] == '!' then None
    else
      var i := FindSep(t);
      if i < 0 then None else Some(Entry(TrimRight(t[..i]), t[i], TrimLeft(t[i + 1..])))
  }

  predicate GoodKey(k: string) {
    && (forall i :: 0 <= i < |k| ==> !SepAt(k, i))
    && (k != "" ==> k[0] != '#' && k[0] != '!' && !IsBlank(k[0])
                    && !IsBlank(k[|k| - 1]) && k[|k| - 1] != '\\')
  }

  predicate GoodValue(v: string) {
    v != "" ==> !IsBlank(v[0])
  }

  lemma SepsBefore(k: string, sep: char, v: string)
    requires IsSep(sep)
    ensures forall j :: 0 <= j < |k| ==> (SepAt(k + [sep] + v, j) <==> SepAt(k, j))
    ensures SepAt(k + [sep] + v, |k|) <==> k == "" || k[|k| - 1] != '\\'
  {
  }

  lemma TrimRightKeeps(k: string)
    requires k != "" ==> !IsBlank(k[|k| - 1])
    ensures TrimRight(k) == k
  {
  }

  lemma GoodParses(k: string, sep: char, v: string)
    requires IsSep(sep) && GoodKey(k) && GoodValue(v)
    ensures ParseLine(k + [sep] + v) == Some(Entry(k, sep, v))
  {
    hide TrimRight, FindSep;
    var line := k + [sep] + v;
    assert line[|k|] == sep && line[|k| + 1..] == v && line[..|k|] == k;
    assert line[0] == if k == "" then sep else k[0];
    SepsBefore(k, sep, v);
    FindSepIs(line, |k|);
    TrimRightKeeps(k);
  }

  lemma FirstSepFacts(s: string)
    ensures FindSep(s) == -1 || SepAt(s, FindSep(s))
    ensures forall j :: 0 <= j && SepAt(s, j) ==> 0 <= FindSep(s) <= j
  {
    FindSepFromIsFirst(s, 0);
  }

  lemma ParsedIsGood(k: string, sep: char, v: string)
    requires IsSep(sep) && ParseLine(k + [sep] + v) == Some(Entry(k, sep, v))
    ensures GoodKey(k) && GoodValue(v)
  {
    hide TrimLeft, TrimRight, FindSep;
    var line := k + [sep] + v;
    var t := TrimLeft(line);
    var i := FindSep(t);
    FirstSepFacts(t);
    assert k == t[..i][..|k|];
    if k != "" {
      assert t[0] == k[0] == line[0];
    }
    assert t == line;
    SepsBefore(k, sep, v);
    assert line[|k|] == sep && line[|k| + 1..] == v;
    if i > |k| {
      TrimRightDropsBlanks(t[..i], |k|);
      assert false;
    }
  }

  /** An assignment reads back as what was written exactly when key and value are well formed. */
  lemma ParsesBackIff(k: string, sep: char, v: string)
    requires IsSep(sep)
    ensures ParseLine(k + [sep] + v) == Some(Entry(k, sep, v)) <==> GoodKey(k) && GoodValue(v)
  {
    hide ParseLine, GoodKey, GoodValue;
    if GoodKey(k) && GoodValue(v) {
      GoodParses(k, sep, v);
    } else if ParseLine(k + [sep] + v) == Some(Entry(k, sep, v)) {
      ParsedIsGood(k, sep, v);
    }
  }

  // ---------- What kinds of line there are ----------

  /** Spaces and tabs. */
  predicate Blanks(s: string) {
    forall i :: 0 <= i < |s| ==> s[i] == ' ' || s[i] == '\t'
  }

  /** No equals sign or colon but after a backslash. */
  predicate NoSeparator(s: string) {
    forall i :: 0 <= i < |s| && (s[i] == '=' || s[i] == ':') ==> i > 0 && s[i - 1] == '\\'
  }

  predicate IgnoredFrom(t: string) {
    t == "" || t[0] == '#' || t[0] == '!' || (t[0] != ' ' && t[0] != '\t' && NoSeparator(t))
  }

  /** A blank line, a comment, or a line without a separator: some blanks, and then nothing, a sign that
      starts a comment, or text that nowhere assigns. */
  ghost predicate IsIgnored(line: string) {
    exists k :: 0 <= k <= |line| && Blanks(line[..k]) && IgnoredFrom(line[k..])
  }

  predicate AssignsWith(line: string, b0: string, key: string, b1: string, sep: char, b2: string, value: string) {
    && line == b0 + (key + b1 + [sep] + (b2 + value))
    && Blanks(b0) && Blanks(b1) && Blanks(b2) && (sep == '=' || sep == ':')
    && NoSeparator(key) && (key == "" ==> b1 == "")
    && (key != "" ==> key[0] !in {'#', '!', ' ', '\t'} && key[|key| - 1] !in {' ', '\t'})
    && (key != "" && b1 == "" ==> key[|key| - 1] != '\\')
    && (value != "" ==> value[0] != ' ' && value[0] != '\t')
  }

  /** The parts of an assignment in full: blanks, key, blanks, separator, blanks, value. */
  ghost predicate IsAssignment(line: string, key: string, sep: char, value: string) {
    exists b0, b1, b2 :: AssignsWith(line, b0, key, b1, sep, b2, value)
  }

  ghost predicate Assigns(line: string, key: string) {
    exists sep, value :: IsAssignment(line, key, sep, value)
  }

  lemma {:induction false} TrimLeftSkips(b: string, t: string)
    requires Blanks(b) && (t != "" ==> t[0] != ' ' && t[0] != '\t')
    ensures TrimLeft(b + t) == t
  {
    if b == "" {
      assert b + t == t;
    } else {
      assert (b + t)[1..] == b[1..] + t && (b + t)[0] == b[0];
      TrimLeftSkips(b[1..], t);
    }
  }

  lemma {:induction false} TrimRightSkips(s: string, b: string)
    requires Blanks(b) && (s != "" ==> s[|s| - 1] != ' ' && s[|s| - 1] != '\t')
    ensures TrimRight(s + b) == s
  {
    if b == "" {
      assert s + b == s;
    } else {
      assert (s + b)[..|s + b| - 1] == s + b[..|b| - 1] && (s + b)[|s + b| - 1] == b[|b| - 1];
      TrimRightSkips(s, b[..|b| - 1]);
    }
  }

  lemma IgnoredParsesToNone(line: string)
    requires IsIgnored(line)
    ensures ParseLine(line).None?
  {
    hide TrimLeft, FindSep;
    var k :| 0 <= k <= |line| && Blanks(line[..k]) && IgnoredFrom(line[k..]);
    var t := line[k..];
    assert line == line[..k] + t;
    TrimLeftSkips(line[..k], t);
    FirstSepFacts(t);
  }

  lemma AssignmentParses(line: string, key: string, sep: char, value: string)
    requires IsAssignment(line, key, sep, value)
    ensures ParseLine(line) == Some(Entry(key, sep, value))
  {
    hide TrimLeft, TrimRight, FindSep;
    var b0, b1, b2 :| AssignsWith(line, b0, key, b1, sep, b2, value);
    var t := key + b1 + [sep] + (b2 + value);
    var n := |key + b1|;
    assert t[0] == if key == "" then sep else key[0];
    TrimLeftSkips(b0, t);
    assert t[n] == sep && t[..n] == key + b1 && t[n + 1..] == b2 + value;
    assert n > 0 ==> t[n - 1] == if b1 == "" then key[|key| - 1] else b1[|b1| - 1];
    forall j | 0 <= j < n
      ensures !SepAt(t, j)
    {
      assert t[j] == if j < |key| then key[j] else b1[j - |key|];
      assert 0 < j < |key| ==> t[j - 1] == key[j - 1];
    }
    FindSepIs(t, n);
    TrimRightSkips(key, b1);
    TrimLeftSkips(b2, value);
  }

  lemma {:induction false} TrimLeftIsSuffix(s: string)
    ensures |TrimLeft(s)| <= |s| && s[|s| - |TrimLeft(s)|..] == TrimLeft(s) && Blanks(s[..|s| - |TrimLeft(s)|])
  {
    if s != "" && IsBlank(s[0]) {
      TrimLeftIsSuffix(s[1..]);
      var k := |s| - |TrimLeft(s)|;
      assert s[..k] == [s[0]] + s[1..][..k - 1];
    }
  }

  /** What is left of the separator: the key, and blanks after it. */
  lemma KeyPart(t: string, i: nat)
    requires SepAt(t, i) && (forall j :: 0 <= j < i ==> !SepAt(t, j))
    requires !IsBlank(t[0]) && t[0] != '#' && t[0] != '!'
    ensures var key, b1 := TrimRight(t[..i]), t[|TrimRight(t[..i])|..i];
            && t[..i] == key + b1 && Blanks(b1) && NoSeparator(key) && (key == "" ==> b1 == "")
            && (key != "" ==> key[0] !in {'#', '!', ' ', '\t'} && key[|key| - 1] !in {' ', '\t'})
            && (key != "" && b1 == "" ==> key[|key| - 1] != '\\')
  {
    hide TrimRight;
    var key := TrimRight(t[..i]);
    forall j | |key| <= j < i
      ensures IsBlank(t[j])
    {
      TrimRightDropsBlanks(t[..i], j);
      assert t[..i][j] == t[j];
    }
    if key != "" {
      assert key[0] == t[..i][0] == t[0];
      assert key[|key| - 1] == t[|key| - 1];
    }
    forall j | 0 <= j < |key| && (key[j] == '=' || key[j] == ':')
      ensures j > 0 && key[j - 1] == '\\'
    {
      assert key[j] == t[j] && !SepAt(t, j);
      assert j > 0 ==> key[j - 1] == t[j - 1];
    }
  }

  lemma AssignsInParts(line: string, b0: string, t: string, i: nat, key: string, b1: string, b2: string, value: string)
    requires line == b0 + t && Blanks(b0) && Blanks(b1) && Blanks(b2) && i < |t| && IsSep(t[i])
    requires t[..i] == key + b1 && t[i + 1..] == b2 + value
    requires NoSeparator(key) && (key == "" ==> b1 == "")
    requires key != "" ==> key[0] !in {'#', '!', ' ', '\t'} && key[|key| - 1] !in {' ', '\t'}
    requires key != "" && b1 == "" ==> key[|key| - 1] != '\\'
    requires value != "" ==> !IsBlank(value[0])
    ensures IsAssignment(line, key, t[i], value)
  {
    assert t == t[..i] + [t[i]] + t[i + 1..];
    assert AssignsWith(line, b0, key, b1, t[i], b2, value);
  }

  lemma NothingAssigned(t: string)
    requires (t != "" ==> !IsBlank(t[0])) && FindSep(t) < 0
    ensures IgnoredFrom(t)
  {
    FirstSepFacts(t);
    forall i | 0 <= i < |t| && (t[i] == '=' || t[i] == ':')
      ensures i > 0 && t[i - 1] == '\\'
    {
      assert !SepAt(t, i);
    }
  }

  lemma NoneIsIgnored(line: string)
    requires ParseLine(line).None?
    ensures IsIgnored(line)
  {
    hide TrimLeft, TrimRight, FindSep, NoSeparator;
    var t := TrimLeft(line);
    TrimLeftIsSuffix(line);
    if t != "" && t[0] != '#' && t[0] != '!' {
      NothingAssigned(t);
    }
    assert line[|line| - |t|..] == t;
  }

  lemma SepIsInside(t: string, i: int)
    requires SepAt(t, i)
    ensures 0 <= i < |t| && IsSep(t[i])
  {
  }

  lemma SomeAssigns(line: string)
    requires ParseLine(line).Some?
    ensures var e := ParseLine(line).value; IsAssignment(line, e.key, e.sep, e.value)
  {
    hide TrimLeft, TrimRight, FindSep, IsAssignment, Blanks, NoSeparator, SepAt;
    var t := TrimLeft(line);
    TrimLeftIsSuffix(line);
    var i := FindSep(t);
    FirstSepFacts(t);
    SepIsInside(t, i);
    var rest := t[i + 1..];
    KeyPart(t, i);
    TrimLeftIsSuffix(rest);
    var key, value := TrimRight(t[..i]), TrimLeft(rest);
    var k, m := |line| - |t|, |rest| - |value|;
    assert line == line[..k] + t;
    assert rest == rest[..m] + value;
    AssignsInParts(line, line[..k], t, i, key, t[|key|..i], rest[..m], value);
  }

  /** Every line is of one kind or the other. */
  lemma EveryLineIsEither(line: string)
    ensures IsIgnored(line) <==> ParseLine(line).None?
    ensures ParseLine(line).Some? ==>
              var e := ParseLine(line).value; IsAssignment(line, e.key, e.sep, e.value)
  {
    hide ParseLine, IsIgnored, IsAssignment;
    if ParseLine(line).None? {
      NoneIsIgnored(line);
    } else {
      SomeAssigns(line);
    }
    if IsIgnored(line) {
      IgnoredParsesToNone(line);
    }
  }

  // ---------- Reading ----------

  function ReadLines(ls: seq<string>): map<string, string> {
    if ls == [] then map[]
    else
      var m := ReadLines(ls[..|ls| - 1]);
      match ParseLine(ls[|ls| - 1])
      case None => m
      case Some(e) => m[e.key := e.value]
  }

  function Read(text: string): map<string, string> {
    ReadLines(Lines(text))
  }

  // ---------- Patching ----------

  function PatchLine(raw: string, patch: map<string, string>): string {
    match ParseLine(raw)
    case Some(e) => if e.key in patch then e.key + [e.sep] + patch[e.key] else raw
    case None => raw
  }

  function PatchLines(ls: seq<string>, patch: map<string, string>): (r: seq<string>)
    ensures |r| == |ls| && forall i :: 0 <= i < |ls| ==> r[i] == PatchLine(ls[i], patch)
  {
    seq(|ls|, i requires 0 <= i < |ls| => PatchLine(ls[i], patch))
  }

  /** The patched keys that the lines already assign. */
  function Written(ls: seq<string>, patch: map<string, string>): set<string> {
    if ls == [] then {}
    else
      var w := Written(ls[..|ls| - 1], patch);
      match ParseLine(ls[|ls| - 1])
      case Some(e) => if e.key in patch then w + {e.key} else w
      case None => w
  }

  /** `order` lists the elements of `keys` once each; the source iterates a map in some such order. */
  ghost predicate IsOrder(order: seq<string>, keys: set<string>) {
    && (forall k :: k in order <==> k in keys)
    && (forall i, j :: 0 <= i < j < |order| ==> order[i] != order[j])
  }

  function Appended(order: seq<string>, patch: map<string, string>): (r: seq<string>)
    requires forall k :: k in order ==> k in patch
    ensures |r| == |order| && forall i :: 0 <= i < |order| ==> r[i] == order[i] + "=" + patch[order[i]]
  {
    seq(|order|, i requires 0 <= i < |order| => order[i] + "=" + patch[order[i]])
  }

  function PatchedLines(ls: seq<string>, patch: map<string, string>, order: seq<string>): seq<string>
    requires forall k :: k in order ==> k in patch
  {
    PatchLines(ls, patch) + Appended(order, patch)
  }

  function PatchText(text: string, patch: map<string, string>, order: seq<string>): string
    requires forall k :: k in order ==> k in patch
  {
    Join(PatchedLines(Lines(text), patch, order)) + "\n"
  }

  ghost predicate Missing(text: string, patch: map<string, string>, order: seq<string>) {
    IsOrder(order, patch.Keys - Written(Lines(text), patch))
  }

  predicate GoodPatch(patch: map<string, string>) {
    forall k :: k in patch ==> GoodKey(k) && GoodValue(patch[k]) && '\n' !in k && CleanLine(patch[k])
  }

  // ---------- The patch as a function on parsed files ----------

  lemma BlankLine(patch: map<string, string>)
    ensures ReadLines([""]) == map[] && PatchLine("", patch) == "" && Written([""], patch) == {}
  {
  }

  lemma AssignmentIsClean(k: string, sep: char, v: string)
    requires '\n' !in k && CleanLine(v) && IsSep(sep)
    ensures CleanLine(k + [sep] + v)
  {
    var l := k + [sep] + v;
    assert l[|l| - 1] == if v == "" then sep else v[|v| - 1];
  }

  lemma ParsedSep(raw: string)
    ensures ParseLine(raw).Some? ==> IsSep(ParseLine(raw).value.sep)
  {
  }

  /** A patched line that carried a patched key carries the new value; others are as they were. */
  lemma PatchLineParses(raw: string, patch: map<string, string>)
    requires GoodPatch(patch) && CleanLine(raw)
    ensures CleanLine(PatchLine(raw, patch))
    ensures match ParseLine(raw)
            case Some(e) => ParseLine(PatchLine(raw, patch)) ==
                            Some(e.(value := if e.key in patch then patch[e.key] else e.value))
            case None => true
    ensures (ParseLine(raw).Some? && ParseLine(raw).value.key in patch) || PatchLine(raw, patch) == raw
    ensures PatchLine(PatchLine(raw, patch), patch) == PatchLine(raw, patch)
  {
    ParsedSep(raw);
    if ParseLine(raw).Some? && ParseLine(raw).value.key in patch {
      var e := ParseLine(raw).value;
      ParsesBackIff(e.key, e.sep, patch[e.key]);
      AssignmentIsClean(e.key, e.sep, patch[e.key]);
    }
  }

  lemma AppendedParses(order: seq<string>, patch: map<string, string>)
    requires GoodPatch(patch) && forall k :: k in order ==> k in patch
    ensures forall i :: 0 <= i < |order| ==>
              && CleanLine(Appended(order, patch)[i])
              && ParseLine(Appended(order, patch)[i]) == Some(Entry(order[i], '=', patch[order[i]]))
              && PatchLine(Appended(order, patch)[i], patch) == Appended(order, patch)[i]
  {
    forall i | 0 <= i < |order|
      ensures CleanLine(Appended(order, patch)[i])
      ensures ParseLine(Appended(order, patch)[i]) == Some(Entry(order[i], '=', patch[order[i]]))
      ensures PatchLine(Appended(order, patch)[i], patch) == Appended(order, patch)[i]
    {
      ParsesBackIff(order[i], '=', patch[order[i]]);
      AssignmentIsClean(order[i], '=', patch[order[i]]);
      assert order[i] + "=" + patch[order[i]] == order[i] + ['='] + patch[order[i]];
    }
  }

  function Restrict(m: map<string, string>, keys: set<string>): map<string, string> {
    map k | k in m && k in keys :: m[k]
  }

  lemma RestrictNone(m: map<string, string>)
    ensures Restrict(m, {}) == map[]
  {
  }

  lemma RestrictAll(m: map<string, string>, some: set<string>, order: seq<string>)
    requires some <= m.Keys && IsOrder(order, m.Keys - some)
    ensures forall base :: (base + Restrict(m, some)) + Restrict(m, set k | k in order) == base + m
  {
    forall base: map<string, string>
      ensures (base + Restrict(m, some)) + Restrict(m, set k | k in order) == base + m
    {
      assert (set k | k in order) == m.Keys - some;
    }
  }

  lemma OverrideOne(m: map<string, string>, patch: map<string, string>, keys: set<string>, e: Entry)
    ensures e.key in patch ==>
              (m + Restrict(patch, keys))[e.key := patch[e.key]]
              == m[e.key := e.value] + Restrict(patch, keys + {e.key})
    ensures e.key !in patch ==>
              (m + Restrict(patch, keys))[e.key := e.value] == m[e.key := e.value] + Restrict(patch, keys)
  {
  }

  lemma {:induction false} ReadPatchLines(ls: seq<string>, patch: map<string, string>)
    requires GoodPatch(patch) && forall l :: l in ls ==> CleanLine(l)
    ensures ReadLines(PatchLines(ls, patch)) == ReadLines(ls) + Restrict(patch, Written(ls, patch))
  {
    hide ParseLine, PatchLine, CleanLine, GoodKey, GoodValue, GoodPatch, Restrict;
    if ls == [] {
      RestrictNone(patch);
    } else {
      var n := |ls| - 1;
      ReadPatchLines(ls[..n], patch);
      PatchLineParses(ls[n], patch);
      var r := PatchLines(ls, patch);
      assert r[..n] == PatchLines(ls[..n], patch);
      assert r[n] == PatchLine(ls[n], patch);
      match ParseLine(ls[n]) {
        case None =>
        case Some(e) => OverrideOne(ReadLines(ls[..n]), patch, Written(ls[..n], patch), e);
      }
    }
  }

  lemma AppendOne(m: map<string, string>, patch: map<string, string>, order: seq<string>, n: nat)
    requires n + 1 == |order| && order[n] in patch
    ensures (m + Restrict(patch, set k | k in order[..n]))[order[n] := patch[order[n]]]
         == m + Restrict(patch, set k | k in order)
  {
    assert order == order[..n] + [order[n]];
  }

  lemma {:induction false} ReadAppended(ls: seq<string>, order: seq<string>, patch: map<string, string>)
    requires GoodPatch(patch) && forall k :: k in order ==> k in patch
    ensures ReadLines(ls + Appended(order, patch)) == ReadLines(ls) + Restrict(patch, set k | k in order)
  {
    hide ParseLine, PatchLine, CleanLine, GoodPatch, Restrict;
    if order == [] {
      assert ls + Appended(order, patch) == ls;
      assert (set k | k in order) == {};
      RestrictNone(patch);
    } else {
      var n := |order| - 1;
      ReadAppended(ls, order[..n], patch);
      AppendedParses(order, patch);
      var all := ls + Appended(order, patch);
      assert all[..|all| - 1] == ls + Appended(order[..n], patch);
      assert all[|all| - 1] == Appended(order, patch)[n];
      AppendOne(ReadLines(ls), patch, order, n);
    }
  }

  lemma WrittenIsPatched(ls: seq<string>, patch: map<string, string>)
    ensures Written(ls, patch) <= patch.Keys
  {
  }

  lemma PatchedLinesAreClean(text: string, patch: map<string, string>, order: seq<string>)
    requires GoodPatch(patch) && CleanText(text) && forall k :: k in order ==> k in patch
    ensures forall l :: l in PatchedLines(Lines(text), patch, order) ==> CleanLine(l)
  {
    hide ParseLine, PatchLine, CleanLine, GoodKey, GoodValue, Lines, Join;
    AppendedParses(order, patch);
    forall l | l in Lines(text)
      ensures CleanLine(PatchLine(l, patch))
    {
      PatchLineParses(l, patch);
    }
  }

  /** The patched text scans to the patched lines followed by the appended ones; only an empty file
      patched with nothing gains an empty line. Every comment, blank line and assignment to another
      key is among them verbatim, at its old place. */
  lemma UntouchedLinesSurvive(text: string, patch: map<string, string>, order: seq<string>)
    requires GoodPatch(patch) && CleanText(text) && Missing(text, patch, order)
    ensures var before, after := Lines(text), Lines(PatchText(text, patch, order));
            && |after| == (if before == [] && order == [] then 1 else |before| + |order|)
            && (forall i :: 0 <= i < |before| ==>
                 if ParseLine(before[i]).Some? && ParseLine(before[i]).value.key in patch
                 then var e := ParseLine(before[i]).value;
                      ParseLine(after[i]) == Some(e.(value := patch[e.key]))
                 else after[i] == before[i])
            && (forall j :: 0 <= j < |order| ==> after[|before| + j] == order[j] + "=" + patch[order[j]])
    ensures CleanText(PatchText(text, patch, order))
  {
    hide ParseLine, PatchLine, GoodKey, GoodValue, Lines, Join;
    var before := Lines(text);
    PatchedLinesAreClean(text, patch, order);
    CleanLinesOfJoin(PatchedLines(before, patch, order));
    forall i | 0 <= i < |before|
      ensures if ParseLine(before[i]).Some? && ParseLine(before[i]).value.key in patch
              then ParseLine(PatchLine(before[i], patch))
                   == Some(ParseLine(before[i]).value.(value := patch[ParseLine(before[i]).value.key]))
              else PatchLine(before[i], patch) == before[i]
    {
      PatchLineParses(before[i], patch);
    }
  }

  lemma OneLine(l: string)
    ensures CleanLine(l) ==> '\n' !in l
  {
  }

  lemma CleanIff(l: string)
    requires '\n' !in l
    ensures DropCR(l) == l <==> CleanLine(l)
  {
  }

  lemma PatchLineIsOneLine(raw: string, patch: map<string, string>)
    requires GoodPatch(patch) && '\n' !in raw
    ensures '\n' !in PatchLine(raw, patch)
  {
    ParsedSep(raw);
    if ParseLine(raw).Some? && ParseLine(raw).value.key in patch {
      var e := ParseLine(raw).value;
      AssignmentIsClean(e.key, e.sep, patch[e.key]);
    }
  }

  /** Which untouched lines come through verbatim, in any file: exactly those that do not end in a CR
      once their line end is stripped. */
  lemma LineSurvivesIff(text: string, patch: map<string, string>, order: seq<string>, i: nat)
    requires GoodPatch(patch) && (forall k :: k in order ==> k in patch) && i < |Lines(text)|
    requires ParseLine(Lines(text)[i]).Some? ==> ParseLine(Lines(text)[i]).value.key !in patch
    ensures var after := Lines(PatchText(text, patch, order));
            |after| == |Lines(text)| + |order| && (after[i] == Lines(text)[i] <==> CleanLine(Lines(text)[i]))
  {
    hide ParseLine, GoodKey, GoodValue, Lines, Join, CleanLine;
    var ls := PatchedLines(Lines(text), patch, order);
    AppendedParses(order, patch);
    forall l | l in ls
      ensures '\n' !in l
    {
      OneLine(l);
      if l in PatchLines(Lines(text), patch) {
        var j :| 0 <= j < |Lines(text)| && l == PatchLine(Lines(text)[j], patch);
        PatchLineIsOneLine(Lines(text)[j], patch);
      }
    }
    LinesOfJoin(ls);
    CleanIff(ls[i]);
  }

  /** No line ends in CR LF. */
  predicate NoCRLF(text: string) {
    forall i :: 0 < i < |text| && text[i] == '\n' ==> text[i - 1] != '\r'
  }

  lemma SplitCRLF(l: string, rest: string)
    requires '\n' !in l
    ensures NoCRLF(l + "\n" + rest) <==> DropCR(l) == l && NoCRLF(rest)
  {
    var text := l + "\n" + rest;
    assert text[|l|] == '\n' && forall i :: 0 <= i < |rest| ==> text[|l| + 1 + i] == rest[i];
    assert forall i :: 0 <= i < |l| ==> text[i] == l[i];
    if NoCRLF(rest) && DropCR(l) == l {
      forall i | 0 < i < |text| && text[i] == '\n'
        ensures text[i - 1] != '\r'
      {
        if i > |l| + 1 {
          assert rest[i - |l| - 1] == '\n';
        }
      }
    }
    if NoCRLF(text) {
      forall i | 0 < i < |rest| && rest[i] == '\n'
        ensures rest[i - 1] != '\r'
      {
        assert text[|l| + 1 + i] == '\n' && text[|l| + i] == rest[i - 1];
      }
    }
  }

  lemma SameLines(a: string, b: string, l: string, rest: string)
    requires '\n' !in a && '\n' !in l
    ensures a + "\n" + b == l + "\n" + rest <==> a == l && b == rest
  {
    var s, t := a + "\n" + b, l + "\n" + rest;
    assert s[|a|] == '\n' && t[|l|] == '\n' && s[..|a|] == a && t[..|l|] == l;
    assert s[|a| + 1..] == b && t[|l| + 1..] == rest;
  }

  lemma {:induction false} RejoinIff(text: string)
    requires text != "" && text[|text| - 1] == '\n'
    ensures Lines(text) != []
    ensures Join(Lines(text)) + "\n" == text <==> NoCRLF(text)
    decreases |text|
  {
    var i := IndexOf(text, '\n');
    var l, rest := text[..i], text[i + 1..];
    assert text == l + "\n" + rest;
    assert Lines(text) == [DropCR(l)] + Lines(rest);
    SplitCRLF(l, rest);
    if rest == "" {
      assert Join(Lines(text)) == DropCR(l);
      SameLines(DropCR(l), "", l, "");
    } else {
      assert rest[|rest| - 1] == text[|text| - 1];
      RejoinIff(rest);
      assert Lines(text)[1..] == Lines(rest);
      assert Join(Lines(text)) + "\n" == DropCR(l) + "\n" + (Join(Lines(rest)) + "\n");
      SameLines(DropCR(l), Join(Lines(rest)) + "\n", l, rest);
    }
  }

  /** A patch that asks for nothing rewrites the file: the bytes stay exactly when the last line is ended and
      no line is ended by CR LF. */
  lemma BytesSurviveIff(text: string)
    ensures PatchText(text, map[], []) == text <==> text != "" && text[|text| - 1] == '\n' && NoCRLF(text)
  {
    hide Lines, Join, ParseLine;
    var ls := PatchedLines(Lines(text), map[], []);
    assert ls == Lines(text);
    if text != "" && text[|text| - 1] == '\n' {
      RejoinIff(text);
    }
  }

  lemma OnlyLine(l: string)
    requires '\n' !in l
    ensures Lines(l + "\n") == [DropCR(l)]
  {
    EmptyText();
    FirstLine(l, "");
    assert l + "\n" + "" == l + "\n";
  }

  lemma OneAssignment(k: string, v: string)
    requires GoodKey(k) && GoodValue(v)
    ensures ReadLines([k + "=" + v]) == map[k := v]
  {
    assert k + ['='] + v == k + "=" + v;
    GoodParses(k, '=', v);
    assert [k + "=" + v][..0] == [];
  }

  /** An assignment that is ended by CR CR LF loses a CR, and with it the end of its value, when a patch that
      asks for nothing rewrites the file. */
  lemma SecondCRIsLost(k: string, v: string)
    requires GoodKey(k) && GoodValue(v) && '\n' !in k && CleanLine(v)
    ensures var text := k + "=" + v + "\r\r" + "\n";
            Read(text) == map[k := v + "\r"] && Read(PatchText(text, map[], [])) == map[k := v]
  {
    hide Lines, ParseLine, GoodKey, TrimLeft;
    var l := k + "=" + v;
    AssignmentIsClean(k, '=', v);
    assert k + ['='] + v == l;
    assert k + "=" + (v + "\r") == l + "\r" && (l + "\r" + "\r")[..|l| + 1] == l + "\r" && (l + "\r")[..|l|] == l;
    assert l + "\r\r" == l + "\r" + "\r";
    OnlyLine(l + "\r\r");
    OnlyLine(l + "\r");
    OneAssignment(k, v + "\r");
    OneAssignment(k, v);
    assert PatchedLines([l + "\r"], map[], []) == [l + "\r"];
  }

  lemma {:induction false} ReadWithout(before: seq<string>, line: string, after: seq<string>)
    requires ParseLine(line).None?
    ensures ReadLines(before + [line] + after) == ReadLines(before + after)
  {
    hide ParseLine;
    if after == [] {
      assert (before + [line] + after)[..|before|] == before && before + after == before;
    } else {
      var n := |after| - 1;
      assert (before + [line] + after)[..|before| + 1 + n] == before + [line] + after[..n];
      assert (before + after)[..|before| + n] == before + after[..n];
      ReadWithout(before, line, after[..n]);
    }
  }

  /** A blank line, comment or line without a separator contributes nothing to what is read, and after any
      patch it stands in the file at its old place verbatim. */
  lemma IgnoredLinesAreKept(text: string, patch: map<string, string>, order: seq<string>, i: nat)
    requires GoodPatch(patch) && (forall k :: k in order ==> k in patch)
    requires i < |Lines(text)| && IsIgnored(Lines(text)[i])
    ensures Read(text) == ReadLines(Lines(text)[..i] + Lines(text)[i + 1..])
    ensures var after := Lines(PatchText(text, patch, order));
            i < |after| && (CleanLine(Lines(text)[i]) ==> after[i] == Lines(text)[i])
  {
    hide ParseLine, Lines, IsIgnored, PatchText;
    var ls := Lines(text);
    IgnoredParsesToNone(ls[i]);
    assert ls == ls[..i] + [ls[i]] + ls[i + 1..];
    ReadWithout(ls[..i], ls[i], ls[i + 1..]);
    LineSurvivesIff(text, patch, order, i);
  }

  lemma {:induction false} ReadsLast(before: seq<string>, line: string, after: seq<string>, key: string, value: string)
    requires ParseLine(line).Some? && ParseLine(line).value.key == key && ParseLine(line).value.value == value
    requires forall l :: l in after ==> !Assigns(l, key)
    ensures var m := ReadLines(before + [line] + after);
            key in m && m[key] == value
  {
    hide ParseLine, IsAssignment;
    var all := before + [line] + after;
    assert forall l :: l in after[..|after| - if after == [] then 0 else 1] ==> l in after;
    if after == [] {
      assert all[..|before|] == before && all[|before|] == line;
    } else {
      var n := |after| - 1;
      assert all[..|all| - 1] == before + [line] + after[..n] && all[|all| - 1] == after[n];
      assert after[n] in after && !Assigns(after[n], key);
      EveryLineIsEither(after[n]);
      ReadsLast(before, line, after[..n], key, value);
    }
  }

  /** An assignment, whatever blanks and whichever separator it is written with, is what is read for its key
      unless a later line assigns it, and after a patch of its key it reads key, separator and new value. */
  lemma AssignmentsAreRead(before: seq<string>, line: string, after: seq<string>, key: string, sep: char,
                           value: string, patch: map<string, string>)
    requires IsAssignment(line, key, sep, value)
    requires forall l :: l in after ==> !Assigns(l, key)
    ensures var m := ReadLines(before + [line] + after);
            key in m && m[key] == value
    ensures key in patch ==> PatchLines([line], patch) == [key + [sep] + patch[key]]
  {
    hide ParseLine;
    AssignmentParses(line, key, sep, value);
    ReadsLast(before, line, after, key, value);
  }

  /** Read after patch: the patched file parses to the old one overridden by the patch. */
  lemma ReadAfterPatch(text: string, patch: map<string, string>, order: seq<string>)
    requires GoodPatch(patch) && CleanText(text) && Missing(text, patch, order)
    ensures Read(PatchText(text, patch, order)) == Read(text) + patch
  {
    hide ParseLine, PatchLine, CleanLine, GoodPatch, Restrict, Lines, Join;
    var ls := Lines(text);
    PatchedLinesAreClean(text, patch, order);
    CleanLinesOfJoin(PatchedLines(ls, patch, order));
    ReadPatchLines(ls, patch);
    ReadAppended(PatchLines(ls, patch), order, patch);
    WrittenIsPatched(ls, patch);
    RestrictAll(patch, Written(ls, patch), order);
    if PatchedLines(ls, patch, order) == [] {
      BlankLine(patch);
    }
  }

  /** The order in which a map hands out the keys to append does not matter to a reader. */
  lemma AppendOrderIsIrrelevant(text: string, patch: map<string, string>, order: seq<string>, order': seq<string>)
    requires GoodPatch(patch) && CleanText(text) && Missing(text, patch, order) && Missing(text, patch, order')
    ensures Read(PatchText(text, patch, order)) == Read(PatchText(text, patch, order'))
  {
    ReadAfterPatch(text, patch, order);
    ReadAfterPatch(text, patch, order');
  }

  /** Patching with `p` and then `q` reads like patching once with `p` overridden by `q`. */
  lemma PatchesCompose(text: string, p: map<string, string>, q: map<string, string>,
                       o1: seq<string>, o2: seq<string>, o3: seq<string>)
    requires GoodPatch(p) && GoodPatch(q) && CleanText(text) && Missing(text, p, o1)
    requires Missing(PatchText(text, p, o1), q, o2) && Missing(text, p + q, o3)
    ensures Read(PatchText(PatchText(text, p, o1), q, o2)) == Read(PatchText(text, p + q, o3))
  {
    hide ParseLine, PatchLine, CleanLine, GoodKey, GoodValue, Lines, Join;
    UntouchedLinesSurvive(text, p, o1);
    ReadAfterPatch(text, p, o1);
    ReadAfterPatch(PatchText(text, p, o1), q, o2);
    ReadAfterPatch(text, p + q, o3);
    assert (Read(text) + p) + q == Read(text) + (p + q);
  }

  lemma {:induction false} WrittenHas(ls: seq<string>, patch: map<string, string>, i: nat)
    requires i < |ls| && ParseLine(ls[i]).Some? && ParseLine(ls[i]).value.key in patch
    ensures ParseLine(ls[i]).value.key in Written(ls, patch)
  {
    hide ParseLine, PatchLine, CleanLine, GoodKey, GoodValue, Lines, Join;
    if i < |ls| - 1 {
      WrittenHas(ls[..|ls| - 1], patch, i);
    }
  }

  lemma {:induction false} WrittenFrom(ls: seq<string>, patch: map<string, string>, k: string) returns (i: nat)
    requires k in Written(ls, patch)
    ensures i < |ls| && ParseLine(ls[i]).Some? && ParseLine(ls[i]).value.key == k && k in patch
  {
    hide ParseLine, PatchLine, CleanLine, GoodKey, GoodValue, Lines, Join;
    var n := |ls| - 1;
    if ParseLine(ls[n]).Some? && ParseLine(ls[n]).value.key == k && k in patch {
      i := n;
    } else {
      i := WrittenFrom(ls[..n], patch, k);
    }
  }

  lemma NothingToOrder(order: seq<string>, keys: set<string>)
    requires IsOrder(order, keys)
    ensures keys == {} <==> order == []
  {
    assert |order| > 0 ==> order[0] in order;
    if keys != {} {
      var k :| k in keys;
      assert k in order;
    }
  }

  /** The lines a patched text scans to. */
  function LinesAfter(text: string, patch: map<string, string>, order: seq<string>): seq<string>
    requires forall k :: k in order ==> k in patch
  {
    var once := PatchedLines(Lines(text), patch, order);
    if once == [] then [""] else once
  }

  lemma ScansToLinesAfter(text: string, patch: map<string, string>, order: seq<string>)
    requires GoodPatch(patch) && CleanText(text) && forall k :: k in order ==> k in patch
    ensures Lines(PatchText(text, patch, order)) == LinesAfter(text, patch, order)
    ensures PatchText(text, patch, order) == Join(LinesAfter(text, patch, order)) + "\n"
  {
    hide ParseLine, PatchLine, CleanLine, GoodKey, GoodValue, Lines;
    PatchedLinesAreClean(text, patch, order);
    CleanLinesOfJoin(PatchedLines(Lines(text), patch, order));
  }

  lemma SecondPatchKeepsLines(text: string, patch: map<string, string>, order: seq<string>)
    requires GoodPatch(patch) && CleanText(text) && forall k :: k in order ==> k in patch
    ensures PatchedLines(LinesAfter(text, patch, order), patch, []) == LinesAfter(text, patch, order)
  {
    hide ParseLine, PatchLine, CleanLine, GoodKey, GoodValue, Lines, Join;
    var ls := Lines(text);
    var after := LinesAfter(text, patch, order);
    AppendedParses(order, patch);
    BlankLine(patch);
    forall i | 0 <= i < |after|
      ensures PatchLine(after[i], patch) == after[i]
    {
      if i < |ls| {
        PatchLineParses(ls[i], patch);
      }
    }
    assert PatchLines(after, patch) == after;
  }

  /** Where the patched lines assign a patched key. */
  lemma WrittenSomewhere(ls: seq<string>, patch: map<string, string>, order: seq<string>, k: string) returns (i: nat)
    requires GoodPatch(patch) && (forall l :: l in ls ==> CleanLine(l)) && k in patch
    requires IsOrder(order, patch.Keys - Written(ls, patch))
    ensures forall j :: j in order ==> j in patch
    ensures var once := PatchedLines(ls, patch, order);
            i < |once| && ParseLine(once[i]).Some? && ParseLine(once[i]).value.key == k
  {
    hide ParseLine, PatchLine, CleanLine, GoodKey, GoodValue, Written;
    if k in Written(ls, patch) {
      i := WrittenFrom(ls, patch, k);
      PatchLineParses(ls[i], patch);
    } else {
      assert k in patch.Keys - Written(ls, patch);
      var j :| 0 <= j < |order| && order[j] == k;
      i := |ls| + j;
      AppendedParses(order, patch);
      assert PatchedLines(ls, patch, order)[i] == Appended(order, patch)[j];
    }
  }

  lemma ScansToPatched(text: string, patch: map<string, string>, order: seq<string>)
    requires GoodPatch(patch) && CleanText(text) && forall k :: k in order ==> k in patch
    requires PatchedLines(Lines(text), patch, order) != []
    ensures Lines(PatchText(text, patch, order)) == PatchedLines(Lines(text), patch, order)
  {
    hide PatchLine, CleanLine, Lines, Join;
    PatchedLinesAreClean(text, patch, order);
    CleanLinesOfJoin(PatchedLines(Lines(text), patch, order));
  }

  lemma AllWritten(text: string, patch: map<string, string>, order: seq<string>)
    requires GoodPatch(patch) && CleanText(text) && Missing(text, patch, order)
    ensures patch.Keys <= Written(Lines(PatchText(text, patch, order)), patch)
  {
    hide ParseLine, PatchLine, PatchedLines, CleanLine, GoodKey, GoodValue, GoodPatch, Lines, Join, Written, PatchText;
    var after := Lines(PatchText(text, patch, order));
    forall k | k in patch
      ensures k in Written(after, patch)
    {
      var i := WrittenSomewhere(Lines(text), patch, order, k);
      ScansToPatched(text, patch, order);
      WrittenHas(after, patch, i);
    }
  }

  /** Patching again with the same patch gives the same text, to the byte; there is nothing left to append. */
  lemma PatchIsIdempotent(text: string, patch: map<string, string>, order: seq<string>, again: seq<string>)
    requires GoodPatch(patch) && CleanText(text) && Missing(text, patch, order)
    requires Missing(PatchText(text, patch, order), patch, again)
    ensures again == [] && PatchText(PatchText(text, patch, order), patch, again) == PatchText(text, patch, order)
  {
    hide ParseLine, PatchLine, CleanLine, GoodPatch, Lines, LinesAfter, Join;
    AllWritten(text, patch, order);
    NothingToOrder(again, patch.Keys - Written(Lines(PatchText(text, patch, order)), patch));
    ScansToLinesAfter(text, patch, order);
    SecondPatchKeepsLines(text, patch, order);
  }

  // ---------- The code ----------

  lemma OneMoreLine(ls: seq<string>, i: nat, patch: map<string, string>)
    requires i < |ls|
    ensures PatchLines(ls[..i + 1], patch) == PatchLines(ls[..i], patch) + [PatchLine(ls[i], patch)]
    ensures Written(ls[..i + 1], patch) ==
            match ParseLine(ls[i])
            case Some(e) => if e.key in patch then Written(ls[..i], patch) + {e.key} else Written(ls[..i], patch)
            case None => Written(ls[..i], patch)
  {
    assert ls[..i + 1][..i] == ls[..i];
  }

  lemma NoLines(patch: map<string, string>)
    ensures PatchLines([], patch) == [] && Written([], patch) == {}
  {
  }

  method FindSeparator(s: string) returns (sep: int)
    ensures sep == FindSep(s)
  {
    sep := -1;
    var i := 0;
    while i < |s|
      invariant 0 <= i <= |s|
      invariant FindSep(s) == FindSepFrom(s, i)
    {
      var c := s[i];
      if (c == '=' || c == ':') && (i == 0 || s[i - 1] != '\\') {
        return i;
      }
      i := i + 1;
    }
  }

  /** The keys of the patch not yet written, in the order the map hands them out. */
  method AppendMissing(patch: map<string, string>, written: set<string>) returns (order: seq<string>)
    ensures IsOrder(order, patch.Keys - written)
  {
    order := [];
    var left := patch.Keys;
    while left != {}
      invariant left <= patch.Keys && (forall k :: k in order ==> k !in left)
      invariant IsOrder(order, patch.Keys - left - written)
    {
      var k :| k in left;
      left := left - {k};
      if k !in written {
        order := order + [k];
      }
    }
  }

  /** A server.properties file; absent until the server has written one. */
  class PropertiesFile {
    var body: Option<string>

    constructor (body: Option<string>)
      ensures this.body == body
    {
      this.body := body;
    }

    method ReadProperties() returns (r: Option<map<string, string>>)
      ensures r == if body.Some? then Some(Read(body.value)) else None
    {
      if body.None? {
        return None;
      }
      var lines := Lines(body.value);
      var out: map<string, string> := map[];
      for i := 0 to |lines|
        invariant out == ReadLines(lines[..i])
      {
        assert lines[..i + 1][..i] == lines[..i];
        var line := TrimLeft(lines[i]);
        if line == "" || line[0] == '#' || line[0] == '!' {
          continue;
        }
        var sep := FindSeparator(line);
        if sep < 0 {
          continue;
        }
        var key := TrimRight(line[..sep]);
        var val := TrimLeft(line[sep + 1..]);
        out := out[key := val];
      }
      assert lines[..|lines|] == lines;
      return Some(out);
    }

    /** Rewrites the file; an absent file is an error and stays absent. */
    method PatchProperties(patch: map<string, string>) returns (ok: bool)
      modifies this
      ensures ok <==> old(body).Some?
      ensures !ok ==> body == old(body)
      ensures ok ==> exists order ::
                       Missing(old(body).value, patch, order) && (forall k :: k in order ==> k in patch)
                       && body == Some(PatchText(old(body).value, patch, order))
    {
      if body.None? {
        return false;
      }
      hide Lines, Join, TrimLeft, TrimRight, FindSep, PatchLines, Written;
      var raws := Lines(body.value);
      var lines: seq<string> := [];
      var written: set<string> := {};
      NoLines(patch);
      for i := 0 to |raws|
        invariant lines == PatchLines(raws[..i], patch)
        invariant written == Written(raws[..i], patch)
      {
        OneMoreLine(raws, i, patch);
        var raw := raws[i];
        var trim := TrimLeft(raw);
        if trim == "" || trim[0] == '#' || trim[0] == '!' {
          lines := lines + [raw];
          continue;
        }
        var sep := FindSeparator(trim);
        if sep < 0 {
          lines := lines + [raw];
          continue;
        }
        var key := TrimRight(trim[..sep]);
        if key in patch {
          lines := lines + [key + [trim[sep]] + patch[key]];
          written := written + {key};
        } else {
          lines := lines + [raw];
        }
      }
      assert raws[..|raws|] == raws;
      var order := AppendMissing(patch, written);
      lines := lines + Appended(order, patch);
      body := Some(Join(lines) + "\n");
      WrittenIsPatched(raws, patch);
      assert Missing(old(body).value, patch, order);
      return true;
    }
  }
}
