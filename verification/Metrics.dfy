/** Metric series keyed by an escaped text, against the map from label values that they stand for. */
module Metrics {
  import opened Prelude

  // ---------- Escaping ----------

  function ReplaceAll(s: string, c: char, rep: string): string {
    if s == "" then "" else (if s[0] == c then rep else [s[0]]) + ReplaceAll(s[1..], c, rep)
  }

  /** The source's three passes over a label value. */
  function EscapeLabel(v: string): string {
    ReplaceAll(ReplaceAll(ReplaceAll(v, '\\', "\\\\"), '\"', "\\\""), '\n', "\\n")
  }

  /** The label escapes of the Prometheus text format, one character at a time. */
  function EscapeChar(c: char): string {
    if c == '\\' then "\\\\" else if c == '\"' then "\\\"" else if c == '\n' then "\\n" else [c]
  }

  function Escape(v: string): string {
    if v == "" then "" else EscapeChar(v[0]) + Escape(v[1..])
  }

  /** How a scraper reads an escaped value. */
  function Unescape(s: string): string {
    if s == "" then ""
    else if s[0] == '\\' && |s| > 1 then [if s[1] == 'n' then '\n' else s[1]] + Unescape(s[2..])
    else [s[0]] + Unescape(s[1..])
  }

  lemma {:induction false} ReplaceAllConcat(a: string, b: string, c: char, rep: string)
    ensures ReplaceAll(a + b, c, rep) == ReplaceAll(a, c, rep) + ReplaceAll(b, c, rep)
  {
    if a == "" {
      assert a + b == b;
    } else {
      assert (a + b)[1..] == a[1..] + b;
      ReplaceAllConcat(a[1..], b, c, rep);
    }
  }

  lemma ReplaceOne(x: char, c: char, rep: string)
    ensures ReplaceAll([x], c, rep) == if x == c then rep else [x]
  {
    assert ReplaceAll([x][1..], c, rep) == "";
  }

  lemma ReplaceTwo(x: char, y: char, c: char, rep: string)
    requires x != c && y != c
    ensures ReplaceAll([x, y], c, rep) == [x, y]
  {
    assert [x, y][1..] == [y];
    ReplaceOne(y, c, rep);
  }

  lemma EscapeOneChar(c: char)
    ensures EscapeLabel([c]) == EscapeChar(c)
  {
    ReplaceOne(c, '\\', "\\\\");
    ReplaceOne(c, '\"', "\\\"");
    ReplaceOne(c, '\n', "\\n");
    ReplaceTwo('\\', '\\', '\"', "\\\"");
    ReplaceTwo('\\', '\\', '\n', "\\n");
    ReplaceTwo('\\', '\"', '\n', "\\n");
  }

  /** The passes in their order amount to one escape per character: no pass escapes what an earlier one
      put in. */
  lemma {:induction false} PassesAreOneEscape(v: string)
    ensures EscapeLabel(v) == Escape(v)
  {
    if v != "" {
      var head, tail := [v[0]], v[1..];
      assert v == head + tail;
      ReplaceAllConcat(head, tail, '\\', "\\\\");
      var h1, t1 := ReplaceAll(head, '\\', "\\\\"), ReplaceAll(tail, '\\', "\\\\");
      ReplaceAllConcat(h1, t1, '\"', "\\\"");
      ReplaceAllConcat(ReplaceAll(h1, '\"', "\\\""), ReplaceAll(t1, '\"', "\\\""), '\n', "\\n");
      assert EscapeLabel(v) == EscapeLabel(head) + EscapeLabel(tail);
      EscapeOneChar(v[0]);
      PassesAreOneEscape(tail);
    }
  }

  /** The three escapes, and that every other character stands for itself. */
  lemma EscapesAre(c: char)
    ensures EscapeLabel("\\") == "\\\\" && EscapeLabel("\"") == "\\\"" && EscapeLabel("\n") == "\\n"
    ensures c !in {'\\', '\"', '\n'} ==> EscapeLabel([c]) == [c]
  {
    EscapeOneChar('\\');
    EscapeOneChar('\"');
    EscapeOneChar('\n');
    EscapeOneChar(c);
  }

  /** Unescaping undoes escaping, for every value. */
  lemma {:induction false} UnescapeInverts(v: string)
    ensures Unescape(EscapeLabel(v)) == v
  {
    PassesAreOneEscape(v);
    if v != "" {
      UnescapeInverts(v[1..]);
      PassesAreOneEscape(v[1..]);
      assert Escape(v) == EscapeChar(v[0]) + Escape(v[1..]);
      assert Escape(v)[|EscapeChar(v[0])|..] == Escape(v[1..]);
      assert v == [v[0]] + v[1..];
    }
  }

  // ---------- Keys ----------

  function Join(parts: seq<string>): string {
    if parts == [] then "" else if |parts| == 1 then parts[0] else parts[0] + "," + Join(parts[1..])
  }

  function Pair(name: string, value: string): string {
    name + "=\"" + EscapeLabel(value) + "\""
  }

  function Pairs(names: seq<string>, values: seq<string>): seq<string>
    requires |names| == |values|
  {
    seq(|names|, i requires 0 <= i < |names| => Pair(names[i], values[i]))
  }

  function LabelKey(names: seq<string>, values: seq<string>): string
    requires |names| == |values|
  {
    Join(Pairs(names, values))
  }

  lemma EscapeSplits(v: string, s: string)
    requires v != ""
    ensures Escape(v) + "\"" + s == EscapeChar(v[0]) + (Escape(v[1..]) + "\"" + s)
  {
  }

  lemma StartsLikeAQuoteIff(v: string, s: string)
    ensures (Escape(v) + "\"" + s)[0] == '\"' <==> v == ""
    ensures v == "" ==> (Escape(v) + "\"" + s)[1..] == s
  {
  }

  lemma EscapesDiffer(c: char, d: char, s: string, t: string)
    requires EscapeChar(c) + s == EscapeChar(d) + t
    ensures c == d && s == t
  {
    var a, b := EscapeChar(c) + s, EscapeChar(d) + t;
    assert a[0] == b[0];
    if |EscapeChar(c)| == 2 {
      assert a[0] == '\\';
      assert |EscapeChar(d)| == 2;
      assert a[1] == b[1];
      assert a[2..] == s && b[2..] == t;
    } else {
      assert |EscapeChar(d)| == 1;
      assert a[1..] == s && b[1..] == t;
    }
  }

  /** A quote ends an escaped value unambiguously: equal texts have equal values and equal rests. */
  lemma {:induction false} QuoteEndsValue(v: string, w: string, s: string, t: string)
    requires Escape(v) + "\"" + s == Escape(w) + "\"" + t
    ensures v == w && s == t
    decreases |v|
  {
    hide EscapeChar, Escape;
    StartsLikeAQuoteIff(v, s);
    StartsLikeAQuoteIff(w, t);
    if v != "" {
      EscapeSplits(v, s);
      EscapeSplits(w, t);
      EscapesDiffer(v[0], w[0], Escape(v[1..]) + "\"" + s, Escape(w[1..]) + "\"" + t);
      QuoteEndsValue(v[1..], w[1..], s, t);
      assert v == [v[0]] + v[1..] && w == [w[0]] + w[1..];
    }
  }

  lemma KeyUnfolds(names: seq<string>, vs: seq<string>)
    requires |names| == |vs| && names != []
    ensures LabelKey(names, vs) == names[0] + "=\"" + (EscapeLabel(vs[0]) + "\"" +
                                   if |names| == 1 then "" else "," + LabelKey(names[1..], vs[1..]))
  {
    hide EscapeLabel;
    var ps := Pairs(names, vs);
    if |names| > 1 {
      assert ps[1..] == Pairs(names[1..], vs[1..]);
    }
  }

  /** For fixed label names, different value lists have different keys, whatever the values contain. */
  lemma {:induction false} LabelKeyIsInjective(names: seq<string>, vs: seq<string>, ws: seq<string>)
    requires |names| == |vs| == |ws| && LabelKey(names, vs) == LabelKey(names, ws)
    ensures vs == ws
  {
    if names != [] {
      var s := if |names| == 1 then "" else "," + LabelKey(names[1..], vs[1..]);
      var t := if |names| == 1 then "" else "," + LabelKey(names[1..], ws[1..]);
      KeyUnfolds(names, vs);
      KeyUnfolds(names, ws);
      var skip := |names[0]| + 2;
      assert (names[0] + "=\"" + (EscapeLabel(vs[0]) + "\"" + s))[skip..] == EscapeLabel(vs[0]) + "\"" + s;
      assert (names[0] + "=\"" + (EscapeLabel(ws[0]) + "\"" + t))[skip..] == EscapeLabel(ws[0]) + "\"" + t;
      PassesAreOneEscape(vs[0]);
      PassesAreOneEscape(ws[0]);
      QuoteEndsValue(vs[0], ws[0], s, t);
      if |names| > 1 {
        assert s[1..] == LabelKey(names[1..], vs[1..]) && t[1..] == LabelKey(names[1..], ws[1..]);
        LabelKeyIsInjective(names[1..], vs[1..], ws[1..]);
      }
      assert vs == [vs[0]] + vs[1..] && ws == [ws[0]] + ws[1..];
    }
  }

  // ---------- Series ----------

  datatype Op = Set(values: seq<string>, v: real) | Add(values: seq<string>, d: real)

  /** What one recording does to the series; a wrong number of labels is ignored. */
  function Record(names: seq<string>, series: map<string, real>, op: Op): map<string, real> {
    if |op.values| != |names| then series
    else
      var k := LabelKey(names, op.values);
      match op
      case Set(_, v) => series[k := v]
      case Add(_, d) => series[k := (if k in series then series[k] else 0.0) + d]
  }

  function RecordAll(names: seq<string>, ops: seq<Op>): map<string, real> {
    if ops == [] then map[] else Record(names, RecordAll(names, ops[..|ops| - 1]), ops[|ops| - 1])
  }

  /** The value that a run of recordings gives one list of label values, without any keys: the last set
      plus the increments after it. */
  function ValueOf(ops: seq<Op>, values: seq<string>): Option<real> {
    if ops == [] then None
    else
      var before, op := ValueOf(ops[..|ops| - 1], values), ops[|ops| - 1];
      if op.values != values then before
      else
        match op
        case Set(_, v) => Some(v)
        case Add(_, d) => Some((if before.Some? then before.value else 0.0) + d)
  }

  /** After any run of recordings, the series keyed by text are the map keyed by label values: each list
      of values finds exactly its own value, and every key belongs to some recorded list. */
  lemma {:induction false} SeriesRefinesLabels(names: seq<string>, ops: seq<Op>, values: seq<string>)
    requires |values| == |names|
    ensures var series, k := RecordAll(names, ops), LabelKey(names, values);
            ValueOf(ops, values) == if k in series then Some(series[k]) else None
  {
    hide LabelKey;
    if ops != [] {
      var n := |ops| - 1;
      SeriesRefinesLabels(names, ops[..n], values);
      if |ops[n].values| == |names| && LabelKey(names, ops[n].values) == LabelKey(names, values) {
        LabelKeyIsInjective(names, ops[n].values, values);
      }
    }
  }

  lemma {:induction false} EveryKeyIsALabelKey(names: seq<string>, ops: seq<Op>, k: string)
    returns (values: seq<string>)
    requires k in RecordAll(names, ops)
    ensures |values| == |names| && LabelKey(names, values) == k && ValueOf(ops, values).Some?
  {
    hide LabelKey;
    var n := |ops| - 1;
    if |ops[n].values| == |names| && LabelKey(names, ops[n].values) == k {
      values := ops[n].values;
    } else {
      values := EveryKeyIsALabelKey(names, ops[..n], k);
    }
    SeriesRefinesLabels(names, ops, values);
  }

  lemma LastOp(ops: seq<Op>, op: Op)
    ensures (ops + [op])[..|ops|] == ops && (ops + [op])[|ops|] == op
  {
  }

  /** What the last recording does to the samples: a set is what is shown, an increment adds to what was or to
      zero, the samples of other label values stay, and a wrong number of labels changes nothing. */
  lemma LastRecording(names: seq<string>, ops: seq<Op>, op: Op, values: seq<string>)
    requires |values| == |names|
    ensures var before, after, k := RecordAll(names, ops), RecordAll(names, ops + [op]), LabelKey(names, values);
            && (|op.values| != |names| ==> after == before)
            && (op.values == values ==>
                  && k in after
                  && after[k] == match op
                                 case Set(_, v) => v
                                 case Add(_, d) => if k in before then before[k] + d else d)
            && (op.values != values ==> (k in after <==> k in before) && (k in before ==> after[k] == before[k]))
  {
    hide LabelKey;
    LastOp(ops, op);
    if |op.values| == |names| && LabelKey(names, op.values) == LabelKey(names, values) {
      LabelKeyIsInjective(names, op.values, values);
    }
  }

  function SumFor(ops: seq<Op>, values: seq<string>): real {
    if ops == [] then 0.0
    else
      var op := ops[|ops| - 1];
      SumFor(ops[..|ops| - 1], values) + if op.Add? && op.values == values then op.d else 0.0
  }

  lemma {:induction false} SumOfAdds(ops: seq<Op>, values: seq<string>)
    requires forall op :: op in ops ==> op.Add?
    ensures ValueOf(ops, values).Some? <==> exists op :: op in ops && op.values == values
    ensures ValueOf(ops, values).Some? ==> ValueOf(ops, values).value == SumFor(ops, values)
    ensures ValueOf(ops, values).None? ==> SumFor(ops, values) == 0.0
  {
    if ops != [] {
      var n := |ops| - 1;
      SumOfAdds(ops[..n], values);
      assert ops == ops[..n] + [ops[n]];
    }
  }

  /** A counter shows the sum of its own increments, and is absent exactly when it never had one. */
  lemma {:induction false} CounterIsSum(names: seq<string>, ops: seq<Op>, values: seq<string>)
    requires |values| == |names| && forall op :: op in ops ==> op.Add?
    ensures var series, k := RecordAll(names, ops), LabelKey(names, values);
            && (k in series <==> exists op :: op in ops && op.values == values)
            && (k in series ==> series[k] == SumFor(ops, values))
  {
    SeriesRefinesLabels(names, ops, values);
    SumOfAdds(ops, values);
  }

  // ---------- The code ----------

  method KeyOf(names: seq<string>, values: seq<string>) returns (key: string)
    requires |names| == |values|
    ensures key == LabelKey(names, values)
  {
    if |names| == 0 {
      return "";
    }
    var pairs: seq<string> := [];
    for i := 0 to |names|
      invariant |pairs| == i && forall j :: 0 <= j < i ==> pairs[j] == Pair(names[j], values[j])
    {
      pairs := pairs + [names[i] + "=\"" + EscapeLabel(values[i]) + "\""];
    }
    assert pairs == Pairs(names, values);
    return Join(pairs);
  }

  class Metric {
    const labels: seq<string>
    var series: map<string, real>
    ghost var history: seq<Op>

    ghost predicate Valid()
      reads this
    {
      series == RecordAll(labels, history)
    }

    constructor (labels: seq<string>)
      ensures Valid() && this.labels == labels && history == []
    {
      this.labels := labels;
      series, history := map[], [];
    }

    method Set(values: seq<string>, v: real)
      requires Valid()
      modifies this
      ensures Valid() && history == old(history) + [Op.Set(values, v)]
    {
      assert (history + [Op.Set(values, v)])[..|history|] == history;
      history := history + [Op.Set(values, v)];
      if |values| != |labels| {
        return;
      }
      var k := KeyOf(labels, values);
      series := series[k := v];
    }

    method Add(values: seq<string>, d: real)
      requires Valid()
      modifies this
      ensures Valid() && history == old(history) + [Op.Add(values, d)]
    {
      assert (history + [Op.Add(values, d)])[..|history|] == history;
      history := history + [Op.Add(values, d)];
      if |values| != |labels| {
        return;
      }
      var k := KeyOf(labels, values);
      series := series[k := (if k in series then series[k] else 0.0) + d];
    }

    /** The sample of one list of label values, as the text format shows it. */
    method Sample(values: seq<string>) returns (r: Option<real>)
      requires Valid() && |values| == |labels|
      ensures r == ValueOf(history, values)
    {
      SeriesRefinesLabels(labels, history, values);
      var k := KeyOf(labels, values);
      r := if k in series then Some(series[k]) else None;
    }
  }
}
