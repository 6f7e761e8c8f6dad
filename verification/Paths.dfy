/** Slash-separated names, the cleaning of them, and where in a tree they lead. */
module Paths {
  type Path = seq<string>

  predicate HasPrefix(s: string, prefix: string) { prefix <= s }

  /** A relative path as text. */
  function Rel(p: Path): string {
    if p == [] then "." else if |p| == 1 then p[0] else p[0] + "/" + Rel(p[1..])
  }

  /** The pieces of a text between its slashes. */
  function Split(s: string): (r: Path)
    ensures r != [] && forall n :: n in r ==> '/' !in n
  {
    if s == "" then [""]
    else
      var r := Split(s[1..]);
      if s[0] == '/' then [""] + r else [[s[0]] + r[0]] + r[1..]
  }

  predicate PlainName(n: string) { n != "" && '/' !in n }

  /** A name that a file or directory can have. */
  predicate RealName(n: string) { PlainName(n) && n != "." && n != ".." }

  lemma SplitFirst(s: string)
    ensures Split("") == [""]
    ensures s != "" ==>
              Split(s) == if s[0] == '/' then [""] + Split(s[1..])
                          else [[s[0]] + Split(s[1..])[0]] + Split(s[1..])[1..]
  {
  }

  lemma {:induction false} SplitBoth(a: string, b: string)
    ensures Split(a + "/" + b) == Split(a) + Split(b)
    decreases |a|
  {
    hide Split;
    var s := a + "/" + b;
    SplitFirst(s);
    SplitFirst(a);
    if a == "" {
      assert s[0] == '/' && s[1..] == b;
    } else {
      assert s[0] == a[0] && s[1..] == a[1..] + "/" + b;
      SplitBoth(a[1..], b);
      assert (Split(a[1..]) + Split(b))[1..] == Split(a[1..])[1..] + Split(b);
    }
  }

  lemma {:induction false} SplitPlain(n: string)
    requires '/' !in n
    ensures Split(n) == [n]
  {
    if n != "" {
      SplitPlain(n[1..]);
      assert [n[0]] + n[1..] == n;
    }
  }

  lemma {:induction false} SplitRel(p: Path)
    requires p != [] && forall n :: n in p ==> '/' !in n
    ensures Split(Rel(p)) == p
  {
    SplitPlain(p[0]);
    if |p| > 1 {
      SplitRel(p[1..]);
      SplitBoth(p[0], Rel(p[1..]));
    }
  }

  /** A relative path starts with two dots exactly when its first name does. */
  lemma DotsFirst(p: Path)
    requires p != [] && p[0] != ""
    ensures HasPrefix(Rel(p), "..") <==> HasPrefix(p[0], "..")
    ensures Rel(p)[0] == p[0][0]
  {
    if |p| > 1 {
      assert Rel(p)[|p[0]|] == '/';
      assert Rel(p)[..|p[0]|] == p[0];
      if |p[0]| == 1 {
        assert Rel(p)[1] == '/';
      } else {
        assert Rel(p)[..2] == p[0][..2];
      }
    }
  }

  lemma FirstNameIs(n: string, rest: string, dir: string)
    requires '/' !in n && '/' !in dir
    ensures HasPrefix(n + "/" + rest, dir + "/") <==> n == dir
  {
    var s := n + "/" + rest;
    assert s[|n|] == '/' && s[..|n|] == n;
    assert forall i :: 0 <= i < |n| ==> s[i] == n[i];
    if n == dir {
      assert s == dir + "/" + rest;
    } else {
      assert (dir + "/")[|dir|] == '/' && (dir + "/")[..|dir|] == dir;
    }
  }

  lemma PrefixChars(s: string, t: string, c: char)
    requires HasPrefix(s, t) && c in t
    ensures c in s
  {
  }

  /** A path is a directory's name, or starts with it and a slash, exactly when its first name is that. */
  lemma RelUnder(p: Path, dir: string, slashed: string)
    requires p != [] && PlainName(p[0]) && PlainName(dir) && slashed == dir + "/"
    ensures Rel(p) == dir || HasPrefix(Rel(p), slashed) <==> p[0] == dir
    ensures p[0] == dir && |p| > 1 ==> Rel(p) == slashed + Rel(p[1..])
    ensures Rel(p) == dir ==> p == [dir]
  {
    hide HasPrefix;
    if |p| > 1 {
      FirstNameIs(p[0], Rel(p[1..]), dir);
      assert Rel(p)[|p[0]|] == '/';
    } else if HasPrefix(p[0], slashed) {
      assert slashed[|dir|] == '/';
      PrefixChars(p[0], slashed, '/');
    }
  }

  lemma {:induction false} RelBoth(a: Path, b: Path)
    requires a != [] && b != []
    ensures Rel(a + b) == Rel(a) + "/" + Rel(b)
  {
    if |a| == 1 {
      assert (a + b)[1..] == b;
    } else {
      assert (a + b)[1..] == a[1..] + b;
      RelBoth(a[1..], b);
      assert a[0] + "/" + (Rel(a[1..]) + "/" + Rel(b)) == a[0] + "/" + Rel(a[1..]) + "/" + Rel(b);
    }
  }

  // ---------- Cleaning ----------

  /** A cleaned name: whether it starts at the root, and the names it goes through. */
  datatype Cleaned = Cleaned(rooted: bool, names: Path)

  predicate Rooted(s: string) { s != "" && s[0] == '/' }

  function CleanStep(out: Path, rooted: bool, n: string): Path {
    if n == "" || n == "." then out
    else if n == ".." then
      if out != [] && out[|out| - 1] != ".." then out[..|out| - 1] else if rooted then out else out + [".."]
    else out + [n]
  }

  function CleanNames(names: Path, rooted: bool): Path {
    if names == [] then [] else CleanStep(CleanNames(names[..|names| - 1], rooted), rooted, names[|names| - 1])
  }

  /** filepath.Clean */
  function Clean(s: string): Cleaned {
    Cleaned(Rooted(s), CleanNames(Split(s), Rooted(s)))
  }

  function Text(c: Cleaned): string {
    if c.rooted then if c.names == [] then "/" else "/" + Rel(c.names) else Rel(c.names)
  }

  /** Real names, preceded by nothing but climbs, and by none from the root. */
  ghost predicate InShape(names: Path, rooted: bool) {
    forall i :: 0 <= i < |names| ==>
                  RealName(names[i]) || (!rooted && names[i] == ".." && forall j :: 0 <= j < i ==> names[j] == "..")
  }

  lemma StepKeepsShape(out: Path, rooted: bool, n: string)
    requires InShape(out, rooted) && '/' !in n
    ensures InShape(CleanStep(out, rooted, n), rooted)
  {
    if n == ".." && out != [] && out[|out| - 1] == ".." {
      assert !rooted && forall j :: 0 <= j < |out| ==> out[j] == "..";
    }
  }

  lemma {:induction false} CleanShape(names: Path, rooted: bool)
    requires forall n :: n in names ==> '/' !in n
    ensures InShape(CleanNames(names, rooted), rooted)
  {
    if names != [] {
      var k := |names| - 1;
      CleanShape(names[..k], rooted);
      assert '/' !in names[k];
      StepKeepsShape(CleanNames(names[..k], rooted), rooted, names[k]);
    }
  }

  lemma {:induction false} CleanAppends(names: Path, more: Path, rooted: bool)
    requires forall n :: n in more ==> RealName(n)
    ensures CleanNames(names + more, rooted) == CleanNames(names, rooted) + more
    decreases |more|
  {
    if more == [] {
      assert names + more == names;
    } else {
      var k := |more| - 1;
      assert (names + more)[..|names + more| - 1] == names + more[..k];
      assert RealName(more[k]);
      CleanAppends(names, more[..k], rooted);
    }
  }

  lemma CleanSkips(names: Path, n: string, rooted: bool)
    requires n == "" || n == "."
    ensures CleanNames(names + [n], rooted) == CleanNames(names, rooted)
  {
    assert (names + [n])[..|names|] == names;
  }

  // ---------- Where a name leads ----------

  function Hop(at: Path, n: string): Path {
    if n == "" || n == "." then at else if n == ".." then if at == [] then [] else at[..|at| - 1] else at + [n]
  }

  /** The place reached from `at` by following the names; the parent of the root is the root. */
  function Resolve(at: Path, names: Path): Path {
    if names == [] then at else Hop(Resolve(at, names[..|names| - 1]), names[|names| - 1])
  }

  /** Where a text leads a process whose current directory is `cwd`. */
  function Locate(cwd: Path, s: string): Path {
    Resolve(if Rooted(s) then [] else cwd, Split(s))
  }

  lemma {:induction false} ResolveBoth(at: Path, a: Path, b: Path)
    ensures Resolve(at, a + b) == Resolve(Resolve(at, a), b)
    decreases |b|
  {
    if b == [] {
      assert a + b == a;
    } else {
      assert (a + b)[..|a + b| - 1] == a + b[..|b| - 1];
      ResolveBoth(at, a, b[..|b| - 1]);
    }
  }

  lemma {:induction false} ResolveReal(at: Path, names: Path)
    requires forall n :: n in names ==> RealName(n)
    ensures Resolve(at, names) == at + names
  {
    if names == [] {
      assert at + names == at;
    } else {
      var k := |names| - 1;
      assert RealName(names[k]);
      ResolveReal(at, names[..k]);
      assert at + names[..k] + [names[k]] == at + names;
    }
  }

  lemma StepLeadsThere(at: Path, out: Path, rooted: bool, n: string)
    requires InShape(out, rooted) && (rooted ==> at == [])
    ensures Resolve(at, CleanStep(out, rooted, n)) == Hop(Resolve(at, out), n)
  {
    if n == ".." && out != [] && out[|out| - 1] != ".." {
      assert RealName(out[|out| - 1]);
      var before := Resolve(at, out[..|out| - 1]);
      assert (before + [out[|out| - 1]])[..|before|] == before;
    } else if n == ".." && rooted {
      assert out == [];
    } else if n != "" && n != "." {
      assert (out + [n])[..|out|] == out;
    }
  }

  lemma {:induction false} CleanNamesLeadThere(at: Path, names: Path, rooted: bool)
    requires (forall n :: n in names ==> '/' !in n) && (rooted ==> at == [])
    ensures Resolve(at, CleanNames(names, rooted)) == Resolve(at, names)
  {
    if names != [] {
      var k := |names| - 1;
      CleanNamesLeadThere(at, names[..k], rooted);
      CleanShape(names[..k], rooted);
      StepLeadsThere(at, CleanNames(names[..k], rooted), rooted, names[k]);
    }
  }

  lemma StaysPut(at: Path)
    ensures Resolve(at, []) == Resolve(at, [""]) == Resolve(at, ["."]) == at
  {
    assert [""][..0] == [] && ["."][..0] == [];
  }

  lemma PiecesOfText(c: Cleaned)
    requires InShape(c.names, c.rooted)
    ensures Rooted(Text(c)) == c.rooted
    ensures forall at :: Resolve(at, Split(Text(c))) == Resolve(at, c.names)
  {
    assert forall n :: n in c.names ==> '/' !in n;
    if c.names != [] {
      assert c.names[0] != "" && '/' !in c.names[0];
      DotsFirst(c.names);
      SplitRel(c.names);
    }
    SplitPlain("");
    SplitPlain(".");
    if c.rooted {
      var r := if c.names == [] then "" else Rel(c.names);
      SplitBoth("", r);
      assert "" + "/" + r == "/" + r == Text(c);
    }
    forall at
      ensures Resolve(at, Split(Text(c))) == Resolve(at, c.names)
    {
      StaysPut(at);
      if c.rooted {
        ResolveBoth(at, [""], if c.names == [] then [""] else c.names);
      }
    }
  }

  /** Cleaning preserves the meaning: from every current directory, the cleaned text leads where the text
      itself leads. */
  lemma CleanLeadsThere(cwd: Path, s: string)
    ensures Locate(cwd, Text(Clean(s))) == Locate(cwd, s)
  {
    var c := Clean(s);
    CleanShape(Split(s), c.rooted);
    PiecesOfText(c);
    CleanNamesLeadThere(if c.rooted then [] else cwd, Split(s), c.rooted);
  }

  lemma ShapeOfClean(s: string)
    ensures InShape(Clean(s).names, Clean(s).rooted) && Clean(s).rooted == Rooted(s)
  {
    CleanShape(Split(s), Rooted(s));
  }

  lemma RelativeLeads(at: Path, s: string)
    requires !Rooted(s)
    ensures Locate(at, s) == Resolve(at, Clean(s).names)
  {
    CleanNamesLeadThere(at, Split(s), false);
  }

  lemma NoClimbs(names: Path)
    requires InShape(names, false) && (names == [] || names[0] != "..")
    ensures forall n :: n in names ==> RealName(n)
  {
  }

  /** From a directory whose name is not real, a climb leads to somewhere else. */
  lemma {:induction false} ClimbingLeaves(names: Path)
    requires InShape(names, false) && names != [] && names[0] == ".."
    ensures Resolve([""], names) == [] || RealName(Resolve([""], names)[0])
  {
    var k := |names| - 1;
    var before := names[..k];
    if k == 0 {
      StaysPut([""]);
      assert names == [".."];
    } else {
      ClimbingLeaves(before);
      var there := Resolve([""], before);
      if names[k] != ".." {
        assert RealName(names[k]);
        assert (there + [names[k]])[0] == if there == [] then names[k] else there[0];
      }
    }
  }

  /** A relative name stays below every directory exactly when, cleaned, it does not start with a climb. */
  lemma StaysBelowIff(s: string)
    requires !Rooted(s)
    ensures (forall at: Path :: at <= Locate(at, s)) <==> Clean(s).names == [] || Clean(s).names[0] != ".."
  {
    hide Locate, Clean, Resolve;
    var names := Clean(s).names;
    ShapeOfClean(s);
    if names == [] || names[0] != ".." {
      NoClimbs(names);
      forall at: Path
        ensures at <= Locate(at, s)
      {
        RelativeLeads(at, s);
        ResolveReal(at, names);
      }
    } else {
      var at := [""];
      RelativeLeads(at, s);
      ClimbingLeaves(names);
      assert !(at <= Locate(at, s));
    }
  }
}
