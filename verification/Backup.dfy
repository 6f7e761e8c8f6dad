/** Backing up a directory tree into an archive and restoring it. */
module Backup {
  import opened Paths
  import opened Prelude

  type Content = seq<int>

  /** A directory listing in the order the walk visits it, and what its names stand for. */
  datatype Listing = End | Entry(name: string, node: Node, rest: Listing)
  datatype Node = File(content: Content) | Dir(listing: Listing)

  function Names(l: Listing): set<string> {
    if l.End? then {} else {l.name} + Names(l.rest)
  }

  /** Names in one directory are real and distinct. */
  predicate Proper(l: Listing) {
    l.Entry? ==> RealName(l.name) && l.name !in Names(l.rest) && Proper(l.rest)
                 && (l.node.Dir? ==> Proper(l.node.listing))
  }

  function Lookup(l: Listing, p: Path): Option<Node>
    decreases l
  {
    if l.End? || p == [] then None
    else if l.name != p[0] then Lookup(l.rest, p)
    else if |p| == 1 then Some(l.node)
    else
      match l.node
      case Dir(sub) => Lookup(sub, p[1..])
      case File(_) => None
  }

  // ---------- Exclusion ----------

  predicate HasSuffix(s: string, suffix: string) {
    |s| >= |suffix| && s[|s| - |suffix|..] == suffix
  }

  function Base(s: string): string {
    if s == "" || '/' !in s then s else Base(s[1..])
  }

  predicate ShouldExclude(rel: string, includeLogs: bool) {
    if rel == ".mcsm" || HasPrefix(rel, ".mcsm/") then rel == ".mcsm/owner.json"
    else if rel == "logs" || HasPrefix(rel, "logs/") then !includeLogs
    else if HasSuffix(rel, ".jfr") || HasSuffix(rel, ".hprof") || HasPrefix(Base(rel), "core.") then true
    else rel == "cache" || HasPrefix(rel, "cache/")
  }

  /** Whether the file or directory at `p` below `prefix`, or one it lies in, is excluded. */
  ghost predicate Excluded(prefix: Path, p: Path, includeLogs: bool) {
    exists k :: 1 <= k <= |p| && ShouldExclude(Rel(prefix + p[..k]), includeLogs)
  }

  /** Profiler recordings, heap dumps and core dumps. */
  predicate DumpName(n: string) {
    HasSuffix(n, ".jfr") || HasSuffix(n, ".hprof") || HasPrefix(n, "core.")
  }

  lemma {:induction false} BaseOfPlain(n: string)
    requires '/' !in n
    ensures Base(n) == n
  {
  }

  lemma {:induction false} BaseAfter(n: string, rest: string)
    ensures Base(n + "/" + rest) == Base(rest)
    decreases |n|
  {
    var s := n + "/" + rest;
    if n == "" {
      assert s[1..] == rest && s[0] == '/';
      if '/' !in rest {
        BaseOfPlain(rest);
      }
    } else {
      assert s[1..] == n[1..] + "/" + rest && s[|n|] == '/';
      BaseAfter(n[1..], rest);
    }
  }

  /** Base and suffix of a path are those of its last name. */
  lemma {:induction false} RelLast(p: Path, suffix: string)
    requires p != [] && (forall n :: n in p ==> PlainName(n)) && '/' !in suffix
    ensures Base(Rel(p)) == p[|p| - 1]
    ensures HasSuffix(Rel(p), suffix) <==> HasSuffix(p[|p| - 1], suffix)
  {
    if |p| == 1 {
      assert PlainName(p[0]);
      BaseOfPlain(p[0]);
    } else {
      RelLast(p[1..], suffix);
      var r, later := Rel(p), Rel(p[1..]);
      BaseAfter(p[0], later);
      assert r == p[0] + "/" + later;
      if |suffix| <= |later| {
        assert r[|r| - |suffix|..] == later[|later| - |suffix|..];
      } else {
        assert r[|p[0]|] == '/';
      }
    }
  }

  lemma TopNames()
    ensures PlainName(".mcsm") && ".mcsm/" == ".mcsm" + "/" && PlainName("logs") && "logs/" == "logs" + "/"
    ensures PlainName("cache") && "cache/" == "cache" + "/" && '/' !in ".jfr" && '/' !in ".hprof"
    ensures PlainName("owner.json") && ".mcsm/owner.json" == ".mcsm/" + "owner.json"
  {
  }

  lemma UnderPrefix(a: string, b: string)
    ensures HasPrefix(a + b, a) && (a + b)[|a|..] == b
  {
  }

  lemma OwnerFileOnly(p: Path)
    requires p != [] && forall n :: n in p ==> PlainName(n)
    ensures Rel(p) == ".mcsm/owner.json" <==> p == [".mcsm", "owner.json"]
  {
    hide HasPrefix, PlainName;
    assert PlainName(p[0]);
    TopNames();
    RelUnder(p, ".mcsm", ".mcsm/");
    if Rel(p) == ".mcsm/owner.json" {
      assert Rel(p) == ".mcsm/" + "owner.json";
      UnderPrefix(".mcsm/", "owner.json");
      assert PlainName(p[1]);
      RelUnder(p[1..], "owner.json", "owner.json" + "/");
    }
  }

  /** The exclusion rules on the text of a path, as rules on its names. */
  lemma ExcludesByNames(p: Path, includeLogs: bool)
    requires p != [] && forall n :: n in p ==> PlainName(n)
    ensures ShouldExclude(Rel(p), includeLogs) <==>
            if p[0] == ".mcsm" then p == [".mcsm", "owner.json"]
            else if p[0] == "logs" then !includeLogs
            else DumpName(p[|p| - 1]) || p[0] == "cache"
  {
    hide Rel, HasPrefix, HasSuffix, Base, PlainName;
    assert PlainName(p[0]);
    TopNames();
    RelUnder(p, ".mcsm", ".mcsm/");
    RelUnder(p, "logs", "logs/");
    RelUnder(p, "cache", "cache/");
    RelLast(p, ".jfr");
    RelLast(p, ".hprof");
    OwnerFileOnly(p);
  }

  /** The names of dumps, by their ends and beginnings. */
  lemma DumpNameIff(n: string)
    ensures DumpName(n) <==> (exists a :: n == a + ".jfr") || (exists a :: n == a + ".hprof")
                             || exists a :: n == "core." + a
  {
    if HasSuffix(n, ".jfr") {
      assert n == n[..|n| - 4] + ".jfr";
    }
    if HasSuffix(n, ".hprof") {
      assert n == n[..|n| - 6] + ".hprof";
    }
    if HasPrefix(n, "core.") {
      assert n == "core." + n[5..];
    }
    if a :| n == a + ".jfr" {
      assert n[|n| - 4..] == ".jfr";
    }
    if a :| n == a + ".hprof" {
      assert n[|n| - 6..] == ".hprof";
    }
    if a :| n == "core." + a {
      assert n[..5] == "core.";
    }
  }

  /** What a backup leaves out, by the names on the way to it: of `.mcsm` the owner file and anything
      below it, `logs` on request, elsewhere the cache and every dump or what lies in a directory named
      like one. */
  lemma ExcludedIff(p: Path, includeLogs: bool)
    requires p != [] && forall n :: n in p ==> PlainName(n)
    ensures Excluded([], p, includeLogs) <==>
            if p[0] == ".mcsm" then |p| > 1 && p[1] == "owner.json"
            else if p[0] == "logs" then !includeLogs
            else p[0] == "cache" || exists i :: 0 <= i < |p| && DumpName(p[i])
  {
    hide ShouldExclude, DumpName, Rel;
    forall k | 1 <= k <= |p|
      ensures ShouldExclude(Rel([] + p[..k]), includeLogs) <==>
              if p[0] == ".mcsm" then p[..k] == [".mcsm", "owner.json"]
              else if p[0] == "logs" then !includeLogs
              else DumpName(p[k - 1]) || p[0] == "cache"
    {
      assert [] + p[..k] == p[..k];
      ExcludesByNames(p[..k], includeLogs);
    }
    if |p| > 1 && p[0] == ".mcsm" && p[1] == "owner.json" {
      assert p[..2] == [".mcsm", "owner.json"];
      assert ShouldExclude(Rel([] + p[..2]), includeLogs);
    }
    if p[0] == "logs" || p[0] == "cache" {
      assert ShouldExclude(Rel([] + p[..1]), includeLogs) || p[0] == "logs";
    }
    if i :| 0 <= i < |p| && DumpName(p[i]) {
      assert p[i] == p[..i + 1][i];
      assert p[0] != ".mcsm" && p[0] != "logs" ==> ShouldExclude(Rel([] + p[..i + 1]), includeLogs);
    }
  }

  // ---------- Archive ----------

  datatype Item = Item(path: Path, isDir: bool, content: Content)

  /** An entry of the archive file. */
  datatype ZipEntry = ZipEntry(name: string, isDir: bool, content: Content)

  /** How an item is archived; a directory's name ends in a slash. */
  function Pack(x: Item): ZipEntry {
    ZipEntry(if x.isDir then Rel(x.path) + "/" else Rel(x.path), x.isDir, x.content)
  }

  function Packed(items: seq<Item>): (r: seq<ZipEntry>)
    ensures |r| == |items| && forall i :: 0 <= i < |items| ==> r[i] == Pack(items[i])
  {
    seq(|items|, i requires 0 <= i < |items| => Pack(items[i]))
  }

  /** The archive's items in the walk's order. */
  function Walk(prefix: Path, l: Listing, includeLogs: bool): seq<Item>
    decreases l
  {
    if l.End? then [] else Visit(prefix + [l.name], l.node, includeLogs) + Walk(prefix, l.rest, includeLogs)
  }

  /** An excluded directory is skipped with all it holds. */
  function Visit(p: Path, node: Node, includeLogs: bool): seq<Item>
    decreases node
  {
    if ShouldExclude(Rel(p), includeLogs) then []
    else
      match node
      case File(c) => [Item(p, false, c)]
      case Dir(sub) => [Item(p, true, [])] + Walk(p, sub, includeLogs)
  }

  function FileCount(items: seq<Item>): nat {
    if items == [] then 0 else FileCount(items[..|items| - 1]) + if items[|items| - 1].isDir then 0 else 1
  }

  function BytesTotal(items: seq<Item>): nat {
    if items == [] then 0
    else BytesTotal(items[..|items| - 1]) + if items[|items| - 1].isDir then 0 else |items[|items| - 1].content|
  }

  /** Everything the walk yields lies below one of the listing's names. */
  lemma {:induction false} WalkStaysBelow(prefix: Path, l: Listing, includeLogs: bool, x: Item)
    requires x in Walk(prefix, l, includeLogs)
    ensures |x.path| > |prefix| && x.path[..|prefix|] == prefix && x.path[|prefix|] in Names(l)
    decreases l
  {
    if x in Walk(prefix, l.rest, includeLogs) {
      WalkStaysBelow(prefix, l.rest, includeLogs, x);
    } else {
      VisitStaysBelow(prefix + [l.name], l.node, includeLogs, x);
      assert x.path[..|prefix| + 1][..|prefix|] == prefix && x.path[..|prefix| + 1][|prefix|] == l.name;
    }
  }

  lemma {:induction false} VisitStaysBelow(p: Path, node: Node, includeLogs: bool, x: Item)
    requires x in Visit(p, node, includeLogs)
    ensures |x.path| >= |p| && x.path[..|p|] == p
    ensures x.path == p ==> x == if node.Dir? then Item(p, true, []) else Item(p, false, node.content)
    decreases node
  {
    hide ShouldExclude;
    if node.Dir? && x in Walk(p, node.listing, includeLogs) {
      WalkStaysBelow(p, node.listing, includeLogs, x);
    }
  }

  /** The names on the way to an item, below where the walk started, are real. */
  lemma {:induction false} WalkNamesAreReal(prefix: Path, l: Listing, includeLogs: bool, x: Item)
    requires Proper(l) && x in Walk(prefix, l, includeLogs)
    ensures |x.path| > |prefix| && forall n :: n in x.path[|prefix|..] ==> RealName(n)
    decreases l
  {
    hide ShouldExclude, RealName;
    WalkStaysBelow(prefix, l, includeLogs, x);
    if x in Walk(prefix, l.rest, includeLogs) {
      WalkNamesAreReal(prefix, l.rest, includeLogs, x);
    } else {
      var at := prefix + [l.name];
      VisitStaysBelow(at, l.node, includeLogs, x);
      assert x.path[..|at|][|prefix|] == l.name;
      if l.node.Dir? && x in Walk(at, l.node.listing, includeLogs) {
        WalkNamesAreReal(at, l.node.listing, includeLogs, x);
      }
      assert x.path[|prefix|..] == [l.name] + x.path[|at|..];
    }
  }

  lemma ExcludedBelow(prefix: Path, p: Path, includeLogs: bool)
    requires p != []
    ensures Excluded(prefix, p, includeLogs) <==>
            ShouldExclude(Rel(prefix + [p[0]]), includeLogs) || Excluded(prefix + [p[0]], p[1..], includeLogs)
  {
    hide ShouldExclude;
    var below := prefix + [p[0]];
    assert p[..1] == [p[0]];
    if Excluded(prefix, p, includeLogs) {
      var k :| 1 <= k <= |p| && ShouldExclude(Rel(prefix + p[..k]), includeLogs);
      if k > 1 {
        assert prefix + p[..k] == below + p[1..][..k - 1];
      }
    }
    if Excluded(below, p[1..], includeLogs) {
      var k :| 1 <= k <= |p[1..]| && ShouldExclude(Rel(below + p[1..][..k]), includeLogs);
      assert below + p[1..][..k] == prefix + p[..k + 1];
    }
  }

  /** Whether an item is what the tree has there: a file's content, or a directory. */
  predicate Shows(node: Option<Node>, isDir: bool, c: Content) {
    if isDir then node.Some? && node.value.Dir? && c == [] else node == Some(File(c))
  }

  lemma NothingExcluded(prefix: Path, includeLogs: bool)
    ensures !Excluded(prefix, [], includeLogs)
  {
  }

  lemma {:induction false} LookupNames(l: Listing, p: Path)
    requires p != [] && p[0] !in Names(l)
    ensures Lookup(l, p) == None
  {
    if l.Entry? {
      LookupNames(l.rest, p);
    }
  }

  /** The archive holds a file or directory exactly when the tree does, at the same path with the same
      content, and neither it nor any directory on the way to it is excluded. */
  lemma {:induction false} ArchivedIff(prefix: Path, l: Listing, includeLogs: bool, p: Path, isDir: bool, c: Content)
    requires Proper(l) && p != []
    ensures Item(prefix + p, isDir, c) in Walk(prefix, l, includeLogs) <==>
            Shows(Lookup(l, p), isDir, c) && !Excluded(prefix, p, includeLogs)
    decreases l
  {
    if l.Entry? {
      hide ShouldExclude, Excluded;
      var x := Item(prefix + p, isDir, c);
      var here := Visit(prefix + [l.name], l.node, includeLogs);
      ArchivedIff(prefix, l.rest, includeLogs, p, isDir, c);
      if x in here {
        VisitStaysBelow(prefix + [l.name], l.node, includeLogs, x);
        assert x.path[..|prefix| + 1][|prefix|] == l.name;
      }
      if l.name == p[0] {
        LookupNames(l.rest, p);
        VisitedIff(prefix, l, includeLogs, p, isDir, c);
      }
    }
  }

  lemma {:induction false} VisitedIff(prefix: Path, l: Listing, includeLogs: bool, p: Path, isDir: bool, c: Content)
    requires l.Entry? && Proper(l) && p != [] && p[0] == l.name
    ensures Item(prefix + p, isDir, c) in Visit(prefix + [l.name], l.node, includeLogs) <==>
            Shows(Lookup(l, p), isDir, c) && !Excluded(prefix, p, includeLogs)
    decreases l, 0
  {
    hide ShouldExclude, Excluded;
    var x, at := Item(prefix + p, isDir, c), prefix + [l.name];
    ExcludedBelow(prefix, p, includeLogs);
    assert x.path == at + p[1..];
    if |p| == 1 {
      assert p[1..] == [] && x.path == at;
      NothingExcluded(at, includeLogs);
      if x in Visit(at, l.node, includeLogs) {
        VisitStaysBelow(at, l.node, includeLogs, x);
      }
    } else if l.node.Dir? {
      ArchivedIff(at, l.node.listing, includeLogs, p[1..], isDir, c);
    }
  }

  ghost predicate DistinctPaths(items: seq<Item>) {
    forall i, j :: 0 <= i < j < |items| ==> items[i].path != items[j].path
  }

  lemma DistinctJoin(a: seq<Item>, b: seq<Item>)
    requires DistinctPaths(a) && DistinctPaths(b) && forall x, y :: x in a && y in b ==> x.path != y.path
    ensures DistinctPaths(a + b)
  {
  }

  lemma {:induction false} WalkPathsDistinct(prefix: Path, l: Listing, includeLogs: bool)
    requires Proper(l)
    ensures DistinctPaths(Walk(prefix, l, includeLogs))
    decreases l
  {
    hide ShouldExclude;
    if l.Entry? {
      var p := prefix + [l.name];
      var here, later := Visit(p, l.node, includeLogs), Walk(prefix, l.rest, includeLogs);
      WalkPathsDistinct(prefix, l.rest, includeLogs);
      if l.node.Dir? {
        WalkPathsDistinct(p, l.node.listing, includeLogs);
        forall x | x in Walk(p, l.node.listing, includeLogs)
          ensures |x.path| > |p|
        {
          WalkStaysBelow(p, l.node.listing, includeLogs, x);
        }
        DistinctJoin([Item(p, true, [])], Walk(p, l.node.listing, includeLogs));
      }
      forall x | x in here
        ensures |x.path| > |prefix| && x.path[|prefix|] == l.name
      {
        VisitStaysBelow(p, l.node, includeLogs, x);
        assert x.path[..|p|][|prefix|] == l.name;
      }
      forall x | x in later
        ensures |x.path| > |prefix| && x.path[|prefix|] != l.name
      {
        WalkStaysBelow(prefix, l.rest, includeLogs, x);
      }
      DistinctJoin(here, later);
    }
  }

  // ---------- The code ----------

  lemma Counted(items: seq<Item>, x: Item)
    ensures FileCount(items + [x]) == FileCount(items) + if x.isDir then 0 else 1
    ensures BytesTotal(items + [x]) == BytesTotal(items) + if x.isDir then 0 else |x.content|
    ensures Packed(items + [x]) == Packed(items) + [Pack(x)]
  {
    assert (items + [x])[..|items|] == items;
  }

  /** `items` are what the entries of the archive stand for. */
  class Archive {
    var entries: seq<ZipEntry>
    var fileCount: nat
    var bytesTotal: nat
    ghost var items: seq<Item>

    ghost predicate Valid()
      reads this
    {
      entries == Packed(items) && fileCount == FileCount(items) && bytesTotal == BytesTotal(items)
    }

    constructor ()
      ensures Valid() && items == []
    {
      entries, fileCount, bytesTotal, items := [], 0, 0, [];
    }

    method Create(prefix: Path, l: Listing, includeLogs: bool)
      requires Valid()
      modifies this
      ensures Valid() && items == old(items) + Walk(prefix, l, includeLogs)
      decreases l
    {
      hide ShouldExclude, Rel, FileCount, BytesTotal, Visit;
      if l.Entry? {
        VisitNode(prefix + [l.name], l.node, includeLogs);
        Create(prefix, l.rest, includeLogs);
      }
    }

    /** The walk's callback; a skipped directory is not descended into. */
    method VisitNode(p: Path, node: Node, includeLogs: bool)
      requires Valid()
      modifies this
      ensures Valid() && items == old(items) + Visit(p, node, includeLogs)
      decreases node
    {
      hide ShouldExclude, Rel, FileCount, BytesTotal, Walk;
      if ShouldExclude(Rel(p), includeLogs) {
        return;
      }
      match node
      case File(c) =>
        Counted(items, Item(p, false, c));
        entries, items := entries + [ZipEntry(Rel(p), false, c)], items + [Item(p, false, c)];
        bytesTotal := bytesTotal + |c|;
        fileCount := fileCount + 1;
      case Dir(sub) =>
        Counted(items, Item(p, true, []));
        entries, items := entries + [ZipEntry(Rel(p) + "/", true, [])], items + [Item(p, true, [])];
        Create(p, sub, includeLogs);
    }
  }
}
