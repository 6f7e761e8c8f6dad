/** Restoring an archive onto a server directory. */
module Restore {
  import opened Backup
  import opened Paths
  import opened Prelude

  // ---------- Which names are refused ----------

  /** filepath.Join of a directory and a name that is not empty. */
  function JoinDir(dir: string, s: string): Cleaned {
    Clean(if dir == "" then s else dir + "/" + s)
  }

  /** The tests a name has to pass: of its cleaned text, and of the destination it gives. */
  predicate Refused(dir: string, name: string) {
    var clean := Text(Clean(name));
    var dst, base := Text(JoinDir(dir, clean)), Text(Clean(dir));
    HasPrefix(clean, "..") || HasPrefix(clean, "/") || (!HasPrefix(dst, base + "/") && dst != base)
  }

  /** What the two prefix tests say of the names. */
  lemma PrefixTests(name: string)
    ensures var c := Clean(name);
            HasPrefix(Text(c), "..") || HasPrefix(Text(c), "/") <==>
            c.rooted || (c.names != [] && HasPrefix(c.names[0], ".."))
  {
    hide Clean;
    var c := Clean(name);
    ShapeOfClean(name);
    if c.rooted {
      assert Text(c)[..1] == "/";
    } else if c.names != [] {
      assert c.names[0] != "" && '/' !in c.names[0];
      DotsFirst(c.names);
      assert Text(c)[0] == c.names[0][0] != '/';
    } else {
      assert Text(c) == "." && "."[0] != "/"[0];
    }
  }

  /** The pieces of a relative text of real names. */
  lemma PiecesOfReal(names: Path)
    requires forall n :: n in names ==> RealName(n)
    ensures Split(Rel(names)) == (if names == [] then ["."] else names) && !Rooted(Rel(names))
  {
    if names == [] {
      SplitPlain(".");
    } else {
      assert RealName(names[0]);
      DotsFirst(names);
      SplitRel(names);
    }
  }

  /** Names that follow a directory's are appended to its cleaned ones. */
  lemma CleanJoined(dir: string, names: Path)
    requires forall n :: n in names ==> RealName(n)
    ensures Clean(if dir == "" then Rel(names) else dir + "/" + Rel(names))
         == Cleaned(Clean(dir).rooted, Clean(dir).names + names)
  {
    hide RealName, Split, Rel, CleanNames;
    PiecesOfReal(names);
    SplitFirst("");
    var front := if dir == "" then [] else Split(dir);
    assert Rooted(if dir == "" then Rel(names) else dir + "/" + Rel(names)) == Rooted(dir);
    if dir == "" {
      CleanSkips([], "", false);
      assert [] + [""] == [""] && [] + Split(Rel(names)) == Split(Rel(names));
    } else {
      SplitBoth(dir, Rel(names));
    }
    if names == [] {
      CleanSkips(front, ".", Rooted(dir));
      assert Clean(dir).names + [] == Clean(dir).names;
    } else {
      CleanAppends(front, names, Rooted(dir));
    }
  }

  /** The destination of a name that passes them: the directory's names followed by the name's own. */
  lemma JoinedNames(dir: string, name: string)
    requires !Clean(name).rooted && (Clean(name).names == [] || Clean(name).names[0] != "..")
    ensures forall n :: n in Clean(name).names ==> RealName(n)
    ensures JoinDir(dir, Text(Clean(name))) == Cleaned(Clean(dir).rooted, Clean(dir).names + Clean(name).names)
  {
    hide Clean, Rel, RealName;
    ShapeOfClean(name);
    NoClimbs(Clean(name).names);
    CleanJoined(dir, Clean(name).names);
  }

  /** The third test: a destination below a directory that has a name starts with it. */
  lemma DestinationTest(b: Cleaned, names: Path)
    requires InShape(b.names, b.rooted) && forall n :: n in names ==> RealName(n)
    ensures var dst := Text(Cleaned(b.rooted, b.names + names));
            HasPrefix(dst, Text(b) + "/") || dst == Text(b) <==> b.names != [] || names == []
  {
    var c := Cleaned(b.rooted, b.names + names);
    if names == [] {
      assert b.names + names == b.names;
    } else {
      assert RealName(names[0]);
      if b.names != [] {
        RelBoth(b.names, names);
        assert Text(c) == Text(b) + "/" + Rel(names);
      } else {
        assert b.names + names == names;
        DotsFirst(names);
        RelUnder(names, ".", "./");
        if b.rooted {
          assert Text(c)[1] == Rel(names)[0] == names[0][0];
          assert ("/" + "/")[1] == '/';
        }
      }
    }
  }

  lemma DotsHaveDots()
    ensures HasPrefix("..", "..")
  {
  }

  /** Which names a restore refuses, for every name and directory: absolute ones, those that, cleaned, start
      with a climb or with a name that begins with two dots, and, where the directory is the root or the
      current one, all but the directory itself. */
  lemma RefusedIff(dir: string, name: string)
    ensures var c := Clean(name);
            Refused(dir, name) <==>
            c.rooted || (c.names != [] && HasPrefix(c.names[0], "..")) || (Clean(dir).names == [] && c.names != [])
  {
    hide Clean, JoinDir, Text, HasPrefix;
    PrefixTests(name);
    var c := Clean(name);
    if !c.rooted && !(c.names != [] && HasPrefix(c.names[0], "..")) {
      DotsHaveDots();
      JoinedNames(dir, name);
      ShapeOfClean(dir);
      DestinationTest(Clean(dir), c.names);
    }
  }

  /** No entry of any archive leads outside: from every current directory, what is opened for a name that is
      not refused lies at the place of the server directory, continued by real names only. */
  lemma WritesStayBelow(cwd: Path, dir: string, name: string)
    requires !Refused(dir, name)
    ensures forall n :: n in Clean(name).names ==> RealName(n)
    ensures Locate(cwd, Text(JoinDir(dir, Text(Clean(name))))) == Locate(cwd, dir) + Clean(name).names
  {
    hide Clean, Text, HasPrefix, Refused, Resolve;
    var c := Clean(name);
    RefusedIff(dir, name);
    DotsHaveDots();
    JoinedNames(dir, name);
    ShapeOfClean(name);
    PiecesOfText(c);
    var t := Text(c);
    var here := Locate(cwd, dir);
    ResolveReal(here, c.names);
    assert Resolve(here, Split(t)) == here + c.names;
    CleanLeadsThere(cwd, if dir == "" then t else dir + "/" + t);
    if dir == "" {
      SplitFirst("");
      StaysPut(cwd);
    } else {
      SplitBoth(dir, t);
      assert (dir + "/" + t)[0] == dir[0];
      ResolveBoth(if Rooted(dir) then [] else cwd, Split(dir), Split(t));
    }
  }

  // ---------- Disk ----------

  /** What the server directory holds, by paths below it: files, and directories, the empty path being
      itself. `ok` turns false at the first error, which ends a restore. */
  datatype Disk = Disk(files: map<Path, Content>, dirs: set<Path>, ok: bool)

  function Parent(p: Path): Path {
    if p == [] then [] else p[..|p| - 1]
  }

  /** A path and the directories on the way to it. */
  function Above(p: Path): set<Path> {
    set k | 0 <= k <= |p| :: p[..k]
  }

  /** A directory tree: nothing is both a file and a directory, and whatever there is lies in a directory. */
  ghost predicate IsTree(d: Disk) {
    && [] in d.dirs && d.files.Keys !! d.dirs
    && (forall p :: p in d.files || p in d.dirs ==> Above(Parent(p)) <= d.dirs)
  }

  const EMPTY_DISK := Disk(map[], {[]}, true)

  /** os.MkdirAll: an error where a file is in the way, with nothing made. */
  function MkdirAll(d: Disk, p: Path): Disk {
    if Above(p) !! d.files.Keys then d.(dirs := d.dirs + Above(p)) else d.(ok := false)
  }

  /** os.OpenFile for writing, and the copy: an error on a directory. */
  function WriteFile(d: Disk, p: Path, c: Content): Disk {
    if p in d.dirs then d.(ok := false) else d.(files := d.files[p := c])
  }

  /** One item, once its name has been let through. */
  function Place(d: Disk, x: Item): Disk {
    if x.isDir then MkdirAll(d, x.path)
    else
      var made := MkdirAll(d, Parent(x.path));
      if made.ok then WriteFile(made, x.path, x.content) else made
  }

  /** What an entry stands for, by its cleaned name. */
  function Unpack(e: ZipEntry): Item {
    Item(Clean(e.name).names, e.isDir, e.content)
  }

  function Unpacked(entries: seq<ZipEntry>): (r: seq<Item>)
    ensures |r| == |entries| && forall i :: 0 <= i < |entries| ==> r[i] == Unpack(entries[i])
  {
    seq(|entries|, i requires 0 <= i < |entries| => Unpack(entries[i]))
  }

  /** Restoring into the server directory named `dir`. */
  function RestoreEntry(dir: string, d: Disk, e: ZipEntry): Disk {
    if !d.ok then d else if Refused(dir, e.name) then d.(ok := false) else Place(d, Unpack(e))
  }

  function RestoreAll(dir: string, d: Disk, entries: seq<ZipEntry>): Disk {
    if entries == [] then d
    else RestoreEntry(dir, RestoreAll(dir, d, entries[..|entries| - 1]), entries[|entries| - 1])
  }

  /** The files that items give. */
  function FilesOf(items: seq<Item>): map<Path, Content> {
    if items == [] then map[]
    else
      var x := items[|items| - 1];
      if x.isDir then FilesOf(items[..|items| - 1]) else FilesOf(items[..|items| - 1])[x.path := x.content]
  }

  /** The directories an item needs. */
  function DirsFor(x: Item): set<Path> {
    if x.isDir then Above(x.path) else Above(Parent(x.path))
  }

  function DirsOf(items: seq<Item>): set<Path> {
    if items == [] then {} else DirsOf(items[..|items| - 1]) + DirsFor(items[|items| - 1])
  }

  /** No path is a file on one side and a directory on the other. */
  ghost predicate NoClash(files: set<Path>, dirs: set<Path>, items: seq<Item>) {
    DirsOf(items) !! files && FilesOf(items).Keys !! dirs && FilesOf(items).Keys !! DirsOf(items)
  }

  ghost predicate NoneRefused(dir: string, entries: seq<ZipEntry>) {
    forall e :: e in entries ==> !Refused(dir, e.name)
  }

  lemma LastEntry(dir: string, entries: seq<ZipEntry>, e: ZipEntry)
    ensures (entries + [e])[..|entries|] == entries
    ensures Unpacked(entries + [e])[..|entries|] == Unpacked(entries)
    ensures Unpacked(entries + [e])[|entries|] == Unpack(e)
    ensures NoneRefused(dir, entries + [e]) <==> NoneRefused(dir, entries) && !Refused(dir, e.name)
  {
    hide Refused, Unpack;
    assert forall y :: y in entries + [e] <==> y in entries || y == e;
  }

  /** One item goes through exactly when no file is where it needs a directory nor a directory where it
      needs a file. */
  lemma PlaceIff(d: Disk, x: Item)
    requires d.ok
    ensures var d' := Place(d, x);
            && (d'.ok <==> DirsFor(x) !! d.files.Keys && (!x.isDir ==> x.path !in d.dirs + DirsFor(x)))
            && (d'.ok ==> d'.dirs == d.dirs + DirsFor(x)
                          && d'.files == if x.isDir then d.files else d.files[x.path := x.content])
  {
    hide Above;
  }

  lemma NothingRefused(dir: string)
    ensures NoneRefused(dir, [])
  {
  }

  /** A restore onto any directory, of any archive, whatever its names: it completes exactly when no name
      is refused and no cleaned path is a file here and a directory there, among the archive's own entries
      too; and then it overwrites what the archive has and leaves the rest alone. */
  lemma {:induction false} RestoreOverrides(dir: string, d: Disk, entries: seq<ZipEntry>)
    requires d.ok
    ensures RestoreAll(dir, d, entries).ok <==>
            NoneRefused(dir, entries) && NoClash(d.files.Keys, d.dirs, Unpacked(entries))
    ensures RestoreAll(dir, d, entries).ok ==>
              RestoreAll(dir, d, entries)
              == Disk(d.files + FilesOf(Unpacked(entries)), d.dirs + DirsOf(Unpacked(entries)), true)
  {
    hide Refused, Place, Unpack, DirsFor, NoneRefused;
    if entries == [] {
      NothingRefused(dir);
    } else {
      var n := |entries| - 1;
      var e, before := entries[n], RestoreAll(dir, d, entries[..n]);
      RestoreOverrides(dir, d, entries[..n]);
      LastEntry(dir, entries[..n], e);
      assert entries == entries[..n] + [e];
      if before.ok {
        PlaceIff(before, Unpack(e));
      }
    }
  }

  lemma FailedStaysFailed(dir: string, d: Disk, e: ZipEntry)
    requires !d.ok
    ensures RestoreEntry(dir, d, e) == d
  {
  }

  lemma AboveIsClosed(p: Path)
    ensures p in Above(p) && forall q :: q in Above(p) ==> Above(Parent(q)) <= Above(p)
  {
    assert p[..|p|] == p;
    forall q, r | q in Above(p) && r in Above(Parent(q))
      ensures r in Above(p)
    {
      var k :| 0 <= k <= |p| && q == p[..k];
      var j :| 0 <= j <= |Parent(q)| && r == Parent(q)[..j];
      assert r == p[..j];
    }
  }

  lemma EntryKeepsTree(dir: string, d: Disk, e: ZipEntry)
    requires IsTree(d)
    ensures IsTree(RestoreEntry(dir, d, e))
  {
    hide Refused, Unpack, Above, Parent;
    AboveIsClosed(Unpack(e).path);
    AboveIsClosed(Parent(Unpack(e).path));
  }

  /** However a restore ends, it leaves a directory tree. */
  lemma {:induction false} RestoreKeepsTree(dir: string, d: Disk, entries: seq<ZipEntry>)
    requires IsTree(d)
    ensures IsTree(RestoreAll(dir, d, entries))
  {
    hide IsTree, RestoreEntry;
    if entries != [] {
      RestoreKeepsTree(dir, d, entries[..|entries| - 1]);
      EntryKeepsTree(dir, RestoreAll(dir, d, entries[..|entries| - 1]), entries[|entries| - 1]);
    }
  }

  lemma {:induction false} FilesOfContents(items: seq<Item>, p: Path, c: Content)
    requires DistinctPaths(items)
    ensures p in FilesOf(items) && FilesOf(items)[p] == c <==> Item(p, false, c) in items
    ensures p in FilesOf(items) ==> exists i :: 0 <= i < |items| && items[i].path == p
    ensures |FilesOf(items)| == FileCount(items)
  {
    if items != [] {
      var n := |items| - 1;
      var x := items[n];
      assert items == items[..n] + [x];
      FilesOfContents(items[..n], p, c);
      FilesOfContents(items[..n], x.path, x.content);
      assert forall i :: 0 <= i < n ==> items[..n][i].path != x.path;
    }
  }

  /** Sum of the sizes of the listed files. */
  function SizeSum(files: map<Path, Content>, paths: seq<Path>): nat
    requires forall p :: p in paths ==> p in files
  {
    if paths == [] then 0 else SizeSum(files, paths[..|paths| - 1]) + |files[paths[|paths| - 1]]|
  }

  /** No top-level name that goes into the archive starts with two dots. */
  ghost predicate TopsAreSafe(l: Listing, includeLogs: bool) {
    forall n :: n in Names(l) && !ShouldExclude(n, includeLogs) ==> !HasPrefix(n, "..")
  }

  lemma {:induction false} TopsAreSafeIff(l: Listing, includeLogs: bool)
    ensures TopsAreSafe(l, includeLogs) <==>
            forall x :: x in Walk([], l, includeLogs) ==> x.path != [] && !HasPrefix(x.path[0], "..")
    decreases l
  {
    hide HasPrefix, ShouldExclude;
    if l.Entry? {
      TopsAreSafeIff(l.rest, includeLogs);
      var p := [l.name];
      assert [] + [l.name] == p && Rel(p) == l.name;
      var here := Visit(p, l.node, includeLogs);
      assert Walk([], l, includeLogs) == here + Walk([], l.rest, includeLogs);
      forall x | x in here
        ensures x.path != [] && x.path[0] == l.name
      {
        VisitStaysBelow(p, l.node, includeLogs, x);
        assert x.path[..1][0] == l.name;
      }
      if !ShouldExclude(l.name, includeLogs) {
        assert here[0] in here;
      }
    }
  }

  lemma {:induction false} DirsOfContents(items: seq<Item>, q: Path)
    ensures q in DirsOf(items) <==> exists x :: x in items && q in DirsFor(x)
  {
    hide DirsFor;
    if items != [] {
      var n := |items| - 1;
      DirsOfContents(items[..n], q);
      assert items == items[..n] + [items[n]];
      assert forall x :: x in items <==> x in items[..n] || x == items[n];
    }
  }

  /** With an item, the archive has every directory on the way to it. */
  lemma {:induction false} WalkHasDirs(prefix: Path, l: Listing, includeLogs: bool, x: Item, k: nat)
    requires x in Walk(prefix, l, includeLogs) && |prefix| < k <= |x.path| && (k == |x.path| ==> x.isDir)
    ensures Item(x.path[..k], true, []) in Walk(prefix, l, includeLogs)
    decreases l
  {
    hide ShouldExclude;
    if x in Walk(prefix, l.rest, includeLogs) {
      WalkHasDirs(prefix, l.rest, includeLogs, x, k);
    } else {
      var at := prefix + [l.name];
      VisitStaysBelow(at, l.node, includeLogs, x);
      if k == |at| {
        assert x.path[..k] == at;
        assert l.node.Dir?;
      } else {
        assert x in Walk(at, l.node.listing, includeLogs);
        WalkHasDirs(at, l.node.listing, includeLogs, x, k);
      }
    }
  }

  /** The directories a backup needs are those it has, and the directory restored into. */
  lemma WalkDirsFor(root: Listing, includeLogs: bool, x: Item, q: Path)
    requires x in Walk([], root, includeLogs) && q in DirsFor(x) && q != []
    ensures Item(q, true, []) in Walk([], root, includeLogs)
  {
    hide Walk;
    WalkStaysBelow([], root, includeLogs, x);
    if x.isDir {
      var k :| 0 <= k <= |x.path| && q == x.path[..k];
      WalkHasDirs([], root, includeLogs, x, k);
    } else {
      var k :| 0 <= k <= |Parent(x.path)| && q == Parent(x.path)[..k];
      assert q == x.path[..k];
      WalkHasDirs([], root, includeLogs, x, k);
    }
  }

  /** Whether a directory has a file where the archive has a directory, or the other way round. */
  ghost predicate Fits(d: Disk, items: seq<Item>) {
    forall x :: x in items ==> if x.isDir then x.path !in d.files else x.path !in d.dirs
  }

  lemma OwnPath(x: Item)
    requires x.isDir
    ensures x.path in DirsFor(x)
  {
    assert x.path[..|x.path|] == x.path;
  }

  lemma OnePerPath(items: seq<Item>, x: Item, y: Item)
    requires DistinctPaths(items) && x.path == y.path && x != y
    ensures !(x in items && y in items)
  {
  }

  lemma FitsIff(d: Disk, root: Listing, includeLogs: bool)
    requires IsTree(d) && Proper(root)
    ensures NoClash(d.files.Keys, d.dirs, Walk([], root, includeLogs)) <==> Fits(d, Walk([], root, includeLogs))
  {
    hide Walk, Proper, DirsFor, DirsOf, FilesOf;
    var items := Walk([], root, includeLogs);
    WalkPathsDistinct([], root, includeLogs);
    forall q
      ensures q in DirsOf(items) ==> q == [] || Item(q, true, []) in items
    {
      DirsOfContents(items, q);
      if x :| x in items && q in DirsFor(x) && q != [] {
        WalkDirsFor(root, includeLogs, x, q);
      }
    }
    forall x | x in items
      ensures if x.isDir then x.path in DirsOf(items) else x.path in FilesOf(items)
      ensures x.path != []
    {
      WalkStaysBelow([], root, includeLogs, x);
      if x.isDir {
        OwnPath(x);
        DirsOfContents(items, x.path);
      } else {
        FilesOfContents(items, x.path, x.content);
      }
    }
    forall q | q in FilesOf(items)
      ensures Item(q, false, FilesOf(items)[q]) in items && Item(q, true, []) !in items
    {
      FilesOfContents(items, q, FilesOf(items)[q]);
      OnePerPath(items, Item(q, false, FilesOf(items)[q]), Item(q, true, []));
    }
  }

  lemma {:induction false} LastIsNoSlash(p: Path)
    requires p != [] && forall n :: n in p ==> PlainName(n)
    ensures Rel(p) != "" && Rel(p)[|Rel(p)| - 1] != '/'
  {
    if |p| > 1 {
      LastIsNoSlash(p[1..]);
    } else {
      assert PlainName(p[0]);
    }
  }

  /** A backup's entries stand for the items that went into it, and of their names only one that starts with
      two dots is refused, in a directory that has a name. */
  lemma UnpacksAsPacked(dir: string, root: Listing, includeLogs: bool, x: Item)
    requires Proper(root) && x in Walk([], root, includeLogs)
    ensures Unpack(Pack(x)) == x && x.path != []
    ensures Pack(x).name != "" && (Pack(x).name[|Pack(x).name| - 1] == '/' <==> x.isDir)
    ensures Refused(dir, Pack(x).name) <==> HasPrefix(x.path[0], "..") || Clean(dir).names == []
  {
    hide Walk, Proper, Refused, HasPrefix;
    WalkNamesAreReal([], root, includeLogs, x);
    assert x.path[0..] == x.path;
    var name := Pack(x).name;
    assert RealName(x.path[0]);
    DotsFirst(x.path);
    assert name[0] == Rel(x.path)[0];
    SplitRel(x.path);
    LastIsNoSlash(x.path);
    CleanAppends([], x.path, false);
    assert [] + x.path == x.path;
    if x.isDir {
      SplitBoth(Rel(x.path), "");
      SplitFirst("");
      assert Rel(x.path) + "/" + "" == name;
      CleanSkips(x.path, "", false);
    }
    RefusedIff(dir, name);
  }

  lemma UnpackedPacked(dir: string, root: Listing, includeLogs: bool)
    requires Proper(root)
    ensures Unpacked(Packed(Walk([], root, includeLogs))) == Walk([], root, includeLogs)
    ensures NoneRefused(dir, Packed(Walk([], root, includeLogs))) <==>
            TopsAreSafe(root, includeLogs) && (Clean(dir).names == [] ==> Walk([], root, includeLogs) == [])
  {
    hide Walk, Proper, Refused, HasPrefix, TopsAreSafe, Clean, Pack, Unpack;
    var items := Walk([], root, includeLogs);
    TopsAreSafeIff(root, includeLogs);
    forall i | 0 <= i < |items|
      ensures Unpack(Pack(items[i])) == items[i]
      ensures Packed(items)[i] in Packed(items) && items[i].path != []
      ensures Refused(dir, Packed(items)[i].name) <==> HasPrefix(items[i].path[0], "..") || Clean(dir).names == []
    {
      UnpacksAsPacked(dir, root, includeLogs, items[i]);
    }
    assert NoneRefused(dir, Packed(items)) <==> forall i :: 0 <= i < |items| ==> !Refused(dir, Packed(items)[i].name);
    assert (forall x :: x in items ==> x.path != [] && !HasPrefix(x.path[0], "..")) <==>
           forall i :: 0 <= i < |items| ==> items[i].path != [] && !HasPrefix(items[i].path[0], "..");
    if items != [] {
      assert Refused(dir, Packed(items)[0].name) <==> HasPrefix(items[0].path[0], "..") || Clean(dir).names == [];
    }
  }

  /** Restoring a backup onto a directory succeeds exactly when no archived top-level name starts with two
      dots, nothing archived as a file is a directory there or the other way round, and the directory is
      given by a name other than the root or the current directory, unless the backup is empty. */
  lemma RestoreSucceedsIff(dir: string, d: Disk, root: Listing, includeLogs: bool)
    requires Proper(root) && IsTree(d) && d.ok
    ensures var items := Walk([], root, includeLogs);
            RestoreAll(dir, d, Packed(items)).ok <==>
            TopsAreSafe(root, includeLogs) && Fits(d, items) && (Clean(dir).names == [] ==> items == [])
  {
    hide RestoreAll, Walk, TopsAreSafe, IsTree, NoClash, Fits, Clean, NoneRefused, Packed, Unpacked;
    RestoreOverrides(dir, d, Packed(Walk([], root, includeLogs)));
    UnpackedPacked(dir, root, includeLogs);
    FitsIff(d, root, includeLogs);
  }

  /** What a directory holds after a backup has been restored onto it: each file of the tree that is not
      excluded, with its content, and elsewhere the file that was there; and each directory of the tree
      that is not excluded, beside those that were there. */
  lemma RestoredTree(dir: string, d: Disk, root: Listing, includeLogs: bool, p: Path, c: Content)
    requires Proper(root) && IsTree(d) && d.ok && p != []
    requires RestoreAll(dir, d, Packed(Walk([], root, includeLogs))).ok
    ensures var after, node := RestoreAll(dir, d, Packed(Walk([], root, includeLogs))), Lookup(root, p);
            && (p in after.files && after.files[p] == c <==>
                  if node.Some? && node.value.File? && !Excluded([], p, includeLogs) then node == Some(File(c))
                  else p in d.files && d.files[p] == c)
            && (p in after.dirs <==>
                  p in d.dirs || (node.Some? && node.value.Dir? && !Excluded([], p, includeLogs)))
  {
    hide RestoreAll, Walk, Lookup, Excluded, Proper, IsTree, NoClash, DirsOf, FilesOf, DirsFor, NoneRefused, Packed,
         Unpacked;
    var items, node := Walk([], root, includeLogs), Lookup(root, p);
    UnpackedPacked(dir, root, includeLogs);
    RestoreOverrides(dir, d, Packed(items));
    WalkPathsDistinct([], root, includeLogs);
    assert [] + p == p;
    FilesOfContents(items, p, c);
    ArchivedIff([], root, includeLogs, p, false, c);
    if node.Some? && node.value.File? {
      FilesOfContents(items, p, node.value.content);
      ArchivedIff([], root, includeLogs, p, false, node.value.content);
    }
    if p in FilesOf(items) {
      FilesOfContents(items, p, FilesOf(items)[p]);
      ArchivedIff([], root, includeLogs, p, false, FilesOf(items)[p]);
    }
    ArchivedIff([], root, includeLogs, p, true, []);
    DirsOfContents(items, p);
    if x :| x in items && p in DirsFor(x) {
      WalkDirsFor(root, includeLogs, x, p);
    }
    if Item(p, true, []) in items {
      OwnPath(Item(p, true, []));
    }
  }

  function FilePaths(items: seq<Item>): seq<Path> {
    if items == [] then []
    else FilePaths(items[..|items| - 1]) + if items[|items| - 1].isDir then [] else [items[|items| - 1].path]
  }

  lemma {:induction false} SizeSumFrame(files: map<Path, Content>, paths: seq<Path>, p: Path, c: Content)
    requires (forall q :: q in paths ==> q in files) && p !in paths
    ensures SizeSum(files[p := c], paths) == SizeSum(files, paths)
  {
    if paths != [] {
      SizeSumFrame(files, paths[..|paths| - 1], p, c);
    }
  }

  /** `BytesTotal` is the total size of the archive's files, each counted once. */
  lemma {:induction false} BytesTotalIsSize(items: seq<Item>)
    requires DistinctPaths(items)
    ensures forall p :: p in FilePaths(items) <==> p in FilesOf(items)
    ensures |FilePaths(items)| == |FilesOf(items)|
    ensures SizeSum(FilesOf(items), FilePaths(items)) == BytesTotal(items)
  {
    if items != [] {
      var n := |items| - 1;
      var x, before := items[n], items[..n];
      BytesTotalIsSize(before);
      FilesOfContents(before, x.path, x.content);
      assert forall i :: 0 <= i < n ==> before[i].path != x.path;
      if !x.isDir {
        assert x.path !in FilesOf(before);
        SizeSumFrame(FilesOf(before), FilePaths(before), x.path, x.content);
        assert FilePaths(items)[..|FilePaths(before)|] == FilePaths(before);
      } else {
        assert FilePaths(items) == FilePaths(before);
      }
    }
  }

  lemma EmptyIsTree()
    ensures IsTree(EMPTY_DISK)
  {
  }

  /** `FileCount` and `BytesTotal` are the number and the total size of the files that a restore into an
      empty directory brings back. */
  lemma CountsMatchRestore(dir: string, root: Listing, includeLogs: bool)
    requires Proper(root) && TopsAreSafe(root, includeLogs) && Clean(dir).names != []
    ensures var items := Walk([], root, includeLogs);
            var after := RestoreAll(dir, EMPTY_DISK, Packed(items));
            && after.ok
            && FileCount(items) == |after.files| == |FilePaths(items)|
            && (forall q :: q in FilePaths(items) <==> q in after.files)
            && BytesTotal(items) == SizeSum(after.files, FilePaths(items))
  {
    hide RestoreAll, Walk, TopsAreSafe, Proper, IsTree, NoClash, DirsOf, NoneRefused, Packed, Unpacked, Clean;
    var items := Walk([], root, includeLogs);
    EmptyIsTree();
    WalkPathsDistinct([], root, includeLogs);
    forall x | x in items
      ensures x.path != []
    {
      WalkStaysBelow([], root, includeLogs, x);
    }
    UnpackedPacked(dir, root, includeLogs);
    RestoreSucceedsIff(dir, EMPTY_DISK, root, includeLogs);
    RestoreOverrides(dir, EMPTY_DISK, Packed(items));
    assert map[] + FilesOf(items) == FilesOf(items);
    FilesOfContents(items, [], []);
    BytesTotalIsSize(items);
  }

  lemma DottedWorld()
    ensures RealName("..world") && !ShouldExclude("..world", false) && HasPrefix("..world", "..")
  {
    assert "..world"[..2] == ".." && "..world"[3..] == "orld" && "..world"[1..] == ".world";
    assert "orld"[0] != ".jfr"[0] && ".world"[1] != ".hprof"[1] && "..world"[1] != "core."[1];
    assert ["..world"][0] == "..world" && Rel(["..world"]) == "..world";
    assert "..world" != ".mcsm" && "..world" != "logs" && "..world" != "cache" by {
      assert |"..world"| != |".mcsm"| && |"..world"| != |"logs"| && |"..world"| != |"cache"|;
    }
    ExcludesByNames(["..world"], false);
  }

  /** A legal tree whose backup cannot be restored: its one file is named "..world". */
  lemma DottedWorldIsLost(dir: string, c: Content)
    ensures var root := Entry("..world", File(c), End);
            && Proper(root) && Walk([], root, false) == [Item(["..world"], false, c)]
            && !RestoreAll(dir, EMPTY_DISK, Packed(Walk([], root, false))).ok
  {
    var root := Entry("..world", File(c), End);
    assert [] + ["..world"] == ["..world"] && Rel(["..world"]) == "..world";
    DottedWorld();
    EmptyIsTree();
    assert Walk([], root, false) == Visit(["..world"], File(c), false) + [];
    hide RestoreAll, Walk, Rel, ShouldExclude, RealName;
    RestoreSucceedsIff(dir, EMPTY_DISK, root, false);
    assert "..world" in Names(root);
  }

  // ---------- The code ----------

  lemma {:induction false} StaysFailed(dir: string, start: Disk, entries: seq<ZipEntry>, k: nat)
    requires k <= |entries| && !RestoreAll(dir, start, entries[..k]).ok
    ensures RestoreAll(dir, start, entries) == RestoreAll(dir, start, entries[..k])
    decreases |entries|
  {
    hide RestoreEntry;
    if k == |entries| {
      assert entries[..k] == entries;
    } else {
      var n := |entries| - 1;
      assert entries[..n][..k] == entries[..k];
      StaysFailed(dir, start, entries[..n], k);
      FailedStaysFailed(dir, RestoreAll(dir, start, entries[..n]), entries[n]);
    }
  }

  /** The restore loop, onto any directory. */
  method Restore(dir: string, entries: seq<ZipEntry>, start: Disk) returns (d: Disk)
    requires start.ok
    ensures d == RestoreAll(dir, start, entries)
    ensures d.ok <==> NoneRefused(dir, entries) && NoClash(start.files.Keys, start.dirs, Unpacked(entries))
    ensures d.ok ==> d.files == start.files + FilesOf(Unpacked(entries))
                     && d.dirs == start.dirs + DirsOf(Unpacked(entries))
    ensures IsTree(start) ==> IsTree(d)
  {
    hide NoClash, NoneRefused, FilesOf, DirsOf, IsTree, Clean, Text, HasPrefix, Unpacked;
    RestoreOverrides(dir, start, entries);
    if IsTree(start) {
      RestoreKeepsTree(dir, start, entries);
    }
    d := start;
    for i := 0 to |entries|
      invariant d.ok && d == RestoreAll(dir, start, entries[..i])
    {
      assert entries[..i + 1][..i] == entries[..i];
      var e := entries[i];
      var clean := Clean(e.name);
      if HasPrefix(Text(clean), "..") || HasPrefix(Text(clean), "/") {
        d := d.(ok := false);
      } else if !HasPrefix(Text(JoinDir(dir, Text(clean))), Text(Clean(dir)) + "/")
                && Text(JoinDir(dir, Text(clean))) != Text(Clean(dir)) {
        d := d.(ok := false);
      } else if e.isDir {
        d := MkdirAll(d, clean.names);
      } else {
        d := MkdirAll(d, Parent(clean.names));
        if d.ok {
          d := WriteFile(d, clean.names, e.content);
        }
      }
      if !d.ok {
        StaysFailed(dir, start, entries, i + 1);
        return;
      }
    }
    assert entries[..|entries|] == entries;
  }
}
