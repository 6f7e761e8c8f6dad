/** Cursor pagination over the audit ring, with entries appended and dropped between pages. */
module AuditPages {
  import opened Prelude

  datatype Entry = Entry(id: nat, at: int, actor: string, kind: string, detail: string)

  datatype Query = Query(since: Option<int>, until: Option<int>, actor: string, kind: string, limit: int)

  predicate Matches(e: Entry, q: Query) {
    && (q.since.Some? ==> e.at >= q.since.value)
    && (q.until.Some? ==> e.at <= q.until.value)
    && (q.actor != "" ==> e.actor == q.actor)
    && (q.kind != "" ==> e.kind == q.kind)
  }

  function Limit(q: Query): (n: nat)
    ensures n > 0
  {
    if q.limit <= 0 then 200 else if q.limit > 1000 then 1000 else q.limit
  }

  /** A cursor is the oldest id already delivered; 0 stands for none. */
  predicate Eligible(e: Entry, q: Query, cursor: nat) {
    !(cursor > 0 && e.id >= cursor) && Matches(e, q)
  }

  /** The eligible entries, newest first. */
  function NewestFirst(ring: seq<Entry>, q: Query, cursor: nat): seq<Entry> {
    if ring == [] then []
    else
      var e, older := ring[|ring| - 1], NewestFirst(ring[..|ring| - 1], q, cursor);
      if Eligible(e, q, cursor) then [e] + older else older
  }

  /** One page: the first of the eligible entries, up to the limit. */
  function Page(ring: seq<Entry>, q: Query, cursor: nat): seq<Entry> {
    var all := NewestFirst(ring, q, cursor);
    if |all| <= Limit(q) then all else all[..Limit(q)]
  }

  lemma NewestOfNone(q: Query, cursor: nat)
    ensures NewestFirst([], q, cursor) == []
  {
  }

  lemma NewestStep(ring: seq<Entry>, i: nat, q: Query, cursor: nat)
    requires i < |ring|
    ensures NewestFirst(ring[..i + 1], q, cursor) ==
            if Eligible(ring[i], q, cursor) then [ring[i]] + NewestFirst(ring[..i], q, cursor)
            else NewestFirst(ring[..i], q, cursor)
  {
    assert ring[..i + 1][..i] == ring[..i];
  }

  lemma PageCuts(ring: seq<Entry>, q: Query, cursor: nat)
    ensures var all := NewestFirst(ring, q, cursor);
            Page(ring, q, cursor) == if |all| <= Limit(q) then all else all[..Limit(q)]
  {
  }

  /** The cursor that comes with a page; none when the page is empty. */
  function NextCursor(page: seq<Entry>): Option<nat> {
    if page == [] then None else Some(page[|page| - 1].id)
  }

  ghost predicate Increasing(ring: seq<Entry>) {
    && (forall i :: 0 <= i < |ring| ==> ring[i].id >= 1)
    && (forall i, j :: 0 <= i < j < |ring| ==> ring[i].id < ring[j].id)
  }

  ghost predicate Decreasing(es: seq<Entry>) {
    forall i, j :: 0 <= i < j < |es| ==> es[i].id > es[j].id
  }

  lemma {:induction false} NewestFirstContents(ring: seq<Entry>, q: Query, cursor: nat)
    requires Increasing(ring)
    ensures Decreasing(NewestFirst(ring, q, cursor))
    ensures forall e :: e in NewestFirst(ring, q, cursor) <==> e in ring && Eligible(e, q, cursor)
  {
    if ring != [] {
      var n := |ring| - 1;
      NewestFirstContents(ring[..n], q, cursor);
      forall e | e in ring[..n]
        ensures e.id < ring[n].id
      {
      }
    }
  }

  /** A page is in order and eligible, and what it leaves out is older than all of it. */
  lemma PageContents(ring: seq<Entry>, q: Query, cursor: nat)
    requires Increasing(ring)
    ensures var p := Page(ring, q, cursor);
            && Decreasing(p)
            && (forall e :: e in p ==> e in ring && Eligible(e, q, cursor))
            && (p == [] ==> forall e :: e in ring ==> !Eligible(e, q, cursor))
            && (forall e :: e in ring && Eligible(e, q, cursor) && e !in p ==> e.id < p[|p| - 1].id)
  {
    NewestFirstContents(ring, q, cursor);
    var all, p := NewestFirst(ring, q, cursor), Page(ring, q, cursor);
    forall e | e in ring && Eligible(e, q, cursor) && e !in p
      ensures p != [] && e.id < p[|p| - 1].id
    {
      var k :| 0 <= k < |all| && all[k] == e;
      assert k >= |p|;
    }
    if p == [] {
      assert all == [];
      assert forall e :: e in ring && Eligible(e, q, cursor) ==> e in all;
    }
  }

  /** A page by the fields of its entries: each lies before the cursor and in the time window, and has the
      actor and kind asked for; each entry of the ring that does is on the page or older than all of it; and
      only a full page leaves any out. */
  lemma PageByFields(ring: seq<Entry>, q: Query, cursor: nat, e: Entry)
    requires Increasing(ring)
    ensures var p := Page(ring, q, cursor);
            var size := if q.limit <= 0 then 200 else if q.limit > 1000 then 1000 else q.limit;
            var asked := && (cursor > 0 ==> e.id < cursor)
                         && (q.since.Some? ==> q.since.value <= e.at)
                         && (q.until.Some? ==> e.at <= q.until.value)
                         && (q.actor == "" || q.actor == e.actor)
                         && (q.kind == "" || q.kind == e.kind);
            && |p| <= size
            && (e in p ==> e in ring && asked)
            && (e in ring && asked && e !in p ==> |p| == size && e.id < p[|p| - 1].id)
  {
    hide NewestFirst, Increasing;
    PageContents(ring, q, cursor);
    NewestFirstContents(ring, q, cursor);
  }

  lemma {:induction false} NewestFirstAsks(ring: seq<Entry>, q: Query, cursor: nat, e: Entry)
    requires e in NewestFirst(ring, q, cursor)
    ensures e in ring && Eligible(e, q, cursor)
  {
    var n := |ring| - 1;
    if e in NewestFirst(ring[..n], q, cursor) {
      NewestFirstAsks(ring[..n], q, cursor, e);
    }
  }

  lemma PageAsks(ring: seq<Entry>, q: Query, cursor: nat)
    ensures forall e :: e in Page(ring, q, cursor) ==>
              && e in ring && (cursor > 0 ==> e.id < cursor)
              && (q.since.Some? ==> q.since.value <= e.at) && (q.until.Some? ==> e.at <= q.until.value)
              && (q.actor == "" || q.actor == e.actor) && (q.kind == "" || q.kind == e.kind)
  {
    forall e | e in Page(ring, q, cursor)
      ensures e in ring && Eligible(e, q, cursor)
    {
      NewestFirstAsks(ring, q, cursor, e);
    }
  }

  lemma {:induction false} AllNewestFirst(ring: seq<Entry>, q: Query)
    requires q.since.None? && q.until.None? && q.actor == "" && q.kind == ""
    ensures |NewestFirst(ring, q, 0)| == |ring|
    ensures forall i :: 0 <= i < |ring| ==> NewestFirst(ring, q, 0)[i] == ring[|ring| - 1 - i]
  {
    if ring != [] {
      AllNewestFirst(ring[..|ring| - 1], q);
    }
  }

  /** A query that asks for nothing lists the whole ring backwards, up to the size of a page. */
  lemma EmptyQueryListsAll(ring: seq<Entry>, limit: int)
    ensures var p := Page(ring, Query(None, None, "", "", limit), 0);
            var size := if limit <= 0 then 200 else if limit > 1000 then 1000 else limit;
            && |p| == (if |ring| < size then |ring| else size)
            && forall i :: 0 <= i < |p| ==> p[i] == ring[|ring| - 1 - i]
  {
    AllNewestFirst(ring, Query(None, None, "", "", limit));
  }

  // ---------- Following the cursor ----------

  ghost predicate EvolvesBy(r: seq<Entry>, r': seq<Entry>, added: seq<Entry>, k: nat) {
    k <= |r + added| && Increasing(r + added) && r' == (r + added)[k..] && (r + added != [] ==> r' != [])
  }

  /** What may happen to the ring between two requests: newer entries come in, the oldest fall out, and a
      ring that has had entries keeps the newest. */
  ghost predicate Evolves(r: seq<Entry>, r': seq<Entry>) {
    exists added: seq<Entry>, k: nat :: EvolvesBy(r, r', added, k)
  }

  ghost predicate History(rings: seq<seq<Entry>>) {
    && (forall i :: 0 <= i < |rings| ==> Increasing(rings[i]))
    && (forall i :: 0 <= i < |rings| - 1 ==> Evolves(rings[i], rings[i + 1]))
  }

  /** The non-empty pages a client gets when the k-th request meets the k-th ring. */
  function Follow(rings: seq<seq<Entry>>, q: Query, cursor: nat): seq<seq<Entry>>
    decreases |rings|
  {
    if rings == [] then []
    else
      var p := Page(rings[0], q, cursor);
      if p == [] then [] else [p] + Follow(rings[1..], q, NextCursor(p).value)
  }

  function Flatten(pages: seq<seq<Entry>>): seq<Entry> {
    if pages == [] then [] else pages[0] + Flatten(pages[1..])
  }

  /** Everything delivered to a client that starts at `cursor`. */
  function Delivered(rings: seq<seq<Entry>>, q: Query, cursor: nat): seq<Entry> {
    Flatten(Follow(rings, q, cursor))
  }

  lemma OldOneIn(r: seq<Entry>, added: seq<Entry>, e: Entry)
    requires r != [] && Increasing(r + added) && e in r + added && e.id <= r[|r| - 1].id
    ensures e in r
  {
    var all := r + added;
    var k :| 0 <= k < |all| && all[k] == e;
    assert all[|r| - 1] == r[|r| - 1];
  }

  /** Entries at most as new as the ring's newest cannot come back once they are gone. */
  lemma EvolvingOnlyAddsNewer(r: seq<Entry>, r': seq<Entry>)
    requires Evolves(r, r') && r != []
    ensures r' != [] && r'[|r'| - 1].id >= r[|r| - 1].id
    ensures forall e :: e in r' && e.id <= r[|r| - 1].id ==> e in r
  {
    var added: seq<Entry>, k: nat :| EvolvesBy(r, r', added, k);
    assert (r + added)[|r| - 1] == r[|r| - 1];
    forall e | e in r' && e.id <= r[|r| - 1].id
      ensures e in r
    {
      OldOneIn(r, added, e);
    }
  }

  lemma JoinIncreasing(s: seq<Entry>, k: nat, b: seq<Entry>)
    requires k < |s| && Increasing(s) && Increasing(s[k..] + b)
    ensures Increasing(s + b)
  {
    var t := s[k..] + b;
    assert forall i :: 0 <= i < |t| ==> t[i] == (s + b)[k + i];
    forall i, j | 0 <= i < j < |s + b|
      ensures (s + b)[i].id < (s + b)[j].id
    {
      assert t[|s| - 1 - k] == s[|s| - 1];
      if i < |s| <= j {
        assert (s + b)[j] == t[j - k];
      } else if |s| <= i {
        assert (s + b)[i] == t[i - k] && (s + b)[j] == t[j - k];
      }
    }
    forall i | 0 <= i < |s + b|
      ensures (s + b)[i].id >= 1
    {
      assert i >= k ==> (s + b)[i] == t[i - k];
    }
  }

  lemma EvolvesTransitively(r: seq<Entry>, r': seq<Entry>, r'': seq<Entry>)
    requires Evolves(r, r') && Evolves(r', r'')
    ensures Evolves(r, r'')
  {
    var a: seq<Entry>, k: nat :| EvolvesBy(r, r', a, k);
    var b: seq<Entry>, j: nat :| EvolvesBy(r', r'', b, j);
    var all := r + (a + b);
    assert all == (r + a) + b;
    assert r' + b == all[k..];
    assert r'' == all[k + j..];
    assert Increasing(all) by {
      if r + a == [] {
        assert r' + b == all;
      } else {
        JoinIncreasing(r + a, k, b);
      }
    }
    assert EvolvesBy(r, r'', a + b, k + j);
  }

  lemma EvolvesToItself(r: seq<Entry>)
    requires Increasing(r)
    ensures Evolves(r, r)
  {
    assert r + [] == r;
    assert EvolvesBy(r, r, [], 0);
  }

  lemma {:induction false} NeverComesBack(rings: seq<seq<Entry>>, i: nat, j: nat, e: Entry)
    requires History(rings) && i <= j < |rings|
    requires rings[i] != [] && e.id <= rings[i][|rings[i]| - 1].id
    ensures e in rings[j] ==> e in rings[i]
    decreases j - i
  {
    hide Evolves, Increasing;
    if i < j {
      assert Evolves(rings[i], rings[i + 1]);
      EvolvingOnlyAddsNewer(rings[i], rings[i + 1]);
      NeverComesBack(rings, i + 1, j, e);
    }
  }

  lemma TailIsHistory(rings: seq<seq<Entry>>)
    requires History(rings) && rings != []
    ensures History(rings[1..])
  {
    assert forall i :: 0 <= i < |rings| - 1 ==> rings[1..][i] == rings[i + 1];
    forall i | 0 <= i < |rings| - 2
      ensures Evolves(rings[1..][i], rings[1..][i + 1])
    {
      assert Evolves(rings[i + 1], rings[i + 2]);
    }
  }

  lemma HistoryFirst(rings: seq<seq<Entry>>)
    requires History(rings) && rings != []
    ensures Increasing(rings[0])
  {
  }

  lemma FollowUnfolds(rings: seq<seq<Entry>>, q: Query, cursor: nat)
    requires rings != []
    ensures var p := Page(rings[0], q, cursor);
            if p == [] then Follow(rings, q, cursor) == [] && Delivered(rings, q, cursor) == []
            else && Follow(rings, q, cursor) == [p] + Follow(rings[1..], q, NextCursor(p).value)
                 && Delivered(rings, q, cursor) == p + Delivered(rings[1..], q, NextCursor(p).value)
  {
  }

  /** An entry the second ring still offers below the first page's cursor was in the first ring. */
  lemma OlderThanCursor(rings: seq<seq<Entry>>, q: Query, cursor: nat, e: Entry)
    requires History(rings) && |rings| > 1 && Page(rings[0], q, cursor) != []
    requires e in rings[1] && Eligible(e, q, NextCursor(Page(rings[0], q, cursor)).value)
    ensures e.id < NextCursor(Page(rings[0], q, cursor)).value
    ensures e in rings[0] && Eligible(e, q, cursor)
  {
    hide Page;
    var r, p := rings[0], Page(rings[0], q, cursor);
    PageContents(r, q, cursor);
    var last := p[|p| - 1];
    assert last in p && last in r;
    var k :| 0 <= k < |r| && r[k] == last;
    assert last.id >= 1 && last.id <= r[|r| - 1].id;
    EvolvingOnlyAddsNewer(r, rings[1]);
    assert Eligible(last, q, cursor);
  }

  /** Nothing is delivered twice, newest come first, and all of it was in the ring at the first request. */
  lemma {:induction false} DeliveredOnceInOrder(rings: seq<seq<Entry>>, q: Query, cursor: nat)
    requires History(rings) && rings != []
    ensures Decreasing(Delivered(rings, q, cursor))
    ensures forall e :: e in Delivered(rings, q, cursor) ==> e in rings[0] && Eligible(e, q, cursor)
    decreases |rings|
  {
    hide Page, History, Eligible;
    var p := Page(rings[0], q, cursor);
    HistoryFirst(rings);
    PageContents(rings[0], q, cursor);
    if p != [] && |rings| > 1 {
      var c := NextCursor(p).value;
      TailIsHistory(rings);
      DeliveredOnceInOrder(rings[1..], q, c);
      var rest := Delivered(rings[1..], q, c);
      assert p[|p| - 1] in p;
      forall e | e in rest
        ensures e.id < c && e in rings[0] && Eligible(e, q, cursor)
      {
        OlderThanCursor(rings, q, cursor, e);
      }
      assert Delivered(rings, q, cursor) == p + rest by { FollowUnfolds(rings, q, cursor); }
    } else {
      FollowUnfolds(rings, q, cursor);
    }
  }

  lemma StillEligible(e: Entry, q: Query, cursor: nat, c: nat)
    requires Eligible(e, q, cursor) && e.id < c
    ensures Eligible(e, q, c)
  {
  }

  lemma {:induction false} NewestGrows(rings: seq<seq<Entry>>, i: nat, e: Entry)
    requires History(rings) && i < |rings| && e in rings[0]
    ensures rings[i] != [] && e.id <= rings[i][|rings[i]| - 1].id
  {
    if i == 0 {
      var k :| 0 <= k < |rings[0]| && rings[0][k] == e;
    } else {
      NewestGrows(rings, i - 1, e);
      EvolvingOnlyAddsNewer(rings[i - 1], rings[i]);
    }
  }

  lemma StaysUntil(rings: seq<seq<Entry>>, i: nat, j: nat, e: Entry)
    requires History(rings) && 1 <= i <= j < |rings| && e in rings[0] && e in rings[j]
    ensures e in rings[i]
  {
    NewestGrows(rings, i, e);
    NeverComesBack(rings, i, j, e);
  }

  /** Nothing is skipped: once the client has met an empty page, every entry that matched at the first
      request and is still in the ring has been delivered, whatever was appended in between. */
  lemma {:induction false} NothingSkipped(rings: seq<seq<Entry>>, q: Query, cursor: nat, e: Entry)
    requires History(rings) && |Follow(rings, q, cursor)| < |rings|
    requires e in rings[0] && Eligible(e, q, cursor) && e in rings[|Follow(rings, q, cursor)|]
    ensures e in Delivered(rings, q, cursor)
    decreases |rings|
  {
    hide Page, Eligible;
    var p := Page(rings[0], q, cursor);
    PageContents(rings[0], q, cursor);
    FollowUnfolds(rings, q, cursor);
    if p != [] && e !in p {
      var c := NextCursor(p).value;
      TailIsHistory(rings);
      StillEligible(e, q, cursor, c);
      StaysUntil(rings, 1, |Follow(rings, q, cursor)|, e);
      NothingSkipped(rings[1..], q, c, e);
    }
  }

  /** Following the cursor ends: a client that may ask once more often than the first ring's newest id plus
      one meets an empty page. */
  lemma {:induction false} PagingEnds(rings: seq<seq<Entry>>, q: Query, cursor: nat)
    requires History(rings) && rings != []
    requires |rings| > if cursor > 0 then cursor else if rings[0] == [] then 0 else rings[0][|rings[0]| - 1].id + 1
    ensures |Follow(rings, q, cursor)| < |rings|
    decreases |rings|
  {
    hide Page;
    var r, p := rings[0], Page(rings[0], q, cursor);
    PageContents(r, q, cursor);
    FollowUnfolds(rings, q, cursor);
    if p != [] {
      var last := p[|p| - 1];
      assert last in p && last in r;
      var k :| 0 <= k < |r| && r[k] == last;
      assert 1 <= last.id <= r[|r| - 1].id;
      TailIsHistory(rings);
      PagingEnds(rings[1..], q, last.id);
    }
  }

  lemma {:induction false} SameBelow(ring: seq<Entry>, q: Query, cursor: nat, c: nat)
    requires forall i :: 0 <= i < |ring| ==> ring[i].id < c
    requires cursor > 0 ==> c < cursor
    ensures NewestFirst(ring, q, c) == NewestFirst(ring, q, cursor)
  {
    if ring != [] {
      SameBelow(ring[..|ring| - 1], q, cursor, c);
    }
  }

  /** Moving the cursor to the k-th delivered entry leaves exactly the entries after it. */
  lemma {:induction false} CutAt(ring: seq<Entry>, q: Query, cursor: nat, k: nat)
    requires Increasing(ring) && k < |NewestFirst(ring, q, cursor)|
    ensures var all := NewestFirst(ring, q, cursor);
            all[k].id >= 1 && NewestFirst(ring, q, all[k].id) == all[k + 1..]
  {
    hide Matches, Decreasing;
    var n := |ring| - 1;
    var all := NewestFirst(ring, q, cursor);
    NewestFirstContents(ring, q, cursor);
    assert all[k] in ring;
    if Eligible(ring[n], q, cursor) {
      if k == 0 {
        SameBelow(ring[..n], q, cursor, ring[n].id);
      } else {
        CutAt(ring[..n], q, cursor, k - 1);
      }
    } else {
      CutAt(ring[..n], q, cursor, k);
    }
  }

  lemma PageIsPrefix(ring: seq<Entry>, q: Query, cursor: nat)
    requires Increasing(ring)
    ensures var p, all := Page(ring, q, cursor), NewestFirst(ring, q, cursor);
            if p == [] then all == [] else all == p + NewestFirst(ring, q, NextCursor(p).value)
  {
    var p, all := Page(ring, q, cursor), NewestFirst(ring, q, cursor);
    NewestFirstContents(ring, q, cursor);
    if p != [] {
      var last := p[|p| - 1];
      assert last in all;
      CutAt(ring, q, cursor, |p| - 1);
    }
  }

  /** On a ring that stays as it is, the pages put together are all matching entries, newest first. */
  lemma {:induction false} QuietRingIsDeliveredWhole(ring: seq<Entry>, n: nat, q: Query, cursor: nat)
    requires Increasing(ring)
    requires |Follow(seq(n, _ => ring), q, cursor)| < n
    ensures Delivered(seq(n, _ => ring), q, cursor) == NewestFirst(ring, q, cursor)
    decreases n
  {
    hide Page;
    var rings := seq(n, _ => ring);
    FollowUnfolds(rings, q, cursor);
    assert rings[1..] == seq((n - 1) as nat, _ => ring);
    PageIsPrefix(ring, q, cursor);
    var p := Page(ring, q, cursor);
    if p != [] {
      QuietRingIsDeliveredWhole(ring, n - 1, q, NextCursor(p).value);
    }
  }

  /** Ids from 1 up are needed: with an entry numbered 0 the cursor reads as none and the first page
      comes again. */
  lemma IdZeroRestarts(e: Entry, q: Query)
    requires e.id == 0 && Matches(e, q)
    ensures Page([e], q, NextCursor(Page([e], q, 0)).value) == Page([e], q, 0) == [e]
  {
    assert NewestFirst([e][..0], q, 0) == [];
    assert NewestFirst([e], q, 0) == [e];
  }
}
