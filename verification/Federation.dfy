/** The federation merge: one catalog out of this instance's and its peers', freshest heartbeat first. */
module Federation {
  import opened Prelude

  datatype Server = Server(id: string, heartbeat: Option<int>, discoveredRoot: string, detail: string)

  /** An element of a peer's answer: something that is not an object, or an object. A missing id is empty. */
  datatype Item = Other | Object(server: Server)

  /** The decoder keeps no discovery root: roots mean nothing on another instance. */
  function Decode(s: Server): Server { s.(discoveredRoot := "") }

  /** Whether `remote` has the later heartbeat. No heartbeat is never later, and always earlier. */
  predicate RemoteFresher(remote: Server, current: Server) {
    remote.heartbeat.Some? && (current.heartbeat.None? || remote.heartbeat.value > current.heartbeat.value)
  }

  function SelfCatalog(servers: seq<Server>): map<string, Server> {
    if servers == [] then map[]
    else SelfCatalog(servers[..|servers| - 1])[servers[|servers| - 1].id := servers[|servers| - 1]]
  }

  function MergeItem(merged: map<string, Server>, item: Item): map<string, Server> {
    if item.Other? || item.server.id == "" then merged
    else
      var s := Decode(item.server);
      if s.id !in merged || RemoteFresher(s, merged[s.id]) then merged[s.id := s] else merged
  }

  function MergeAll(self: map<string, Server>, items: seq<Item>): map<string, Server> {
    if items == [] then self else MergeItem(MergeAll(self, items[..|items| - 1]), items[|items| - 1])
  }

  /** What the items offer, by the servers they decode to. */
  function Offers(items: seq<Item>): set<Server> {
    if items == [] then {}
    else
      var item := items[|items| - 1];
      Offers(items[..|items| - 1]) + if item.Object? && item.server.id != "" then {Decode(item.server)} else {}
  }

  /** What the merge promises: every known id and no other, each with a server that some source has and
      than which no source is fresher; this instance's own server wins a tie. */
  ghost predicate IsMerge(merged: map<string, Server>, self: map<string, Server>, offers: set<Server>) {
    && merged.Keys == self.Keys + (set s | s in offers :: s.id)
    && (forall id :: id in merged ==>
          if id in self && merged[id] == self[id] then true else merged[id] in offers && merged[id].id == id)
    && (forall id :: id in merged && id in self && merged[id] != self[id] ==> RemoteFresher(merged[id], self[id]))
    && (forall s :: s in offers ==> !RemoteFresher(s, merged[s.id]))
  }

  lemma MergeServerKeepsPromise(merged: map<string, Server>, self: map<string, Server>, offers: set<Server>, s: Server)
    requires IsMerge(merged, self, offers) && s.id != "" && s.discoveredRoot == ""
    ensures IsMerge(MergeItem(merged, Object(s)), self, offers + {s})
  {
    var m := MergeItem(merged, Object(s));
    assert Decode(s) == s;
    assert m.Keys == merged.Keys + {s.id};
    forall t | t in offers
      ensures t.id in m && !RemoteFresher(t, m[t.id])
    {
      assert t.id in merged && !RemoteFresher(t, merged[t.id]);
    }
  }

  /** The fold keeps the promise, over any answers in any order. */
  lemma {:induction false} MergeIsBest(self: map<string, Server>, items: seq<Item>)
    ensures IsMerge(MergeAll(self, items), self, Offers(items))
  {
    if items != [] {
      var n := |items| - 1;
      MergeIsBest(self, items[..n]);
      if items[n].Object? && items[n].server.id != "" {
        MergeServerKeepsPromise(MergeAll(self, items[..n]), self, Offers(items[..n]), Decode(items[n].server));
      } else {
        assert Offers(items) == Offers(items[..n]);
      }
    }
  }

  /** A heartbeat no older than `h`. */
  predicate AtLeast(heartbeat: Option<int>, h: int) {
    heartbeat.Some? && heartbeat.value >= h
  }

  lemma {:induction false} OffersAre(items: seq<Item>, s: Server)
    ensures s in Offers(items) <==>
            exists i :: 0 <= i < |items| && items[i].Object? && items[i].server.id != ""
                        && items[i].server.(discoveredRoot := "") == s
  {
    if items != [] {
      var n := |items| - 1;
      OffersAre(items[..n], s);
      assert forall i :: 0 <= i < n ==> items[..n][i] == items[i];
      if s in Offers(items[..n]) {
        var i :| 0 <= i < n && items[..n][i].Object? && items[..n][i].server.id != ""
                 && items[..n][i].server.(discoveredRoot := "") == s;
        assert items[i].server.(discoveredRoot := "") == s;
      }
    }
  }

  /** The merge in terms of ids and heartbeats alone: it has the ids of this instance and of the answers; no
      heartbeat that either has for an id is later than the merged one; this instance's server gives way only
      to a later heartbeat, or to any when it has none; and everything else comes from an answer. */
  lemma FreshestHeartbeatWins(self: map<string, Server>, items: seq<Item>, id: string)
    ensures var merged := MergeAll(self, items);
            && (id in merged <==> id in self || exists i :: 0 <= i < |items| && items[i].Object?
                                                           && items[i].server.id == id && id != "")
            && (id in self && self[id].heartbeat.Some? ==> AtLeast(merged[id].heartbeat, self[id].heartbeat.value))
            && (forall i :: 0 <= i < |items| && items[i].Object? && items[i].server.id == id && id != ""
                            && items[i].server.heartbeat.Some?
                            ==> AtLeast(merged[id].heartbeat, items[i].server.heartbeat.value))
            && (id in self && merged[id] != self[id] ==>
                  && merged[id].heartbeat.Some?
                  && (self[id].heartbeat.Some? ==> merged[id].heartbeat.value > self[id].heartbeat.value))
            && (id in merged && !(id in self && merged[id] == self[id]) ==>
                  exists i :: 0 <= i < |items| && items[i].Object? && items[i].server.id == id
                              && merged[id] == items[i].server.(discoveredRoot := ""))
  {
    var merged, offers := MergeAll(self, items), Offers(items);
    MergeIsBest(self, items);
    forall i | 0 <= i < |items| && items[i].Object? && items[i].server.id == id && id != ""
      ensures id in merged
      ensures items[i].server.heartbeat.Some? ==> AtLeast(merged[id].heartbeat, items[i].server.heartbeat.value)
    {
      var s := items[i].server.(discoveredRoot := "");
      OffersAre(items, s);
      assert s in offers && !RemoteFresher(s, merged[s.id]);
    }
    if id in merged && id !in self {
      assert merged[id] in offers;
    }
    if id in merged && merged[id] in offers {
      OffersAre(items, merged[id]);
    }
  }

  // ---------- When the order matters ----------

  /** The fresher of two candidates for an id, the first on a tie. */
  function Pick(c: Option<Server>, d: Option<Server>): Option<Server> {
    if d.None? || (c.Some? && !RemoteFresher(d.value, c.value)) then c else d
  }

  lemma PickAssociates(a: Option<Server>, b: Option<Server>, c: Option<Server>)
    ensures Pick(Pick(a, b), c) == Pick(a, Pick(b, c))
  {
  }

  function Lookup(m: map<string, Server>, id: string): Option<Server> {
    if id in m then Some(m[id]) else None
  }

  function Offered(item: Item, id: string): Option<Server> {
    if item.Object? && item.server.id == id != "" then Some(Decode(item.server)) else None
  }

  /** The first of the freshest offers for an id. */
  function Champion(items: seq<Item>, id: string): Option<Server> {
    if items == [] then None else Pick(Champion(items[..|items| - 1], id), Offered(items[|items| - 1], id))
  }

  /** The merge puts the champion of the answers up against this instance's own server. */
  lemma {:induction false} MergeIsChampion(self: map<string, Server>, items: seq<Item>, id: string)
    ensures Lookup(MergeAll(self, items), id) == Pick(Lookup(self, id), Champion(items, id))
  {
    if items != [] {
      var n := |items| - 1;
      MergeIsChampion(self, items[..n], id);
      PickAssociates(Lookup(self, id), Champion(items[..n], id), Offered(items[n], id));
    }
  }

  lemma {:induction false} ChampionOfBoth(a: seq<Item>, b: seq<Item>, id: string)
    ensures Champion(a + b, id) == Pick(Champion(a, id), Champion(b, id))
    decreases |b|
  {
    if b == [] {
      assert a + b == a;
    } else {
      var n := |b| - 1;
      assert (a + b)[..|a + b| - 1] == a + b[..n];
      ChampionOfBoth(a, b[..n], id);
      PickAssociates(Champion(a, id), Champion(b[..n], id), Offered(b[n], id));
    }
  }

  lemma {:induction false} ChampionIsOffered(items: seq<Item>, id: string)
    ensures var c := Champion(items, id);
            c.Some? ==> c.value in Offers(items) && c.value.id == id
  {
    if items != [] {
      ChampionIsOffered(items[..|items| - 1], id);
    }
  }

  lemma {:induction false} OffersAreDecoded(items: seq<Item>)
    ensures forall s :: s in Offers(items) ==> s.id != "" && Decode(s) == s
  {
    if items != [] {
      OffersAreDecoded(items[..|items| - 1]);
    }
  }

  lemma {:induction false} OffersOfBoth(a: seq<Item>, b: seq<Item>)
    ensures Offers(a + b) == Offers(a) + Offers(b)
    decreases |b|
  {
    if b == [] {
      assert a + b == a;
    } else {
      assert (a + b)[..|a + b| - 1] == a + b[..|b| - 1];
      OffersOfBoth(a, b[..|b| - 1]);
    }
  }

  /** No offer is fresher than `s`, and neither is this instance's own server or as fresh. */
  ghost predicate Contends(self: map<string, Server>, offers: set<Server>, s: Server) {
    && s in offers
    && (forall t :: t in offers && t.id == s.id ==> !RemoteFresher(t, s))
    && (s.id in self ==> RemoteFresher(s, self[s.id]))
  }

  ghost predicate OneContender(self: map<string, Server>, offers: set<Server>) {
    forall s, t :: Contends(self, offers, s) && Contends(self, offers, t) && s.id == t.id ==> s == t
  }

  lemma OneContenderIsMerged(self: map<string, Server>, offers: set<Server>,
                             a: map<string, Server>, b: map<string, Server>)
    requires OneContender(self, offers) && IsMerge(a, self, offers) && IsMerge(b, self, offers)
    ensures a == b
  {
    forall id | id in a
      ensures id in b && a[id] == b[id]
    {
      assert forall t :: t in offers && t.id == id ==> !RemoteFresher(t, a[id]) && !RemoteFresher(t, b[id]);
      assert !(id in self && a[id] == self[id]) ==> Contends(self, offers, a[id]);
      assert !(id in self && b[id] == self[id]) ==> Contends(self, offers, b[id]);
    }
  }

  lemma JustOne(s: Server)
    requires s.id != "" && Decode(s) == s
    ensures Offers([Object(s)]) == {s} && Champion([Object(s)], s.id) == Some(s)
  {
    assert [Object(s)][..0] == [];
    assert Champion([], s.id) == None && Offered(Object(s), s.id) == Some(s);
  }

  /** A contender put in front of the answers offers nothing new, and wins. */
  lemma FirstContenderWins(self: map<string, Server>, items: seq<Item>, s: Server)
    requires Contends(self, Offers(items), s)
    ensures Offers([Object(s)] + items) == Offers(items)
    ensures Lookup(MergeAll(self, [Object(s)] + items), s.id) == Some(s)
  {
    OffersAreDecoded(items);
    JustOne(s);
    OffersOfBoth([Object(s)], items);
    ChampionOfBoth([Object(s)], items, s.id);
    ChampionIsOffered(items, s.id);
    MergeIsChampion(self, [Object(s)] + items, s.id);
  }

  /** The order, and the number, of the same answers do not matter exactly when no two different ones for
      an id contend: both as fresh as any, and fresher than this instance's own. */
  lemma MergeIgnoresOrderIff(self: map<string, Server>, items: seq<Item>)
    ensures (forall items' :: Offers(items') == Offers(items) ==> MergeAll(self, items') == MergeAll(self, items))
            <==> OneContender(self, Offers(items))
  {
    hide MergeAll, Offers, IsMerge, Contends;
    var offers := Offers(items);
    MergeIsBest(self, items);
    if OneContender(self, offers) {
      forall items' | Offers(items') == offers
        ensures MergeAll(self, items') == MergeAll(self, items)
      {
        MergeIsBest(self, items');
        OneContenderIsMerged(self, offers, MergeAll(self, items'), MergeAll(self, items));
      }
    } else {
      var s, t :| Contends(self, offers, s) && Contends(self, offers, t) && s.id == t.id && s != t;
      FirstContenderWins(self, items, s);
      FirstContenderWins(self, items, t);
      assert MergeAll(self, [Object(s)] + items) != MergeAll(self, [Object(t)] + items);
    }
  }

  /** The peers' answers in the order `order` of their instances. */
  function InOrder(answers: map<string, seq<Item>>, order: seq<string>): seq<Item>
    requires forall p :: p in order ==> p in answers
  {
    if order == [] then [] else InOrder(answers, order[..|order| - 1]) + answers[order[|order| - 1]]
  }

  ghost predicate IsOrder(order: seq<string>, peers: set<string>) {
    && (forall p :: p in order <==> p in peers)
    && (forall i, j :: 0 <= i < j < |order| ==> order[i] != order[j])
  }

  lemma SomeOrder(peers: set<string>) returns (order: seq<string>)
    ensures IsOrder(order, peers)
    decreases |peers|
  {
    if peers == {} {
      order := [];
    } else {
      var p := AnElement(peers);
      var others := SomeOrder(peers - {p});
      order := [p] + others;
    }
  }

  lemma {:induction false} InOrderStarts(answers: map<string, seq<Item>>, p: string, order: seq<string>)
    requires p in answers && forall q :: q in order ==> q in answers
    ensures InOrder(answers, [p] + order) == answers[p] + InOrder(answers, order)
  {
    if order == [] {
      assert [p] + order == [p] && [p][..0] == [];
      assert answers[p] + [] == answers[p];
    } else {
      var n := |order| - 1;
      assert ([p] + order)[..n + 1] == [p] + order[..n];
      InOrderStarts(answers, p, order[..n]);
      assert answers[p] + InOrder(answers, order[..n]) + answers[order[n]]
          == answers[p] + (InOrder(answers, order[..n]) + answers[order[n]]);
    }
  }

  lemma NoChampion(id: string)
    ensures Champion([], id) == None
  {
  }

  /** The champion of all peers is some peer's champion, and no peer has a fresher one. */
  lemma {:induction false} OrderChampion(answers: map<string, seq<Item>>, order: seq<string>, id: string)
    requires forall p :: p in order ==> p in answers
    ensures var c := Champion(InOrder(answers, order), id);
            && (c.Some? ==> exists p :: p in order && Champion(answers[p], id) == c)
            && (forall p :: p in order && Champion(answers[p], id).Some? ==>
                  c.Some? && !RemoteFresher(Champion(answers[p], id).value, c.value))
  {
    hide Champion;
    if order == [] {
      NoChampion(id);
    } else {
      var n := |order| - 1;
      OrderChampion(answers, order[..n], id);
      ChampionOfBoth(InOrder(answers, order[..n]), answers[order[n]], id);
    }
  }

  /** Peer `p` leads with `s`: it is the first of the peer's freshest offers, no peer has a fresher one, and
      this instance's own server is older. */
  ghost predicate Leads(self: map<string, Server>, answers: map<string, seq<Item>>, p: string, s: Server) {
    && p in answers && Champion(answers[p], s.id) == Some(s)
    && (forall q :: q in answers && Champion(answers[q], s.id).Some? ==>
          !RemoteFresher(Champion(answers[q], s.id).value, s))
    && (s.id in self ==> RemoteFresher(s, self[s.id]))
  }

  ghost predicate LeadersAgree(self: map<string, Server>, answers: map<string, seq<Item>>) {
    forall p, q, s, t :: Leads(self, answers, p, s) && Leads(self, answers, q, t) && s.id == t.id ==> s == t
  }

  lemma FirstLeaderWins(self: map<string, Server>, answers: map<string, seq<Item>>, p: string, s: Server)
    returns (order: seq<string>)
    requires Leads(self, answers, p, s)
    ensures IsOrder(order, answers.Keys)
    ensures Lookup(MergeAll(self, InOrder(answers, order)), s.id) == Some(s)
  {
    hide Champion, MergeAll;
    var others := SomeOrder(answers.Keys - {p});
    order := [p] + others;
    InOrderStarts(answers, p, others);
    ChampionOfBoth(answers[p], InOrder(answers, others), s.id);
    OrderChampion(answers, others, s.id);
    MergeIsChampion(self, InOrder(answers, order), s.id);
  }

  /** Where all leaders agree, any two orders leave the same server under an id. */
  lemma AgreeingLeadersWin(self: map<string, Server>, answers: map<string, seq<Item>>,
                           o1: seq<string>, o2: seq<string>, id: string)
    requires LeadersAgree(self, answers) && IsOrder(o1, answers.Keys) && IsOrder(o2, answers.Keys)
    ensures Lookup(MergeAll(self, InOrder(answers, o1)), id) == Lookup(MergeAll(self, InOrder(answers, o2)), id)
  {
    hide Champion, MergeAll, InOrder;
    var c1, c2 := Champion(InOrder(answers, o1), id), Champion(InOrder(answers, o2), id);
    MergeIsChampion(self, InOrder(answers, o1), id);
    MergeIsChampion(self, InOrder(answers, o2), id);
    OrderChampion(answers, o1, id);
    OrderChampion(answers, o2, id);
    if c1.Some? && c2.Some? && (id in self ==> RemoteFresher(c1.value, self[id])) {
      var p :| p in o1 && Champion(answers[p], id) == c1;
      var q :| q in o2 && Champion(answers[q], id) == c2;
      ChampionIsOffered(answers[p], id);
      ChampionIsOffered(answers[q], id);
      assert Leads(self, answers, p, c1.value);
      assert Leads(self, answers, q, c2.value);
    }
  }

  lemma SameLookups(a: map<string, Server>, b: map<string, Server>)
    requires forall id :: Lookup(a, id) == Lookup(b, id)
    ensures a == b
  {
    assert forall id :: (id in a <==> Lookup(a, id).Some?) && (id in b <==> Lookup(b, id).Some?);
    assert forall id :: id in a ==> a[id] == Lookup(a, id).value && b[id] == Lookup(b, id).value;
  }

  /** The merge does not depend on the order in which the map of peers is visited exactly when no two
      peers lead with different servers for one id. */
  lemma PeerOrderIsInvisibleIff(self: map<string, Server>, answers: map<string, seq<Item>>)
    ensures (forall o1, o2 :: IsOrder(o1, answers.Keys) && IsOrder(o2, answers.Keys) ==>
               MergeAll(self, InOrder(answers, o1)) == MergeAll(self, InOrder(answers, o2)))
            <==> LeadersAgree(self, answers)
  {
    hide Champion, MergeAll, InOrder, Leads;
    if LeadersAgree(self, answers) {
      forall o1, o2 | IsOrder(o1, answers.Keys) && IsOrder(o2, answers.Keys)
        ensures MergeAll(self, InOrder(answers, o1)) == MergeAll(self, InOrder(answers, o2))
      {
        var a, b := MergeAll(self, InOrder(answers, o1)), MergeAll(self, InOrder(answers, o2));
        forall id
          ensures Lookup(a, id) == Lookup(b, id)
        {
          AgreeingLeadersWin(self, answers, o1, o2, id);
        }
        SameLookups(a, b);
      }
    } else {
      var p, q, s, t :| Leads(self, answers, p, s) && Leads(self, answers, q, t) && s.id == t.id && s != t;
      var o1 := FirstLeaderWins(self, answers, p, s);
      var o2 := FirstLeaderWins(self, answers, q, t);
      assert MergeAll(self, InOrder(answers, o1)) != MergeAll(self, InOrder(answers, o2));
    }
  }

  lemma InOrderOfTwo(answers: map<string, seq<Item>>, p: string, q: string)
    requires p in answers && q in answers
    ensures InOrder(answers, [p, q]) == answers[p] + answers[q]
  {
    assert [p, q][..1] == [p] && [p][..0] == [];
    assert InOrder(answers, [p]) == [] + answers[p] == answers[p];
  }

  /** Two peers with different servers and the same heartbeat: who is visited first decides. */
  lemma TiedPeersDisagree(s: Server, t: Server)
    requires s.id == t.id != "" && s.heartbeat == t.heartbeat && s != t && Decode(s) == s && Decode(t) == t
    ensures var answers := map["a" := [Object(s)], "b" := [Object(t)]];
            && Lookup(MergeAll(map[], InOrder(answers, ["a", "b"])), s.id) == Some(s)
            && Lookup(MergeAll(map[], InOrder(answers, ["b", "a"])), s.id) == Some(t)
  {
    var answers := map["a" := [Object(s)], "b" := [Object(t)]];
    JustOne(s);
    JustOne(t);
    InOrderOfTwo(answers, "a", "b");
    InOrderOfTwo(answers, "b", "a");
    ChampionOfBoth([Object(s)], [Object(t)], s.id);
    ChampionOfBoth([Object(t)], [Object(s)], s.id);
    MergeIsChampion(map[], [Object(s)] + [Object(t)], s.id);
    MergeIsChampion(map[], [Object(t)] + [Object(s)], s.id);
  }

  // ---------- The code ----------

  method MergeAnswer(start: map<string, Server>, items: seq<Item>,
                     ghost self: map<string, Server>, ghost before: seq<Item>)
    returns (merged: map<string, Server>)
    requires start == MergeAll(self, before)
    ensures merged == MergeAll(self, before + items)
  {
    merged := start;
    assert before + items[..0] == before;
    for i := 0 to |items|
      invariant merged == MergeAll(self, before + items[..i])
    {
      var all := before + items[..i + 1];
      assert all[..|all| - 1] == before + items[..i] && all[|all| - 1] == items[i];
      if items[i].Other? || items[i].server.id == "" {
        continue;
      }
      var s := Decode(items[i].server);
      if s.id !in merged {
        merged := merged[s.id := s.(discoveredRoot := "")];
        continue;
      }
      if RemoteFresher(s, merged[s.id]) {
        merged := merged[s.id := s];
      }
    }
    assert before + items[..|items|] == before + items;
  }

  lemma {:induction false} InOrderHas(answers: map<string, seq<Item>>, order: seq<string>, p: string, x: Item)
    requires (forall q :: q in order ==> q in answers) && p in order && x in answers[p]
    ensures x in InOrder(answers, order)
  {
    var n := |order| - 1;
    if p != order[n] {
      assert order == order[..n] + [order[n]];
      InOrderHas(answers, order[..n], p, x);
    }
  }

  lemma {:induction false} LastOfOneIdIsOwn(servers: seq<Server>, k: nat)
    requires k < |servers| && forall j :: k < j < |servers| ==> servers[j].id != servers[k].id
    ensures servers[k].id in SelfCatalog(servers) && SelfCatalog(servers)[servers[k].id] == servers[k]
    decreases |servers|
  {
    if k < |servers| - 1 {
      LastOfOneIdIsOwn(servers[..|servers| - 1], k);
    }
  }

  /** An answer that names a server is not lost on the merge, nor any later heartbeat it gives. */
  lemma AnswerCounts(servers: seq<Server>, answers: map<string, seq<Item>>, order: seq<string>, p: string, x: Item)
    requires IsOrder(order, answers.Keys) && p in answers && x in answers[p] && x.Object? && x.server.id != ""
    ensures var merged := MergeAll(SelfCatalog(servers), InOrder(answers, order));
            x.server.id in merged
            && (x.server.heartbeat.Some? ==> AtLeast(merged[x.server.id].heartbeat, x.server.heartbeat.value))
  {
    hide MergeAll, InOrder;
    InOrderHas(answers, order, p, x);
    var items := InOrder(answers, order);
    var i :| 0 <= i < |items| && items[i] == x;
    FreshestHeartbeatWins(SelfCatalog(servers), items, x.server.id);
  }

  /** This instance's server, the last it lists under an id, stays unless an answer has a later heartbeat. */
  lemma OwnGivesWayToLater(servers: seq<Server>, answers: map<string, seq<Item>>, order: seq<string>, k: nat)
    requires IsOrder(order, answers.Keys)
    requires k < |servers| && forall j :: k < j < |servers| ==> servers[j].id != servers[k].id
    ensures var merged, s := MergeAll(SelfCatalog(servers), InOrder(answers, order)), servers[k];
            s.id in merged
            && (merged[s.id] == s
                || (merged[s.id].heartbeat.Some?
                    && (s.heartbeat.Some? ==> merged[s.id].heartbeat.value > s.heartbeat.value)))
  {
    hide MergeAll, InOrder, SelfCatalog;
    LastOfOneIdIsOwn(servers, k);
    FreshestHeartbeatWins(SelfCatalog(servers), InOrder(answers, order), servers[k].id);
  }

  /** The merge loop: this instance first, then the peers in whatever order the map gives. */
  method Discover(servers: seq<Server>, answers: map<string, seq<Item>>) returns (merged: map<string, Server>)
    ensures exists order ::
              && IsOrder(order, answers.Keys)
              && merged == MergeAll(SelfCatalog(servers), InOrder(answers, order))
              && IsMerge(merged, SelfCatalog(servers), Offers(InOrder(answers, order)))
    ensures forall p, x :: p in answers && x in answers[p] && x.Object? && x.server.id != "" ==>
              x.server.id in merged
              && (x.server.heartbeat.Some? ==> AtLeast(merged[x.server.id].heartbeat, x.server.heartbeat.value))
    ensures forall k :: 0 <= k < |servers| && (forall j :: k < j < |servers| ==> servers[j].id != servers[k].id) ==>
              var s := servers[k];
              s.id in merged
              && (merged[s.id] == s
                  || (merged[s.id].heartbeat.Some?
                      && (s.heartbeat.Some? ==> merged[s.id].heartbeat.value > s.heartbeat.value)))
  {
    merged := map[];
    for i := 0 to |servers|
      invariant merged == SelfCatalog(servers[..i])
    {
      assert servers[..i + 1][..i] == servers[..i];
      merged := merged[servers[i].id := servers[i]];
    }
    assert servers[..|servers|] == servers;
    ghost var self := merged;
    ghost var order: seq<string> := [];
    var left := answers.Keys;
    while left != {}
      invariant left <= answers.Keys
      invariant forall p :: p in order <==> p in answers && p !in left
      invariant forall i, j :: 0 <= i < j < |order| ==> order[i] != order[j]
      invariant merged == MergeAll(self, InOrder(answers, order))
    {
      ghost var some := AnElement(left);
      assert some in left;
      var peer :| peer in left;
      left := left - {peer};
      merged := MergeAnswer(merged, answers[peer], self, InOrder(answers, order));
      assert (order + [peer])[..|order|] == order;
      order := order + [peer];
    }
    MergeIsBest(self, InOrder(answers, order));
    forall p, x | p in answers && x in answers[p] && x.Object? && x.server.id != ""
      ensures x.server.id in merged
      ensures x.server.heartbeat.Some? ==> AtLeast(merged[x.server.id].heartbeat, x.server.heartbeat.value)
    {
      AnswerCounts(servers, answers, order, p, x);
    }
    forall k | 0 <= k < |servers| && forall j :: k < j < |servers| ==> servers[j].id != servers[k].id
      ensures var s := servers[k];
              s.id in merged
              && (merged[s.id] == s
                  || (merged[s.id].heartbeat.Some?
                      && (s.heartbeat.Some? ==> merged[s.id].heartbeat.value > s.heartbeat.value)))
    {
      OwnGivesWayToLater(servers, answers, order, k);
    }
  }
}
