/** What one node sends and another merges: the whole list that rt_get_edges hands out. */
module Exchange {
  import opened Base
  import opened SortedList
  import opened Table
  import opened Wire
  import opened FloydWarshall
  import opened Cache
  import opened Merge
  import opened RoutingState
  import opened Runs
  import Framing

  // es is the list as qsort may leave it at the receiver.
  ghost predicate Received(list: seq<WireEdge>, es: seq<WireEdge>) {
    SortedEdges(es) && multiset(es) == multiset(list)
  }

  // ---- any list ----

  // The receiver's table is sound if and only if the list repeats no destination of a taken source.
  lemma ListKeepsTableIff(list: seq<WireEdge>, es: seq<WireEdge>, b: seq<Host>, lb: Mac, b': seq<Host>)
    requires Received(list, es) && TableOk(b, lb) && Merged(b, Taken(b, es), es, b')
    ensures TableOk(b', lb) <==> forall s: Mac :: s in Taken(b, es) ==> NoRepeats(Group(list, s))
  {
    MergeKeepsTableIff(b, lb, es, b');
    forall s: Mac ensures NoRepeats(Group(es, s)) <==> NoRepeats(Group(list, s)) {
      SameRepeats(es, list, s);
    }
  }

  // The list has a record of s that reads as the link l.
  ghost predicate Lists(list: seq<WireEdge>, s: Mac, l: Link) {
    exists e :: e in list && e.src == s && e.dst != s && AsLink(e) == l
  }

  // The receiver's record of a taken source holds exactly the links that the list has of it.
  lemma ListIsCopied(list: seq<WireEdge>, es: seq<WireEdge>, b: seq<Host>, b': seq<Host>, s: Mac, l: Link)
    requires Received(list, es) && Merged(b, Taken(b, es), es, b') && s in Taken(b, es)
    ensures Has(b', s) && (l in Get(b', s).links <==> Lists(list, s, l))
  {
    var taken := Taken(b, es);
    TakenIsMerged(b, es, b', s);
    SameGroup(es, list, s);
    var h := Get(b', s);
    if l in h.links {
      MergedLinkIsEdge(b, taken, es, h, l);
      var e :| e in Group(es, s) && l == AsLink(e);
      assert e in Group(list, s);
    }
    if Lists(list, s, l) {
      var e :| e in list && e.src == s && e.dst != s && AsLink(e) == l;
      assert e in Group(list, s);
      EdgeIsMergedLink(b, taken, es, h, e);
    }
  }

  lemma TakenIsMerged(b: seq<Host>, es: seq<WireEdge>, b': seq<Host>, s: Mac)
    requires Merged(b, Taken(b, es), es, b') && s in Taken(b, es)
    ensures Group(es, s) != [] && Has(b', s) && HostMerged(b, Taken(b, es), es, Get(b', s))
  {
    TakenDecides(b, es);
    assert Fresh(b, es, Taken(b, es), s);
    MergedLookup(b, Taken(b, es), es, b', s);
  }

  lemma EdgeIsMergedLink(hs: seq<Host>, taken: iset<Mac>, es: seq<WireEdge>, h: Host, e: WireEdge)
    requires HostMerged(hs, taken, es, h) && h.mac in taken && e in Group(es, h.mac)
    ensures AsLink(e) in h.links
  {
    var g := Group(es, h.mac);
    var i :| 0 <= i < |g| && g[i] == e;
    assert AsLinks(g)[i] == AsLink(e);
    assert AsLink(e) in multiset(AsLinks(g));
    assert AsLink(e) in multiset(h.links);
  }

  // The links of s as the table has them, none if s is not in it.
  ghost function LinksOf(hs: seq<Host>, s: Mac): seq<Link> {
    if Has(hs, s) then Get(hs, s).links else []
  }

  // The list has each of the links ls once for s, and nothing else of s.
  ghost predicate ListsOnce(list: seq<WireEdge>, s: Mac, ls: seq<Link>) {
    && NoRepeats(Group(list, s))
    && (forall l :: l in ls ==> Lists(list, s, l))
    && (forall e :: e in Group(list, s) ==> AsLink(e) in ls)
  }

  // The receiver's record of a taken source equals that of a sound table if and only if the list
  // has each link there once, and nothing else of that source.
  lemma CopyIsExactIff(
    list: seq<WireEdge>, es: seq<WireEdge>, b: seq<Host>, b': seq<Host>, s: Mac, a: seq<Host>, la: Mac)
    requires Received(list, es) && Merged(b, Taken(b, es), es, b') && s in Taken(b, es) && TableOk(a, la)
    ensures Has(b', s) && (Get(b', s).links == LinksOf(a, s) <==> ListsOnce(list, s, LinksOf(a, s)))
  {
    TakenIsMerged(b, es, b', s);
    SameRepeats(es, list, s);
    StrictIffNoRepeats(b, Taken(b, es), es, Get(b', s));
    var mine, copy := LinksOf(a, s), Get(b', s).links;
    assert Strict(mine, LinkKey) by {
      if Has(a, s) {
        assert LinksOk(a, Get(a, s));
      }
    }
    forall l ensures l in copy <==> Lists(list, s, l) {
      ListIsCopied(list, es, b, b', s, l);
    }
    if copy == mine {
      forall e | e in Group(list, s) ensures AsLink(e) in mine {
        assert Lists(list, s, AsLink(e));
      }
    }
    if ListsOnce(list, s, mine) {
      forall l | l in copy ensures l in mine {
        var e :| e in list && e.src == s && e.dst != s && AsLink(e) == l;
        assert e in Group(list, s);
      }
      StrictUnique(mine, copy, LinkKey);
    }
  }

  // ---- the list of a run ----

  // Whatever node sends its list, at whatever point of its run, the receiver's table stays sound if
  // and only if no link of a taken source has been exported by two operations of the sender.
  lemma SentListKeepsTableIff(
    states: seq<RState>, ops: seq<Op>, la: Mac, t: nat, es: seq<WireEdge>, b: seq<Host>, lb: Mac, b': seq<Host>)
    requires Run(states, ops, la) && t < |states| && Received(states[t].edges, es)
    requires TableOk(b, lb) && Merged(b, Taken(b, es), es, b')
    ensures TableOk(b', lb) <==> forall s: Mac :: s in Taken(b, es) ==> !SentTwice(states, ops, t, s)
  {
    ListKeepsTableIff(states[t].edges, es, b, lb, b');
    forall s: Mac ensures NoRepeats(Group(states[t].edges, s)) <==> !SentTwice(states, ops, t, s) {
      RepeatsIffSentTwice(states, ops, la, t, s);
    }
  }

  // l is a link of s in the table a that a pass over a exports.
  ghost predicate Announced(a: seq<Host>, s: Mac, l: Link) {
    && Has(a, s)
    && exists j :: 0 <= j < |Get(a, s).links| && j < |a| && Get(a, s).links[j] == l && Weight(a, Idx(a, s), j) != 0
  }

  lemma ExportedIsAnnounced(a: seq<Host>, la: Mac, e: WireEdge)
    requires TableOk(a, la) && Exported(a, e)
    ensures Announced(a, e.src, AsLink(e)) && e.src != e.dst
  {
    var w := Graph(a);
    ExportIff(a, w, |a|, e);
    var i :| 0 <= i < |a| && ExportsBelow(a, w, i, |a[i].links|, e);
    var j :| 0 <= j < |a[i].links| && Exports(a, w, i, j, e);
    GetUnique(a, i);
    var l := a[i].links[j];
    PackRoundTrip(a[i].mac, l.dst, l.rtt, l.ts);
    PatternKept(w, |w|, i, j);
    assert LinksOk(a, a[i]) && l in a[i].links;
  }

  lemma AnnouncedIsExported(a: seq<Host>, la: Mac, s: Mac, l: Link)
    requires TableOk(a, la) && Announced(a, s, l)
    ensures exists e :: Exported(a, e) && e.src == s && e.dst != s && AsLink(e) == l
  {
    var i := Idx(a, s);
    var j :| 0 <= j < |a[i].links| && j < |a| && a[i].links[j] == l && Weight(a, i, j) != 0;
    LinkExportedIff(a, la, i, j);
    PackRoundTrip(s, l.dst, l.rtt, l.ts);
    assert LinksOk(a, a[i]) && l in a[i].links;
    assert Exported(a, RecordOf(a, i, j));
  }

  // Operation u, counted from 1, exports the link l of s.
  ghost predicate AnnouncesAt(states: seq<RState>, ops: seq<Op>, u: nat, s: Mac, l: Link) {
    0 < u < |states| && u <= |ops| && Refreshes(states[u - 1], ops[u - 1]) && Announced(states[u].hosts, s, l)
  }

  lemma ListedIffAnnounced(states: seq<RState>, ops: seq<Op>, la: Mac, t: nat, s: Mac, l: Link)
    requires Run(states, ops, la) && t < |states|
    ensures Lists(states[t].edges, s, l) <==> exists u :: 0 <= u <= t && AnnouncesAt(states, ops, u, s, l)
  {
    if Lists(states[t].edges, s, l) {
      var e :| e in states[t].edges && e.src == s && e.dst != s && AsLink(e) == l;
      ListIsHistory(states, ops, la, t, e);
      var u :| 0 <= u <= t && AppendsAt(states, ops, u, e);
      RunKeepsInv(states, ops, la, u);
      ExportedIsAnnounced(states[u].hosts, la, e);
      assert AnnouncesAt(states, ops, u, s, l);
    }
    if u :| 0 <= u <= t && AnnouncesAt(states, ops, u, s, l) {
      RunKeepsInv(states, ops, la, u);
      AnnouncedIsExported(states[u].hosts, la, s, l);
      var e :| Exported(states[u].hosts, e) && e.src == s && e.dst != s && AsLink(e) == l;
      assert AppendsAt(states, ops, u, e);
      ListIsHistory(states, ops, la, t, e);
    }
  }

  // The receiver's record of a taken source holds exactly the links of it that the sender exported
  // after any operation of its run, whether or not the sender still has them.
  lemma HistoryIsCopied(
    states: seq<RState>, ops: seq<Op>, la: Mac, t: nat, es: seq<WireEdge>, b: seq<Host>, b': seq<Host>, s: Mac, l: Link)
    requires Run(states, ops, la) && t < |states| && Received(states[t].edges, es)
    requires Merged(b, Taken(b, es), es, b') && s in Taken(b, es)
    ensures Has(b', s)
    ensures l in Get(b', s).links <==> exists u :: 0 <= u <= t && AnnouncesAt(states, ops, u, s, l)
  {
    ListIsCopied(states[t].edges, es, b, b', s, l);
    ListedIffAnnounced(states, ops, la, t, s, l);
  }

  // It equals the sender's present record if and only if each present link is in the list once and
  // nothing else of that source is.
  lemma SentCopyIsExactIff(
    states: seq<RState>, ops: seq<Op>, la: Mac, t: nat, es: seq<WireEdge>, b: seq<Host>, b': seq<Host>, s: Mac)
    requires Run(states, ops, la) && t < |states| && Received(states[t].edges, es)
    requires Merged(b, Taken(b, es), es, b') && s in Taken(b, es)
    ensures Has(b', s)
    ensures Get(b', s).links == LinksOf(states[t].hosts, s) <==>
            ListsOnce(states[t].edges, s, LinksOf(states[t].hosts, s))
  {
    RunKeepsInv(states, ops, la, t);
    CopyIsExactIff(states[t].edges, es, b, b', s, states[t].hosts, la);
  }

  // Once the list has outgrown a packet, no list of the rest of the run arrives: it is sent as a
  // link graph of as many edges, and never shortened.
  lemma TooLongForGood(
    states: seq<RState>, ops: seq<Op>, la: Mac, t: nat, u: nat, g: Framing.LinkGraph, rest: seq<byte>)
    requires Run(states, ops, la) && t <= u < |states|
    requires |states[t].edges| > 1820 && |g.edges| == |states[u].edges|
    ensures !Framing.GraphArrives(g, rest)
  {
    ListGrows(states, ops, la, t, u);
    Framing.GraphArrivesIffFits(g, rest);
  }

  // ---- the first list ----

  // After the first refresh the list is one export, which spoils no table.
  lemma FirstListKeepsTable(s: RState, es: seq<WireEdge>, b: seq<Host>, lb: Mac, b': seq<Host>)
    requires TableOk(s.hosts, s.local) && Adjacency(s.cached) && s.edges == [] && Received(Refresh(s).edges, es)
    requires TableOk(b, lb) && Merged(b, Taken(b, es), es, b')
    ensures TableOk(b', lb)
  {
    RefreshRepeatsIff(s);
    ListKeepsTableIff(Refresh(s).edges, es, b, lb, b');
    forall m: Mac ensures NoRepeats(Group(Refresh(s).edges, m)) {
      NoRepeatedPairsNoRepeats(Refresh(s).edges, m);
    }
  }

  lemma FirstListIsExport(s: RState)
    requires TableOk(s.hosts, s.local) && Adjacency(s.cached) && s.edges == []
    ensures var a := Refresh(s).hosts;
            TableOk(a, s.local) && Exportable(a) && Refresh(s).edges == Export(a, Graph(a), |a|)
  {
    TablesAreExportable(Refresh(s).hosts, s.local);
  }

  // The copy of a taken source is then the sender's record of it if and only if the number of each
  // of its links is a column in which it has a nonzero entry.
  lemma FirstCopyIsExactIff(s: RState, es: seq<WireEdge>, b: seq<Host>, b': seq<Host>, m: Mac)
    requires TableOk(s.hosts, s.local) && Adjacency(s.cached) && s.edges == [] && Received(Refresh(s).edges, es)
    requires Merged(b, Taken(b, es), es, b') && m in Taken(b, es)
    ensures var a := Refresh(s).hosts;
            && Has(b', m) && Has(a, m)
            && (Get(b', m).links == Get(a, m).links <==>
                forall j :: 0 <= j < |Get(a, m).links| ==> j < |a| && Weight(a, Idx(a, m), j) != 0)
  {
    var a, list := Refresh(s).hosts, Refresh(s).edges;
    FirstListIsExport(s);
    SourceIsKnown(a, s.local, es, b, m);
    CopyIsExactIff(list, es, b, b', m, a, s.local);
    ListedOnceIff(a, s.local, m);
  }

  lemma SourceIsKnown(a: seq<Host>, la: Mac, es: seq<WireEdge>, b: seq<Host>, m: Mac)
    requires TableOk(a, la) && Exportable(a) && Received(Export(a, Graph(a), |a|), es) && m in Taken(b, es)
    ensures Has(a, m)
  {
    TakenDecides(b, es);
    assert Fresh(b, es, Taken(b, es), m);
    var e := Group(es, m)[0];
    assert e in Group(es, m);
    SameGroup(es, Export(a, Graph(a), |a|), m);
    ExportedIsAnnounced(a, la, e);
  }

  lemma ListedOnceIff(a: seq<Host>, la: Mac, m: Mac)
    requires TableOk(a, la) && Exportable(a) && Has(a, m)
    ensures ListsOnce(Export(a, Graph(a), |a|), m, Get(a, m).links) <==>
            forall j :: 0 <= j < |Get(a, m).links| ==> j < |a| && Weight(a, Idx(a, m), j) != 0
  {
    var list, ls := Export(a, Graph(a), |a|), Get(a, m).links;
    ExportNoRepeats(a, la, |a|);
    NoRepeatedPairsNoRepeats(list, m);
    forall e | e in Group(list, m) ensures AsLink(e) in ls {
      ExportedIsAnnounced(a, la, e);
    }
    forall j: nat | j < |ls| ensures Lists(list, m, ls[j]) <==> j < |a| && Weight(a, Idx(a, m), j) != 0 {
      ListedByNumber(a, la, list, m, j);
    }
  }

  lemma ListedByNumber(a: seq<Host>, la: Mac, list: seq<WireEdge>, m: Mac, j: nat)
    requires TableOk(a, la) && Exportable(a) && list == Export(a, Graph(a), |a|) && Has(a, m) && j < |Get(a, m).links|
    ensures Lists(list, m, Get(a, m).links[j]) <==> j < |a| && Weight(a, Idx(a, m), j) != 0
  {
    var i, l := Idx(a, m), Get(a, m).links[j];
    assert LinksOk(a, a[i]) && l in a[i].links;
    if Lists(list, m, l) {
      var e :| e in list && e.src == m && e.dst != m && AsLink(e) == l;
      ExportedIsAnnounced(a, la, e);
      var k :| 0 <= k < |a[i].links| && k < |a| && a[i].links[k] == l && Weight(a, i, k) != 0;
      SameRecord(a, la, i, j, i, k);
    }
    if j < |a| && Weight(a, i, j) != 0 {
      AnnouncedIsExported(a, la, m, l);
    }
  }

  // ---- packets that repeat a pair ----

  // A link to a host that is not in the table, which compute_paths would look up in vain.
  ghost predicate Dangles(hs: seq<Host>) {
    exists h, l :: h in hs && l in h.links && !Has(hs, l.dst)
  }

  // A packet that names a pair twice leaves its source with two links to the target.
  lemma RepeatedPairGivesTwoLinks(ls: seq<Link>, g: seq<WireEdge>, i: nat, j: nat) returns (a: nat, b: nat)
    requires multiset(ls) == multiset(AsLinks(g)) && i < j < |g| && g[i].dst == g[j].dst
    ensures a < |ls| && b < |ls| && a != b && ls[a].dst == ls[b].dst == g[i].dst
  {
    var all := AsLinks(g);
    var x, y := all[i], all[j];
    if x == y {
      CountOfPair(all, i, j);
      a, b := PairOfCount(ls, x);
    } else {
      assert x in multiset(all) && y in multiset(all);
      assert x in multiset(ls) && y in multiset(ls);
      a :| 0 <= a < |ls| && ls[a] == x;
      b :| 0 <= b < |ls| && ls[b] == y;
    }
  }

  // trim_host removes one of them.
  lemma UnlinkLeavesOne(ls: seq<Link>, d: Mac, a: nat, b: nat)
    requires a < |ls| && b < |ls| && a != b && ls[a].dst == ls[b].dst == d
    ensures exists l :: l in Unlink(ls, d) && l.dst == d
  {
    assert LinkKey(ls[a]) == d;
    var p := At(ls, LinkKey, d);
    var q := if p == a then b else a;
    assert Unlink(ls, d)[if q < p then q else q - 1] == ls[q];
  }

  // A packet that names a pair of different hosts twice therefore leaves a table in which trimming
  // the target leaves a link to it behind.
  lemma RepeatedPairDangles(hs: seq<Host>, es: seq<WireEdge>, hs': seq<Host>, s: Mac, i: nat, j: nat)
    requires Merged(hs, Taken(hs, es), es, hs') && s in Taken(hs, es)
    requires i < j < |Group(es, s)| && Group(es, s)[i].dst == Group(es, s)[j].dst != s
    ensures Has(hs', Group(es, s)[i].dst) && Dangles(DropHost(hs', Idx(hs', Group(es, s)[i].dst)))
  {
    var taken, g := Taken(hs, es), Group(es, s);
    var d := g[i].dst;
    assert g[i] in g && Live(taken, g[i]) && Touched(taken, es, d) && Touched(taken, es, s);
    MergedLookup(hs, taken, es, hs', s);
    var h := Get(hs', s);
    var a, b := RepeatedPairGivesTwoLinks(h.links, g, i, j);
    UnlinkLeavesOne(h.links, d, a, b);
    DropDangles(hs', s, d);
  }

  lemma DropDangles(hs: seq<Host>, s: Mac, d: Mac)
    requires Strict(hs, HostKey) && Has(hs, s) && Has(hs, d) && s != d
    requires exists l :: l in Unlink(Get(hs, s).links, d) && l.dst == d
    ensures Dangles(DropHost(hs, Idx(hs, d)))
  {
    var k := Idx(hs, d);
    DropLookup(hs, k);
    var r := DropHost(hs, k);
    var l :| l in Unlink(Get(hs, s).links, d) && l.dst == d;
    assert Get(r, s) in r && l in Get(r, s).links && !Has(r, l.dst);
  }
}
