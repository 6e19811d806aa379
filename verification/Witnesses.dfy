/** Runs of a small node, address 2, that reach the cases the general statements single out. */
module Witnesses {
  import opened Base
  import opened SortedList
  import opened Table
  import opened Wire
  import opened FloydWarshall
  import opened Cache
  import opened Merge
  import opened RoutingState
  import opened Lookup
  import opened Runs
  import opened Exchange

  // Some run of node 2 ends in s.
  ghost predicate Reaches(s: RState) {
    exists states, ops :: RunsTo(states, ops, s)
  }

  ghost predicate RunsTo(states: seq<RState>, ops: seq<Op>, s: RState) {
    Run(states, ops, 2) && states[|states| - 1] == s
  }

  lemma MovesAtPrefix(states: seq<RState>, ops: seq<Op>, s: RState, op: Op, t: nat)
    requires MovesAt(states, ops, t)
    ensures MovesAt(states + [s], ops + [op], t)
  {
    assert (states + [s])[t] == states[t] && (states + [s])[t + 1] == states[t + 1] && (ops + [op])[t] == ops[t];
  }

  lemma ReachStep(s: RState, op: Op, s': RState)
    requires Reaches(s) && Inv(s) && Step(s, op, s')
    ensures Reaches(s') && Inv(s')
  {
    var states, ops :| RunsTo(states, ops, s);
    var states', ops' := states + [s'], ops + [op];
    forall t: nat | t < |ops'| ensures MovesAt(states', ops', t) {
      if t < |ops| {
        MovesAtPrefix(states, ops, s', op, t);
      } else {
        assert states'[t] == s && states'[t + 1] == s' && ops'[t] == op;
      }
    }
    assert RunsTo(states', ops', s');
    StepKeepsInv(s, op, s');
  }

  lemma ReachInit()
    ensures Reaches(Init(2)) && Inv(Init(2))
  {
    InitInv(2);
    assert RunsTo([Init(2)], [], Init(2));
  }

  // ---- one peer ----

  const PAIR: seq<Host> := [Host(2, Local, 5, [Link(4, 1000, 5)]), Host(4, Direct(1), 0, [])]

  // Node 2 after its one peer, number 1 at address 4, has registered.
  lemma FirstPeerRegisters() returns (rt: RState)
    ensures Inv(Init(2)) && AddDirectLink(Init(2), 1, Link(4, 1000, 5)) == (rt, 0)
    ensures Ready(rt) && rt.local == 2 && rt.hosts == PAIR && rt.edges == [Pack(2, 4, 1000, 5)]
  {
    InitInv(2);
    var hs, l := Init(2).hosts, Link(4, 1000, 5);
    var h, d := hs[0], Host(4, Direct(1), 0, []);
    GetUnique(hs, 0);
    assert !HasLink(h.links, 4) && !Has(hs, 4);
    assert WithDirectHost(hs, 4, 1) == [h, d];
    WithDirectLookup(hs, 4, 1);
    GetUnique([h, d], 0);
    assert Insert(h.links, LinkKey, l) == [l];
    assert Measured(hs, 2, 1, l) == PAIR;
    MeasuredKeepsTable(hs, 2, 1, l);
    rt := AddDirectLink(Init(2), 1, l).0;
    PairExports(Init(2).(hosts := PAIR), l);
  }

  lemma PairIsReached() returns (s: RState)
    ensures Reaches(s) && Ready(s) && s.local == 2 && s.hosts == PAIR && s.edges == [Pack(2, 4, 1000, 5)]
  {
    ReachInit();
    s := FirstPeerRegisters();
    ReachStep(Init(2), Measure(1, Link(4, 1000, 5)), s);
  }

  // A table without normal hosts is not trimmed.
  lemma NothingToTrim(s: RState)
    requires TableOk(s.hosts, s.local) && Adjacency(s.cached) && forall h :: h in s.hosts ==> !h.kind.Normal?
    ensures Trimmed(s) == s.hosts
  {
    if |s.cached| == |s.hosts| {
      var src := Idx(s.hosts, s.local);
      TrimIdleIff(s.hosts, s.cached, src, 0);
      forall t: nat ensures !Trimmable(s.hosts, s.cached, src, t) {
        if t < |s.hosts| {
          assert s.hosts[t] in s.hosts;
        }
      }
    }
  }

  // ---- the same peer measured twice ----

  // Node 2 and its peer, with l as the latest measurement.
  function Pair(l: Link): seq<Host> {
    [Host(2, Local, 5, [l]), Host(4, Direct(1), 0, [])]
  }

  lemma PairExports(s: RState, l: Link)
    requires s.local == 2 && s.hosts == Pair(l) && TableOk(s.hosts, 2) && Adjacency(s.cached)
    ensures Trimmed(s) == Pair(l) && Refresh(s).edges == s.edges + [Pack(2, l.dst, l.rtt, l.ts)]
  {
    assert forall h :: h in Pair(l) ==> h == Pair(l)[0] || h == Pair(l)[1];
    NothingToTrim(s);
    PairExport(l);
  }

  lemma PairExport(l: Link)
    ensures Exportable(Pair(l)) && Export(Pair(l), Graph(Pair(l)), 2) == [Pack(2, l.dst, l.rtt, l.ts)]
  {
    var hs, w := Pair(l), Graph(Pair(l));
    PatternKept(w, 2, 0, 0);
    assert ExportHost(hs, w, 0, 0) == [] && ExportHost(hs, w, 1, 0) == [];
    assert Export(hs, w, 0) == [];
    assert ExportHost(hs, w, 0, 1) == [RecordOf(hs, 0, 0)];
    assert Export(hs, w, 1) == ExportHost(hs, w, 0, 1);
  }

  lemma PeerMeasuredAgain(s: RState, l: Link) returns (s': RState)
    requires Inv(s) && s.local == 2 && s.hosts == PAIR && l.dst == 4
    ensures TableOk(Pair(l), 2) && s' == Refresh(s.(hosts := Pair(l))) && AddDirectLink(s, 1, l) == (s', 0)
  {
    GetUnique(PAIR, 0);
    assert LinkKey(PAIR[0].links[0]) == 4;
    assert PAIR[0].links[0 := l] == [l];
    assert Measured(PAIR, 2, 1, l) == Pair(l);
    MeasuredKeepsTable(PAIR, 2, 1, l);
    s' := AddDirectLink(s, 1, l).0;
  }

  const TWICE: seq<WireEdge> := [Pack(2, 4, 1000, 5), Pack(2, 4, 2000, 6)]

  // After two measurements of one peer the list names the same link twice.
  lemma MeasuringTwiceRepeatsPair() returns (s: RState)
    ensures Reaches(s) && Inv(s) && s.edges == TWICE && !NoRepeatedPairs(s.edges)
  {
    var l1, l2 := Link(4, 1000, 5), Link(4, 2000, 6);
    var s1 := PairIsReached();
    s := PeerMeasuredAgain(s1, l2);
    ReachStep(s1, Measure(1, l2), s);
    PairExports(s1.(hosts := Pair(l2)), l2);
    assert PairKey(s.edges[0]) == PairKey(s.edges[1]);
  }

  // ---- what such lists do to another node ----

  // Node 9, which knows only itself, takes every source that is stamped at all.
  lemma StrangerIsTaken(list: seq<WireEdge>, es: seq<WireEdge>, s: Mac)
    requires Received(list, es) && s != 9 && Group(list, s) != []
    requires forall e :: e in Group(list, s) ==> Ts(e) > 0
    ensures s in Taken(Init(9).hosts, es)
  {
    var b := Init(9).hosts;
    SameGroup(es, list, s);
    assert Group(list, s)[0] in Group(es, s);
    assert Group(es, s)[0] in Group(es, s);
    TakenDecides(b, es);
    assert !Has(b, s);
    assert Fresh(b, es, Taken(b, es), s);
  }

  lemma PairGroup(r1: u32, t1: u64, r2: u32, t2: u64)
    requires t1 > 0 && t2 > 0
    ensures var g := Group([Pack(2, 4, r1, t1), Pack(2, 4, r2, t2)], 2);
            g != [] && !NoRepeats(g) && forall e :: e in g ==> Ts(e) > 0
  {
    var a, b := Pack(2, 4, r1, t1), Pack(2, 4, r2, t2);
    PackRoundTrip(2, 4, r1, t1);
    PackRoundTrip(2, 4, r2, t2);
    GroupSnoc([a], b, 2);
    GroupSnoc([], a, 2);
    assert [] + [a] == [a] && [a] + [b] == [a, b];
    assert Group([a, b], 2) == [a, b];
    assert [a, b][0].dst == [a, b][1].dst;
  }

  // The list that names a link twice, which a sound table reaches, spoils the table of node 9.
  lemma TwiceSpoilsTable(es: seq<WireEdge>, b: seq<Host>)
    requires Received(TWICE, es) && Merged(Init(9).hosts, Taken(Init(9).hosts, es), es, b)
    ensures !TableOk(b, 9)
  {
    InitInv(9);
    PairGroup(1000, 5, 2000, 6);
    StrangerIsTaken(TWICE, es, 2);
    ListKeepsTableIff(TWICE, es, Init(9).hosts, 9, b);
  }

  // ---- a peer that leaves ----

  const GONE: seq<Host> := [Host(2, Local, 5, []), Host(4, Normal, 0, [])]

  lemma PeerGoneTable()
    requires TableOk(PAIR, 2)
    ensures Has(PAIR, 4) && LocalLink(PAIR, 2, 4) && Unregistered(PAIR, 2, 4) == GONE
  {
    GetUnique(PAIR, 0);
    GetUnique(PAIR, 1);
    assert LinkKey(PAIR[0].links[0]) == 4;
    assert Unlink(PAIR[0].links, 4) == [];
    ReplaceLookup(PAIR, 1, Host(4, Normal, 0, []), PAIR[1 := Host(4, Normal, 0, [])]);
    GetUnique(PAIR[1 := Host(4, Normal, 0, [])], 0);
  }

  lemma PeerNotTrimmedYet()
    ensures forall t: nat :: !Trimmable(GONE, Graph(PAIR), 0, t)
  {
    assert LinkKey(PAIR[0].links[0]) == 4;
    assert Graph(PAIR)[0][1] == Weight(PAIR, 0, 1) == 1000;
    PatternKept(Graph(PAIR), 2, 0, 1);
  }

  lemma GoneExports()
    ensures Exportable(GONE) && Export(GONE, Graph(GONE), 2) == []
  {
    var w := Graph(GONE);
    assert ExportHost(GONE, w, 0, 0) == [] && ExportHost(GONE, w, 1, 0) == [];
    assert Export(GONE, w, 0) == [] && Export(GONE, w, 1) == [];
  }

  lemma PeerLeaves(s: RState) returns (s': RState)
    requires Ready(s) && s.local == 2 && s.hosts == PAIR
    ensures s' == RemoveDirectLink(s, 4).0 && s'.hosts == GONE && s'.edges == s.edges
  {
    PeerGoneTable();
    UnregisteredKeepsTable(PAIR, 2, 4);
    s' := RemoveDirectLink(s, 4).0;
    GoneRefreshes(s.(hosts := GONE));
  }

  lemma GoneRefreshes(s: RState)
    requires TableOk(GONE, 2) && s.hosts == GONE && s.local == 2 && s.cached == Graph(PAIR)
    ensures Refresh(s).hosts == GONE && Refresh(s).edges == s.edges
  {
    GetUnique(GONE, 0);
    PeerNotTrimmedYet();
    TrimIdleIff(GONE, s.cached, 0, 0);
    assert Trimmed(s) == GONE;
    GoneExports();
    assert Refresh(s).edges == s.edges + [];
  }

  const WITHDRAWN: seq<WireEdge> := [Pack(2, 4, 1000, 5)]

  // The peer registers and unregisters. The list still names the link to it, which the node no
  // longer has.
  lemma WithdrawnLinkIsListed() returns (s: RState)
    ensures Reaches(s) && Inv(s) && s.hosts == GONE && s.edges == WITHDRAWN && !LocalLink(s.hosts, 2, 4)
  {
    var s1 := PairIsReached();
    s := PeerLeaves(s1);
    ReachStep(s1, Unregister(4), s);
    GetUnique(GONE, 0);
    assert !HasLink(GONE[0].links, 4);
  }

  // Node 9 gets it.
  lemma WithdrawnLinkIsCopied(es: seq<WireEdge>, b: seq<Host>)
    requires Received(WITHDRAWN, es) && Merged(Init(9).hosts, Taken(Init(9).hosts, es), es, b)
    ensures Has(b, 2) && Link(4, 1000, 5) in Get(b, 2).links
  {
    PackRoundTrip(2, 4, 1000, 5);
    var e := WITHDRAWN[0];
    GroupSnoc([], e, 2);
    assert [] + [e] == WITHDRAWN;
    assert Group(WITHDRAWN, 2) == [e];
    StrangerIsTaken(WITHDRAWN, es, 2);
    assert e in WITHDRAWN && AsLink(e) == Link(4, 1000, 5);
    ListIsCopied(WITHDRAWN, es, Init(9).hosts, b, 2, Link(4, 1000, 5));
  }

  // ---- two peers, of which the lower leaves ----

  const TRIO: seq<Host> := [
    Host(2, Local, 5, [Link(4, 1000, 5), Link(6, 1000, 5)]), Host(4, Direct(1), 0, []), Host(6, Direct(2), 0, [])]

  const LEFT: seq<Host> := [
    Host(2, Local, 5, [Link(6, 1000, 5)]), Host(4, Normal, 0, []), Host(6, Direct(2), 0, [])]

  const AGAIN: seq<Host> := [
    Host(2, Local, 5, [Link(6, 900, 6)]), Host(4, Normal, 0, []), Host(6, Direct(2), 0, [])]

  lemma SixIsUnknown()
    ensures !HasLink(PAIR[0].links, 6) && !Has(PAIR, 6)
    ensures WithDirectHost(PAIR, 6, 2) == PAIR + [Host(6, Direct(2), 0, [])]
  {
  }

  lemma SecondPeerTable()
    requires TableOk(PAIR, 2)
    ensures Measured(PAIR, 2, 2, Link(6, 1000, 5)) == TRIO
  {
    var l, hs := Link(6, 1000, 5), PAIR + [Host(6, Direct(2), 0, [])];
    SixIsUnknown();
    GetUnique(PAIR, 0);
    WithDirectLookup(PAIR, 6, 2);
    GetUnique(hs, 0);
    assert Insert(PAIR[0].links, LinkKey, l) == TRIO[0].links;
    assert Table.AddLink(hs[0], l) == TRIO[0];
    assert hs[0 := TRIO[0]] == TRIO;
  }

  lemma SecondPeerRegisters(s: RState) returns (s': RState)
    requires Reaches(s) && Ready(s) && s.local == 2 && s.hosts == PAIR
    ensures Reaches(s') && Ready(s') && s'.local == 2 && s'.hosts == TRIO
  {
    var l := Link(6, 1000, 5);
    SecondPeerTable();
    MeasuredKeepsTable(PAIR, 2, 2, l);
    s' := AddDirectLink(s, 2, l).0;
    assert s' == Refresh(s.(hosts := TRIO)) && Trimmed(s.(hosts := TRIO)) == TRIO;
    ReachStep(s, Measure(2, l), s');
  }

  lemma LowerPeerTable()
    requires TableOk(TRIO, 2)
    ensures Has(TRIO, 4) && LocalLink(TRIO, 2, 4) && Unregistered(TRIO, 2, 4) == LEFT
  {
    GetUnique(TRIO, 0);
    GetUnique(TRIO, 1);
    LowerPeerUnlinked();
    ReplaceLookup(TRIO, 1, Host(4, Normal, 0, []), TRIO[1 := Host(4, Normal, 0, [])]);
    GetUnique(TRIO[1 := Host(4, Normal, 0, [])], 0);
  }

  lemma LowerPeerUnlinked()
    ensures HasLink(TRIO[0].links, 4) && Unlink(TRIO[0].links, 4) == LEFT[0].links
  {
    assert LinkKey(TRIO[0].links[0]) == 4;
  }

  // The old matrix still has a path to the peer that has just left, so its host stays.
  lemma LeaverIsNotTrimmedYet()
    ensures forall t: nat :: !Trimmable(LEFT, Graph(TRIO), 0, t)
  {
    assert LinkKey(TRIO[0].links[0]) == 4;
    assert Graph(TRIO)[0][1] == Weight(TRIO, 0, 1);
    PatternKept(Graph(TRIO), 3, 0, 1);
  }

  lemma LowerPeerLeaves(s: RState) returns (s': RState)
    requires Reaches(s) && Ready(s) && s.local == 2 && s.hosts == TRIO
    ensures Reaches(s') && Ready(s') && s'.local == 2 && s'.hosts == LEFT
  {
    LowerPeerTable();
    UnregisteredKeepsTable(TRIO, 2, 4);
    s' := RemoveDirectLink(s, 4).0;
    var mid := s.(hosts := LEFT);
    GetUnique(LEFT, 0);
    LeaverIsNotTrimmedYet();
    TrimIdleIff(LEFT, s.cached, 0, 0);
    assert s' == Refresh(mid) && Trimmed(mid) == LEFT;
    ReachStep(s, Unregister(4), s');
  }

  lemma RemainingPeerTable()
    requires TableOk(LEFT, 2)
    ensures Measured(LEFT, 2, 2, Link(6, 900, 6)) == AGAIN
  {
    GetUnique(LEFT, 0);
    assert LinkKey(LEFT[0].links[0]) == 6;
    assert LEFT[0].links[0 := Link(6, 900, 6)] == [Link(6, 900, 6)];
  }

  lemma LeaverIsTrimmedNow()
    ensures Trimmable(AGAIN, Graph(LEFT), 0, 1)
  {
    assert Graph(LEFT)[0][1] == Weight(LEFT, 0, 1) == 0;
    PatternKept(Graph(LEFT), 3, 0, 1);
  }

  lemma TrimFreesAnother()
    requires TableOk(AGAIN, 2)
    ensures Idx(AGAIN, 2) == 0 && !AllGone(TrimFrees(AGAIN, Graph(LEFT), 0, 0), TrimFrom(AGAIN, Graph(LEFT), 0, 0))
  {
    GetUnique(AGAIN, 0);
    LeaverIsTrimmedNow();
    FreesOnlyRemovedIff(AGAIN, Graph(LEFT), 0, 0);
  }

  // When the remaining peer is measured again, trimming removes the host of the one that left and
  // frees one that stays in the table.
  lemma WrongHostIsFreed() returns (s: RState)
    ensures Reaches(s) && Ready(s) && TableOk(Measured(s.hosts, s.local, 2, Link(6, 900, 6)), s.local)
    ensures var hs := Measured(s.hosts, s.local, 2, Link(6, 900, 6));
            && |hs| == |s.cached|
            && !AllGone(TrimFrees(hs, s.cached, Idx(hs, s.local), 0), Trimmed(s.(hosts := hs)))
            && Has(s.hosts, 4) && !Has(Refresh(s.(hosts := hs)).hosts, 4)
  {
    s := PairIsReached();
    s := SecondPeerRegisters(s);
    s := LowerPeerLeaves(s);
    RemainingPeerTable();
    MeasuredKeepsTable(LEFT, 2, 2, Link(6, 900, 6));
    TrimFreesAnother();
    LeaverGoes(s.(hosts := AGAIN));
    GetUnique(LEFT, 1);
  }

  lemma LeaverGoes(s: RState)
    requires TableOk(AGAIN, 2) && s.hosts == AGAIN && s.local == 2 && s.cached == Graph(LEFT)
    ensures !Has(Refresh(s).hosts, 4)
  {
    GetUnique(AGAIN, 0);
    LeaverIsTrimmedNow();
    FirstDueGoes(AGAIN, s.cached, 0, 1);
    RefreshRemovesIff(s, 1);
  }
}
