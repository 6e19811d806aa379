/** What can still happen after any interleaving, and exactly when that is safe. */
module PeerFutures {
  import opened Base
  import opened Table
  import opened FloydWarshall
  import opened Cache
  import opened RoutingState
  import opened Lookup
  import opened Runs
  import opened Peers
  import opened PeerRuns

  // An interleaving so far: tables, threads, actions and the local address.
  datatype Past = Past(rts: seq<RState>, ss: seq<Sys>, acts: seq<Action>, local: Mac)

  ghost predicate Happened(h: Past) { Behaviour(h.rts, h.ss, h.acts, h.local) }

  // h' goes on from h, and no lookup meets the guard on the way.
  ghost predicate Continues(h: Past, h': Past) {
    && Happened(h') && h'.local == h.local && h.rts <= h'.rts && h.ss <= h'.ss && h.acts <= h'.acts
    && forall u :: |h.acts| <= u < |h'.acts| ==> StaysClear(h', u)
  }

  ghost predicate StaysClear(h: Past, u: nat) {
    u < |h.acts| && u < |h.rts| && !MeetsGuard(h.rts[u], h.acts[u])
  }

  ghost predicate EndsSafe(h: Past) {
    |h.ss| > 0 && |h.rts| > 0 && Safe(h.ss[|h.ss| - 1], Owners(h.rts[|h.rts| - 1].hosts))
  }

  // ---- building a continuation ----

  // Some continuation of h ends with table rt and threads s.
  ghost predicate Ahead(h: Past, rt: RState, s: Sys) {
    exists h' :: LeadsTo(h, h', rt, s)
  }

  ghost predicate LeadsTo(h: Past, h': Past, rt: RState, s: Sys) {
    Continues(h, h') && h'.rts[|h'.rts| - 1] == rt && h'.ss[|h'.ss| - 1] == s
  }

  lemma Here(h: Past)
    requires Happened(h)
    ensures Ahead(h, h.rts[|h.rts| - 1], h.ss[|h.ss| - 1])
  {
    assert LeadsTo(h, h, h.rts[|h.rts| - 1], h.ss[|h.ss| - 1]);
  }

  lemma GoOn(h: Past, rt: RState, s: Sys, a: Action, rt': RState, s': Sys)
    requires Ahead(h, rt, s) && Inv(rt) && SysStep(s, a, s') && TableStep(rt, s, a, rt') && !MeetsGuard(rt, a)
    ensures Ahead(h, rt', s')
  {
    var f :| LeadsTo(h, f, rt, s);
    var f' := Past(f.rts + [rt'], f.ss + [s'], f.acts + [a], f.local);
    BehaviourExtends(f.rts, f.ss, f.acts, f.local, a, rt', s');
    forall u: nat | |h.acts| <= u < |f'.acts| ensures StaysClear(f', u) {
      if u < |f.acts| {
        assert StaysClear(f, u);
      }
    }
    assert LeadsTo(h, f', rt', s');
  }

  // ---- after a drop ----

  lemma FreshKey<V>(m: map<nat, V>) returns (k: nat)
    ensures k !in m
  {
    var keys := m.Keys;
    k := AboveAll(keys);
  }

  lemma {:induction false} AboveAll(ks: set<nat>) returns (k: nat)
    ensures forall x :: x in ks ==> x < k
  {
    if ks == {} {
      k := 0;
    } else {
      var x :| x in ks;
      k := AboveAll(ks - {x});
      assert forall y :: y in ks ==> y == x || y in ks - {x};
      if k <= x {
        k := x + 1;
      }
    }
  }

  // Readers of the edge list come, or readers leave, until the lock's count is 0.
  lemma {:induction false} CountSettles(h: Past, rt: RState, s: Sys) returns (s': Sys)
    requires Ahead(h, rt, s) && Inv(rt) && Conserved(s)
    ensures Ahead(h, rt, s') && Conserved(s') && s'.rcount == 0 && s'.drops == s.drops
    decreases if s.rcount < 0 then -s.rcount else s.rcount
  {
    s' := s;
    if s.rcount < 0 {
      var t := FreshKey(s.lists);
      s' := s.(rcount := s.rcount + 1, lists := s.lists[t := {}]);
      MapSizes(s.lists, t, {});
      GoOn(h, rt, s, CheckOutEdges(t), rt, s');
      s' := CountSettles(h, rt, s');
    } else if s.rcount > 0 {
      var t := SomeReader(s);
      s' := s.(rcount := s.rcount - 1, lists := s.lists - {t});
      MapSizes(s.lists, t, {});
      GoOn(h, rt, s, CheckIn(t), rt, s');
      s' := CountSettles(h, rt, s');
    }
  }

  lemma SomeReader(s: Sys) returns (t: nat)
    requires |s.lists| > 0
    ensures t in s.lists
  {
    t :| t in s.lists.Keys;
  }

  function With(s: Sys, p: nat, m: Mac, pc: Pc): Sys {
    s.(peers := s.peers[p := Peer(m, pc)])
  }

  // A new peer thread registers in the table before it joins the group.
  lemma PeerComes(h: Past, rt: RState, s: Sys, p: nat, m: Mac)
    requires Ahead(h, rt, s) && Inv(rt) && s.rcount == 0 && p !in s.peers && m != rt.local
    ensures Ahead(h, AddDirectLink(rt, p, Link(m, 1, 0)).0, With(s, p, m, LinkstateInsert))
  {
    var s1, s2 := With(s, p, m, LinkstateLink), With(s, p, m, LinkstateInsert);
    GoOn(h, rt, s, Spawn(p, m, LinkstateLink), rt, s1);
    assert s2 == Move(s1, p, LinkstateInsert);
    GoOn(h, rt, s1, AddLink(p, 1, 0, false), AddDirectLink(rt, p, Link(m, 1, 0)).0, s2);
  }

  // It fails, and unregisters.
  lemma PeerGoes(h: Past, rt: RState, s: Sys, p: nat, m: Mac)
    requires Ahead(h, rt, With(s, p, m, LinkstateInsert)) && Inv(rt) && s.rcount == 0
    ensures Ahead(h, RemoveDirectLink(rt, m).0, With(s, p, m, Release))
  {
    assert With(s, p, m, LeaveTable) == Move(With(s, p, m, LinkstateInsert), p, LeaveTable);
    GoOn(h, rt, With(s, p, m, LinkstateInsert), Fail(p, LeaveTable), rt, With(s, p, m, LeaveTable));
    PeerUnregisters(h, rt, s, p, m);
  }

  lemma PeerUnregisters(h: Past, rt: RState, s: Sys, p: nat, m: Mac)
    requires Ahead(h, rt, With(s, p, m, LeaveTable)) && Inv(rt) && s.rcount == 0
    ensures Ahead(h, RemoveDirectLink(rt, m).0, With(s, p, m, Release))
  {
    assert With(s, p, m, Release) == Move(With(s, p, m, LeaveTable), p, Release);
    GoOn(h, rt, With(s, p, m, LeaveTable), RemoveTable(p), RemoveDirectLink(rt, m).0, With(s, p, m, Release));
  }

  lemma PeerEnds(h: Past, rt: RState, s: Sys, p: nat, m: Mac)
    requires Ahead(h, rt, With(s, p, m, Release)) && Inv(rt)
    ensures Ahead(h, rt, With(s, p, m, Freed))
  {
    assert With(s, p, m, Freed) == Move(With(s, p, m, Release), p, Freed);
    GoOn(h, rt, With(s, p, m, Release), Free(p), rt, With(s, p, m, Freed));
  }

  // Nobody owns m once some peer with that address has come and gone.
  lemma AddressIsFreed(h: Past, rt: RState, s: Sys, m: Mac) returns (rt': RState, s': Sys)
    requires Ahead(h, rt, s) && Inv(rt) && s.rcount == 0 && m != rt.local
    ensures Ahead(h, rt', s') && Inv(rt') && rt'.local == rt.local && OwnerIn(rt'.hosts, m) == None
    ensures s'.rcount == 0 && s'.lists == s.lists && s'.drops == s.drops
  {
    var p := FreshKey(s.peers);
    var l := Link(m, 1, 0);
    var rt1 := AddDirectLink(rt, p, l).0;
    StepKeepsInv(rt, Measure(p, l), rt1);
    PeerComes(h, rt, s, p, m);
    rt', s' := RemoveDirectLink(rt1, m).0, With(s, p, m, Release);
    StepKeepsInv(rt1, Unregister(m), rt');
    PeerGoes(h, rt1, s, p, m);
    UnregisterOwner(rt1, m, m);
  }

  // A peer that has just registered with time 1 for an address that nobody owned is the answer.
  lemma NewPeerIsAnswer(rt: RState, p: nat, m: Mac)
    requires Inv(rt) && m != rt.local && !IsMulticast(m) && OwnerIn(rt.hosts, m) == None
    ensures var rt' := AddDirectLink(rt, p, Link(m, 1, 0)).0;
            Ready(rt') && Answer(rt', m, m).Found? && PeersOf(Answer(rt', m, m).hosts) == {p}
  {
    var l := Link(m, 1, 0);
    var rt' := AddDirectLink(rt, p, l).0;
    NewLinkStays(rt, p, l);
    MeasureOwner(rt, p, l, m);
    UnitLinkIsAnswer(rt', l);
    PeersOfOne(Get(rt'.hosts, m), p);
  }

  lemma PeersOfOne(h: Host, p: nat)
    requires h.kind == Direct(p)
    ensures PeersOf([h]) == {p}
  {
    assert forall x :: x in [h] <==> x == h;
  }

  lemma NewLinkStays(rt: RState, p: nat, l: Link)
    requires Inv(rt) && l.dst != rt.local
    ensures var rt' := AddDirectLink(rt, p, l).0;
            Ready(rt') && rt'.local == rt.local && l in Get(rt'.hosts, rt.local).links
  {
    MeasuredKeepsTable(rt.hosts, rt.local, p, l);
    MeasuredLinks(rt.hosts, rt.local, p, l, l);
    TrimKeepsLocal(rt.(hosts := Measured(rt.hosts, rt.local, p, l)));
  }

  lemma UnitLinkIsAnswer(rt: RState, l: Link)
    requires Ready(rt) && l in Get(rt.hosts, rt.local).links && l.rtt == 1 && !IsMulticast(l.dst)
    ensures Has(rt.hosts, l.dst) && Answer(rt, l.dst, l.dst) == Found([Get(rt.hosts, l.dst)])
  {
    var h := Get(rt.hosts, rt.local);
    assert LinksOk(rt.hosts, h);
    LinkRttOf(h.links, l);
    var i, j := Idx(rt.hosts, rt.local), Idx(rt.hosts, l.dst);
    assert rt.cached[i][j] == Weight(rt.hosts, i, j) == 1;
    OnesStayDirect(rt.cached, |rt.cached|, i, j);
  }

  // One reader of the list gives way to one who is handed the new peer.
  lemma PeerIsHandedOut(h: Past, rt: RState, s: Sys, p: nat, m: Mac) returns (s': Sys, t: nat)
    requires Ahead(h, rt, With(s, p, m, LinkstateInsert)) && Ready(rt) && |s.lists| > 0 && !IsMulticast(m)
    requires Answer(rt, m, m).Found? && PeersOf(Answer(rt, m, m).hosts) == {p}
    ensures Ahead(h, rt, With(s', p, m, LinkstateInsert))
    ensures s'.rcount == s.rcount && t in s'.lists && s'.lists[t] == {p}
  {
    t := SomeReader(s);
    var s1 := s.(rcount := s.rcount - 1, lists := s.lists - {t});
    GoOn(h, rt, With(s, p, m, LinkstateInsert), CheckIn(t), rt, With(s1, p, m, LinkstateInsert));
    s' := s.(lists := s1.lists[t := {p}]);
    GoOn(h, rt, With(s1, p, m, LinkstateInsert), CheckOut(t, m, m, {p}), rt, With(s', p, m, LinkstateInsert));
  }

  // That peer unregisters, which the lock does not prevent, and is freed.
  lemma HeldPeerIsFreed(h: Past, rt: RState, s: Sys, m: Mac) returns (rt': RState, s': Sys)
    requires Ahead(h, rt, s) && Inv(rt) && s.rcount == 0 && |s.lists| > 0
    requires m != rt.local && !IsMulticast(m) && OwnerIn(rt.hosts, m) == None
    ensures Ahead(h, rt', s') && !Safe(s', Owners(rt'.hosts))
  {
    var p := FreshKey(s.peers);
    PeerComes(h, rt, s, p, m);
    NewPeerIsAnswer(rt, p, m);
    var rt1 := AddDirectLink(rt, p, Link(m, 1, 0)).0;
    var s1, t := PeerIsHandedOut(h, rt1, s, p, m);
    PeerGoes(h, rt1, s1, p, m);
    rt', s' := RemoveDirectLink(rt1, m).0, With(s1, p, m, Freed);
    StepKeepsInv(rt1, Unregister(m), rt');
    PeerEnds(h, rt', s1, p, m);
    assert !AllUnfreed(s', s'.lists[t]) by {
      assert p in s'.lists[t] && s'.peers[p].pc == Freed;
    }
  }

  // So once a drop has happened, some continuation that has no other ends with a freed peer in the
  // hands of a reader.
  lemma DropEndsUnsafe(h: Past, rt: RState, s: Sys) returns (h': Past)
    requires Ahead(h, rt, s) && Inv(rt) && Conserved(s) && s.drops > 0
    ensures Continues(h, h') && !EndsSafe(h')
  {
    var m: Mac := if rt.local == 4 then 6 else 4;
    var s1 := CountSettles(h, rt, s);
    var rt2, s2 := AddressIsFreed(h, rt, s1, m);
    var rt3, s3 := HeldPeerIsFreed(h, rt2, s2, m);
    h' :| LeadsTo(h, h', rt3, s3);
  }

  // ---- what a thread can always do ----

  function Joined(s: Sys, p: nat, m: Mac): Sys { s.(group := s.group[m := p]) }

  lemma DoInsert(h: Past, rt: RState, s: Sys, p: nat, m: Mac, pc: Pc)
    requires Ahead(h, rt, With(s, p, m, pc)) && Inv(rt) && s.gcount == 0
    requires m !in s.group && AfterInsert(pc, false).Some?
    ensures Ahead(h, rt, With(Joined(s, p, m), p, m, AfterInsert(pc, false).value))
  {
    var s1, s2 := With(s, p, m, pc), With(Joined(s, p, m), p, m, AfterInsert(pc, false).value);
    assert s2 == Move(s1, p, AfterInsert(pc, false).value).(group := s.group[m := p]);
    GoOn(h, rt, s1, InsertGroup(p), rt, s2);
  }

  lemma DoLink(h: Past, rt: RState, s: Sys, p: nat, m: Mac, pc: Pc)
    requires Ahead(h, rt, With(s, p, m, pc)) && Inv(rt) && s.rcount == 0 && m != rt.local && AfterLink(pc, false).Some?
    ensures Ahead(h, AddDirectLink(rt, p, Link(m, 1, 0)).0, With(s, p, m, AfterLink(pc, false).value))
  {
    var s1, s2 := With(s, p, m, pc), With(s, p, m, AfterLink(pc, false).value);
    assert s2 == Move(s1, p, AfterLink(pc, false).value);
    GoOn(h, rt, s1, AddLink(p, 1, 0, false), AddDirectLink(rt, p, Link(m, 1, 0)).0, s2);
  }

  lemma DoProceed(h: Past, rt: RState, s: Sys, p: nat, m: Mac, pc: Pc)
    requires Ahead(h, rt, With(s, p, m, pc)) && Inv(rt) && AfterSuccess(pc).Some?
    ensures Ahead(h, rt, With(s, p, m, AfterSuccess(pc).value))
  {
    var s1, s2 := With(s, p, m, pc), With(s, p, m, AfterSuccess(pc).value);
    assert s2 == Move(s1, p, AfterSuccess(pc).value);
    GoOn(h, rt, s1, Proceed(p), rt, s2);
  }

  lemma DoSpawn(h: Past, rt: RState, s: Sys, p: nat, m: Mac, first: Pc)
    requires Ahead(h, rt, s) && Inv(rt) && p !in s.peers && First(first)
    ensures Ahead(h, rt, With(s, p, m, first))
  {
    GoOn(h, rt, s, Spawn(p, m, first), rt, With(s, p, m, first));
  }

  // After any interleaving that leaves both locks free, a new peer for an address that is not in
  // the group can be started in each of the three ways, and comes to be served, in the group and
  // with its link measured.
  lemma EveryStartServes(h: Past, rt: RState, s: Sys, p: nat, m: Mac, first: Pc)
    requires Ahead(h, rt, s) && Inv(rt) && s.rcount == 0 && s.gcount == 0
    requires p !in s.peers && m !in s.group && m != rt.local && first in {InitialInsert, LinkstateLink, IncomingSend}
    ensures Ahead(h, AddDirectLink(rt, p, Link(m, 1, 0)).0, With(Joined(s, p, m), p, m, Serving))
  {
    DoSpawn(h, rt, s, p, m, first);
    if first == InitialInsert {
      InitialServes(h, rt, s, p, m);
    } else if first == LinkstateLink {
      LinkstateServes(h, rt, s, p, m);
    } else {
      IncomingServes(h, rt, s, p, m);
    }
  }

  lemma IncomingServes(h: Past, rt: RState, s: Sys, p: nat, m: Mac)
    requires Ahead(h, rt, With(s, p, m, IncomingSend)) && Inv(rt) && s.rcount == 0 && s.gcount == 0
    requires m !in s.group && m != rt.local
    ensures Ahead(h, AddDirectLink(rt, p, Link(m, 1, 0)).0, With(Joined(s, p, m), p, m, Serving))
  {
    DoProceed(h, rt, s, p, m, IncomingSend);
    DoInsert(h, rt, s, p, m, IncomingInsert);
    DoLink(h, rt, Joined(s, p, m), p, m, IncomingLink);
  }

  // What follows the insertion into group and table.
  lemma ProbedServes(h: Past, rt: RState, s: Sys, p: nat, m: Mac, pc: Pc)
    requires Ahead(h, rt, With(s, p, m, pc)) && Inv(rt) && pc in {InitialProbe, LinkstateProbe}
    ensures Ahead(h, rt, With(s, p, m, Serving))
  {
    DoProceed(h, rt, s, p, m, pc);
  }

  lemma InitialServes(h: Past, rt: RState, s: Sys, p: nat, m: Mac)
    requires Ahead(h, rt, With(s, p, m, InitialInsert)) && Inv(rt) && s.rcount == 0 && s.gcount == 0
    requires m !in s.group && m != rt.local
    ensures Ahead(h, AddDirectLink(rt, p, Link(m, 1, 0)).0, With(Joined(s, p, m), p, m, Serving))
  {
    DoInsert(h, rt, s, p, m, InitialInsert);
    DoLink(h, rt, Joined(s, p, m), p, m, InitialLink);
    AddLinkOwners(rt, p, Link(m, 1, 0));
    ProbedServes(h, AddDirectLink(rt, p, Link(m, 1, 0)).0, Joined(s, p, m), p, m, InitialProbe);
  }

  lemma LinkstateServes(h: Past, rt: RState, s: Sys, p: nat, m: Mac)
    requires Ahead(h, rt, With(s, p, m, LinkstateLink)) && Inv(rt) && s.rcount == 0 && s.gcount == 0
    requires m !in s.group && m != rt.local
    ensures Ahead(h, AddDirectLink(rt, p, Link(m, 1, 0)).0, With(Joined(s, p, m), p, m, Serving))
  {
    DoLink(h, rt, s, p, m, LinkstateLink);
    AddLinkOwners(rt, p, Link(m, 1, 0));
    InsertedServes(h, AddDirectLink(rt, p, Link(m, 1, 0)).0, s, p, m);
  }

  lemma InsertedServes(h: Past, rt: RState, s: Sys, p: nat, m: Mac)
    requires Ahead(h, rt, With(s, p, m, LinkstateInsert)) && Inv(rt) && s.gcount == 0 && m !in s.group
    ensures Ahead(h, rt, With(Joined(s, p, m), p, m, Serving))
  {
    DoInsert(h, rt, s, p, m, LinkstateInsert);
    ProbedServes(h, rt, Joined(s, p, m), p, m, LinkstateProbe);
  }

  // A peer that is served can be measured again and again.
  lemma ServedIsMeasured(h: Past, rt: RState, s: Sys, p: nat, m: Mac)
    requires Ahead(h, rt, With(s, p, m, Serving)) && Inv(rt) && s.rcount == 0 && m != rt.local
    ensures Ahead(h, AddDirectLink(rt, p, Link(m, 1, 0)).0, With(s, p, m, Serving))
  {
    DoLink(h, rt, s, p, m, Serving);
  }

  // Some continuation of h frees peer p.
  ghost predicate CanEnd(h: Past, p: nat) {
    exists rt, s :: Ahead(h, rt, s) && p in s.peers && s.peers[p].pc == Freed
  }

  lemma DoFail(h: Past, rt: RState, s: Sys, p: nat, m: Mac, pc: Pc, to: Pc)
    requires Ahead(h, rt, With(s, p, m, pc)) && Inv(rt) && JumpsTo(pc, to)
    ensures Ahead(h, rt, With(s, p, m, to))
  {
    assert With(s, p, m, to) == Move(With(s, p, m, pc), p, to);
    GoOn(h, rt, With(s, p, m, pc), Fail(p, to), rt, With(s, p, m, to));
  }

  lemma ReleaseEnds(h: Past, rt: RState, s: Sys, p: nat, m: Mac)
    requires Ahead(h, rt, With(s, p, m, Release)) && Inv(rt)
    ensures CanEnd(h, p)
  {
    PeerEnds(h, rt, s, p, m);
  }

  lemma LeaveTableEnds(h: Past, rt: RState, s: Sys, p: nat, m: Mac)
    requires Ahead(h, rt, With(s, p, m, LeaveTable)) && Inv(rt) && s.rcount == 0
    ensures CanEnd(h, p)
  {
    PeerUnregisters(h, rt, s, p, m);
    RemoveTableOwners(rt, m);
    ReleaseEnds(h, RemoveDirectLink(rt, m).0, s, p, m);
  }

  lemma LeaveGroupEnds(h: Past, rt: RState, s: Sys, p: nat, m: Mac)
    requires Ahead(h, rt, With(s, p, m, LeaveGroup)) && Inv(rt) && s.gcount == 0
    ensures CanEnd(h, p)
  {
    var left := s.(group := s.group - {m});
    assert With(left, p, m, Release) == Move(With(s, p, m, LeaveGroup), p, Release).(group := s.group - {m});
    GoOn(h, rt, With(s, p, m, LeaveGroup), RemoveGroup(p), rt, With(left, p, m, Release));
    ReleaseEnds(h, rt, left, p, m);
  }

  lemma LeaveBothEnds(h: Past, rt: RState, s: Sys, p: nat, m: Mac)
    requires Ahead(h, rt, With(s, p, m, LeaveBoth)) && Inv(rt) && s.rcount == 0 && s.gcount == 0
    ensures CanEnd(h, p)
  {
    LeavesGroup(h, rt, s, p, m);
    LeaveTableEnds(h, rt, s.(group := s.group - {m}), p, m);
  }

  lemma LeaveTableFirstEnds(h: Past, rt: RState, s: Sys, p: nat, m: Mac)
    requires Ahead(h, rt, With(s, p, m, LeaveTableFirst)) && Inv(rt) && s.rcount == 0 && s.gcount == 0
    ensures CanEnd(h, p)
  {
    var rt' := RemoveDirectLink(rt, m).0;
    assert With(s, p, m, LeaveGroup) == Move(With(s, p, m, LeaveTableFirst), p, LeaveGroup);
    GoOn(h, rt, With(s, p, m, LeaveTableFirst), RemoveTable(p), rt', With(s, p, m, LeaveGroup));
    RemoveTableOwners(rt, m);
    LeaveGroupEnds(h, rt', s, p, m);
  }

  // The calls that fail for the local address jump to the label behind the group.
  lemma LocalLinkEnds(h: Past, rt: RState, s: Sys, p: nat, m: Mac, pc: Pc)
    requires Ahead(h, rt, With(s, p, m, pc)) && Inv(rt) && s.rcount == 0 && s.gcount == 0
    requires m == rt.local && pc in {InitialLink, IncomingLink}
    ensures CanEnd(h, p)
  {
    assert With(s, p, m, LeaveGroup) == Move(With(s, p, m, pc), p, LeaveGroup);
    GoOn(h, rt, With(s, p, m, pc), AddLink(p, 1, 0, true), rt, With(s, p, m, LeaveGroup));
    LeaveGroupEnds(h, rt, s, p, m);
  }

  lemma LinkEnds(h: Past, rt: RState, s: Sys, p: nat, m: Mac, pc: Pc)
    requires Ahead(h, rt, With(s, p, m, pc)) && Inv(rt) && s.rcount == 0 && s.gcount == 0
    requires m != rt.local && pc in {InitialLink, IncomingLink}
    ensures CanEnd(h, p)
  {
    var rt' := AddDirectLink(rt, p, Link(m, 1, 0)).0;
    AddLinkOwners(rt, p, Link(m, 1, 0));
    DoLink(h, rt, s, p, m, pc);
    if pc == InitialLink {
      DoFail(h, rt', s, p, m, InitialProbe, LeaveTableFirst);
      LeaveTableFirstEnds(h, rt', s, p, m);
    } else {
      DoFail(h, rt', s, p, m, Serving, LeaveBoth);
      LeaveBothEnds(h, rt', s, p, m);
    }
  }

  lemma InsertEnds(h: Past, rt: RState, s: Sys, p: nat, m: Mac)
    requires Ahead(h, rt, With(s, p, m, IncomingInsert)) && Inv(rt) && s.rcount == 0 && s.gcount == 0
    ensures CanEnd(h, p)
  {
    if m in s.group {
      assert With(s, p, m, Release) == Move(With(s, p, m, IncomingInsert), p, Release);
      GoOn(h, rt, With(s, p, m, IncomingInsert), InsertGroup(p), rt, With(s, p, m, Release));
      ReleaseEnds(h, rt, s, p, m);
    } else {
      DoInsert(h, rt, s, p, m, IncomingInsert);
      if m == rt.local {
        LocalLinkEnds(h, rt, Joined(s, p, m), p, m, IncomingLink);
      } else {
        LinkEnds(h, rt, Joined(s, p, m), p, m, IncomingLink);
      }
    }
  }

  // Wherever a thread stands, once both locks are free it can come to its end.
  lemma AnyThreadCanEnd(h: Past, rt: RState, s: Sys, p: nat, m: Mac, pc: Pc)
    requires Ahead(h, rt, With(s, p, m, pc)) && Inv(rt) && s.rcount == 0 && s.gcount == 0
    ensures CanEnd(h, p)
  {
    match pc
    case Freed => assert With(s, p, m, Freed).peers[p].pc == Freed;
    case Release => ReleaseEnds(h, rt, s, p, m);
    case LeaveGroup => LeaveGroupEnds(h, rt, s, p, m);
    case LeaveTable => LeaveTableEnds(h, rt, s, p, m);
    case LeaveTableFirst => LeaveTableFirstEnds(h, rt, s, p, m);
    case LeaveBoth => LeaveBothEnds(h, rt, s, p, m);
    case IncomingInsert => InsertEnds(h, rt, s, p, m);
    case InitialLink => LinkedCanEnd(h, rt, s, p, m, pc);
    case IncomingLink => LinkedCanEnd(h, rt, s, p, m, pc);
    case _ => FailureEnds(h, rt, s, p, m, pc);
  }

  lemma LinkedCanEnd(h: Past, rt: RState, s: Sys, p: nat, m: Mac, pc: Pc)
    requires Ahead(h, rt, With(s, p, m, pc)) && Inv(rt) && s.rcount == 0 && s.gcount == 0
    requires pc in {InitialLink, IncomingLink}
    ensures CanEnd(h, p)
  {
    if m == rt.local {
      LocalLinkEnds(h, rt, s, p, m, pc);
    } else {
      LinkEnds(h, rt, s, p, m, pc);
    }
  }

  // The places where any error leads to a label.
  lemma FailureEnds(h: Past, rt: RState, s: Sys, p: nat, m: Mac, pc: Pc)
    requires Ahead(h, rt, With(s, p, m, pc)) && Inv(rt) && s.rcount == 0 && s.gcount == 0
    requires pc in {InitialInsert, InitialProbe, LinkstateLink, LinkstateInsert, LinkstateProbe, IncomingSend, Serving}
    ensures CanEnd(h, p)
  {
    if pc == InitialProbe {
      DoFail(h, rt, s, p, m, pc, LeaveTableFirst);
      LeaveTableFirstEnds(h, rt, s, p, m);
    } else if pc == LinkstateInsert {
      DoFail(h, rt, s, p, m, pc, LeaveTable);
      LeaveTableEnds(h, rt, s, p, m);
    } else if pc in {LinkstateProbe, Serving} {
      DoFail(h, rt, s, p, m, pc, LeaveBoth);
      LeaveBothEnds(h, rt, s, p, m);
    } else {
      DoFail(h, rt, s, p, m, pc, Release);
      ReleaseEnds(h, rt, s, p, m);
    }
  }

  lemma LeavesGroup(h: Past, rt: RState, s: Sys, p: nat, m: Mac)
    requires Ahead(h, rt, With(s, p, m, LeaveBoth)) && Inv(rt) && s.gcount == 0
    ensures Ahead(h, rt, With(s.(group := s.group - {m}), p, m, LeaveTable))
  {
    var s1, s2 := With(s, p, m, LeaveBoth), With(s.(group := s.group - {m}), p, m, LeaveTable);
    assert s2 == Move(s1, p, LeaveTable).(group := s.group - {m});
    GoOn(h, rt, s1, RemoveGroup(p), rt, s2);
  }

  // ---- the exact condition ----

  // Every continuation without a lookup that meets the guard is safe if and only if no lookup so
  // far has met it.
  lemma SafeFromHereIff(h: Past)
    requires Happened(h)
    ensures (forall h' :: Continues(h, h') ==> EndsSafe(h')) <==> NoneCutOff(h.rts, h.acts, |h.acts|)
  {
    var n := |h.acts|;
    LockCountsHoldersIff(h.rts, h.ss, h.acts, h.local, n);
    if NoneCutOff(h.rts, h.acts, n) {
      forall h' | Continues(h, h') ensures EndsSafe(h') {
        ClearIsSafe(h, h');
      }
    } else {
      LockCountsHoldersIffNoDrop(h.ss, h.acts, n);
      TableKeepsInv(h.rts, h.ss, h.acts, h.local, n);
      Here(h);
      var h' := DropEndsUnsafe(h, h.rts[n], h.ss[n]);
    }
  }

  lemma ClearIsSafe(h: Past, h': Past)
    requires Happened(h) && Continues(h, h') && NoneCutOff(h.rts, h.acts, |h.acts|)
    ensures EndsSafe(h')
  {
    forall u | 0 <= u < |h'.acts| ensures !MeetsGuard(h'.rts[u], h'.acts[u]) {
      if u < |h.acts| {
        assert h'.rts[u] == h.rts[u] && h'.acts[u] == h.acts[u];
      } else {
        assert StaysClear(h', u);
      }
    }
    NoFreedPeerIsHeld(h'.rts, h'.ss, h'.acts, h'.local, |h'.acts|);
  }
}
