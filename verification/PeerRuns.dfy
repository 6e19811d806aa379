/** Runs of peer threads over the real routing table. */
module PeerRuns {
  import opened Base
  import opened Table
  import opened FloydWarshall
  import opened Routes
  import opened Cache
  import opened RoutingState
  import opened Lookup
  import opened Runs
  import opened Witnesses
  import opened Peers

  // The peers that the table points into, by address.
  ghost function Owners(hs: seq<Host>): (o: map<Mac, nat>)
    ensures forall m: Mac :: m in o <==> OwnerIn(hs, m).Some?
    ensures forall m: Mac :: m in o ==> OwnerIn(hs, m) == Some(o[m])
  {
    var ms := set h | h in hs :: h.mac;
    assert forall m: Mac :: Has(hs, m) ==> Get(hs, m) in hs && m in ms;
    map m: Mac | m in ms && OwnerIn(hs, m).Some? :: OwnerIn(hs, m).value
  }

  function PeersOf(hs: seq<Host>): set<nat> {
    set h | h in hs && h.kind.Direct? :: h.kind.peer
  }

  // What the call behind an action does to the table, and the outcome it has.
  ghost predicate TableStep(rt: RState, s: Sys, a: Action, rt': RState)
    requires Inv(rt)
  {
    match a
    case AddLink(p, rtt, now, failed) =>
      p in s.peers && (rt', if failed then -2 else 0) == AddDirectLink(rt, p, Link(s.peers[p].mac, rtt, now))
    case MergeGraph(_, packet) => Step(rt, Update(packet), rt')
    case RemoveTable(p) => p in s.peers && rt' == RemoveDirectLink(rt, s.peers[p].mac).0
    case CheckOut(_, src, dst, got) =>
      && rt' == Queried(rt)
      && Answer(rt', src, dst).Found? && got == PeersOf(Answer(rt', src, dst).hosts)
    case CheckOutDropped(_, src, dst) => rt' == Queried(rt) && Answer(rt', src, dst).Dropped?
    case CheckOutFailed(_, src, dst) => rt' == Queried(rt) && Answer(rt', src, dst).Failed?
    case _ => rt' == rt
  }

  // Any interleaving over the table that starts with the local host alone.
  ghost predicate Behaviour(rts: seq<RState>, ss: seq<Sys>, acts: seq<Action>, local: Mac) {
    && SysRun(ss, acts) && |rts| == |ss| && rts[0] == Init(local)
    && forall t :: 0 <= t < |acts| ==> TableStepAt(rts, ss, acts, t)
  }

  ghost predicate TableStepAt(rts: seq<RState>, ss: seq<Sys>, acts: seq<Action>, t: nat) {
    && t + 1 < |rts| && t < |acts| && t < |ss|
    && (Inv(rts[t]) ==> TableStep(rts[t], ss[t], acts[t], rts[t + 1]))
  }

  // ---- the table seen as owners ----

  lemma OwnersDecide(hs: seq<Host>, o: map<Mac, nat>)
    requires forall m: Mac :: OwnerIn(hs, m) == if m in o then Some(o[m]) else None
    ensures Owners(hs) == o
  {
  }

  lemma AddLinkOwners(rt: RState, p: nat, l: Link)
    requires Inv(rt)
    ensures Inv(AddDirectLink(rt, p, l).0)
    ensures Owners(AddDirectLink(rt, p, l).0.hosts)
         == if l.dst == rt.local || l.dst in Owners(rt.hosts) then Owners(rt.hosts) else Owners(rt.hosts)[l.dst := p]
  {
    if l.dst != rt.local {
      MeasuredKeepsTable(rt.hosts, rt.local, p, l);
    }
    forall m: Mac ensures OwnerIn(AddDirectLink(rt, p, l).0.hosts, m)
                       == if l.dst == m && m != rt.local && OwnerIn(rt.hosts, m).None? then Some(p)
                          else OwnerIn(rt.hosts, m)
    {
      MeasureOwner(rt, p, l, m);
    }
    OneMoreOwner(rt.hosts, AddDirectLink(rt, p, l).0.hosts, l.dst, p, l.dst == rt.local);
  }

  lemma OneMoreOwner(hs: seq<Host>, hs': seq<Host>, m: Mac, p: nat, refused: bool)
    requires forall k: Mac ::
               OwnerIn(hs', k) == if k == m && !refused && OwnerIn(hs, k).None? then Some(p) else OwnerIn(hs, k)
    ensures Owners(hs') == if refused || m in Owners(hs) then Owners(hs) else Owners(hs)[m := p]
  {
  }

  lemma RemoveTableOwners(rt: RState, m: Mac)
    requires Inv(rt)
    ensures Inv(RemoveDirectLink(rt, m).0)
    ensures Owners(RemoveDirectLink(rt, m).0.hosts) == Owners(rt.hosts) - {m}
  {
    var rt' := RemoveDirectLink(rt, m).0;
    StepKeepsInv(rt, Unregister(m), rt');
    forall k: Mac ensures OwnerIn(rt'.hosts, k) == if k == m then None else OwnerIn(rt.hosts, k) {
      UnregisterOwner(rt, m, k);
    }
    OwnersDecide(rt'.hosts, Owners(rt.hosts) - {m});
  }

  lemma MergeOwners(rt: RState, op: Op, rt': RState)
    requires Inv(rt) && op.Update? && Step(rt, op, rt')
    ensures Inv(rt') && Owners(rt'.hosts) == Owners(rt.hosts)
  {
    StepKeepsInv(rt, op, rt');
    forall k: Mac ensures OwnerIn(rt'.hosts, k) == OwnerIn(rt.hosts, k) {
      StepOwner(rt, op, rt', k);
    }
    OwnersDecide(rt'.hosts, Owners(rt.hosts));
  }

  // Whatever peers a reader is given are owners. The local host, which answers a unicast packet for
  // it, is not a peer.
  lemma AnswersAreOwners(rt: RState, src: Mac, dst: Mac)
    requires Ready(rt) && Answer(rt, src, dst).Found?
    ensures PeersOf(Answer(rt, src, dst).hosts) <= Owners(rt.hosts).Values
  {
    var hs, o := Answer(rt, src, dst).hosts, Owners(rt.hosts);
    if !IsMulticast(dst) && dst == rt.local {
      UnicastToLocalFindsLocal(rt, src);
      return;
    }
    forall p | p in PeersOf(hs) ensures p in o.Values {
      var h :| h in hs && h.kind.Direct? && h.kind.peer == p;
      FoundAreDirect(rt, src, dst, h);
      GetMember(rt.hosts, h);
      assert h.mac in o && o[h.mac] == p;
    }
  }

  // The table refines its owners.
  lemma TableStepRefines(rt: RState, s: Sys, a: Action, rt': RState)
    requires Inv(rt) && TableStep(rt, s, a, rt')
    ensures Inv(rt') && rt'.local == rt.local && OwnerStep(Owners(rt.hosts), s, a, Owners(rt'.hosts))
  {
    match a
    case AddLink(p, rtt, now, _) => AddLinkOwners(rt, p, Link(s.peers[p].mac, rtt, now));
    case MergeGraph(_, packet) => MergeOwners(rt, Update(packet), rt');
    case RemoveTable(p) => RemoveTableOwners(rt, s.peers[p].mac);
    case CheckOut(_, src, dst, _) => AnswersAreOwners(rt', src, dst);
    case _ =>
  }

  // ---- the guard of the branch that drops the lock ----

  ghost predicate IsLookup(a: Action) { a.CheckOut? || a.CheckOutDropped? || a.CheckOutFailed? }

  // Whatever is asked, in whatever state, a lookup has an outcome.
  lemma EveryLookupHappens(rt: RState, s: Sys, t: nat, src: Mac, dst: Mac) returns (a: Action, rt': RState, s': Sys)
    requires Inv(rt) && t !in s.lists
    ensures IsLookup(a) && a.t == t && a.src == src && a.dst == dst
    ensures SysStep(s, a, s') && TableStep(rt, s, a, rt')
  {
    rt' := Queried(rt);
    match Answer(rt', src, dst)
    case Found(hs) =>
      a := CheckOut(t, src, dst, PeersOf(hs));
      s' := s.(rcount := s.rcount + 1, lists := s.lists[t := PeersOf(hs)]);
    case Dropped =>
      a := CheckOutDropped(t, src, dst);
      s' := s.(rcount := s.rcount - 1, drops := s.drops + 1);
    case Failed(_) =>
      a := CheckOutFailed(t, src, dst);
      s' := s;
  }

  // The action is a lookup for a multicast whose source has no link in use to local.
  ghost predicate MeetsGuard(rt: RState, a: Action) {
    IsLookup(a) && SourceCutOff(rt.hosts, rt.local, a.src, a.dst)
  }

  lemma GuardIffDropped(rt: RState, s: Sys, a: Action, rt': RState)
    requires Inv(rt) && TableStep(rt, s, a, rt')
    ensures MeetsGuard(rt, a) <==> a.CheckOutDropped?
  {
    if IsLookup(a) {
      DroppedIff(rt', a.src, a.dst);
    }
  }

  lemma {:induction false} TableKeepsInv(rts: seq<RState>, ss: seq<Sys>, acts: seq<Action>, local: Mac, t: nat)
    requires Behaviour(rts, ss, acts, local) && t < |ss|
    ensures Inv(rts[t]) && rts[t].local == local
    decreases t
  {
    if t == 0 {
      InitInv(local);
    } else {
      TableKeepsInv(rts, ss, acts, local, t - 1);
      assert TableStepAt(rts, ss, acts, t - 1);
      TableStepRefines(rts[t - 1], ss[t - 1], acts[t - 1], rts[t]);
    }
  }

  // No lookup among the first t actions met the guard.
  ghost predicate NoneCutOff(rts: seq<RState>, acts: seq<Action>, t: nat) {
    forall u :: 0 <= u < t && u < |rts| && u < |acts| ==> !MeetsGuard(rts[u], acts[u])
  }

  // ---- the theorems ----

  // In every interleaving the routing lock counts its holders if and only if no lookup so far was
  // for a multicast from a host of the table without a link in use to local.
  lemma {:induction false} LockCountsHoldersIff(rts: seq<RState>, ss: seq<Sys>, acts: seq<Action>, local: Mac, t: nat)
    requires Behaviour(rts, ss, acts, local) && t < |ss|
    ensures ss[t].rcount == |ss[t].lists| <==> NoneCutOff(rts, acts, t)
    ensures ss[t].drops == 0 <==> NoneCutOff(rts, acts, t)
    decreases t
  {
    LockCountsHoldersIffNoDrop(ss, acts, t);
    if t > 0 {
      LockCountsHoldersIff(rts, ss, acts, local, t - 1);
      TableKeepsInv(rts, ss, acts, local, t - 1);
      assert TableStepAt(rts, ss, acts, t - 1);
      GuardIffDropped(rts[t - 1], ss[t - 1], acts[t - 1], rts[t]);
    }
  }

  lemma {:induction false} RunKeepsSysInv(rts: seq<RState>, ss: seq<Sys>, acts: seq<Action>, local: Mac, t: nat)
    requires Behaviour(rts, ss, acts, local) && t < |ss| && ss[t].drops == 0
    ensures Inv(rts[t]) && SysInv(ss[t], Owners(rts[t].hosts))
    decreases t
  {
    if t == 0 {
      InitInv(local);
      assert Owners(Init(local).hosts) == map[];
    } else {
      LockCountsHoldersIffNoDrop(ss, acts, t);
      assert SysStepAt(ss, acts, t - 1) && TableStepAt(rts, ss, acts, t - 1);
      RunKeepsSysInv(rts, ss, acts, local, t - 1);
      TableStepRefines(rts[t - 1], ss[t - 1], acts[t - 1], rts[t]);
      StepKeepsSysInv(ss[t - 1], Owners(rts[t - 1].hosts), acts[t - 1], ss[t], Owners(rts[t].hosts));
    }
  }

  // In every interleaving in which no lookup meets the guard, no freed peer is in the table, in the
  // group, or in the hands of a reader.
  lemma NoFreedPeerIsHeld(rts: seq<RState>, ss: seq<Sys>, acts: seq<Action>, local: Mac, t: nat)
    requires Behaviour(rts, ss, acts, local) && t < |ss| && NoneCutOff(rts, acts, t)
    ensures Safe(ss[t], Owners(rts[t].hosts))
  {
    LockCountsHoldersIff(rts, ss, acts, local, t);
    RunKeepsSysInv(rts, ss, acts, local, t);
    InvIsSafe(ss[t], Owners(rts[t].hosts));
  }

  // ---- what a drop can do ----

  lemma PairPaths()
    ensures Forward(Graph(PAIR), 0, 1) == Some(1) && Path(Graph(PAIR), 1, 0) == 0
  {
    var w := Graph(PAIR);
    assert LinkKey(PAIR[0].links[0]) == 4;
    assert w[0][1] == Weight(PAIR, 0, 1) == 1000;
    assert w[1][0] == Weight(PAIR, 1, 0) == 0;
    PatternKept(w, 2, 0, 1);
    PatternKept(w, 2, 1, 0);
    NextIsNearer(w, 0, 1);
  }

  // A packet for the peer goes to it; a multicast from the peer is dropped, because the peer has
  // not announced a link back.
  lemma PairAnswers(rt: RState)
    requires Ready(rt) && rt.local == 2 && rt.hosts == PAIR
    ensures Answer(rt, 2, 4) == Found([PAIR[1]]) && Answer(rt, 4, 0x100_0000_0000) == Dropped
    ensures PeersOf([PAIR[1]]) == {1}
  {
    PairPaths();
    GetUnique(PAIR, 0);
    GetUnique(PAIR, 1);
    assert forall h :: h in [PAIR[1]] <==> h == PAIR[1];
  }

  // Some run ends with table rt and threads s.
  ghost predicate Reachable(local: Mac, rt: RState, s: Sys) {
    exists rts, ss, acts :: EndsIn(rts, ss, acts, local, rt, s)
  }

  ghost predicate EndsIn(rts: seq<RState>, ss: seq<Sys>, acts: seq<Action>, local: Mac, rt: RState, s: Sys) {
    Behaviour(rts, ss, acts, local) && rts[|rts| - 1] == rt && ss[|ss| - 1] == s
  }

  lemma StepAtPrefix(rts: seq<RState>, ss: seq<Sys>, acts: seq<Action>, rt: RState, s: Sys, a: Action, t: nat)
    requires TableStepAt(rts, ss, acts, t)
    ensures TableStepAt(rts + [rt], ss + [s], acts + [a], t)
  {
    assert (rts + [rt])[t] == rts[t] && (rts + [rt])[t + 1] == rts[t + 1];
    assert (ss + [s])[t] == ss[t] && (acts + [a])[t] == acts[t];
  }

  lemma BehaviourExtends(rts: seq<RState>, ss: seq<Sys>, acts: seq<Action>, local: Mac, a: Action, rt: RState, s: Sys)
    requires Behaviour(rts, ss, acts, local) && SysStep(ss[|ss| - 1], a, s)
    requires Inv(rts[|rts| - 1]) && TableStep(rts[|rts| - 1], ss[|ss| - 1], a, rt)
    ensures Behaviour(rts + [rt], ss + [s], acts + [a], local)
  {
    var rts', ss', acts' := rts + [rt], ss + [s], acts + [a];
    SysRunExtends(ss, acts, a, s);
    forall t: nat | t < |acts'| ensures TableStepAt(rts', ss', acts', t) {
      if t < |acts| {
        StepAtPrefix(rts, ss, acts, rt, s, a, t);
      } else {
        assert rts'[t] == rts[t] && rts'[t + 1] == rt && ss'[t] == ss[t] && acts'[t] == a;
      }
    }
  }

  lemma Extend(local: Mac, rt: RState, s: Sys, a: Action, rt': RState, s': Sys)
    requires Reachable(local, rt, s) && Inv(rt) && SysStep(s, a, s') && TableStep(rt, s, a, rt')
    ensures Reachable(local, rt', s')
  {
    var rts, ss, acts :| EndsIn(rts, ss, acts, local, rt, s);
    BehaviourExtends(rts, ss, acts, local, a, rt', s');
    assert EndsIn(rts + [rt'], ss + [s'], acts + [a], local, rt', s');
  }

  // Peer 1 as it passes through its life, with reader 7 holding held.
  function OneReader(group: map<Mac, nat>, pc: Pc, rcount: int, lists: map<nat, set<nat>>, drops: nat): Sys {
    Sys(group, map[1 := Peer(4, pc)], rcount, lists, 0, map[], drops)
  }

  lemma PeerStarts()
    ensures Inv(Init(2)) && Reachable(2, Init(2), OneReader(map[], IncomingInsert, 0, map[], 0))
  {
    var rt := Init(2);
    InitInv(2);
    assert EndsIn([rt], [START], [], 2, rt, START);
    Extend(2, rt, START, Spawn(1, 4, IncomingSend), rt, OneReader(map[], IncomingSend, 0, map[], 0));
    Extend(2, rt, OneReader(map[], IncomingSend, 0, map[], 0), Proceed(1), rt,
           OneReader(map[], IncomingInsert, 0, map[], 0));
  }

  lemma PeerJoins()
    ensures Inv(Init(2)) && Reachable(2, Init(2), OneReader(map[4 := 1], IncomingLink, 0, map[], 0))
  {
    PeerStarts();
    Extend(2, Init(2), OneReader(map[], IncomingInsert, 0, map[], 0), InsertGroup(1), Init(2),
           OneReader(map[4 := 1], IncomingLink, 0, map[], 0));
  }

  lemma PeerRegisters() returns (rt: RState)
    ensures Reachable(2, rt, OneReader(map[4 := 1], Serving, 0, map[], 0))
    ensures Ready(rt) && rt.local == 2 && rt.hosts == PAIR
  {
    PeerJoins();
    rt := FirstPeerRegisters();
    PeerLinks(Init(2), rt);
  }

  lemma PeerLinks(r0: RState, rt: RState)
    requires Inv(r0) && AddDirectLink(r0, 1, Link(4, 1000, 5)) == (rt, 0)
    requires Reachable(2, r0, OneReader(map[4 := 1], IncomingLink, 0, map[], 0))
    ensures Reachable(2, rt, OneReader(map[4 := 1], Serving, 0, map[], 0))
  {
    LinkThread();
    Extend(2, r0, OneReader(map[4 := 1], IncomingLink, 0, map[], 0), AddLink(1, 1000, 5, false), rt,
           OneReader(map[4 := 1], Serving, 0, map[], 0));
  }

  lemma LinkThread()
    ensures SysStep(OneReader(map[4 := 1], IncomingLink, 0, map[], 0), AddLink(1, 1000, 5, false),
                    OneReader(map[4 := 1], Serving, 0, map[], 0))
  {
  }

  lemma ReadersCome(rt: RState)
    requires Reachable(2, rt, OneReader(map[4 := 1], Serving, 0, map[], 0))
    requires Ready(rt) && rt.local == 2 && rt.hosts == PAIR
    ensures Reachable(2, rt, OneReader(map[4 := 1], Serving, 0, map[7 := {1}], 1))
  {
    PairAnswers(rt);
    Extend(2, rt, OneReader(map[4 := 1], Serving, 0, map[], 0), CheckOut(7, 2, 4, {1}), rt,
           OneReader(map[4 := 1], Serving, 1, map[7 := {1}], 0));
    Extend(2, rt, OneReader(map[4 := 1], Serving, 1, map[7 := {1}], 0), CheckOutDropped(8, 4, 0x100_0000_0000), rt,
           OneReader(map[4 := 1], Serving, 0, map[7 := {1}], 1));
  }

  lemma PeerLeavesGroup(rt: RState, lists: map<nat, set<nat>>)
    requires Inv(rt) && Reachable(2, rt, OneReader(map[4 := 1], Serving, 0, lists, 1))
    ensures Reachable(2, rt, OneReader(map[], LeaveTable, 0, lists, 1))
  {
    assert map[4 := 1] - {4} == map[];
    Extend(2, rt, OneReader(map[4 := 1], Serving, 0, lists, 1), Fail(1, LeaveBoth), rt,
           OneReader(map[4 := 1], LeaveBoth, 0, lists, 1));
    Extend(2, rt, OneReader(map[4 := 1], LeaveBoth, 0, lists, 1), RemoveGroup(1), rt,
           OneReader(map[], LeaveTable, 0, lists, 1));
  }

  lemma PeerLeavesTable(rt: RState, lists: map<nat, set<nat>>)
    requires Inv(rt) && Reachable(2, rt, OneReader(map[], LeaveTable, 0, lists, 1))
    ensures Reachable(2, RemoveDirectLink(rt, 4).0, OneReader(map[], Release, 0, lists, 1))
  {
    Extend(2, rt, OneReader(map[], LeaveTable, 0, lists, 1), RemoveTable(1), RemoveDirectLink(rt, 4).0,
           OneReader(map[], Release, 0, lists, 1));
  }

  lemma PeerIsFreed(rt: RState, lists: map<nat, set<nat>>)
    requires Inv(rt) && Reachable(2, rt, OneReader(map[], Release, 0, lists, 1))
    ensures Reachable(2, rt, OneReader(map[], Freed, 0, lists, 1))
  {
    Extend(2, rt, OneReader(map[], Release, 0, lists, 1), Free(1), rt, OneReader(map[], Freed, 0, lists, 1));
  }

  // One drop is enough: a reader holds peer 1, another reader's multicast is dropped, the lock is
  // then free to the writer, and peer 1 unregisters and is freed while it is still held.
  lemma DropLetsFreedPeerBeHeld() returns (rt: RState, s: Sys)
    ensures Reachable(2, rt, s) && s.drops == 1 && !Safe(s, Owners(rt.hosts))
  {
    var r1 := PeerRegisters();
    ReadersCome(r1);
    PeerLeavesGroup(r1, map[7 := {1}]);
    PeerLeavesTable(r1, map[7 := {1}]);
    RemoveTableOwners(r1, 4);
    rt := RemoveDirectLink(r1, 4).0;
    PeerIsFreed(rt, map[7 := {1}]);
    s := OneReader(map[], Freed, 0, map[7 := {1}], 1);
    assert !AllUnfreed(s, s.lists[7]) by {
      assert 1 in s.lists[7];
    }
  }
}
