/** Whole runs of the routing table, from the registration of the local host. */
module Runs {
  import opened Base
  import opened SortedList
  import opened Table
  import opened Wire
  import opened FloydWarshall
  import opened Cache
  import opened Merge
  import opened RoutingState
  import opened Lookup

  // states[t + 1] is what the operation ops[t] makes of states[t].
  ghost predicate Run(states: seq<RState>, ops: seq<Op>, local: Mac) {
    && |states| == |ops| + 1 && states[0] == Init(local)
    && forall t :: 0 <= t < |ops| ==> MovesAt(states, ops, t)
  }

  ghost predicate MovesAt(states: seq<RState>, ops: seq<Op>, t: nat) {
    t + 1 < |states| && t < |ops| && (Inv(states[t]) ==> Step(states[t], ops[t], states[t + 1]))
  }

  // Every state of every run satisfies the table invariant, and its matrices are those of its
  // table whenever their sizes agree.
  lemma {:induction false} RunKeepsInv(states: seq<RState>, ops: seq<Op>, local: Mac, t: nat)
    requires Run(states, ops, local) && t < |states|
    ensures Inv(states[t]) && states[t].local == local
    ensures |states[t].cached| == |states[t].hosts| ==> states[t].cached == Graph(states[t].hosts)
    decreases t
  {
    InitInv(local);
    if t > 0 {
      RunKeepsInv(states, ops, local, t - 1);
      assert MovesAt(states, ops, t - 1);
      StepKeepsInv(states[t - 1], ops[t - 1], states[t]);
    }
  }

  // In every reachable state, whoever is returned for a packet not addressed to local is a direct peer.
  lemma ReachableAnswersAreDirect(states: seq<RState>, ops: seq<Op>, local: Mac, t: nat, src: Mac, dst: Mac)
    requires Run(states, ops, local) && t < |states| && (IsMulticast(dst) || dst != local)
    ensures Ready(Queried(states[t]))
    ensures var q := Answer(Queried(states[t]), src, dst); q.Found? ==>
      forall h :: h in q.hosts ==> h in states[t].hosts && h.kind.Direct? && LocalLink(states[t].hosts, local, h.mac)
  {
    RunKeepsInv(states, ops, local, t);
    var s := Queried(states[t]);
    var q := Answer(s, src, dst);
    if q.Found? {
      forall h | h in q.hosts ensures h in s.hosts && h.kind.Direct? && LocalLink(s.hosts, local, h.mac) {
        FoundAreDirect(s, src, dst, h);
      }
    }
  }

  // ---- who is direct ----

  // The peer whose record the table points into for address m, if m is direct.
  ghost function OwnerIn(hs: seq<Host>, m: Mac): Option<nat> {
    if Has(hs, m) && Get(hs, m).kind.Direct? then Some(Get(hs, m).kind.peer) else None
  }

  // The peer that the operations leave registered for m: the first to measure a link to m since
  // the last removal.
  function Owner(ops: seq<Op>, local: Mac, m: Mac): Option<nat> {
    if |ops| == 0 then None
    else
      var before := Owner(ops[..|ops| - 1], local, m);
      match ops[|ops| - 1]
      case Measure(peer, l) => if l.dst == m && m != local && before.None? then Some(peer) else before
      case Unregister(k) => if k == m then None else before
      case _ => before
  }

  lemma RefreshKeepsOwner(s: RState, m: Mac)
    requires TableOk(s.hosts, s.local) && Adjacency(s.cached)
    ensures OwnerIn(Refresh(s).hosts, m) == OwnerIn(s.hosts, m)
  {
  }

  lemma MeasureOwner(s: RState, peer: nat, l: Link, m: Mac)
    requires Inv(s)
    ensures OwnerIn(AddDirectLink(s, peer, l).0.hosts, m)
         == if l.dst == m && m != s.local && OwnerIn(s.hosts, m).None? then Some(peer) else OwnerIn(s.hosts, m)
  {
    if l.dst != s.local {
      MeasuredIsEdit(s.hosts, s.local, peer, l);
      MeasuredKeepsTable(s.hosts, s.local, peer, l);
      RefreshKeepsOwner(s.(hosts := Measured(s.hosts, s.local, peer, l)), m);
      if Has(s.hosts, m) {
        assert KindOk(s.hosts, s.local, Get(s.hosts, m));
      }
      assert KindOk(s.hosts, s.local, Get(s.hosts, s.local));
    }
  }

  lemma UnregisterOwner(s: RState, k: Mac, m: Mac)
    requires Inv(s)
    ensures OwnerIn(RemoveDirectLink(s, k).0.hosts, m) == if k == m then None else OwnerIn(s.hosts, m)
  {
    if LocalLink(s.hosts, s.local, k) {
      LinkTarget(s.hosts, Get(s.hosts, s.local), k);
      UnregisteredIsEdit(s.hosts, s.local, k);
      UnregisteredKeepsTable(s.hosts, s.local, k);
      RefreshKeepsOwner(s.(hosts := Unregistered(s.hosts, s.local, k)), m);
      assert KindOk(s.hosts, s.local, Get(s.hosts, s.local));
    } else if Has(s.hosts, k) {
      assert KindOk(s.hosts, s.local, Get(s.hosts, k));
    }
  }

  lemma UpdateOwner(s: RState, packet: seq<WireEdge>, es: seq<WireEdge>, hs: seq<Host>, s': RState, m: Mac)
    requires Inv(s) && UpdateStep(s, packet, es, hs, s')
    ensures OwnerIn(s'.hosts, m) == OwnerIn(s.hosts, m)
  {
    RefreshKeepsOwner(s.(hosts := hs), m);
    if Has(s.hosts, m) {
      MergeKeepsLocal(s.hosts, es, hs, m);
    } else if Has(hs, m) {
      MergedLookup(s.hosts, Taken(s.hosts, es), es, hs, m);
    }
  }

  lemma StepOwner(s: RState, op: Op, s': RState, m: Mac)
    requires Inv(s) && Step(s, op, s')
    ensures OwnerIn(s'.hosts, m) ==
            match op
            case Measure(peer, l) =>
              if l.dst == m && m != s.local && OwnerIn(s.hosts, m).None? then Some(peer) else OwnerIn(s.hosts, m)
            case Unregister(k) => if k == m then None else OwnerIn(s.hosts, m)
            case _ => OwnerIn(s.hosts, m)
  {
    match op
    case Measure(peer, l) => MeasureOwner(s, peer, l, m);
    case Unregister(k) => UnregisterOwner(s, k, m);
    case Update(packet) =>
      var es, hs :| UpdateStep(s, packet, es, hs, s');
      UpdateOwner(s, packet, es, hs, s', m);
    case Query =>
  }

  lemma OwnedIffLinked(hs: seq<Host>, local: Mac, m: Mac)
    requires TableOk(hs, local)
    ensures LocalLink(hs, local, m) <==> OwnerIn(hs, m).Some?
  {
  }

  // Over every run, which hosts are direct and whose they are depends on measurements and removals
  // alone, and direct means linked from local.
  lemma {:induction false} DirectIffRegistered(states: seq<RState>, ops: seq<Op>, local: Mac, t: nat, m: Mac)
    requires Run(states, ops, local) && t < |states|
    ensures OwnerIn(states[t].hosts, m) == Owner(ops[..t], local, m)
    ensures LocalLink(states[t].hosts, local, m) <==> Owner(ops[..t], local, m).Some?
    decreases t
  {
    RunKeepsInv(states, ops, local, t);
    if t > 0 {
      DirectIffRegistered(states, ops, local, t - 1, m);
      RunKeepsInv(states, ops, local, t - 1);
      assert MovesAt(states, ops, t - 1);
      StepOwner(states[t - 1], ops[t - 1], states[t], m);
      assert ops[..t][..t - 1] == ops[..t - 1];
    }
    OwnedIffLinked(states[t].hosts, local, m);
  }

  // ---- the local host ----

  // Trimming leaves the local host as it is: everything it links to is direct.
  lemma TrimKeepsLocal(s: RState)
    requires TableOk(s.hosts, s.local) && Adjacency(s.cached)
    ensures Get(Trimmed(s), s.local) == Get(s.hosts, s.local)
  {
    var hs := Trimmed(s);
    var a, b := Get(s.hosts, s.local), Get(hs, s.local);
    assert Pruned(a, hs, b) && LinksOk(s.hosts, a) && LinksOk(hs, b);
    forall l ensures l in a.links <==> l in b.links {
      if l in a.links {
        HasKeyMember(a.links, LinkKey, l);
        assert KindOk(s.hosts, s.local, Get(s.hosts, l.dst));
      }
    }
    StrictUnique(a.links, b.links, LinkKey);
  }

  // A received packet, with the trimming it causes, never changes the local host or its links.
  lemma PacketsKeepLocal(s: RState, packet: seq<WireEdge>, s': RState)
    requires Inv(s) && Step(s, Update(packet), s')
    ensures Has(s'.hosts, s.local) && Get(s'.hosts, s.local) == Get(s.hosts, s.local)
  {
    var es, hs :| UpdateStep(s, packet, es, hs, s');
    assert KindOk(s.hosts, s.local, Get(s.hosts, s.local));
    MergeKeepsLocal(s.hosts, es, hs, s.local);
    TrimKeepsLocal(s.(hosts := hs));
  }

  // ---- timestamps ----

  lemma RefreshKeepsMark(s: RState, m: Mac)
    requires TableOk(s.hosts, s.local) && Adjacency(s.cached) && Has(Refresh(s).hosts, m)
    ensures Has(s.hosts, m) && Get(Refresh(s).hosts, m).maxTs == Get(s.hosts, m).maxTs
  {
    var hs := Trimmed(s);
    assert Pruned(Get(s.hosts, m), hs, Get(hs, m));
  }

  lemma EditRaisesMark(hs: seq<Host>, local: Mac, k: Mac, linked: bool, hs': seq<Host>, m: Mac)
    requires LocalEdit(hs, local, k, linked, hs') && Has(hs, m) && Has(hs', m)
    ensures Get(hs', m).maxTs >= Get(hs, m).maxTs
  {
  }

  lemma MeasureRaisesMark(s: RState, peer: nat, l: Link, m: Mac)
    requires Inv(s) && l.dst != s.local && Has(s.hosts, m) && Has(AddDirectLink(s, peer, l).0.hosts, m)
    ensures Get(AddDirectLink(s, peer, l).0.hosts, m).maxTs >= Get(s.hosts, m).maxTs
  {
    var hs := Measured(s.hosts, s.local, peer, l);
    MeasuredIsEdit(s.hosts, s.local, peer, l);
    MeasuredKeepsTable(s.hosts, s.local, peer, l);
    RefreshKeepsMark(s.(hosts := hs), m);
    EditRaisesMark(s.hosts, s.local, l.dst, true, hs, m);
  }

  lemma UnregisterRaisesMark(s: RState, k: Mac, m: Mac)
    requires Inv(s) && LocalLink(s.hosts, s.local, k) && Has(s.hosts, m) && Has(RemoveDirectLink(s, k).0.hosts, m)
    ensures Get(RemoveDirectLink(s, k).0.hosts, m).maxTs >= Get(s.hosts, m).maxTs
  {
    LinkTarget(s.hosts, Get(s.hosts, s.local), k);
    var hs := Unregistered(s.hosts, s.local, k);
    UnregisteredIsEdit(s.hosts, s.local, k);
    UnregisteredKeepsTable(s.hosts, s.local, k);
    RefreshKeepsMark(s.(hosts := hs), m);
    EditRaisesMark(s.hosts, s.local, k, false, hs, m);
  }

  lemma StepRaisesMark(s: RState, op: Op, s': RState, m: Mac)
    requires Inv(s) && Step(s, op, s') && Has(s.hosts, m) && Has(s'.hosts, m)
    ensures Get(s'.hosts, m).maxTs >= Get(s.hosts, m).maxTs
  {
    match op
    case Measure(peer, l) =>
      if l.dst != s.local {
        MeasureRaisesMark(s, peer, l, m);
      }
    case Unregister(k) =>
      if LocalLink(s.hosts, s.local, k) {
        UnregisterRaisesMark(s, k, m);
      }
    case Update(packet) =>
      var es, hs :| UpdateStep(s, packet, es, hs, s');
      MergeKeepsLocal(s.hosts, es, hs, m);
      RefreshKeepsMark(s.(hosts := hs), m);
    case Query =>
  }

  // While a host stays in the table its mark never decreases.
  lemma {:induction false} MarksNeverDecrease(states: seq<RState>, ops: seq<Op>, local: Mac, a: nat, b: nat, m: Mac)
    requires Run(states, ops, local) && a <= b < |states|
    requires forall t :: a <= t <= b ==> Has(states[t].hosts, m)
    ensures Get(states[a].hosts, m).maxTs <= Get(states[b].hosts, m).maxTs
    decreases b
  {
    if a < b {
      MarksNeverDecrease(states, ops, local, a, b - 1, m);
      RunKeepsInv(states, ops, local, b - 1);
      assert MovesAt(states, ops, b - 1);
      StepRaisesMark(states[b - 1], ops[b - 1], states[b], m);
    }
  }

  // ---- exported edges ----

  lemma RefreshExports(s: RState, e: WireEdge)
    requires TableOk(s.hosts, s.local) && Adjacency(s.cached) && e in Refresh(s).edges
    ensures e in s.edges || Describes(Refresh(s).hosts, e)
  {
    var hs := Trimmed(s);
    TablesAreExportable(hs, s.local);
    if e !in s.edges {
      ExportDescribes(hs, Graph(hs), |hs|, e);
    }
  }

  lemma StepExports(s: RState, op: Op, s': RState, e: WireEdge)
    requires Inv(s) && Step(s, op, s') && e in s'.edges
    ensures e in s.edges || Describes(s'.hosts, e)
  {
    match op
    case Measure(peer, l) =>
      if l.dst != s.local {
        MeasuredKeepsTable(s.hosts, s.local, peer, l);
        RefreshExports(s.(hosts := Measured(s.hosts, s.local, peer, l)), e);
      }
    case Unregister(k) =>
      if LocalLink(s.hosts, s.local, k) {
        LinkTarget(s.hosts, Get(s.hosts, s.local), k);
        UnregisteredKeepsTable(s.hosts, s.local, k);
        RefreshExports(s.(hosts := Unregistered(s.hosts, s.local, k)), e);
      }
    case Update(packet) =>
      var es, hs :| UpdateStep(s, packet, es, hs, s');
      RefreshExports(s.(hosts := hs), e);
    case Query =>
  }

  // Every record ever exported decodes to a link, never to oneself, that the table held after some
  // operation; records accumulate and are never withdrawn.
  lemma {:induction false} ExportsWereLinks(states: seq<RState>, ops: seq<Op>, local: Mac, t: nat, e: WireEdge)
    requires Run(states, ops, local) && t < |states| && e in states[t].edges
    ensures e.src != e.dst && exists u :: 0 <= u <= t && Describes(states[u].hosts, e)
    decreases t
  {
    if t > 0 {
      RunKeepsInv(states, ops, local, t - 1);
      assert MovesAt(states, ops, t - 1);
      StepExports(states[t - 1], ops[t - 1], states[t], e);
      RunKeepsInv(states, ops, local, t);
      if e in states[t - 1].edges {
        ExportsWereLinks(states, ops, local, t - 1, e);
      } else {
        var h, l :| h in states[t].hosts && l in h.links && e.src == h.mac && e.dst == l.dst
                    && Rtt(e) == l.rtt && Ts(e) == l.ts;
        assert LinksOk(states[t].hosts, h);
      }
    }
  }

  // ---- the list of edges as history ----

  // The operation ends in update_cache.
  ghost predicate Refreshes(s: RState, op: Op) {
    match op
    case Measure(_, l) => l.dst != s.local
    case Unregister(m) => LocalLink(s.hosts, s.local, m)
    case Update(_) => true
    case Query => false
  }

  // One pass of update_exported_edges over the table appends e.
  ghost predicate Exported(hs: seq<Host>, e: WireEdge) {
    Exportable(hs) && e in Export(hs, Graph(hs), |hs|)
  }

  lemma StepLists(s: RState, op: Op, s': RState)
    requires Inv(s) && Step(s, op, s')
    ensures Exportable(s'.hosts)
    ensures s'.edges == s.edges + if Refreshes(s, op) then Export(s'.hosts, Graph(s'.hosts), |s'.hosts|) else []
  {
    StepKeepsInv(s, op, s');
    TablesAreExportable(s'.hosts, s'.local);
  }

  lemma RunLists(states: seq<RState>, ops: seq<Op>, local: Mac, t: nat)
    requires Run(states, ops, local) && 0 < t < |states|
    ensures Inv(states[t]) && states[t].local == local && Exportable(states[t].hosts)
    ensures states[t].edges == states[t - 1].edges
                               + if Refreshes(states[t - 1], ops[t - 1])
                                 then Export(states[t].hosts, Graph(states[t].hosts), |states[t].hosts|) else []
  {
    RunKeepsInv(states, ops, local, t - 1);
    RunKeepsInv(states, ops, local, t);
    assert MovesAt(states, ops, t - 1);
    StepLists(states[t - 1], ops[t - 1], states[t]);
  }

  // The list that rt_get_edges hands out only ever grows.
  lemma {:induction false} ListGrows(states: seq<RState>, ops: seq<Op>, local: Mac, a: nat, b: nat)
    requires Run(states, ops, local) && a <= b < |states|
    ensures states[a].edges <= states[b].edges
    decreases b
  {
    if a < b {
      ListGrows(states, ops, local, a, b - 1);
      RunLists(states, ops, local, b);
    }
  }

  // Operation u, counted from 1, is one that appends e.
  ghost predicate AppendsAt(states: seq<RState>, ops: seq<Op>, u: nat, e: WireEdge) {
    0 < u < |states| && u <= |ops| && Refreshes(states[u - 1], ops[u - 1]) && Exported(states[u].hosts, e)
  }

  // It holds exactly the records that some operation so far appended, those of links that are gone
  // included.
  lemma {:induction false} ListIsHistory(states: seq<RState>, ops: seq<Op>, local: Mac, t: nat, e: WireEdge)
    requires Run(states, ops, local) && t < |states|
    ensures e in states[t].edges <==> exists u :: 0 <= u <= t && AppendsAt(states, ops, u, e)
    decreases t
  {
    if t > 0 {
      ListIsHistory(states, ops, local, t - 1, e);
      RunLists(states, ops, local, t);
      assert e in states[t].edges <==> e in states[t - 1].edges || AppendsAt(states, ops, t, e);
      if u :| 0 <= u <= t && AppendsAt(states, ops, u, e) {
        assert u == t || u <= t - 1;
      }
    }
  }

  // Operation u appends a record of the pair.
  ghost predicate SendsAt(states: seq<RState>, ops: seq<Op>, u: nat, s: Mac, d: Mac) {
    exists e :: AppendsAt(states, ops, u, e) && e.src == s && e.dst == d
  }

  ghost predicate SentBefore(states: seq<RState>, ops: seq<Op>, t: nat, s: Mac, d: Mac) {
    exists u :: 0 <= u < t && SendsAt(states, ops, u, s, d)
  }

  lemma NamedIffSent(states: seq<RState>, ops: seq<Op>, local: Mac, t: nat, s: Mac, d: Mac)
    requires Run(states, ops, local) && t < |states|
    ensures Names(states[t].edges, s, d) <==> SentBefore(states, ops, t + 1, s, d)
  {
    if Names(states[t].edges, s, d) {
      var e :| e in states[t].edges && e.src == s && e.dst == d;
      ListIsHistory(states, ops, local, t, e);
      var u :| 0 <= u <= t && AppendsAt(states, ops, u, e);
      assert SendsAt(states, ops, u, s, d);
    }
    if SentBefore(states, ops, t + 1, s, d) {
      var u :| 0 <= u < t + 1 && SendsAt(states, ops, u, s, d);
      var e :| AppendsAt(states, ops, u, e) && e.src == s && e.dst == d;
      ListIsHistory(states, ops, local, t, e);
    }
  }

  // Two operations up to t append records of s for the same target.
  ghost predicate SentTwice(states: seq<RState>, ops: seq<Op>, t: nat, s: Mac) {
    exists v, d: Mac :: 0 <= v <= t && SendsAt(states, ops, v, s, d) && SentBefore(states, ops, v, s, d)
  }

  // The list repeats a destination of s exactly if that happened.
  lemma {:induction false} RepeatsIffSentTwice(states: seq<RState>, ops: seq<Op>, local: Mac, t: nat, s: Mac)
    requires Run(states, ops, local) && t < |states|
    ensures NoRepeats(Group(states[t].edges, s)) <==> !SentTwice(states, ops, t, s)
    decreases t
  {
    if t == 0 {
      NothingSentYet(states, ops, local, s);
    } else {
      RepeatsIffSentTwice(states, ops, local, t - 1, s);
      SentTwiceUnfolds(states, ops, t, s);
      RepeatsBecauseSent(states, ops, local, t, s);
    }
  }

  lemma RepeatsBecauseSent(states: seq<RState>, ops: seq<Op>, local: Mac, t: nat, s: Mac)
    requires Run(states, ops, local) && 0 < t < |states|
    ensures NoRepeats(Group(states[t].edges, s)) <==>
            && NoRepeats(Group(states[t - 1].edges, s))
            && forall d: Mac :: SendsAt(states, ops, t, s, d) ==> !SentBefore(states, ops, t, s, d)
  {
    RepeatsUnfold(states, ops, local, t, s);
    forall d: Mac ensures Names(states[t - 1].edges, s, d) <==> SentBefore(states, ops, t, s, d) {
      NamedIffSent(states, ops, local, t - 1, s, d);
    }
  }

  lemma NothingSentYet(states: seq<RState>, ops: seq<Op>, local: Mac, s: Mac)
    requires Run(states, ops, local)
    ensures Group(states[0].edges, s) == [] && !SentTwice(states, ops, 0, s)
  {
  }

  lemma SentTwiceUnfolds(states: seq<RState>, ops: seq<Op>, t: nat, s: Mac)
    requires t > 0
    ensures SentTwice(states, ops, t, s) <==>
            || SentTwice(states, ops, t - 1, s)
            || exists d: Mac :: SendsAt(states, ops, t, s, d) && SentBefore(states, ops, t, s, d)
  {
    if SentTwice(states, ops, t, s) {
      var v, d: Mac :| 0 <= v <= t && SendsAt(states, ops, v, s, d) && SentBefore(states, ops, v, s, d);
      assert v == t || v <= t - 1;
    }
  }

  lemma RepeatsUnfold(states: seq<RState>, ops: seq<Op>, local: Mac, t: nat, s: Mac)
    requires Run(states, ops, local) && 0 < t < |states|
    ensures NoRepeats(Group(states[t].edges, s)) <==>
            && NoRepeats(Group(states[t - 1].edges, s))
            && forall d: Mac :: SendsAt(states, ops, t, s, d) ==> !Names(states[t - 1].edges, s, d)
  {
    var a, b := states[t - 1], states[t];
    RunLists(states, ops, local, t);
    if Refreshes(a, ops[t - 1]) {
      var more := Export(b.hosts, Graph(b.hosts), |b.hosts|);
      ExportNoRepeats(b.hosts, local, |b.hosts|);
      forall e | e in a.edges + more ensures e.src != e.dst {
        ExportsWereLinks(states, ops, local, t, e);
      }
      AppendedRepeats(a.edges, more, s);
      forall d: Mac ensures SendsAt(states, ops, t, s, d) <==> Names(more, s, d) {
        assert forall e :: AppendsAt(states, ops, t, e) <==> e in more;
      }
    } else {
      assert b.edges == a.edges;
    }
  }

  lemma AppendedRepeats(es: seq<WireEdge>, more: seq<WireEdge>, s: Mac)
    requires NoRepeatedPairs(more) && forall e :: e in es + more ==> e.src != e.dst
    ensures NoRepeats(Group(es + more, s)) <==>
            NoRepeats(Group(es, s)) && forall d: Mac :: Names(more, s, d) ==> !Names(es, s, d)
  {
    GroupConcat(es, more, s);
    RepeatsConcat(Group(es, s), Group(more, s));
    NoRepeatedPairsNoRepeats(more, s);
    NothingShared(es, more, s);
  }

  lemma NothingShared(es: seq<WireEdge>, more: seq<WireEdge>, s: Mac)
    requires forall e :: e in es + more ==> e.src != e.dst
    ensures (forall x, y :: x in Group(es, s) && y in Group(more, s) ==> x.dst != y.dst) <==>
            forall d: Mac :: Names(more, s, d) ==> !Names(es, s, d)
  {
    if forall x, y :: x in Group(es, s) && y in Group(more, s) ==> x.dst != y.dst {
      forall d: Mac | Names(more, s, d) ensures !Names(es, s, d) {
        var y :| y in more && y.src == s && y.dst == d;
        assert y in es + more && y in Group(more, s);
        forall x | x in es && x.src == s ensures x.dst != d {
          assert x in es + more && x in Group(es, s);
        }
      }
    } else {
      var x, y :| x in Group(es, s) && y in Group(more, s) && x.dst == y.dst;
      assert Names(more, s, y.dst) && Names(es, s, y.dst);
    }
  }

  // ---- exported pairs ----

  ghost predicate SharesPair(a: seq<WireEdge>, b: seq<WireEdge>) {
    exists x, y :: x in a && y in b && x.src == y.src && x.dst == y.dst
  }

  // The list of edges, which is only ever added to, stays free of repeated pairs through a refresh
  // if and only if it was and none of the links now exported is listed already, with whatever time.
  lemma RefreshRepeatsIff(s: RState)
    requires TableOk(s.hosts, s.local) && Adjacency(s.cached)
    ensures Exportable(Trimmed(s))
    ensures NoRepeatedPairs(Refresh(s).edges) <==>
            NoRepeatedPairs(s.edges) && !SharesPair(s.edges, Export(Trimmed(s), Graph(Trimmed(s)), |Trimmed(s)|))
  {
    var hs := Trimmed(s);
    TablesAreExportable(hs, s.local);
    var more := Export(hs, Graph(hs), |hs|);
    ExportNoRepeats(hs, s.local, |hs|);
    DistinctConcat(s.edges, more, PairKey);
    forall x, y ensures PairKey(x) == PairKey(y) <==> x.src == y.src && x.dst == y.dst {
      PairKeyIff(x, y);
    }
  }

  // ---- what registration means for packets ----

  // A measurement replaces the link to its target and no other.
  lemma MeasuredLinks(hs: seq<Host>, local: Mac, peer: nat, l: Link, x: Link)
    requires TableOk(hs, local) && l.dst != local
    ensures Has(Measured(hs, local, peer, l), local)
    ensures x in Get(Measured(hs, local, peer, l), local).links <==>
            x == l || (x in Get(hs, local).links && x.dst != l.dst)
  {
    var sh, r := Get(hs, local), Measured(hs, local, peer, l);
    assert LinksOk(hs, sh);
    MeasuredIsEdit(hs, local, peer, l);
    if HasLink(sh.links, l.dst) {
      var p := At(sh.links, LinkKey, l.dst);
      ReplaceLookup(hs, Idx(hs, local), sh.(links := sh.links[p := l]), r);
      ReplacedMember(sh.links, p, l, x);
    } else {
      WithDirectLookup(hs, l.dst, peer);
      var hs1 := WithDirectHost(hs, l.dst, peer);
      ReplaceLookup(hs1, Idx(hs1, local), Table.AddLink(sh, l), r);
      InsertMember(sh.links, LinkKey, l, x);
      if x in sh.links {
        HasKeyMember(sh.links, LinkKey, x);
      }
    }
  }

  lemma ReplacedMember(ls: seq<Link>, p: nat, l: Link, x: Link)
    requires Strict(ls, LinkKey) && p < |ls| && ls[p].dst == l.dst
    ensures x in ls[p := l] <==> x == l || (x in ls && x.dst != l.dst)
  {
    var r := ls[p := l];
    if x in r {
      var i :| 0 <= i < |r| && r[i] == x;
      assert i != p ==> LinkKey(ls[i]) != LinkKey(ls[p]);
    }
    if x in ls && x.dst != l.dst {
      var i :| 0 <= i < |ls| && ls[i] == x;
      assert r[i] == x;
    }
    assert r[p] == l;
  }

  // Once a peer's link has been measured, with any time but 0, packets for it are answered at once
  // and with exactly one direct peer.
  lemma MeasuredPeerIsAnswered(s: RState, peer: nat, l: Link, src: Mac)
    requires Inv(s) && l.dst != s.local && l.rtt != 0 && !IsMulticast(l.dst)
    ensures var s' := AddDirectLink(s, peer, l).0;
            Ready(s') && Answer(s', src, l.dst).Found? && |Answer(s', src, l.dst).hosts| == 1
            && Answer(s', src, l.dst).hosts[0].kind.Direct?
  {
    var hs := Measured(s.hosts, s.local, peer, l);
    MeasuredKeepsTable(s.hosts, s.local, peer, l);
    MeasuredLinks(s.hosts, s.local, peer, l, l);
    var s1 := s.(hosts := hs);
    TrimKeepsLocal(s1);
    LinkedPeerIsAnswered(Refresh(s1), l, src);
  }

  lemma LinkedPeerIsAnswered(s: RState, l: Link, src: Mac)
    requires Ready(s) && l in Get(s.hosts, s.local).links && l.rtt != 0 && !IsMulticast(l.dst)
    ensures var q := Answer(s, src, l.dst); q.Found? && |q.hosts| == 1 && q.hosts[0].kind.Direct?
  {
    var h := Get(s.hosts, s.local);
    assert LinksOk(s.hosts, h);
    LinkRttOf(h.links, l);
    var i, j := Idx(s.hosts, s.local), Idx(s.hosts, l.dst);
    assert s.cached[i][j] == Weight(s.hosts, i, j) == l.rtt;
    PatternKept(s.cached, |s.cached|, i, j);
    var q := Answer(s, src, l.dst);
    assert q.hosts[0] in q.hosts;
    FoundAreDirect(s, src, l.dst, q.hosts[0]);
  }

  // Once a peer has unregistered, packets for its address are answered with nobody.
  lemma UnregisteredPeerIsNot(s: RState, m: Mac, src: Mac)
    requires Inv(s) && m != s.local && !IsMulticast(m)
    ensures Ready(Queried(RemoveDirectLink(s, m).0))
    ensures Answer(Queried(RemoveDirectLink(s, m).0), src, m) in {Failed(-1), Found([])}
  {
    var s' := RemoveDirectLink(s, m).0;
    StepKeepsInv(s, Unregister(m), s');
    UnregisterOwner(s, m, m);
    OwnedIffLinked(s'.hosts, s.local, m);
    UnlinkedIsNotAnswered(Queried(s'), m, src);
  }

  lemma UnlinkedIsNotAnswered(s: RState, m: Mac, src: Mac)
    requires Ready(s) && m != s.local && !IsMulticast(m) && !LocalLink(s.hosts, s.local, m)
    ensures Answer(s, src, m) in {Failed(-1), Found([])}
  {
    if Has(s.hosts, m) {
      var i, j := Idx(s.hosts, s.local), Idx(s.hosts, m);
      assert s.cached[i][j] == Weight(s.hosts, i, j) == 0;
      PatternKept(s.cached, |s.cached|, i, j);
    }
  }
}
