/** Where everything in the table comes from, over whole runs: links, marks and return codes. */
module Provenance {
  import opened Base
  import opened SortedList
  import opened Table
  import opened Wire
  import opened FloydWarshall
  import opened Cache
  import opened Merge
  import opened RoutingState
  import opened Runs

  // ---- the links of the local host ----

  // The last measurement of m since it last unregistered.
  function Latest(ops: seq<Op>, local: Mac, m: Mac): Option<Link> {
    if |ops| == 0 then None
    else
      var before := Latest(ops[..|ops| - 1], local, m);
      match ops[|ops| - 1]
      case Measure(_, l) => if l.dst == m && m != local then Some(l) else before
      case Unregister(k) => if k == m then None else before
      case _ => before
  }

  lemma StepLocalLinks(s: RState, op: Op, s': RState, x: Link)
    requires Inv(s) && Step(s, op, s')
    ensures Has(s'.hosts, s.local)
    ensures x in Get(s'.hosts, s.local).links <==>
            match op
            case Measure(_, l) =>
              if l.dst == s.local then x in Get(s.hosts, s.local).links
              else x == l || (x in Get(s.hosts, s.local).links && x.dst != l.dst)
            case Unregister(k) => x in Get(s.hosts, s.local).links && x.dst != k
            case _ => x in Get(s.hosts, s.local).links
  {
    match op
    case Measure(peer, l) =>
      if l.dst != s.local {
        MeasuredKeepsTable(s.hosts, s.local, peer, l);
        MeasuredLinks(s.hosts, s.local, peer, l, x);
        TrimKeepsLocal(s.(hosts := Measured(s.hosts, s.local, peer, l)));
      }
    case Unregister(k) => UnregisterLocalLinks(s, k, s', x);
    case Update(packet) => PacketsKeepLocal(s, packet, s');
    case Query =>
  }

  lemma UnregisterLocalLinks(s: RState, k: Mac, s': RState, x: Link)
    requires Inv(s) && s' == RemoveDirectLink(s, k).0
    ensures Has(s'.hosts, s.local)
    ensures x in Get(s'.hosts, s.local).links <==> x in Get(s.hosts, s.local).links && x.dst != k
  {
    var h := Get(s.hosts, s.local);
    if LocalLink(s.hosts, s.local, k) {
      LinkTarget(s.hosts, h, k);
      UnregisteredKeepsTable(s.hosts, s.local, k);
      UnregisteredLinks(s.hosts, s.local, k, x);
      TrimKeepsLocal(s.(hosts := Unregistered(s.hosts, s.local, k)));
    } else if x in h.links {
      HasKeyMember(h.links, LinkKey, x);
    }
  }

  // In every state of every run the local host has exactly the links measured last, with the times
  // of those measurements, for every peer that has not unregistered since.
  lemma {:induction false} LocalLinksAreLatest(states: seq<RState>, ops: seq<Op>, local: Mac, t: nat, x: Link)
    requires Run(states, ops, local) && t < |states|
    ensures Has(states[t].hosts, local)
    ensures x in Get(states[t].hosts, local).links <==> Latest(ops[..t], local, x.dst) == Some(x)
    decreases t
  {
    RunKeepsInv(states, ops, local, t);
    if t > 0 {
      LocalLinksAreLatest(states, ops, local, t - 1, x);
      RunKeepsInv(states, ops, local, t - 1);
      assert MovesAt(states, ops, t - 1);
      StepLocalLinks(states[t - 1], ops[t - 1], states[t], x);
      assert ops[..t][..t - 1] == ops[..t - 1];
      LatestTarget(ops[..t], local, x.dst);
    } else {
      GetUnique(states[0].hosts, 0);
    }
  }

  lemma {:induction false} LatestTarget(ops: seq<Op>, local: Mac, m: Mac)
    ensures Latest(ops, local, m).Some? ==> Latest(ops, local, m).value.dst == m && m != local
  {
    if |ops| > 0 {
      LatestTarget(ops[..|ops| - 1], local, m);
    }
  }

  // The codes of the two calls, in terms of the run: a measurement fails for the local address
  // alone, and a removal answers 1 exactly if nobody is registered for the address.
  lemma RemoveAnswers(states: seq<RState>, ops: seq<Op>, local: Mac, t: nat, m: Mac)
    requires Run(states, ops, local) && t < |states|
    ensures Inv(states[t])
    ensures RemoveDirectLink(states[t], m).1 == if Latest(ops[..t], local, m).Some? then 0 else 1
  {
    RunKeepsInv(states, ops, local, t);
    RemoveCodes(states[t], m);
    LatestTarget(ops[..t], local, m);
    var h := Get(states[t].hosts, local);
    if LocalLink(states[t].hosts, local, m) {
      var x := h.links[At(h.links, LinkKey, m)];
      LocalLinksAreLatest(states, ops, local, t, x);
    }
    if Latest(ops[..t], local, m).Some? {
      var x := Latest(ops[..t], local, m).value;
      LocalLinksAreLatest(states, ops, local, t, x);
      HasKeyMember(h.links, LinkKey, x);
    }
  }

  // ---- the links of all other hosts ----

  // The operation brings an edge of m that reads as l.
  ghost predicate Brings(op: Op, m: Mac, l: Link) {
    op.Update? && exists e :: e in op.packet && e.src == m && e.dst != m && AsLink(e) == l
  }

  lemma StartIsBare(local: Mac, m: Mac)
    ensures MarkOf(Init(local).hosts, m) == 0 && (Has(Init(local).hosts, m) ==> Get(Init(local).hosts, m).links == [])
  {
    GetUnique(Init(local).hosts, 0);
  }

  lemma RefreshKeepsLinks(s: RState, m: Mac, l: Link)
    requires TableOk(s.hosts, s.local) && Adjacency(s.cached)
    requires Has(Refresh(s).hosts, m) && l in Get(Refresh(s).hosts, m).links
    ensures Has(s.hosts, m) && l in Get(s.hosts, m).links
  {
    var hs := Trimmed(s);
    assert Pruned(Get(s.hosts, m), hs, Get(hs, m));
  }

  lemma EditKeepsLinks(hs: seq<Host>, local: Mac, k: Mac, linked: bool, hs': seq<Host>, m: Mac, l: Link)
    requires LocalEdit(hs, local, k, linked, hs') && m != local && Has(hs', m) && l in Get(hs', m).links
    ensures Has(hs, m) && l in Get(hs, m).links
  {
  }

  lemma MergeBrings(s: RState, packet: seq<WireEdge>, es: seq<WireEdge>, hs: seq<Host>, m: Mac, l: Link)
    requires Inv(s) && SortedEdges(es) && multiset(es) == multiset(packet)
    requires Merged(s.hosts, Taken(s.hosts, es), es, hs) && Has(hs, m) && l in Get(hs, m).links
    ensures (Has(s.hosts, m) && l in Get(s.hosts, m).links) || Brings(Update(packet), m, l)
  {
    var taken := Taken(s.hosts, es);
    MergedLookup(s.hosts, taken, es, hs, m);
    if m in taken && Group(es, m) != [] {
      MergedLinkIsEdge(s.hosts, taken, es, Get(hs, m), l);
      var e :| e in Group(es, m) && l == AsLink(e);
      SameGroup(es, packet, m);
      assert e in Group(packet, m);
    }
  }

  lemma StepBrings(s: RState, op: Op, s': RState, m: Mac, l: Link)
    requires Inv(s) && Step(s, op, s') && m != s.local && Has(s'.hosts, m) && l in Get(s'.hosts, m).links
    ensures (Has(s.hosts, m) && l in Get(s.hosts, m).links) || Brings(op, m, l)
  {
    match op
    case Measure(peer, k) =>
      if k.dst != s.local {
        var hs := Measured(s.hosts, s.local, peer, k);
        MeasuredKeepsTable(s.hosts, s.local, peer, k);
        MeasuredIsEdit(s.hosts, s.local, peer, k);
        RefreshKeepsLinks(s.(hosts := hs), m, l);
        EditKeepsLinks(s.hosts, s.local, k.dst, true, hs, m, l);
      }
    case Unregister(k) =>
      if LocalLink(s.hosts, s.local, k) {
        LinkTarget(s.hosts, Get(s.hosts, s.local), k);
        var hs := Unregistered(s.hosts, s.local, k);
        UnregisteredKeepsTable(s.hosts, s.local, k);
        UnregisteredIsEdit(s.hosts, s.local, k);
        RefreshKeepsLinks(s.(hosts := hs), m, l);
        EditKeepsLinks(s.hosts, s.local, k, false, hs, m, l);
      }
    case Update(packet) =>
      var es, hs :| UpdateStep(s, packet, es, hs, s');
      RefreshKeepsLinks(s.(hosts := hs), m, l);
      MergeBrings(s, packet, es, hs, m, l);
    case Query =>
  }

  // In every state of every run, every link of another host was in a packet received before, with
  // that host as its source and with that time and stamp.
  lemma {:induction false} LinksWereReceived(
    states: seq<RState>, ops: seq<Op>, local: Mac, t: nat, m: Mac, l: Link)
    requires Run(states, ops, local) && t < |states| && m != local
    requires Has(states[t].hosts, m) && l in Get(states[t].hosts, m).links
    ensures exists u :: 0 <= u < t && u < |ops| && Brings(ops[u], m, l)
    decreases t
  {
    if t > 0 {
      RunKeepsInv(states, ops, local, t - 1);
      assert MovesAt(states, ops, t - 1);
      StepBrings(states[t - 1], ops[t - 1], states[t], m, l);
      if !Brings(ops[t - 1], m, l) {
        LinksWereReceived(states, ops, local, t - 1, m, l);
      }
    } else {
      StartIsBare(local, m);
    }
  }

  // ---- marks ----

  // The operation stamps a link of m with ts.
  ghost predicate Stamps(op: Op, local: Mac, m: Mac, ts: u64) {
    match op
    case Measure(_, l) => m == local && l.dst != local && l.ts == ts
    case Update(packet) => exists e :: e in packet && e.src == m && Ts(e) == ts
    case _ => false
  }

  lemma RefreshMark(s: RState, m: Mac)
    requires TableOk(s.hosts, s.local) && Adjacency(s.cached) && Has(Refresh(s).hosts, m)
    ensures MarkOf(Refresh(s).hosts, m) == MarkOf(s.hosts, m)
  {
    RefreshKeepsMark(s, m);
  }

  lemma UnregisteredMarks(hs: seq<Host>, local: Mac, k: Mac, m: Mac)
    requires TableOk(hs, local) && LocalLink(hs, local, k) && Has(hs, k)
    ensures MarkOf(Unregistered(hs, local, k), m) == MarkOf(hs, m)
  {
    UnregisteredIsEdit(hs, local, k);
    UnregisteredLinks(hs, local, k, Link(0, 0, 0));
  }

  lemma StepStamps(s: RState, op: Op, s': RState, m: Mac)
    requires Inv(s) && Step(s, op, s') && Has(s'.hosts, m)
    ensures MarkOf(s'.hosts, m) == MarkOf(s.hosts, m) || Stamps(op, s.local, m, MarkOf(s'.hosts, m))
  {
    match op
    case Measure(peer, l) =>
      if l.dst != s.local {
        MeasuredKeepsTable(s.hosts, s.local, peer, l);
        MeasuredMarks(s.hosts, s.local, peer, l, m);
        RefreshMark(s.(hosts := Measured(s.hosts, s.local, peer, l)), m);
      }
    case Unregister(k) =>
      if LocalLink(s.hosts, s.local, k) {
        LinkTarget(s.hosts, Get(s.hosts, s.local), k);
        UnregisteredKeepsTable(s.hosts, s.local, k);
        UnregisteredMarks(s.hosts, s.local, k, m);
        RefreshMark(s.(hosts := Unregistered(s.hosts, s.local, k)), m);
      }
    case Update(packet) =>
      var es, hs :| UpdateStep(s, packet, es, hs, s');
      RefreshMark(s.(hosts := hs), m);
      MarkAfterMerge(s.hosts, es, hs, m);
      SameGroup(es, packet, m);
    case Query =>
  }

  // In every state of every run, every mark is 0 or the stamp of a link of that host that some
  // operation brought: it never runs ahead of the stamps.
  lemma {:induction false} MarksAreStamps(states: seq<RState>, ops: seq<Op>, local: Mac, t: nat, m: Mac)
    requires Run(states, ops, local) && t < |states| && MarkOf(states[t].hosts, m) != 0
    ensures exists u :: 0 <= u < t && u < |ops| && Stamps(ops[u], local, m, MarkOf(states[t].hosts, m))
    decreases t
  {
    if t > 0 {
      RunKeepsInv(states, ops, local, t - 1);
      assert MovesAt(states, ops, t - 1);
      StepStamps(states[t - 1], ops[t - 1], states[t], m);
      if !Stamps(ops[t - 1], local, m, MarkOf(states[t].hosts, m)) {
        MarksAreStamps(states, ops, local, t - 1, m);
      }
    } else {
      StartIsBare(local, m);
    }
  }
}
