/**
 routing_t as a value, its operations as steps, and the invariant that every step keeps.
 */
module RoutingState {
  import opened Base
  import opened SortedList
  import opened Table
  import opened Wire
  import opened FloydWarshall
  import opened Cache
  import opened Merge

  // cached is the graph that path and next were computed from; its size is m_ct.
  datatype RState = RState(hosts: seq<Host>, local: Mac, cached: Matrix, edges: seq<WireEdge>)

  // After rt_init and rt_lhost_add.
  function Init(local: Mac): RState {
    RState([Host(local, Local, 0, [])], local, [], [])
  }

  ghost predicate Inv(s: RState) {
    && TableOk(s.hosts, s.local)
    && Adjacency(s.cached)
    && (s.cached == [] || s.cached == Graph(s.hosts))
  }

  lemma InitInv(local: Mac)
    ensures Inv(Init(local))
  {
    var hs := Init(local).hosts;
    assert HostKey(hs[0]) == local;
  }

  // ---- update_cache ----

  ghost function Trimmed(s: RState): (hs: seq<Host>)
    requires TableOk(s.hosts, s.local) && Adjacency(s.cached)
    ensures TableOk(hs, s.local) && TrimmedTo(s.hosts, hs)
  {
    TrimmedSelf(s.hosts, s.local);
    if |s.cached| != |s.hosts| then s.hosts
    else
      TrimKeepsTable(s.hosts, s.local, s.cached, Idx(s.hosts, s.local), 0);
      TrimFrom(s.hosts, s.cached, Idx(s.hosts, s.local), 0)
  }

  ghost function Refresh(s: RState): (s': RState)
    requires TableOk(s.hosts, s.local) && Adjacency(s.cached)
    ensures Inv(s')
  {
    var hs := Trimmed(s);
    TablesAreExportable(hs, s.local);
    RState(hs, s.local, Graph(hs), s.edges + Export(hs, Graph(hs), |hs|))
  }

  // update_cache removes exactly the hosts that go, where the old matrices have the size of the
  // table, and none otherwise.
  lemma RefreshRemovesIff(s: RState, t: nat)
    requires TableOk(s.hosts, s.local) && Adjacency(s.cached) && t < |s.hosts|
    ensures |s.cached| == |s.hosts| ==>
              (Has(Refresh(s).hosts, s.hosts[t].mac) <==>
               !Goes(s.hosts, Cleared(s.cached, Idx(s.hosts, s.local)), 0, t))
    ensures |s.cached| != |s.hosts| ==> Refresh(s).hosts == s.hosts
  {
    if |s.cached| == |s.hosts| {
      TrimRemovesIff(s.hosts, s.cached, Idx(s.hosts, s.local), 0, t);
    }
  }

  // ---- rt_dhost_add_link ----

  function MakeDirect(h: Host, peer: nat): Host {
    if h.kind.Normal? then h.(kind := Direct(peer)) else h
  }

  ghost function WithDirectHost(hs: seq<Host>, m: Mac, peer: nat): seq<Host> {
    if Has(hs, m) then hs[Idx(hs, m) := MakeDirect(Get(hs, m), peer)]
    else AddHost(hs, Host(m, Direct(peer), 0, []))
  }

  lemma WithDirectLookup(hs: seq<Host>, m: Mac, peer: nat)
    requires Strict(hs, HostKey)
    ensures var r := WithDirectHost(hs, m, peer);
            && Strict(r, HostKey)
            && (forall k: Mac :: Has(r, k) <==> Has(hs, k) || k == m)
            && (forall k: Mac :: Has(r, k) ==>
                  Get(r, k) == if k == m then MakeDirect(Before(hs, m), peer) else Get(hs, k))
  {
    if Has(hs, m) {
      ReplaceLookup(hs, Idx(hs, m), MakeDirect(Get(hs, m), peer), WithDirectHost(hs, m, peer));
    } else {
      AddLookup(hs, Host(m, Direct(peer), 0, []));
    }
  }

  // The table after a measurement l of the link from local to the peer's host.
  ghost function Measured(hs: seq<Host>, local: Mac, peer: nat, l: Link): seq<Host>
    requires Strict(hs, HostKey) && Has(hs, local)
  {
    var sh := Get(hs, local);
    if HasLink(sh.links, l.dst) then
      hs[Idx(hs, local) := sh.(links := sh.links[At(sh.links, LinkKey, l.dst) := l])]
    else
      WithDirectLookup(hs, l.dst, peer);
      var hs1 := WithDirectHost(hs, l.dst, peer);
      hs1[Idx(hs1, local) := AddLink(Get(hs1, local), l)]
  }

  ghost function AddDirectLink(s: RState, peer: nat, l: Link): (r: (RState, int))
    requires TableOk(s.hosts, s.local) && Adjacency(s.cached)
  {
    if l.dst == s.local then (s, -2)
    else
      MeasuredKeepsTable(s.hosts, s.local, peer, l);
      (Refresh(s.(hosts := Measured(s.hosts, s.local, peer, l))), 0)
  }

  // ---- rt_dhost_remove ----

  ghost function Unregistered(hs: seq<Host>, local: Mac, m: Mac): seq<Host>
    requires Strict(hs, HostKey) && Has(hs, local) && Has(hs, m)
  {
    var hs1 := hs[Idx(hs, m) := Get(hs, m).(kind := Normal)];
    ReplaceLookup(hs, Idx(hs, m), Get(hs, m).(kind := Normal), hs1);
    hs1[Idx(hs1, local) := Get(hs1, local).(links := Unlink(Get(hs1, local).links, m))]
  }

  ghost function RemoveDirectLink(s: RState, m: Mac): (r: (RState, int))
    requires TableOk(s.hosts, s.local) && Adjacency(s.cached)
  {
    if !LocalLink(s.hosts, s.local, m) then (s, 1)
    else
      LinkTarget(s.hosts, Get(s.hosts, s.local), m);
      UnregisteredKeepsTable(s.hosts, s.local, m);
      (Refresh(s.(hosts := Unregistered(s.hosts, s.local, m))), 0)
  }

  // ---- return codes ----

  lemma AddCodes(s: RState, peer: nat, l: Link)
    requires TableOk(s.hosts, s.local) && Adjacency(s.cached)
    ensures AddDirectLink(s, peer, l).1 == -2 <==> l.dst == s.local
    ensures AddDirectLink(s, peer, l).1 == 0 <==> l.dst != s.local
  {
  }

  lemma RemoveCodes(s: RState, m: Mac)
    requires TableOk(s.hosts, s.local) && Adjacency(s.cached)
    ensures RemoveDirectLink(s, m).1 == 0 <==> LocalLink(s.hosts, s.local, m)
    ensures RemoveDirectLink(s, m).1 == 1 <==> !LocalLink(s.hosts, s.local, m)
  {
  }

  // ---- one edit of the local links ----

  // hs' is hs with the local link to m present or absent as linked says, the host m direct or
  // normal to match, and nothing else changed.
  ghost predicate LocalEdit(hs: seq<Host>, local: Mac, m: Mac, linked: bool, hs': seq<Host>) {
    && m != local && Has(hs, local) && Has(hs', local) && Strict(hs', HostKey)
    && (forall k: Mac :: Has(hs', k) <==> Has(hs, k) || k == m)
    && (forall k: Mac :: Has(hs', k) && k != local && k != m ==> Get(hs', k) == Get(hs, k))
    && (var a, b := Get(hs, local), Get(hs', local);
        && b.kind == a.kind && b.maxTs >= a.maxTs && Strict(b.links, LinkKey)
        && (forall k: Mac :: HasLink(b.links, k) <==> if k == m then linked else HasLink(a.links, k)))
    && (var a, b := Before(hs, m), Get(hs', m);
        b.links == a.links && b.maxTs == a.maxTs && (if linked then b.kind.Direct? else b.kind.Normal?))
  }

  lemma EditKeepsTable(hs: seq<Host>, local: Mac, m: Mac, linked: bool, hs': seq<Host>)
    requires TableOk(hs, local) && LocalEdit(hs, local, m, linked, hs')
    ensures TableOk(hs', local)
  {
    assert LinksOk(hs, Get(hs, local)) && KindOk(hs, local, Get(hs, local));
    forall h | h in hs' ensures LinksOk(hs', h) && KindOk(hs', local, h) && TimesOk(h) {
      GetMember(hs', h);
      if h.mac == local {
        EditKeepsLocal(hs, local, m, linked, hs');
      } else if Has(hs, h.mac) {
        var a := Get(hs, h.mac);
        assert LinksOk(hs, a) && KindOk(hs, local, a) && TimesOk(a);
      } else {
        assert h.links == [];
      }
    }
  }

  lemma EditKeepsLocal(hs: seq<Host>, local: Mac, m: Mac, linked: bool, hs': seq<Host>)
    requires TableOk(hs, local) && LocalEdit(hs, local, m, linked, hs')
    ensures var h := Get(hs', local); LinksOk(hs', h) && KindOk(hs', local, h) && TimesOk(h)
  {
    var a, b := Get(hs, local), Get(hs', local);
    assert LinksOk(hs, a) && KindOk(hs, local, a);
    forall l | l in b.links ensures l.dst != local && Has(hs', l.dst) {
      HasKeyMember(b.links, LinkKey, l);
      if l.dst != m {
        LinkTarget(hs, a, l.dst);
      }
    }
    if HasLink(b.links, local) {
      LinkTarget(hs, a, local);
    }
  }

  lemma MeasuredIsEdit(hs: seq<Host>, local: Mac, peer: nat, l: Link)
    requires TableOk(hs, local) && l.dst != local
    ensures LocalEdit(hs, local, l.dst, true, Measured(hs, local, peer, l))
    ensures Get(Measured(hs, local, peer, l), l.dst).kind == MakeDirect(Before(hs, l.dst), peer).kind
  {
    var sh, r := Get(hs, local), Measured(hs, local, peer, l);
    assert LinksOk(hs, sh);
    if HasLink(sh.links, l.dst) {
      LinkTarget(hs, sh, l.dst);
      assert KindOk(hs, local, Get(hs, l.dst));
      var p := At(sh.links, LinkKey, l.dst);
      var ls := sh.links[p := l];
      ReplaceLookup(hs, Idx(hs, local), sh.(links := ls), r);
      forall k: Mac ensures HasLink(ls, k) <==> HasLink(sh.links, k) {
        assert forall t :: 0 <= t < |ls| ==> LinkKey(ls[t]) == LinkKey(sh.links[t]);
      }
    } else {
      MeasuredNew(hs, local, peer, l);
    }
  }

  lemma MeasuredNew(hs: seq<Host>, local: Mac, peer: nat, l: Link)
    requires TableOk(hs, local) && l.dst != local && !HasLink(Get(hs, local).links, l.dst)
    ensures LocalEdit(hs, local, l.dst, true, Measured(hs, local, peer, l))
    ensures Get(Measured(hs, local, peer, l), l.dst).kind == MakeDirect(Before(hs, l.dst), peer).kind
  {
    var sh, r := Get(hs, local), Measured(hs, local, peer, l);
    assert LinksOk(hs, sh) && KindOk(hs, local, sh);
    WithDirectLookup(hs, l.dst, peer);
    var hs1 := WithDirectHost(hs, l.dst, peer);
    var sh' := AddLink(sh, l);
    ReplaceLookup(hs1, Idx(hs1, local), sh', r);
    InsertStrict(sh.links, LinkKey, l);
    forall k: Mac ensures HasLink(sh'.links, k) <==> HasLink(sh.links, k) || k == l.dst {
      InsertKeys(sh.links, LinkKey, l, k);
    }
    if Has(hs, l.dst) {
      assert KindOk(hs, local, Get(hs, l.dst));
    }
  }

  // What a measurement does to marks: that of local follows the stamp of a new link, and that of
  // one measured before stays; a host it creates is bare, with mark 0; all others keep theirs.
  lemma MeasuredMarks(hs: seq<Host>, local: Mac, peer: nat, l: Link, m: Mac)
    requires TableOk(hs, local) && l.dst != local
    ensures var hs' := Measured(hs, local, peer, l);
            && (m != local ==> MarkOf(hs', m) == MarkOf(hs, m))
            && (MarkOf(hs', local) == if !LocalLink(hs, local, l.dst) && l.ts > MarkOf(hs, local) then l.ts
                                      else MarkOf(hs, local))
            && (!Has(hs, l.dst) ==> Has(hs', l.dst) && Get(hs', l.dst).links == [])
  {
    var sh, r := Get(hs, local), Measured(hs, local, peer, l);
    assert LinksOk(hs, sh);
    MeasuredIsEdit(hs, local, peer, l);
    if HasLink(sh.links, l.dst) {
      var p := At(sh.links, LinkKey, l.dst);
      ReplaceLookup(hs, Idx(hs, local), sh.(links := sh.links[p := l]), r);
    } else {
      WithDirectLookup(hs, l.dst, peer);
      var hs1 := WithDirectHost(hs, l.dst, peer);
      ReplaceLookup(hs1, Idx(hs1, local), AddLink(sh, l), r);
    }
  }

  lemma MeasuredKeepsTable(hs: seq<Host>, local: Mac, peer: nat, l: Link)
    requires TableOk(hs, local) && l.dst != local
    ensures TableOk(Measured(hs, local, peer, l), local)
  {
    MeasuredIsEdit(hs, local, peer, l);
    EditKeepsTable(hs, local, l.dst, true, Measured(hs, local, peer, l));
  }

  lemma UnregisteredIsEdit(hs: seq<Host>, local: Mac, m: Mac)
    requires TableOk(hs, local) && LocalLink(hs, local, m) && Has(hs, m)
    ensures LocalEdit(hs, local, m, false, Unregistered(hs, local, m))
  {
    var sh, h := Get(hs, local), Get(hs, m).(kind := Normal);
    assert LinksOk(hs, sh);
    LinkTarget(hs, sh, m);
    var hs1 := hs[Idx(hs, m) := h];
    ReplaceLookup(hs, Idx(hs, m), h, hs1);
    UnlinkMembers(sh.links, m);
    ReplaceLookup(hs1, Idx(hs1, local), sh.(links := Unlink(sh.links, m)), Unregistered(hs, local, m));
  }

  // A removal takes away the link to its target and no other, and no mark changes.
  lemma UnregisteredLinks(hs: seq<Host>, local: Mac, m: Mac, x: Link)
    requires TableOk(hs, local) && LocalLink(hs, local, m) && Has(hs, m)
    ensures Has(Unregistered(hs, local, m), local)
    ensures x in Get(Unregistered(hs, local, m), local).links <==> x in Get(hs, local).links && x.dst != m
    ensures MarkOf(Unregistered(hs, local, m), local) == MarkOf(hs, local)
  {
    var sh, h := Get(hs, local), Get(hs, m).(kind := Normal);
    assert LinksOk(hs, sh);
    LinkTarget(hs, sh, m);
    var hs1 := hs[Idx(hs, m) := h];
    ReplaceLookup(hs, Idx(hs, m), h, hs1);
    UnlinkMembers(sh.links, m);
    ReplaceLookup(hs1, Idx(hs1, local), sh.(links := Unlink(sh.links, m)), Unregistered(hs, local, m));
  }

  lemma UnregisteredKeepsTable(hs: seq<Host>, local: Mac, m: Mac)
    requires TableOk(hs, local) && LocalLink(hs, local, m) && Has(hs, m)
    ensures TableOk(Unregistered(hs, local, m), local)
  {
    UnregisteredIsEdit(hs, local, m);
    EditKeepsTable(hs, local, m, false, Unregistered(hs, local, m));
  }

  // ---- steps ----

  datatype Op =
    | Measure(peer: nat, link: Link)         // rt_dhost_add_link
    | Unregister(mac: Mac)                   // rt_dhost_remove
    | Update(packet: seq<WireEdge>)          // rt_update_edges
    | Query                                  // rt_dhosts_to_host

  ghost predicate UpdateStep(s: RState, packet: seq<WireEdge>, es: seq<WireEdge>, hs: seq<Host>, s': RState)
    requires Inv(s)
  {
    && SortedEdges(es) && multiset(es) == multiset(packet)
    && Merged(s.hosts, Taken(s.hosts, es), es, hs)
    && TableOk(hs, s.local) && s' == Refresh(s.(hosts := hs))
  }

  ghost predicate Step(s: RState, op: Op, s': RState)
    requires Inv(s)
  {
    match op
    case Measure(peer, l) => s' == AddDirectLink(s, peer, l).0
    case Unregister(m) => s' == RemoveDirectLink(s, m).0
    case Update(packet) => exists es, hs :: UpdateStep(s, packet, es, hs, s')
    case Query => s' == Queried(s)
  }

  // A query recomputes the matrices when their size is not that of the table.
  ghost function Queried(s: RState): RState {
    if |s.cached| != |s.hosts| then s.(cached := Graph(s.hosts)) else s
  }

  lemma StepKeepsInv(s: RState, op: Op, s': RState)
    requires Inv(s) && Step(s, op, s')
    ensures Inv(s') && s'.local == s.local
  {
  }

  // For a packet without repeated pairs the table is sound when trimming begins, in whatever
  // order qsort left the packet. UpdateStep leaves out the packets for which it is not.
  lemma UpdateIsSound(s: RState, packet: seq<WireEdge>, es: seq<WireEdge>, hs: seq<Host>)
    requires Inv(s) && NoRepeatedPairs(packet)
    requires SortedEdges(es) && multiset(es) == multiset(packet) && Merged(s.hosts, Taken(s.hosts, es), es, hs)
    ensures TableOk(hs, s.local)
  {
    DistinctTransfer(packet, es, PairKey);
    forall m: Mac ensures NoRepeats(Group(es, m)) {
      NoRepeatedPairsNoRepeats(es, m);
    }
    MergeKeepsTableIff(s.hosts, s.local, es, hs);
  }
}
