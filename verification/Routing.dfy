/** routing_t: the host table, the matrices and the exported edges, updated in place. */
module Routing {
  import opened Base
  import opened SortedList
  import opened Table
  import opened Wire
  import opened FloydWarshall
  import opened Routes
  import opened Cache
  import opened Merge
  import opened RoutingState
  import opened Lookup

  // ---- the adjacency matrix ----

  lemma LinkRttSnoc(ls: seq<Link>, j: nat, m: Mac)
    requires Strict(ls, LinkKey) && j < |ls|
    ensures LinkRtt(ls[..j + 1], m) == if ls[j].dst == m then ls[j].rtt else LinkRtt(ls[..j], m)
  {
  }

  method FillRow(hs: seq<Host>, ghost local: Mac, path: array2<u32>, i: nat)
    requires TableOk(hs, local) && path.Length0 == path.Length1 == |hs| && i < |hs|
    requires forall b :: 0 <= b < |hs| ==> path[i, b] == 0
    modifies path
    ensures forall b :: 0 <= b < |hs| ==> path[i, b] == Weight(hs, i, b)
    ensures forall a, b :: 0 <= a < |hs| && 0 <= b < |hs| && a != i ==> path[a, b] == old(path[a, b])
  {
    path[i, i] := 1;
    var ls := hs[i].links;
    assert LinksOk(hs, hs[i]);
    for j := 0 to |ls|
      invariant forall b :: 0 <= b < |hs| ==> path[i, b] == if b == i then 1 else LinkRtt(ls[..j], hs[b].mac)
      invariant forall a, b :: 0 <= a < |hs| && 0 <= b < |hs| && a != i ==> path[a, b] == old(path[a, b])
    {
      assert ls[j] in ls;
      var d := FindHost(hs, ls[j].dst);
      forall b | 0 <= b < |hs|
        ensures LinkRtt(ls[..j + 1], hs[b].mac) == if b == d.value then ls[j].rtt else LinkRtt(ls[..j], hs[b].mac)
      {
        LinkRttSnoc(ls, j, hs[b].mac);
      }
      path[i, d.value] := ls[j].rtt;
    }
    assert ls[..|ls|] == ls;
  }

  // ---- trim_host ----

  ghost predicate LinksSorted(hs: seq<Host>) {
    forall t :: 0 <= t < |hs| ==> Strict(hs[t].links, LinkKey)
  }

  method UnlinkFrom(h: Host, m: Mac) returns (h': Host)
    requires Strict(h.links, LinkKey)
    ensures h' == h.(links := Unlink(h.links, m))
  {
    var l := FindLink(h.links, m);
    h' := if l.Some? then h.(links := RemoveAt(h.links, l.value)) else h;
  }

  method UnlinkEverywhere(hosts: seq<Host>, m: Mac) returns (hs: seq<Host>)
    requires LinksSorted(hosts)
    ensures hs == UnlinkAll(hosts, m)
  {
    hs := hosts;
    ghost var goal := UnlinkAll(hosts, m);
    for t := 0 to |hosts|
      invariant |hs| == |hosts|
      invariant forall a :: 0 <= a < t ==> hs[a] == goal[a]
      invariant forall a :: t <= a < |hosts| ==> hs[a] == hosts[a]
    {
      var h := UnlinkFrom(hs[t], m);
      assert h == goal[t];
      hs := hs[t := h];
    }
  }

  // freed is the host whose record goes to free.
  method TrimHost(hosts: seq<Host>, ghost local: Mac, i: nat) returns (hs: seq<Host>, freed: Option<Mac>)
    requires TableOk(hosts, local) && i < |hosts|
    ensures hs == if hosts[i].kind.Normal? then DropHost(hosts, i) else hosts
    ensures freed == if hosts[i].kind.Normal? then Some(FreedAt(hosts, i)) else None
  {
    if !hosts[i].kind.Normal? {
      return hosts, None;
    }
    assert LinksSorted(hosts) by {
      assert forall t :: 0 <= t < |hosts| ==> LinksOk(hosts, hosts[t]);
    }
    hs := UnlinkEverywhere(hosts, hosts[i].mac);
    hs := RemoveAt(hs, i);
    freed := Some(if i < |hs| then hs[i].mac else hosts[i].mac);
  }

  // One turn of the loop of trim_disjoint_hosts, on the entry from src to position i.
  method TrimTurn(hosts: seq<Host>, ghost local: Mac, entry: u32, ghost w: Matrix, src: nat, i: nat)
    returns (hs: seq<Host>, freed: seq<Mac>)
    requires TableOk(hosts, local) && Adjacency(w) && i < |hosts| <= |w| && src < |w| && entry == Path(w, src, i)
    ensures TableOk(hs, local) && |hs| <= |hosts|
    ensures TrimFrom(hs, w, src, i + 1) == TrimFrom(hosts, w, src, i)
    ensures freed + TrimFrees(hs, w, src, i + 1) == TrimFrees(hosts, w, src, i)
  {
    hs, freed := hosts, [];
    TrimUnfolds(hosts, w, src, i);
    DropIsSound(hosts, local, i);
    if entry == 0 && i != src {
      var f;
      hs, f := TrimHost(hosts, local, i);
      if f.Some? {
        freed := [f.value];
      }
    }
  }

  method TrimLoop(hosts: seq<Host>, ghost local: Mac, path: array2<u32>, ghost w: Matrix, src: nat)
    returns (hs: seq<Host>, freed: seq<Mac>)
    requires TableOk(hosts, local) && Adjacency(w) && |hosts| <= |w| == path.Length0 == path.Length1 && src < |w|
    requires forall i, j :: 0 <= i < |w| && 0 <= j < |w| ==> path[i, j] == Path(w, i, j)
    ensures hs == TrimFrom(hosts, w, src, 0) && freed == TrimFrees(hosts, w, src, 0)
  {
    hs, freed := hosts, [];
    var i := 0;
    while i < |hs|
      invariant TableOk(hs, local) && |hs| <= |w|
      invariant TrimFrom(hs, w, src, i) == TrimFrom(hosts, w, src, 0)
      invariant freed + TrimFrees(hs, w, src, i) == TrimFrees(hosts, w, src, 0)
      decreases |hs| - i
    {
      var f;
      hs, f := TrimTurn(hs, local, path[src, i], w, src, i);
      freed := freed + f;
      i := i + 1;
    }
  }

  // ---- the table part of rt_dhost_add_link ----

  method MeasureLink(hosts: seq<Host>, local: Mac, peer: nat, l: Link) returns (hs: seq<Host>)
    requires TableOk(hosts, local)
    ensures hs == Measured(hosts, local, peer, l)
  {
    hs := hosts;
    var sp := FindHost(hs, local);
    var sh := hs[sp.value];
    assert LinksOk(hs, sh);
    var lp := FindLink(sh.links, l.dst);
    if lp.None? {
      WithDirectLookup(hs, l.dst, peer);
      var dp := FindHost(hs, l.dst);
      if dp.None? {
        hs := AddHost(hs, Host(l.dst, Direct(peer), 0, []));
      } else {
        hs := hs[dp.value := MakeDirect(hs[dp.value], peer)];
      }
      sp := FindHost(hs, local);
      hs := hs[sp.value := AddLink(hs[sp.value], l)];
    } else {
      hs := hs[sp.value := sh.(links := sh.links[lp.value := l])];
    }
  }

  // ---- the table part of rt_dhost_remove ----

  method UnregisterHost(hosts: seq<Host>, ghost local: Mac, m: Mac, sp: nat, lp: nat) returns (hs: seq<Host>)
    requires Strict(hosts, HostKey) && Has(hosts, local) && Has(hosts, m) && local != m
    requires sp == Idx(hosts, local) && LocalLink(hosts, local, m) && lp == At(hosts[sp].links, LinkKey, m)
    ensures hs == Unregistered(hosts, local, m)
  {
    var hp := FindHost(hosts, m);
    var h := hosts[hp.value].(kind := Normal);
    hs := hosts[hp.value := h];
    ReplaceLookup(hosts, hp.value, h, hs);
    assert hs[sp] == hosts[sp];
    GetUnique(hs, sp);
    hs := hs[sp := hs[sp].(links := RemoveAt(hs[sp].links, lp))];
  }

  // ---- one source in update_exported_edges ----

  method ExportRow(hs: seq<Host>, path: array2<u32>, ghost w: Matrix, i: nat) returns (es: seq<WireEdge>)
    requires Adjacency(w) && i < |hs| == |w| == path.Length0 == path.Length1 && |hs[i].links| < |hs|
    requires forall i, j :: 0 <= i < |w| && 0 <= j < |w| ==> path[i, j] == Path(w, i, j)
    ensures es == ExportHost(hs, w, i, |hs[i].links|)
  {
    es := [];
    for j := 0 to |hs[i].links|
      invariant es == ExportHost(hs, w, i, j)
    {
      if path[i, j] != 0 {
        var l := hs[i].links[j];
        es := es + [Pack(hs[i].mac, l.dst, l.rtt, l.ts)];
      }
    }
  }

  method ExportAll(hs: seq<Host>, path: array2<u32>, ghost w: Matrix) returns (es: seq<WireEdge>)
    requires Adjacency(w) && |hs| == |w| == path.Length0 == path.Length1 && Exportable(hs)
    requires forall i, j :: 0 <= i < |w| && 0 <= j < |w| ==> path[i, j] == Path(w, i, j)
    ensures es == Export(hs, w, |hs|)
  {
    es := [];
    for i := 0 to |hs|
      invariant es == Export(hs, w, i)
    {
      var row := ExportRow(hs, path, w, i);
      es := es + row;
    }
  }

  // ---- the two loops of the multicast branch ----

  // The hops from src to cur, then cur.
  method FollowChain(next: array2<Option<nat>>, ghost w: Matrix, src: nat, cur: nat) returns (chain: seq<nat>)
    requires Adjacency(w) && next.Length0 == next.Length1 == |w| && src < |w| && cur < |w|
    requires forall i, j :: 0 <= i < |w| && 0 <= j < |w| ==> next[i, j] == Next(w, i, j)
    ensures chain == Hops(w, src, cur) + [cur]
  {
    chain := [];
    var here: nat := src;
    while true
      invariant here < |w| && chain + Hops(w, here, cur) == Hops(w, src, cur)
      decreases |Hops(w, here, cur)|
    {
      NextIsNearer(w, here, cur);
      var v := next[here, cur];
      if v.None? {
        chain := chain + [cur];
        return;
      }
      chain := chain + [v.value];
      here := v.value;
    }
  }

  lemma PrefixHead(c: seq<nat>, h: seq<nat>)
    requires |c| > 0
    ensures c <= h <==> |h| > 0 && h[0] == c[0] && c[1..] <= h[1..]
  {
  }

  // Whether the hops from src to i begin with the whole chain.
  method PassesThrough(next: array2<Option<nat>>, ghost w: Matrix, src: nat, chain: seq<nat>, i: nat) returns (r: bool)
    requires Adjacency(w) && next.Length0 == next.Length1 == |w| && src < |w| && i < |w| && |chain| > 0
    requires forall i, j :: 0 <= i < |w| && 0 <= j < |w| ==> next[i, j] == Next(w, i, j)
    ensures r <==> chain <= Hops(w, src, i)
  {
    var here: nat, j: nat := src, 0;
    while true
      invariant here < |w| && j < |chain|
      invariant chain <= Hops(w, src, i) <==> chain[j..] <= Hops(w, here, i)
      decreases |chain| - j
    {
      NextIsNearer(w, here, i);
      PrefixHead(chain[j..], Hops(w, here, i));
      var v := next[here, i];
      if v != Some(chain[j]) {
        return false;
      }
      assert Hops(w, here, i)[1..] == Hops(w, v.value, i) && chain[j..][1..] == chain[j + 1..];
      here := v.value;
      j := j + 1;
      if j >= |chain| {
        return true;
      }
    }
  }

  method Multicast(hs: seq<Host>, next: array2<Option<nat>>, ghost w: Matrix, src: nat, cur: nat)
    returns (res: seq<Host>)
    requires Adjacency(w) && next.Length0 == next.Length1 == |w| == |hs| && src < |w| && cur < |w|
    requires forall i, j :: 0 <= i < |w| && 0 <= j < |w| ==> next[i, j] == Next(w, i, j)
    ensures res == HostsAt(hs, SelectedBelow(w, src, cur, |w|))
  {
    var chain := FollowChain(next, w, src, cur);
    ghost var chosen: seq<nat> := [];
    res := [];
    for i := 0 to |hs|
      invariant chosen == SelectedBelow(w, src, cur, i)
      invariant res == HostsAt(hs, chosen)
    {
      var through := PassesThrough(next, w, src, chain, i);
      if through {
        res := res + [hs[i]];
        chosen := chosen + [i];
      }
    }
  }

  method Unicast(hs: seq<Host>, path: array2<u32>, next: array2<Option<nat>>, ghost w: Matrix, cur: nat, dst: nat)
    returns (res: seq<Host>)
    requires Adjacency(w) && cur < |w| && dst < |w| == |hs|
    requires path.Length0 == path.Length1 == next.Length0 == next.Length1 == |w|
    requires path[cur, dst] == Path(w, cur, dst) && next[cur, dst] == Next(w, cur, dst)
    ensures match Forward(w, cur, dst)
            case None => res == []
            case Some(k) => k < |hs| && res == [hs[k]]
  {
    var v := next[cur, dst];
    if path[cur, dst] == 0 {
      return [];
    }
    ForwardBound(w, cur, dst);
    return [hs[if v.None? then dst else v.value]];
  }

  class Routing {
    var hosts: seq<Host>
    var local: Mac
    var mct: nat
    var path: array2<u32>
    var next: array2<Option<nat>>
    var edges: seq<WireEdge>

    // The graph that the matrices were computed from.
    ghost var cached: Matrix

    // The matrices hold what compute_paths makes of the cached graph.
    ghost predicate Valid()
      reads this, path, next
    {
      && Adjacency(cached) && mct == |cached|
      && path.Length0 == path.Length1 == next.Length0 == next.Length1 == mct
      && forall i, j :: 0 <= i < mct && 0 <= j < mct ==>
                          path[i, j] == Path(cached, i, j) && next[i, j] == Next(cached, i, j)
    }

    ghost function State(): RState
      reads this
    {
      RState(hosts, local, cached, edges)
    }

    // rt_init
    constructor ()
      ensures Valid() && hosts == [] && mct == 0 && edges == []
    {
      hosts, local, mct, edges, cached := [], 0, 0, [], [];
      path := new u32[0, 0];
      next := new Option<nat>[0, 0];
    }

    // rt_lhost_add: 1 for an address that is already in the table.
    method AddLocal(m: Mac) returns (ret: int)
      requires Valid() && Strict(hosts, HostKey)
      modifies this`hosts, this`local
      ensures Valid() && Strict(hosts, HostKey)
      ensures ret == if Has(old(hosts), m) then 1 else 0
      ensures ret == 1 ==> hosts == old(hosts) && local == old(local)
      ensures ret == 0 ==> hosts == AddHost(old(hosts), Host(m, Local, 0, [])) && local == m
      ensures old(hosts) == [] && mct == 0 && edges == [] ==> State() == Init(m) && Inv(State())
    {
      ghost var was := hosts;
      var dup := FindHost(hosts, m);
      if dup.Some? {
        return 1;
      }
      AddLookup(hosts, Host(m, Local, 0, []));
      hosts := AddHost(hosts, Host(m, Local, 0, []));
      local := m;
      ret := 0;
      if was == [] {
        InitInv(m);
      }
    }

    method ComputePaths()
      requires TableOk(hosts, local)
      modifies this`mct, this`path, this`next, this`cached
      ensures Valid() && fresh(path) && fresh(next)
      ensures cached == Graph(hosts)
    {
      var n := |hosts|;
      var p := new u32[n, n]((i, j) => 0);
      var x := new Option<nat>[n, n]((i, j) => None);
      for i := 0 to n
        modifies p
        invariant forall a, b :: 0 <= a < i && 0 <= b < n ==> p[a, b] == Weight(hosts, a, b)
        invariant forall a, b :: i <= a < n && 0 <= b < n ==> p[a, b] == 0
      {
        FillRow(hosts, local, p, i);
      }
      Improve(Graph(hosts), p, x);
      mct, path, next, cached := n, p, x, Graph(hosts);
    }

    // trim_disjoint_hosts
    method Trim() returns (ret: int, freed: seq<Mac>)
      requires Valid() && TableOk(hosts, local)
      modifies this`hosts
      ensures hosts == Trimmed(old(State()))
      ensures ret == if mct == |old(hosts)| then 0 else 1
      ensures freed == if ret == 0 then TrimFrees(old(hosts), cached, Idx(old(hosts), local), 0) else []
    {
      var src := FindHost(hosts, local);
      if mct != |hosts| {
        return 1, [];
      }
      hosts, freed := TrimLoop(hosts, local, path, cached, src.value);
      ret := 0;
    }

    method UpdateExportedEdges()
      requires Valid() && TableOk(hosts, local) && cached == Graph(hosts)
      modifies this`edges
      ensures Exportable(hosts) && edges == old(edges) + Export(hosts, cached, |hosts|)
    {
      TablesAreExportable(hosts, local);
      var es := ExportAll(hosts, path, cached);
      edges := edges + es;
    }

    method UpdateCache() returns (ret: int)
      requires Valid() && TableOk(hosts, local)
      modifies this
      ensures Valid() && fresh(path) && fresh(next) && ret == 0
      ensures State() == Refresh(old(State()))
    {
      var t, freed := Trim();
      ComputePaths();
      UpdateExportedEdges();
      ret := 0;
    }

    // rt_dhost_add_link: l carries the target, the round-trip time and the present time.
    method AddDirectLink(peer: nat, l: Link) returns (ret: int)
      requires Valid() && Inv(State())
      modifies this
      ensures Valid() && (State(), ret) == RoutingState.AddDirectLink(old(State()), peer, l)
      ensures Step(old(State()), Measure(peer, l), State()) && Inv(State())
    {
      if local == l.dst {
        return -2;
      }
      MeasuredKeepsTable(hosts, local, peer, l);
      hosts := MeasureLink(hosts, local, peer, l);
      ret := UpdateCache();
    }

    // rt_dhost_remove
    method RemoveDirectLink(m: Mac) returns (ret: int)
      requires Valid() && Inv(State())
      modifies this
      ensures Valid() && (State(), ret) == RoutingState.RemoveDirectLink(old(State()), m)
      ensures Step(old(State()), Unregister(m), State()) && Inv(State())
    {
      var sp := FindHost(hosts, local);
      assert LinksOk(hosts, hosts[sp.value]);
      var lp := FindLink(hosts[sp.value].links, m);
      if lp.None? {
        return 1;
      }
      LinkTarget(hosts, hosts[sp.value], m);
      UnregisteredKeepsTable(hosts, local, m);
      hosts := UnregisterHost(hosts, local, m, sp.value, lp.value);
      ret := UpdateCache();
    }

    // rt_update_edges: es is the packet as qsort returned it.
    method UpdateEdges(ghost packet: seq<WireEdge>, es: seq<WireEdge>) returns (ret: int)
      requires Valid() && Inv(State()) && SortedEdges(es) && multiset(es) == multiset(packet)
      requires forall m: Mac :: m in Taken(hosts, es) ==> NoRepeats(Group(es, m))
      modifies this
      ensures Valid() && ret == 0
      ensures Step(old(State()), Update(packet), State()) && Inv(State())
    {
      ghost var s := State();
      hosts := MergeEdges(hosts, es);
      MergeKeepsTableIff(s.hosts, local, es, hosts);
      ghost var hs := hosts;
      ret := UpdateCache();
      assert UpdateStep(s, packet, es, hs, State());
    }

    // rt_dhosts_to_host: locked says whether the read lock is still held on return.
    method HostsToHost(src: Mac, dst: Mac) returns (ret: int, res: seq<Host>, locked: bool)
      requires Valid() && Inv(State())
      modifies this`mct, this`path, this`next, this`cached
      ensures Valid() && State() == Queried(old(State())) && Ready(State())
      ensures match Answer(State(), src, dst)
              case Failed(code) => ret == code && res == [] && !locked
              case Dropped => ret == 0 && res == [] && !locked
              case Found(hs) => ret == 0 && res == hs && locked
    {
      if mct != |hosts| {
        ComputePaths();
      }
      var cur := FindHost(hosts, local);
      if IsMulticast(dst) {
        var s := FindHost(hosts, src);
        if s.None? {
          return -2, [], false;
        }
        if path[s.value, cur.value] == 0 {
          return 0, [], false;
        }
        res := Multicast(hosts, next, cached, s.value, cur.value);
        return 0, res, true;
      }
      var d := FindHost(hosts, dst);
      if d.None? {
        return -1, [], false;
      }
      res := Unicast(hosts, path, next, cached, cur.value, d.value);
      return 0, res, true;
    }
  }
}
