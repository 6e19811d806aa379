/** rt_dhosts_to_host as a function of the state, and whom it can return. */
module Lookup {
  import opened Base
  import opened SortedList
  import opened Table
  import opened Wire
  import opened FloydWarshall
  import opened ShortestPaths
  import opened Routes
  import opened Cache
  import opened RoutingState

  // ether_addr_is_mcast: the low bit of the first byte.
  predicate IsMulticast(m: Mac) { m / 0x100_0000_0000 % 2 == 1 }

  // In terms of the six bytes.
  lemma MulticastIsLowBit(b: seq<byte>)
    requires |b| == 6
    ensures BigEndian(b) < 0x1_0000_0000_0000
    ensures IsMulticast(BigEndian(b)) <==> b[0] % 2 == 1
  {
    BigEndianHead(b);
    BigEndianBound(b[1..]);
    assert Power256(3) == 0x100_0000;
    assert Power256(5) == 0x100_0000_0000;
  }

  // Dropped is the branch that returns 0 with no hosts and without the lock.
  datatype Outcome = Failed(code: int) | Dropped | Found(hosts: seq<Host>)

  ghost predicate Ready(s: RState) { Inv(s) && s.cached == Graph(s.hosts) }

  // The positions below n that cur passes a multicast from src on to, in order.
  ghost function SelectedBelow(w: Matrix, src: nat, cur: nat, n: nat): (r: seq<nat>)
    requires Adjacency(w) && src < |w| && cur < |w| && n <= |w|
    ensures forall t :: 0 <= t < |r| ==> r[t] < n && Selects(w, src, cur, r[t])
    ensures forall i: nat :: i < n && Selects(w, src, cur, i) ==> i in r
    ensures forall a, b :: 0 <= a < b < |r| ==> r[a] < r[b]
  {
    if n == 0 then []
    else SelectedBelow(w, src, cur, n - 1) + if Selects(w, src, cur, n - 1) then [n - 1] else []
  }

  ghost function HostsAt(hs: seq<Host>, ps: seq<nat>): (r: seq<Host>)
    requires forall t :: 0 <= t < |ps| ==> ps[t] < |hs|
    ensures |r| == |ps| && forall t :: 0 <= t < |ps| ==> r[t] == hs[ps[t]]
  {
    seq(|ps|, t requires 0 <= t < |ps| => hs[ps[t]])
  }

  ghost function Answer(s: RState, src: Mac, dst: Mac): Outcome
    requires Ready(s)
  {
    var w, cur := s.cached, Idx(s.hosts, s.local);
    if IsMulticast(dst) then
      if !Has(s.hosts, src) then Failed(-2)
      else if Path(w, Idx(s.hosts, src), cur) == 0 then Dropped
      else Found(HostsAt(s.hosts, SelectedBelow(w, Idx(s.hosts, src), cur, |w|)))
    else
      if !Has(s.hosts, dst) then Failed(-1)
      else
        match Forward(w, cur, Idx(s.hosts, dst))
        case None => Found([])
        case Some(k) => ForwardBound(w, cur, Idx(s.hosts, dst)); Found([s.hosts[k]])
  }

  lemma ForwardBound(w: Matrix, cur: nat, j: nat)
    requires Adjacency(w) && cur < |w| && j < |w|
    ensures Forward(w, cur, j).Some? ==> Forward(w, cur, j).value < |w|
    ensures Forward(w, cur, j).Some? && cur != j ==> Linked(w, cur, Forward(w, cur, j).value)
  {
    NextIsNearer(w, cur, j);
    PatternKept(w, |w|, cur, j);
  }

  // A position linked from local holds a direct host.
  lemma LinkedIsDirect(s: RState, k: nat)
    requires Ready(s) && k < |s.hosts| && Linked(s.cached, Idx(s.hosts, s.local), k)
    ensures s.hosts[k].kind.Direct? && LocalLink(s.hosts, s.local, s.hosts[k].mac)
  {
    assert s.cached[Idx(s.hosts, s.local)][k] == Weight(s.hosts, Idx(s.hosts, s.local), k);
    assert KindOk(s.hosts, s.local, s.hosts[k]);
  }

  // Every returned host is a direct peer, linked from local, unless a unicast packet is for local.
  lemma FoundAreDirect(s: RState, src: Mac, dst: Mac, h: Host)
    requires Ready(s) && (IsMulticast(dst) || dst != s.local)
    requires Answer(s, src, dst).Found? && h in Answer(s, src, dst).hosts
    ensures h in s.hosts && h.kind.Direct? && LocalLink(s.hosts, s.local, h.mac)
  {
    var w, cur := s.cached, Idx(s.hosts, s.local);
    if IsMulticast(dst) {
      var ps := SelectedBelow(w, Idx(s.hosts, src), cur, |w|);
      var t :| 0 <= t < |ps| && HostsAt(s.hosts, ps)[t] == h;
      SelectedAreLinked(w, Idx(s.hosts, src), cur, ps[t]);
      LinkedIsDirect(s, ps[t]);
    } else {
      ForwardBound(w, cur, Idx(s.hosts, dst));
      LinkedIsDirect(s, Forward(w, cur, Idx(s.hosts, dst)).value);
    }
  }

  // The exception: a unicast packet for the local host is answered with the local host itself,
  // which is no peer.
  lemma UnicastToLocalFindsLocal(s: RState, src: Mac)
    requires Ready(s) && !IsMulticast(s.local)
    ensures Answer(s, src, s.local) == Found([Get(s.hosts, s.local)]) && Get(s.hosts, s.local).kind.Local?
  {
    var w, cur := s.cached, Idx(s.hosts, s.local);
    PatternKept(w, |w|, cur, cur);
    DiagonalDirect(w, |w|, cur);
    assert KindOk(s.hosts, s.local, Get(s.hosts, s.local));
  }

  // A multicast whose source is another host of the table that has no link in use to local.
  ghost predicate SourceCutOff(hs: seq<Host>, local: Mac, src: Mac, dst: Mac) {
    IsMulticast(dst) && Has(hs, src) && src != local && LinkRtt(Get(hs, src).links, local) == 0
  }

  // Exactly these lookups take the branch that returns 0 without the lock.
  lemma DroppedIff(s: RState, src: Mac, dst: Mac)
    requires Ready(s)
    ensures Answer(s, src, dst).Dropped? <==> SourceCutOff(s.hosts, s.local, src, dst)
  {
    if Has(s.hosts, src) {
      var i, j := Idx(s.hosts, src), Idx(s.hosts, s.local);
      PatternKept(s.cached, |s.cached|, i, j);
      assert s.cached[i][j] == Weight(s.hosts, i, j);
    }
  }

  // The error codes: -2 for a multicast from a host that is not in the table, -1 for a unicast
  // packet to one.
  lemma FailedIff(s: RState, src: Mac, dst: Mac)
    requires Ready(s)
    ensures Answer(s, src, dst) == Failed(-2) <==> IsMulticast(dst) && !Has(s.hosts, src)
    ensures Answer(s, src, dst) == Failed(-1) <==> !IsMulticast(dst) && !Has(s.hosts, dst)
    ensures Answer(s, src, dst).Failed? ==> Answer(s, src, dst).code in {-1, -2}
  {
  }

  // A unicast packet for another host of the table is answered with nobody if and only if local has
  // no link in use to it, and with one host otherwise.
  lemma UnicastAnswerIff(s: RState, src: Mac, dst: Mac)
    requires Ready(s) && !IsMulticast(dst) && Has(s.hosts, dst) && dst != s.local
    ensures Answer(s, src, dst).Found?
    ensures Answer(s, src, dst).hosts == [] <==> LinkRtt(Get(s.hosts, s.local).links, dst) == 0
    ensures Answer(s, src, dst).hosts != [] ==> |Answer(s, src, dst).hosts| == 1
  {
    var i, j := Idx(s.hosts, s.local), Idx(s.hosts, dst);
    PatternKept(s.cached, |s.cached|, i, j);
    assert s.cached[i][j] == Weight(s.hosts, i, j);
  }

  // A multicast is answered with each host that this node passes it on to, once.
  lemma MulticastAnswer(s: RState, src: Mac, dst: Mac, i: nat)
    requires Ready(s) && IsMulticast(dst) && Answer(s, src, dst).Found? && i < |s.hosts|
    ensures Has(s.hosts, src)
    ensures s.hosts[i] in Answer(s, src, dst).hosts <==>
            Selects(s.cached, Idx(s.hosts, src), Idx(s.hosts, s.local), i)
    ensures var hs := Answer(s, src, dst).hosts; forall a, b :: 0 <= a < b < |hs| ==> hs[a].mac < hs[b].mac
  {
    var ps := SelectedBelow(s.cached, Idx(s.hosts, src), Idx(s.hosts, s.local), |s.cached|);
    assert Answer(s, src, dst).hosts == HostsAt(s.hosts, ps);
    HostsAtMembers(s.hosts, ps, i);
  }

  lemma HostsAtMembers(hs: seq<Host>, ps: seq<nat>, i: nat)
    requires Strict(hs, HostKey) && i < |hs| && forall t :: 0 <= t < |ps| ==> ps[t] < |hs|
    requires forall a, b :: 0 <= a < b < |ps| ==> ps[a] < ps[b]
    ensures hs[i] in HostsAt(hs, ps) <==> i in ps
    ensures var r := HostsAt(hs, ps); forall a, b :: 0 <= a < b < |r| ==> r[a].mac < r[b].mac
  {
    var r := HostsAt(hs, ps);
    if hs[i] in r {
      var t :| 0 <= t < |r| && r[t] == hs[i];
      assert HostKey(hs[ps[t]]) == HostKey(hs[i]);
    }
    if i in ps {
      var t :| 0 <= t < |ps| && ps[t] == i;
      assert r[t] == hs[i];
    }
    forall a, b | 0 <= a < b < |r| ensures r[a].mac < r[b].mac {
      assert HostKey(hs[ps[a]]) < HostKey(hs[ps[b]]);
    }
  }

  // A multicast that starts on the local host is forwarded to nobody.
  lemma OwnMulticastFindsNobody(s: RState, dst: Mac)
    requires Ready(s) && IsMulticast(dst)
    ensures Answer(s, s.local, dst) == Found([])
  {
    var w, cur := s.cached, Idx(s.hosts, s.local);
    PatternKept(w, |w|, cur, cur);
    var ps := SelectedBelow(w, cur, cur, |w|);
    if |ps| > 0 {
      SourceSelectsNobody(w, cur, ps[0]);
    }
  }

  // ---- a network of nodes that hold the same graph ----

  // The same hosts and links seen from another node: only the roles and marks differ.
  ghost predicate SameGraph(a: seq<Host>, b: seq<Host>) {
    && |a| == |b|
    && forall i :: 0 <= i < |a| ==> a[i].mac == b[i].mac && a[i].links == b[i].links
  }

  // nodes[m] is the table of the node with address m; all agree on the graph of hs.
  ghost predicate Network(nodes: map<Mac, RState>, hs: seq<Host>) {
    && (forall m: Mac :: m in nodes <==> Has(hs, m))
    && (forall m: Mac :: m in nodes ==> Ready(nodes[m]) && nodes[m].local == m && SameGraph(hs, nodes[m].hosts))
  }

  lemma SameGraphSameMatrix(a: seq<Host>, b: seq<Host>)
    requires SameGraph(a, b)
    ensures Graph(a) == Graph(b)
  {
    var v, w := Graph(a), Graph(b);
    forall i | 0 <= i < |v| ensures v[i] == w[i] {
      forall j | 0 <= j < |v| ensures v[i][j] == w[i][j] {
        assert v[i][j] == Weight(a, i, j) && w[i][j] == Weight(b, i, j);
      }
    }
  }

  // The addresses of a route.
  ghost predicate Travels(nodes: map<Mac, RState>, src: Mac, dst: Mac, r: seq<Mac>) {
    && |r| >= 2 && r[0] == src && r[|r| - 1] == dst
    && (forall t :: 0 <= t < |r| ==> r[t] in nodes && Ready(nodes[r[t]]))
    && (forall t :: 0 <= t < |r| - 1 ==> AnswersWith(nodes[r[t]], src, dst, r[t + 1]))
  }

  // The node's answer to a packet from src to dst is the one host m.
  ghost predicate AnswersWith(s: RState, src: Mac, dst: Mac, m: Mac)
    requires Ready(s)
  {
    var q := Answer(s, src, dst);
    q.Found? && |q.hosts| == 1 && q.hosts[0].mac == m
  }

  // Where every node answers with its own table, a unicast packet whose first node has any path
  // for it reaches its destination without visiting a node twice, in fewer than n hops.
  lemma NetworkDelivers(nodes: map<Mac, RState>, hs: seq<Host>, src: Mac, dst: Mac) returns (r: seq<Mac>)
    requires Strict(hs, HostKey) && Network(nodes, hs)
    requires src in nodes && dst in nodes && src != dst && !IsMulticast(dst)
    requires Answer(nodes[src], src, dst) != Found([])
    ensures Travels(nodes, src, dst, r)
    ensures |r| - 1 < |hs| && forall a, b :: 0 <= a < b < |r| ==> r[a] != r[b]
  {
    AnsweredHasPath(nodes, hs, src, dst);
    r := RouteAddresses(nodes, hs, src, dst);
  }

  lemma RouteAddresses(nodes: map<Mac, RState>, hs: seq<Host>, src: Mac, dst: Mac) returns (r: seq<Mac>)
    requires Strict(hs, HostKey) && Network(nodes, hs)
    requires src in nodes && dst in nodes && src != dst && !IsMulticast(dst)
    requires Path(Graph(hs), Idx(hs, src), Idx(hs, dst)) != 0
    ensures Travels(nodes, src, dst, r)
    ensures |r| - 1 < |hs| && forall a, b :: 0 <= a < b < |r| ==> r[a] != r[b]
  {
    var p;
    p, r := RouteBetween(hs, Idx(hs, src), Idx(hs, dst));
    RouteTravels(nodes, hs, src, dst, p);
  }

  lemma RouteBetween(hs: seq<Host>, i: nat, j: nat) returns (p: seq<nat>, r: seq<Mac>)
    requires Strict(hs, HostKey) && i < |hs| && j < |hs| && i != j && Path(Graph(hs), i, j) != 0
    ensures Delivers(Graph(hs), p, i, j) && r == Addresses(hs, p)
    ensures |r| - 1 < |hs| && forall a, b :: 0 <= a < b < |r| ==> r[a] != r[b]
  {
    UnicastArrives(Graph(hs), i, j);
    p := Route(Graph(hs), i, j);
    r := Addresses(hs, p);
  }

  lemma AnsweredHasPath(nodes: map<Mac, RState>, hs: seq<Host>, src: Mac, dst: Mac)
    requires Strict(hs, HostKey) && Network(nodes, hs) && src in nodes && dst in nodes && !IsMulticast(dst)
    requires Answer(nodes[src], src, dst) != Found([])
    ensures Path(Graph(hs), Idx(hs, src), Idx(hs, dst)) != 0
  {
    NodePosition(nodes, hs, src, src);
    NodePosition(nodes, hs, src, dst);
  }

  ghost function Addresses(hs: seq<Host>, p: seq<nat>): (r: seq<Mac>)
    requires Strict(hs, HostKey) && forall t :: 0 <= t < |p| ==> p[t] < |hs|
    ensures |r| == |p| && forall t :: 0 <= t < |p| ==> r[t] == hs[p[t]].mac
    ensures Distinct(p) ==> forall a, b :: 0 <= a < b < |r| ==> r[a] != r[b]
  {
    seq(|p|, t requires 0 <= t < |p| => hs[p[t]].mac)
  }

  lemma RouteTravels(nodes: map<Mac, RState>, hs: seq<Host>, src: Mac, dst: Mac, p: seq<nat>)
    requires Strict(hs, HostKey) && Network(nodes, hs) && src in nodes && dst in nodes && !IsMulticast(dst)
    requires Delivers(Graph(hs), p, Idx(hs, src), Idx(hs, dst))
    ensures Travels(nodes, src, dst, Addresses(hs, p))
  {
    var r := Addresses(hs, p);
    forall t | 0 <= t < |p| ensures r[t] in nodes && Ready(nodes[r[t]]) {
      GetUnique(hs, p[t]);
    }
    forall t | 0 <= t < |p| - 1 ensures AnswersWith(nodes[r[t]], src, dst, r[t + 1]) {
      NodeAnswers(nodes, hs, src, dst, p[t], p[t + 1]);
    }
  }

  // A host has the same position in every table.
  lemma NodePosition(nodes: map<Mac, RState>, hs: seq<Host>, m: Mac, k: Mac)
    requires Strict(hs, HostKey) && Network(nodes, hs) && m in nodes && Has(hs, k)
    ensures Has(nodes[m].hosts, k) && Idx(nodes[m].hosts, k) == Idx(hs, k)
    ensures nodes[m].cached == Graph(hs)
  {
    SameGraphSameMatrix(hs, nodes[m].hosts);
    GetUnique(nodes[m].hosts, Idx(hs, k));
  }

  lemma NodeAnswers(nodes: map<Mac, RState>, hs: seq<Host>, src: Mac, dst: Mac, a: nat, b: nat)
    requires Strict(hs, HostKey) && Network(nodes, hs) && dst in nodes && !IsMulticast(dst)
    requires a < |hs| && b < |hs| && hs[a].mac in nodes && Forward(Graph(hs), a, Idx(hs, dst)) == Some(b)
    ensures AnswersWith(nodes[hs[a].mac], src, dst, hs[b].mac)
  {
    GetUnique(hs, a);
    NodePosition(nodes, hs, hs[a].mac, hs[a].mac);
    NodePosition(nodes, hs, hs[a].mac, dst);
  }
}
