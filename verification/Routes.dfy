/**
 Forwarding over the matrices: the hop chain of a packet when every node holds the same graph,
 and the multicast choice of rt_dhosts_to_host.
 */
module Routes {
  import opened Base
  import opened FloydWarshall
  import opened ShortestPaths

  // x is nearer to j than i is: smaller path, then smaller recorded intermediate.
  ghost predicate Nearer(w: Matrix, x: nat, i: nat, j: nat)
    requires Adjacency(w) && x < |w| && i < |w| && j < |w|
  {
    || Path(w, x, j) < Path(w, i, j)
    || (Path(w, x, j) == Path(w, i, j) && Rank(Next(w, x, j)) < Rank(Next(w, i, j)))
  }

  lemma NextIsNearer(w: Matrix, i: nat, j: nat)
    requires Adjacency(w) && i < |w| && j < |w|
    ensures var v := Next(w, i, j); v.Some? ==>
      && v.value < |w| && v.value != i && v.value != j
      && Linked(w, i, v.value) && Linked(w, v.value, j) && Nearer(w, v.value, i, j)
  {
    ViaIsIntermediate(w, |w|, i, j);
  }

  // The intermediate hosts that a packet for j visits after i, in order.
  ghost function Hops(w: Matrix, i: nat, j: nat): (h: seq<nat>)
    requires Adjacency(w) && i < |w| && j < |w|
    decreases Path(w, i, j), Rank(Next(w, i, j))
  {
    NextIsNearer(w, i, j);
    match Next(w, i, j)
    case None => []
    case Some(k) => [k] + Hops(w, k, j)
  }

  lemma {:induction false} HopsAreNearer(w: Matrix, i: nat, j: nat)
    requires Adjacency(w) && i < |w| && j < |w|
    ensures forall t :: 0 <= t < |Hops(w, i, j)| ==>
                          var x := Hops(w, i, j)[t]; x < |w| && x != j && Linked(w, x, j) && Nearer(w, x, i, j)
    decreases Path(w, i, j), Rank(Next(w, i, j))
  {
    NextIsNearer(w, i, j);
    match Next(w, i, j)
    case None =>
    case Some(k) =>
      HopsAreNearer(w, k, j);
      var h := Hops(w, k, j);
      forall t | 0 <= t < |h| + 1
        ensures var x := ([k] + h)[t]; x < |w| && x != j && Linked(w, x, j) && Nearer(w, x, i, j)
      {
        if t > 0 {
          assert h[t - 1] == ([k] + h)[t];
        }
      }
  }

  ghost predicate Distinct(s: seq<nat>) {
    forall a, b :: 0 <= a < b < |s| ==> s[a] != s[b]
  }

  // No chain repeats a host, and none contains either end.
  lemma {:induction false} HopsDistinct(w: Matrix, i: nat, j: nat)
    requires Adjacency(w) && i < |w| && j < |w|
    ensures Distinct(Hops(w, i, j)) && i !in Hops(w, i, j) && j !in Hops(w, i, j)
    decreases Path(w, i, j), Rank(Next(w, i, j))
  {
    NextIsNearer(w, i, j);
    HopsAreNearer(w, i, j);
    match Next(w, i, j)
    case None =>
    case Some(k) =>
      HopsDistinct(w, k, j);
  }

  // ---- unicast ----

  // Where the node at cur sends a packet for j: nowhere, the recorded intermediate, or j itself.
  ghost function Forward(w: Matrix, cur: nat, j: nat): Option<nat>
    requires Adjacency(w) && cur < |w| && j < |w|
  {
    if Path(w, cur, j) == 0 then None
    else if Next(w, cur, j).Some? then Next(w, cur, j)
    else Some(j)
  }

  ghost function Route(w: Matrix, i: nat, j: nat): seq<nat>
    requires Adjacency(w) && i < |w| && j < |w|
  {
    [i] + Hops(w, i, j) + [j]
  }

  // r is what forwarding by every node on the way does to a packet for j that starts at i.
  ghost predicate Delivers(w: Matrix, r: seq<nat>, i: nat, j: nat)
    requires Adjacency(w) && i < |w| && j < |w|
  {
    && |r| >= 2 && r[0] == i && r[|r| - 1] == j
    && (forall t :: 0 <= t < |r| ==> r[t] < |w|)
    && (forall t :: 0 <= t < |r| - 1 ==> Forward(w, r[t], j) == Some(r[t + 1]))
  }

  lemma {:induction false} RouteDelivers(w: Matrix, i: nat, j: nat)
    requires Adjacency(w) && i < |w| && j < |w| && Linked(w, i, j)
    ensures Delivers(w, Route(w, i, j), i, j) && Walk(w, Route(w, i, j), i, j)
    decreases Path(w, i, j), Rank(Next(w, i, j))
  {
    NextIsNearer(w, i, j);
    PatternKept(w, |w|, i, j);
    match Next(w, i, j)
    case None =>
      assert Route(w, i, j) == [i, j] && Forward(w, i, j) == Some(j);
    case Some(k) =>
      RouteDelivers(w, k, j);
      assert Route(w, i, j) == [i] + Route(w, k, j);
      Extend(w, Route(w, k, j), i, k, j);
  }

  lemma Extend(w: Matrix, r: seq<nat>, i: nat, k: nat, j: nat)
    requires Adjacency(w) && i < |w| && k < |w| && j < |w|
    requires Delivers(w, r, k, j) && Walk(w, r, k, j) && Linked(w, i, k) && Forward(w, i, j) == Some(k)
    ensures Delivers(w, [i] + r, i, j) && Walk(w, [i] + r, i, j)
  {
  }

  // Forwarding never loops: a packet for j with a nonzero path arrives, over links, without
  // visiting a host twice, in fewer than n hops.
  lemma UnicastArrives(w: Matrix, i: nat, j: nat)
    requires Adjacency(w) && i < |w| && j < |w| && i != j && Path(w, i, j) != 0
    ensures Delivers(w, Route(w, i, j), i, j) && Walk(w, Route(w, i, j), i, j)
    ensures Distinct(Route(w, i, j)) && |Route(w, i, j)| - 1 < |w|
  {
    PatternKept(w, |w|, i, j);
    RouteDelivers(w, i, j);
    HopsDistinct(w, i, j);
    var r := Route(w, i, j);
    assert forall t :: 0 < t < |r| - 1 ==> r[t] == Hops(w, i, j)[t - 1];
    assert Distinct(r);
    Pigeonhole(r, |w|);
  }

  // ---- what the delivered route costs ----

  // A hop over the link a -> b that the matrices have not improved on.
  ghost predicate Unimproved(w: Matrix, a: nat, b: nat)
    requires Adjacency(w)
  {
    a < |w| && b < |w| && Path(w, a, b) == w[a][b]
  }

  ghost predicate AllUnimproved(w: Matrix, r: seq<nat>)
    requires Adjacency(w)
  {
    forall t :: 0 <= t < |r| - 1 ==> Unimproved(w, r[t], r[t + 1])
  }

  // With exact matrices the recorded intermediate lies on a shortest path.
  lemma IntermediateOnShortestPath(w: Matrix, i: nat, j: nat)
    requires Adjacency(w) && LinksTransitive(w) && OnesTransitive(w) && i < |w| && j < |w| && i != j
    requires Next(w, i, j).Some?
    ensures var k := Next(w, i, j).value; k < |w| && Path(w, i, j) == Path(w, i, k) + Path(w, k, j)
  {
    NextIsNearer(w, i, j);
    ViaIsIntermediate(w, |w|, i, j);
    var k := Next(w, i, j).value;
    var a := EntryIsWalk(w, |w|, i, k);
    var b := EntryIsWalk(w, |w|, k, j);
    JoinWalks(w, a, b, i, k, j);
    ExactIfTransitive(w, i, j);
    CombinedLegsAdd(w, |w|, i, j);
  }

  lemma {:induction false} CombinedLegsAdd(w: Matrix, n: nat, i: nat, j: nat)
    requires Adjacency(w) && OnesTransitive(w) && n <= |w| && i < |w| && j < |w| && i != j && Via(w, n, i, j).Some?
    ensures var k := Via(w, n, i, j).value; k < |w| && Dist(w, n, i, k) + Dist(w, n, k, j) <= Dist(w, n, i, j)
  {
    if Improves(w, n - 1, i, j) {
      NotTwoOnes(w, n - 1, i, j);
      PivotFixed(w, n - 1, i, n - 1);
      PivotFixed(w, n - 1, n - 1, j);
    } else {
      CombinedLegsAdd(w, n - 1, i, j);
      var k := Via(w, n, i, j).value;
      NeverRaised(w, n - 1, n, i, k);
      NeverRaised(w, n - 1, n, k, j);
    }
  }

  // With exact matrices, the packet still travels a shortest path only if no hop of its route
  // has been improved: next holds an intermediate host, and the packet goes to it directly.
  lemma {:induction false} RouteShortestIffUnimproved(w: Matrix, i: nat, j: nat)
    requires Adjacency(w) && LinksTransitive(w) && OnesTransitive(w) && i < |w| && j < |w| && Linked(w, i, j)
    ensures Walk(w, Route(w, i, j), i, j)
    ensures WalkCost(w, Route(w, i, j), i, j) >= Path(w, i, j)
    ensures WalkCost(w, Route(w, i, j), i, j) == Path(w, i, j) <==> AllUnimproved(w, Route(w, i, j))
    decreases Path(w, i, j), Rank(Next(w, i, j))
  {
    RouteDelivers(w, i, j);
    WalkNodes(w, Route(w, i, j), i, j);
    NextIsNearer(w, i, j);
    NeverRaised(w, 0, |w|, i, j);
    var r := Route(w, i, j);
    match Next(w, i, j)
    case None =>
      assert r == [i, j];
      LinkWalk(w, i, j);
      NoIntermediateUnimproved(w, |w|, i, j);
    case Some(k) =>
      RouteShortestIffUnimproved(w, k, j);
      IntermediateOnShortestPath(w, i, j);
      NeverRaised(w, 0, |w|, i, k);
      var q := Route(w, k, j);
      WalkNodes(w, q, k, j);
      assert r == [i] + q && r[1..] == q;
      UnimprovedCons(w, i, q);
  }

  // What every node can check on its own matrices: no intermediate it has recorded is one that it
  // reaches at a lower cost than that of the direct link.
  ghost predicate FirstHopsUnimproved(w: Matrix)
    requires Adjacency(w)
  {
    forall i, j :: 0 <= i < |w| && 0 <= j < |w| && Next(w, i, j).Some? ==> Unimproved(w, i, Next(w, i, j).value)
  }

  ghost predicate RouteShortest(w: Matrix, i: nat, j: nat)
    requires Adjacency(w)
  {
    && i < |w| && j < |w| && Walk(w, Route(w, i, j), i, j)
    && WalkCost(w, Route(w, i, j), i, j) == Path(w, i, j)
  }

  lemma {:induction false} UnimprovedHops(w: Matrix, i: nat, j: nat)
    requires Adjacency(w) && FirstHopsUnimproved(w) && i < |w| && j < |w|
    ensures AllUnimproved(w, Route(w, i, j))
    decreases Path(w, i, j), Rank(Next(w, i, j))
  {
    NextIsNearer(w, i, j);
    match Next(w, i, j)
    case None =>
      assert Route(w, i, j) == [i, j];
      NoIntermediateUnimproved(w, |w|, i, j);
    case Some(k) =>
      UnimprovedHops(w, k, j);
      assert Route(w, i, j) == [i] + Route(w, k, j);
      UnimprovedCons(w, i, Route(w, k, j));
  }

  // With exact matrices every packet travels a shortest path if and only if that holds everywhere.
  lemma AllRoutesShortestIff(w: Matrix)
    requires Adjacency(w) && LinksTransitive(w) && OnesTransitive(w)
    ensures (forall i: nat, j: nat :: i < |w| && j < |w| && Linked(w, i, j) ==> RouteShortest(w, i, j)) <==>
            FirstHopsUnimproved(w)
  {
    forall i: nat, j: nat | i < |w| && j < |w| && Linked(w, i, j)
      ensures RouteShortest(w, i, j) <==> AllUnimproved(w, Route(w, i, j))
      ensures FirstHopsUnimproved(w) ==> AllUnimproved(w, Route(w, i, j))
    {
      RouteShortestIffUnimproved(w, i, j);
      if FirstHopsUnimproved(w) {
        UnimprovedHops(w, i, j);
      }
    }
    if forall i: nat, j: nat :: i < |w| && j < |w| && Linked(w, i, j) ==> RouteShortest(w, i, j) {
      forall i, j | 0 <= i < |w| && 0 <= j < |w| && Next(w, i, j).Some?
        ensures Unimproved(w, i, Next(w, i, j).value)
      {
        ImprovedIsLinked(w, i, j);
        var r := Route(w, i, j);
        assert Unimproved(w, r[0], r[1]);
      }
    }
  }

  lemma ImprovedIsLinked(w: Matrix, i: nat, j: nat)
    requires Adjacency(w) && i < |w| && j < |w| && Next(w, i, j).Some?
    ensures Linked(w, i, j)
  {
    DiagonalDirect(w, |w|, i);
    ViaIsIntermediate(w, |w|, i, j);
    PatternKept(w, |w|, i, j);
  }

  lemma UnimprovedCons(w: Matrix, i: nat, q: seq<nat>)
    requires Adjacency(w) && |q| > 0
    ensures AllUnimproved(w, [i] + q) <==> Unimproved(w, i, q[0]) && AllUnimproved(w, q)
  {
    var r := [i] + q;
    if AllUnimproved(w, r) {
      assert Unimproved(w, r[0], r[1]);
      forall t | 0 <= t < |q| - 1 ensures Unimproved(w, q[t], q[t + 1]) {
        assert Unimproved(w, r[t + 1], r[t + 2]);
      }
    }
  }

  lemma {:induction false} NoIntermediateUnimproved(w: Matrix, k: nat, i: nat, j: nat)
    requires Adjacency(w) && k <= |w| && i < |w| && j < |w| && Via(w, k, i, j).None?
    ensures Dist(w, k, i, j) == w[i][j]
  {
    if k != 0 {
      NoIntermediateUnimproved(w, k - 1, i, j);
    }
  }

  const DETOUR: Matrix := [[1, 2, 50, 50], [50, 1, 50, 2], [2, 100, 1, 200], [50, 50, 50, 1]]

  lemma DetourEntries()
    ensures Adjacency(DETOUR) && Dist(DETOUR, 1, 2, 1) == 4 && Via(DETOUR, 2, 2, 3) == Some(1)
  {
  }

  // In this full mesh the matrices are exact, yet the packet from 2 to 3 does not take the shortest
  // path 2, 0, 1, 3: it goes to the recorded intermediate 1 over the direct link, which costs 100.
  lemma DetourIsTaken()
    ensures Adjacency(DETOUR) && Exact(DETOUR) && Next(DETOUR, 2, 3) == Some(1)
    ensures Walk(DETOUR, Route(DETOUR, 2, 3), 2, 3)
    ensures WalkCost(DETOUR, Route(DETOUR, 2, 3), 2, 3) > Path(DETOUR, 2, 3)
  {
    var w := DETOUR;
    DetourEntries();
    assert w[0] == [1, 2, 50, 50] && w[1] == [50, 1, 50, 2] && w[2] == [2, 100, 1, 200] && w[3] == [50, 50, 50, 1];
    assert LinksTransitive(w) && OnesTransitive(w);
    ExactIffTransitive(w);
    PivotFixed(w, 2, 2, 3);
    PivotFixed(w, 3, 2, 3);
    assert Next(w, 2, 3) == Some(1);
    NeverRaised(w, 1, 4, 2, 1);
    RouteShortestIffUnimproved(w, 2, 3);
    var r := Route(w, 2, 3);
    assert r[0] == 2 && r[1] == 1;
    assert !Unimproved(w, r[0], r[1]);
  }

  // ---- multicast ----

  // cur passes a multicast from src on to i: the chain from src to i runs along the whole chain
  // from src to cur and then through cur.
  ghost predicate Selects(w: Matrix, src: nat, cur: nat, i: nat)
    requires Adjacency(w) && src < |w| && cur < |w| && i < |w|
  {
    Hops(w, src, cur) + [cur] <= Hops(w, src, i)
  }

  // Whoever is selected is another host, and linked from cur.
  lemma SelectedAreLinked(w: Matrix, src: nat, cur: nat, i: nat)
    requires Adjacency(w) && src < |w| && cur < |w| && i < |w| && Selects(w, src, cur, i)
    ensures Linked(w, cur, i)
  {
    var t := |Hops(w, src, cur)|;
    assert (Hops(w, src, cur) + [cur])[t] == cur;
    HopsAreNearer(w, src, i);
    assert Hops(w, src, i)[t] == cur;
  }

  // The source itself selects nobody, so a multicast never leaves the node it starts on.
  lemma SourceSelectsNobody(w: Matrix, src: nat, i: nat)
    requires Adjacency(w) && src < |w| && i < |w|
    ensures !Selects(w, src, src, i)
  {
    HopsDistinct(w, src, src);
    HopsDistinct(w, src, i);
    var h := Hops(w, src, src) + [src];
    assert h[|h| - 1] == src;
    assert forall t :: 0 <= t < |Hops(w, src, i)| ==> Hops(w, src, i)[t] != src;
  }

  // cur is number p on the chain to i, and the chain to cur is what comes before it there.
  ghost predicate ReachedAlong(w: Matrix, src: nat, cur: nat, i: nat, p: nat)
    requires Adjacency(w) && src < |w| && cur < |w| && i < |w|
  {
    p < |Hops(w, src, i)| && Hops(w, src, i)[p] == cur && Hops(w, src, cur) == Hops(w, src, i)[..p]
  }

  // Exactly the hosts on the chain to i that are themselves reached along it pass the multicast on.
  lemma SelectsIffOnChain(w: Matrix, src: nat, cur: nat, i: nat)
    requires Adjacency(w) && src < |w| && cur < |w| && i < |w|
    ensures Selects(w, src, cur, i) <==> exists p: nat :: ReachedAlong(w, src, cur, i, p)
  {
    var a, b := Hops(w, src, cur), Hops(w, src, i);
    if Selects(w, src, cur, i) {
      assert (a + [cur])[|a|] == cur && b[|a|] == cur;
      assert a == (a + [cur])[..|a|] == b[..|a|];
      assert ReachedAlong(w, src, cur, i, |a|);
    }
    if p: nat :| ReachedAlong(w, src, cur, i, p) {
      assert a + [cur] == b[..p] + [b[p]] == b[..p + 1];
      assert b[..p + 1] <= b;
    }
  }

  // The first hop towards i relays the multicast to i if and only if the source reaches that hop
  // directly; otherwise the chain to the hop and the chain through it part at once.
  lemma FirstHopRelaysIff(w: Matrix, src: nat, i: nat)
    requires Adjacency(w) && src < |w| && i < |w| && Next(w, src, i).Some?
    ensures Next(w, src, i).value < |w|
    ensures Selects(w, src, Next(w, src, i).value, i) <==> Next(w, src, Next(w, src, i).value).None?
  {
    NextIsNearer(w, src, i);
    var k := Next(w, src, i).value;
    NextIsNearer(w, src, k);
    var a, b := Hops(w, src, k), Hops(w, src, i);
    assert b[0] == k;
    if Next(w, src, k).None? {
      assert a + [k] == [k] == b[..1];
    } else {
      assert (a + [k])[0] == Next(w, src, k).value != k;
    }
  }

  // In the mesh of the detour, the source reaches the first hop of its chain to 3 through another
  // host, and the hop does not relay.
  lemma DetourIsNotRelayed()
    ensures Adjacency(DETOUR) && Next(DETOUR, 2, 3) == Some(1) && !Selects(DETOUR, 2, 1, 3)
  {
    var w := DETOUR;
    DetourIsTaken();
    DetourEntries();
    NeverRaised(w, 1, 4, 2, 1);
    assert Next(w, 2, 1).None? ==> Path(w, 2, 1) == w[2][1] by {
      if Next(w, 2, 1).None? {
        NoIntermediateUnimproved(w, 4, 2, 1);
      }
    }
    FirstHopRelaysIff(w, 2, 3);
  }
}
