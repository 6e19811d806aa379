/**
 When the matrices of compute_paths hold true shortest paths: exactly when the links, and
 separately the links of round-trip time 1, are transitive.
 */
module ShortestPaths {
  import opened FloydWarshall

  // ---- walks over links, with unbounded cost ----

  ghost predicate Linked(w: Matrix, i: nat, j: nat)
    requires Adjacency(w)
  {
    i < |w| && j < |w| && i != j && w[i][j] != 0
  }

  // At least one link, from i to j.
  ghost predicate Walk(w: Matrix, p: seq<nat>, i: nat, j: nat)
    requires Adjacency(w)
  {
    && |p| >= 2 && p[0] == i && p[|p| - 1] == j
    && forall t :: 0 <= t < |p| - 1 ==> Linked(w, p[t], p[t + 1])
  }

  ghost function Cost(w: Matrix, p: seq<nat>): nat
    requires Adjacency(w)
    requires forall t :: 0 <= t < |p| ==> p[t] < |w|
  {
    if |p| < 2 then 0 else w[p[0]][p[1]] + Cost(w, p[1..])
  }

  lemma WalkNodes(w: Matrix, p: seq<nat>, i: nat, j: nat)
    requires Adjacency(w) && Walk(w, p, i, j)
    ensures forall t :: 0 <= t < |p| ==> p[t] < |w|
  {
    forall t | 0 <= t < |p| ensures p[t] < |w| {
      assert Linked(w, p[if t == 0 then 0 else t - 1], p[if t == 0 then 1 else t]);
    }
  }

  ghost function WalkCost(w: Matrix, p: seq<nat>, i: nat, j: nat): nat
    requires Adjacency(w) && Walk(w, p, i, j)
  {
    WalkNodes(w, p, i, j);
    Cost(w, p)
  }

  lemma {:induction false} CostSplit(w: Matrix, p: seq<nat>, t: nat)
    requires Adjacency(w) && t < |p|
    requires forall t :: 0 <= t < |p| ==> p[t] < |w|
    ensures Cost(w, p) == Cost(w, p[..t + 1]) + Cost(w, p[t..])
    decreases t
  {
    if t == 0 {
      assert p[0..] == p;
    } else {
      CostSplit(w, p[1..], t - 1);
      assert p[1..][..t] == p[..t + 1][1..];
      assert p[1..][t - 1..] == p[t..];
    }
  }

  // Splitting a walk at an inner node gives two walks whose costs add up.
  lemma SplitWalk(w: Matrix, p: seq<nat>, i: nat, j: nat, t: nat)
    requires Adjacency(w) && Walk(w, p, i, j) && 0 < t < |p| - 1
    ensures Walk(w, p[..t + 1], i, p[t]) && Walk(w, p[t..], p[t], j)
    ensures WalkCost(w, p, i, j) == WalkCost(w, p[..t + 1], i, p[t]) + WalkCost(w, p[t..], p[t], j)
  {
    WalkNodes(w, p, i, j);
    CostSplit(w, p, t);
  }

  lemma JoinWalks(w: Matrix, p: seq<nat>, q: seq<nat>, i: nat, k: nat, j: nat)
    requires Adjacency(w) && Walk(w, p, i, k) && Walk(w, q, k, j)
    ensures Walk(w, p + q[1..], i, j)
    ensures WalkCost(w, p + q[1..], i, j) == WalkCost(w, p, i, k) + WalkCost(w, q, k, j)
  {
    var r := p + q[1..];
    forall t | 0 <= t < |r| - 1 ensures Linked(w, r[t], r[t + 1]) {
      if t < |p| - 1 {
        assert Linked(w, p[t], p[t + 1]);
      } else {
        assert Linked(w, q[t - (|p| - 1)], q[t - (|p| - 1) + 1]);
      }
    }
    SplitWalk(w, r, i, j, |p| - 1);
    assert r[..|p|] == p && r[|p| - 1..] == q;
  }

  lemma LinkWalk(w: Matrix, i: nat, j: nat)
    requires Adjacency(w) && Linked(w, i, j)
    ensures Walk(w, [i, j], i, j) && WalkCost(w, [i, j], i, j) == w[i][j]
  {
    assert [i, j][1..] == [j];
    assert Cost(w, [i, j]) == w[i][j] + Cost(w, [j]);
  }

  lemma TwoLinkWalk(w: Matrix, i: nat, k: nat, j: nat)
    requires Adjacency(w) && Linked(w, i, k) && Linked(w, k, j)
    ensures Walk(w, [i, k, j], i, j)
  {
  }

  // A walk costs at least its number of links; a walk of cost 1 is one link of 1.
  lemma {:induction false} CostAtLeastLength(w: Matrix, p: seq<nat>, i: nat, j: nat)
    requires Adjacency(w) && Walk(w, p, i, j)
    ensures WalkCost(w, p, i, j) >= |p| - 1
    ensures WalkCost(w, p, i, j) == 1 ==> w[i][j] == 1
    decreases |p|
  {
    assert Linked(w, p[0], p[1]);
    if |p| > 2 {
      SplitWalk(w, p, i, j, 1);
      CostAtLeastLength(w, p[1..], p[1], j);
      assert p[..2] == [i, p[1]];
      LinkWalk(w, i, p[1]);
    } else {
      assert p == [i, j];
      LinkWalk(w, i, j);
    }
  }

  // ---- the two conditions ----

  ghost predicate LinksTransitive(w: Matrix)
    requires Adjacency(w)
  {
    forall i, k, j :: Linked(w, i, k) && Linked(w, k, j) && i != j ==> Linked(w, i, j)
  }

  ghost predicate OneLinked(w: Matrix, i: nat, j: nat)
    requires Adjacency(w)
  {
    Linked(w, i, j) && w[i][j] == 1
  }

  ghost predicate OnesTransitive(w: Matrix)
    requires Adjacency(w)
  {
    forall i, k, j :: OneLinked(w, i, k) && OneLinked(w, k, j) && i != j ==> OneLinked(w, i, j)
  }

  // ---- every walk bounds the entry, when links are transitive ----

  lemma {:induction false} WalkImpliesLink(w: Matrix, p: seq<nat>, i: nat, j: nat)
    requires Adjacency(w) && LinksTransitive(w) && Walk(w, p, i, j) && i != j
    ensures Linked(w, i, j)
    decreases |p|
  {
    assert Linked(w, p[0], p[1]);
    if |p| > 2 && p[1] != j {
      SplitWalk(w, p, i, j, 1);
      WalkImpliesLink(w, p[1..], p[1], j);
    }
  }

  ghost predicate InnerBelow(p: seq<nat>, k: nat) {
    forall t :: 0 < t < |p| - 1 ==> p[t] < k
  }

  lemma NothingInside(p: seq<nat>)
    ensures InnerBelow(p, 0) ==> |p| <= 2
  {
    if |p| > 2 {
      assert 0 <= p[1];
    }
  }

  lemma {:induction false} EntryBoundsWalks(w: Matrix, k: nat, p: seq<nat>, i: nat, j: nat)
    requires Adjacency(w) && LinksTransitive(w) && Walk(w, p, i, j) && k <= |w| && InnerBelow(p, k)
    ensures i < |w| && j < |w| && Dist(w, k, i, j) <= WalkCost(w, p, i, j)
    decreases k, |p|
  {
    WalkNodes(w, p, i, j);
    if i == j {
      PatternKept(w, k, i, j);
      CostAtLeastLength(w, p, i, j);
    } else if k == 0 {
      WalkImpliesDirect(w, p, i, j);
    } else if InnerBelow(p, k - 1) {
      EntryBoundsWalks(w, k - 1, p, i, j);
    } else {
      var t :| 0 < t < |p| - 1 && p[t] >= k - 1;
      SplitWalk(w, p, i, j, t);
      EntryBoundsWalks(w, k, p[..t + 1], i, k - 1);
      EntryBoundsWalks(w, k, p[t..], k - 1, j);
      PivotOnWalk(w, k - 1, p, i, j, t);
    }
  }

  lemma PivotOnWalk(w: Matrix, k: nat, p: seq<nat>, i: nat, j: nat, t: nat)
    requires Adjacency(w) && LinksTransitive(w) && Walk(w, p, i, j) && k < |w| && i < |w| && j < |w|
    requires 0 < t < |p| - 1 && p[t] == k && Walk(w, p[..t + 1], i, k) && Walk(w, p[t..], k, j)
    requires Dist(w, k + 1, i, k) <= WalkCost(w, p[..t + 1], i, k) && Dist(w, k + 1, k, j) <= WalkCost(w, p[t..], k, j)
    ensures Dist(w, k + 1, i, j) <= WalkCost(w, p, i, j)
  {
    SplitWalk(w, p, i, j, t);
    if i != k && j != k {
      ThroughPivot(w, k, p[..t + 1], p[t..], i, j);
    }
  }

  lemma WalkImpliesDirect(w: Matrix, p: seq<nat>, i: nat, j: nat)
    requires Adjacency(w) && Walk(w, p, i, j) && InnerBelow(p, 0)
    ensures i < |w| && j < |w| && WalkCost(w, p, i, j) == w[i][j]
  {
    NothingInside(p);
    assert p == [i, j];
    assert Linked(w, p[0], p[1]);
    LinkWalk(w, i, j);
  }

  lemma ThroughPivot(w: Matrix, k: nat, p: seq<nat>, q: seq<nat>, i: nat, j: nat)
    requires Adjacency(w) && LinksTransitive(w) && k < |w| && i < |w| && j < |w| && i != k && j != k
    requires Walk(w, p, i, k) && Walk(w, q, k, j)
    ensures Dist(w, k + 1, i, j) <= Dist(w, k + 1, i, k) + Dist(w, k + 1, k, j)
  {
    WalkImpliesLink(w, p, i, k);
    WalkImpliesLink(w, q, k, j);
    PivotFixed(w, k, i, k);
    PivotFixed(w, k, k, j);
    PatternKept(w, k, i, k);
    PatternKept(w, k, k, j);
  }

  // ---- every entry is the cost of a walk, when the links of 1 are transitive ----

  lemma {:induction false} OnesAreLinks(w: Matrix, k: nat, i: nat, j: nat)
    requires Adjacency(w) && OnesTransitive(w) && k <= |w| && i < |w| && j < |w| && i != j
    ensures Dist(w, k, i, j) == 1 <==> w[i][j] == 1
    decreases k, 0
  {
    PatternKept(w, k, i, j);
    NeverRaised(w, 0, k, i, j);
    if k != 0 {
      OnesAreLinks(w, k - 1, i, j);
      if Improves(w, k - 1, i, j) {
        NotTwoOnes(w, k - 1, i, j);
      }
    }
  }

  // No improvement combines two legs of 1.
  lemma NotTwoOnes(w: Matrix, k: nat, i: nat, j: nat)
    requires Adjacency(w) && OnesTransitive(w) && k < |w| && i < |w| && j < |w| && Improves(w, k, i, j)
    ensures i != k && k != j && i != j
    ensures !(Dist(w, k, i, k) == 1 && Dist(w, k, k, j) == 1)
    decreases k, 1
  {
    if i == k || j == k {
      PivotFixed(w, k, i, j);
    }
    PatternKept(w, k, i, j);
    if Dist(w, k, i, k) == 1 && Dist(w, k, k, j) == 1 {
      OnesAreLinks(w, k, i, k);
      OnesAreLinks(w, k, k, j);
      assert OneLinked(w, i, k) && OneLinked(w, k, j);
      assert OneLinked(w, i, j);
      NeverRaised(w, 0, k, i, j);
      assert false;
    }
  }

  lemma {:induction false} EntryIsWalk(w: Matrix, k: nat, i: nat, j: nat) returns (p: seq<nat>)
    requires Adjacency(w) && OnesTransitive(w) && k <= |w| && i < |w| && j < |w| && i != j && w[i][j] != 0
    ensures Walk(w, p, i, j) && WalkCost(w, p, i, j) == Dist(w, k, i, j)
  {
    if k == 0 {
      p := [i, j];
      LinkWalk(w, i, j);
    } else if Improves(w, k - 1, i, j) {
      NotTwoOnes(w, k - 1, i, j);
      PatternKept(w, k - 1, i, k - 1);
      PatternKept(w, k - 1, k - 1, j);
      var a := EntryIsWalk(w, k - 1, i, k - 1);
      var b := EntryIsWalk(w, k - 1, k - 1, j);
      JoinWalks(w, a, b, i, k - 1, j);
      p := a + b[1..];
    } else {
      p := EntryIsWalk(w, k - 1, i, j);
    }
  }

  // ---- the theorem ----

  // d is the least cost of any walk from i to j, and 0 says that there is none.
  ghost predicate IsDistance(w: Matrix, i: nat, j: nat, d: nat)
    requires Adjacency(w)
  {
    if d == 0 then forall p :: !Walk(w, p, i, j)
    else
      && (exists p :: Walk(w, p, i, j) && WalkCost(w, p, i, j) == d)
      && (forall p :: Walk(w, p, i, j) ==> d <= WalkCost(w, p, i, j))
  }

  ghost predicate Exact(w: Matrix)
    requires Adjacency(w)
  {
    forall i, j :: 0 <= i < |w| && 0 <= j < |w| && i != j ==> IsDistance(w, i, j, Path(w, i, j))
  }

  lemma ExactIfTransitive(w: Matrix, i: nat, j: nat)
    requires Adjacency(w) && LinksTransitive(w) && OnesTransitive(w) && i < |w| && j < |w| && i != j
    ensures IsDistance(w, i, j, Path(w, i, j))
  {
    PatternKept(w, |w|, i, j);
    if w[i][j] == 0 {
      forall p ensures !Walk(w, p, i, j) {
        if Walk(w, p, i, j) {
          WalkImpliesLink(w, p, i, j);
        }
      }
    } else {
      var p := EntryIsWalk(w, |w|, i, j);
      forall q | Walk(w, q, i, j) ensures Path(w, i, j) <= WalkCost(w, q, i, j) {
        WalkNodes(w, q, i, j);
        EntryBoundsWalks(w, |w|, q, i, j);
      }
    }
  }

  lemma MissesUnlinkedPair(w: Matrix, i: nat, k: nat, j: nat)
    requires Adjacency(w) && Linked(w, i, k) && Linked(w, k, j) && i != j && !Linked(w, i, j)
    ensures !IsDistance(w, i, j, Path(w, i, j))
  {
    PatternKept(w, |w|, i, j);
    TwoLinkWalk(w, i, k, j);
  }

  lemma UndercountsTwoOnes(w: Matrix, i: nat, k: nat, j: nat)
    requires Adjacency(w) && OneLinked(w, i, k) && OneLinked(w, k, j) && Linked(w, i, j) && w[i][j] != 1
    ensures Path(w, i, j) == 1 && !IsDistance(w, i, j, Path(w, i, j))
  {
    NeverRaised(w, 0, k, i, k);
    NeverRaised(w, 0, k, k, j);
    PatternKept(w, k, i, k);
    PatternKept(w, k, k, j);
    assert Combine(Dist(w, k, i, k), Dist(w, k, k, j)) == 1;
    assert Dist(w, k + 1, i, j) <= 1 by {
      assert Improves(w, k, i, j) || Dist(w, k, i, j) <= 1;
    }
    NeverRaised(w, k + 1, |w|, i, j);
    PatternKept(w, |w|, i, j);
    forall p | Walk(w, p, i, j) ensures WalkCost(w, p, i, j) != 1 {
      CostAtLeastLength(w, p, i, j);
    }
  }

  // The matrices hold exact shortest paths, over all walks and without any 32-bit effect, if
  // and only if the link relation and the relation of links of 1 are both transitive.
  lemma ExactIffTransitive(w: Matrix)
    requires Adjacency(w)
    ensures Exact(w) <==> LinksTransitive(w) && OnesTransitive(w)
  {
    if LinksTransitive(w) && OnesTransitive(w) {
      forall i, j | 0 <= i < |w| && 0 <= j < |w| && i != j ensures IsDistance(w, i, j, Path(w, i, j)) {
        ExactIfTransitive(w, i, j);
      }
    } else if !LinksTransitive(w) {
      var i, k, j :| Linked(w, i, k) && Linked(w, k, j) && i != j && !Linked(w, i, j);
      MissesUnlinkedPair(w, i, k, j);
    } else {
      var i, k, j :| OneLinked(w, i, k) && OneLinked(w, k, j) && i != j && !OneLinked(w, i, j);
      assert Linked(w, i, j);
      UndercountsTwoOnes(w, i, k, j);
    }
  }

  // Three hosts in a row: the far end is reachable, and the matrix says it is not.
  lemma ChainIsNotExact()
    ensures Adjacency([[1, 5, 0], [0, 1, 5], [0, 0, 1]]) && !Exact([[1, 5, 0], [0, 1, 5], [0, 0, 1]])
  {
    var w: Matrix := [[1, 5, 0], [0, 1, 5], [0, 0, 1]];
    assert Adjacency(w);
    assert Linked(w, 0, 1) && Linked(w, 1, 2);
    MissesUnlinkedPair(w, 0, 1, 2);
  }

  // Two links of 1 in a row count as 1.
  lemma OnesAreNotExact()
    ensures Adjacency([[1, 1, 9], [1, 1, 1], [1, 1, 1]]) && !Exact([[1, 1, 9], [1, 1, 1], [1, 1, 1]])
  {
    var w: Matrix := [[1, 1, 9], [1, 1, 1], [1, 1, 1]];
    assert Adjacency(w);
    assert OneLinked(w, 0, 1) && OneLinked(w, 1, 2) && Linked(w, 0, 2);
    UndercountsTwoOnes(w, 0, 1, 2);
  }
}
