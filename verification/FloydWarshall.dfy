/**
 The all-pairs computation of compute_paths: matrices of round-trip times in which 0 means
 "no path", combined by a saturating 32-bit addition, improved in place.
 */
module FloydWarshall {
  import opened Base

  type Matrix = seq<seq<u32>>

  // What compute_paths starts from: a square matrix whose diagonal holds PATH_MIN.
  ghost predicate Adjacency(w: Matrix) {
    forall i :: 0 <= i < |w| ==> |w[i]| == |w| && w[i][i] == 1
  }

  // Two legs as one path: saturating addition, except that two legs of 1 stay 1.
  function Combine(a: u32, b: u32): (x: u32)
    requires a != 0 && b != 0
    ensures x >= 1 && x <= a + b
    ensures x < U32_MAX && !(a == 1 && b == 1) ==> x == a + b
    ensures x == 1 <==> a == 1 && b == 1
  {
    if a == 1 && b == 1 then 1 else if a + b > U32_MAX then U32_MAX else a + b
  }

  // The wrapping arithmetic of the inner loop computes Combine: no wrapped value escapes.
  method CombineWrapping(a: u32, b: u32) returns (x: u32)
    requires a != 0 && b != 0
    ensures x == Combine(a, b)
  {
    x := (a + b) % 0x1_0000_0000;
    if a == 1 && b == 1 {
      x := x - 1;
    }
    if x < a || x < b {
      x := U32_MAX;
    }
  }

  // Entry (i, j) after the first k rounds.
  ghost function Dist(w: Matrix, k: nat, i: nat, j: nat): u32
    requires Adjacency(w) && k <= |w| && i < |w| && j < |w|
    decreases k, 0
  {
    if k == 0 then w[i][j]
    else if Improves(w, k - 1, i, j) then Combine(Dist(w, k - 1, i, k - 1), Dist(w, k - 1, k - 1, j))
    else Dist(w, k - 1, i, j)
  }

  // Round k finds a better path from i to j through k.
  ghost predicate Improves(w: Matrix, k: nat, i: nat, j: nat)
    requires Adjacency(w) && k < |w| && i < |w| && j < |w|
    decreases k, 1
  {
    var a, b := Dist(w, k, i, k), Dist(w, k, k, j);
    a != 0 && b != 0 && Combine(a, b) < Dist(w, k, i, j)
  }

  // The recorded intermediate host after the first k rounds; None is NEXT_DISCON.
  ghost function Via(w: Matrix, k: nat, i: nat, j: nat): Option<nat>
    requires Adjacency(w) && k <= |w| && i < |w| && j < |w|
  {
    if k == 0 then None else if Improves(w, k - 1, i, j) then Some(k - 1) else Via(w, k - 1, i, j)
  }

  ghost function Path(w: Matrix, i: nat, j: nat): u32
    requires Adjacency(w) && i < |w| && j < |w|
  {
    Dist(w, |w|, i, j)
  }

  ghost function Next(w: Matrix, i: nat, j: nat): Option<nat>
    requires Adjacency(w) && i < |w| && j < |w|
  {
    Via(w, |w|, i, j)
  }

  // For every graph, every round keeps the zero pattern and the diagonal.
  lemma {:induction false} PatternKept(w: Matrix, k: nat, i: nat, j: nat)
    requires Adjacency(w) && k <= |w| && i < |w| && j < |w|
    ensures Dist(w, k, i, j) == 0 <==> w[i][j] == 0
    ensures Dist(w, k, i, i) == 1
  {
    if k != 0 {
      PatternKept(w, k - 1, i, j);
    }
  }

  // A host never records an intermediate for itself.
  lemma {:induction false} DiagonalDirect(w: Matrix, k: nat, i: nat)
    requires Adjacency(w) && k <= |w| && i < |w|
    ensures Via(w, k, i, i) == None
  {
    if k != 0 {
      DiagonalDirect(w, k - 1, i);
      PatternKept(w, k - 1, i, i);
    }
  }

  // A link of time 1 is never improved.
  lemma {:induction false} OnesStayDirect(w: Matrix, k: nat, i: nat, j: nat)
    requires Adjacency(w) && k <= |w| && i < |w| && j < |w| && w[i][j] == 1
    ensures Dist(w, k, i, j) == 1 && Via(w, k, i, j) == None
  {
    if k != 0 {
      OnesStayDirect(w, k - 1, i, j);
    }
  }

  // No round raises an entry.
  lemma {:induction false} NeverRaised(w: Matrix, k: nat, k': nat, i: nat, j: nat)
    requires Adjacency(w) && k <= k' <= |w| && i < |w| && j < |w|
    ensures Dist(w, k', i, j) <= Dist(w, k, i, j)
    decreases k'
  {
    if k < k' {
      NeverRaised(w, k, k' - 1, i, j);
    }
  }

  // In every graph, a linked pair ends up with at most the combination of any two links in a row.
  lemma TwoLegsBound(w: Matrix, i: nat, k: nat, j: nat)
    requires Adjacency(w) && i < |w| && k < |w| && j < |w| && w[i][j] != 0 && w[i][k] != 0 && w[k][j] != 0
    ensures Path(w, i, j) <= Combine(w[i][k], w[k][j])
  {
    PatternKept(w, k, i, k);
    PatternKept(w, k, k, j);
    NeverRaised(w, 0, k, i, k);
    NeverRaised(w, 0, k, k, j);
    NeverRaised(w, k + 1, |w|, i, j);
  }

  // Round k leaves row k and column k alone, which is why working in place is sound.
  lemma PivotFixed(w: Matrix, k: nat, i: nat, j: nat)
    requires Adjacency(w) && k < |w| && i < |w| && j < |w|
    requires i == k || j == k
    ensures !Improves(w, k, i, j)
    ensures Dist(w, k + 1, i, j) == Dist(w, k, i, j)
  {
  }

  // An intermediate is neither end, both of its legs are links, and the combined legs do not
  // exceed the entry; it is strictly closer to the target, or at distance 1 with a smaller
  // recorded intermediate of its own.
  ghost predicate Intermediate(w: Matrix, k: nat, i: nat, m: nat, j: nat)
    requires Adjacency(w) && k <= |w| && i < |w| && j < |w|
  {
    && m < k && m != i && m != j && w[i][m] != 0 && w[m][j] != 0
    && Dist(w, k, i, m) != 0 && Dist(w, k, m, j) != 0
    && Combine(Dist(w, k, i, m), Dist(w, k, m, j)) <= Dist(w, k, i, j)
    && (Dist(w, k, m, j) < Dist(w, k, i, j)
        || (Dist(w, k, m, j) == Dist(w, k, i, j) == 1 && Rank(Via(w, k, m, j)) <= m))
  }

  function Rank(v: Option<nat>): nat {
    if v.None? then 0 else v.value + 1
  }

  lemma {:induction false} ViaIsIntermediate(w: Matrix, k: nat, i: nat, j: nat)
    requires Adjacency(w) && k <= |w| && i < |w| && j < |w|
    ensures Rank(Via(w, k, i, j)) <= k
    ensures Via(w, k, i, j).Some? ==> Intermediate(w, k, i, Via(w, k, i, j).value, j)
  {
    if k != 0 {
      ViaIsIntermediate(w, k - 1, i, j);
      if Improves(w, k - 1, i, j) {
        ViaIsIntermediate(w, k - 1, k - 1, j);
        ImprovedEntry(w, k - 1, i, j);
      } else if Via(w, k, i, j).Some? {
        KeptEntry(w, k - 1, i, Via(w, k, i, j).value, j);
      }
    }
  }

  lemma ImprovedEntry(w: Matrix, k: nat, i: nat, j: nat)
    requires Adjacency(w) && k < |w| && i < |w| && j < |w| && Improves(w, k, i, j)
    requires Rank(Via(w, k, k, j)) <= k
    ensures Intermediate(w, k + 1, i, k, j)
  {
    PatternKept(w, k, i, k);
    PatternKept(w, k, k, j);
    if i == k || j == k {
      PivotFixed(w, k, i, j);
      assert false;
    }
    PivotFixed(w, k, i, k);
    PivotFixed(w, k, k, j);
  }

  lemma KeptEntry(w: Matrix, k: nat, i: nat, m: nat, j: nat)
    requires Adjacency(w) && k < |w| && i < |w| && j < |w|
    requires !Improves(w, k, i, j) && Intermediate(w, k, i, m, j)
    ensures Intermediate(w, k + 1, i, m, j)
  {
  }

  // ---- the program ----

  // Cell (a, b) once round k has passed every row before i and, in row i, every column before j.
  ghost predicate Reached(w: Matrix, k: nat, i: nat, j: nat, a: nat, b: nat, p: u32, v: Option<nat>)
    requires Adjacency(w) && k < |w| && a < |w| && b < |w|
  {
    var r := if a < i || (a == i && b < j) then k + 1 else k;
    p == Dist(w, r, a, b) && v == Via(w, r, a, b)
  }

  // The body of the triple loop.
  method Relax(ghost w: Matrix, path: array2<u32>, next: array2<Option<nat>>, k: nat, i: nat, j: nat)
    requires Adjacency(w) && k < |w| && i < |w| && j < |w|
    requires path.Length0 == path.Length1 == next.Length0 == next.Length1 == |w|
    requires path[i, k] == Dist(w, k, i, k) && path[k, j] == Dist(w, k, k, j)
    requires path[i, j] == Dist(w, k, i, j) && next[i, j] == Via(w, k, i, j)
    modifies path, next
    ensures path[i, j] == Dist(w, k + 1, i, j) && next[i, j] == Via(w, k + 1, i, j)
    ensures forall a, b :: 0 <= a < |w| && 0 <= b < |w| && !(a == i && b == j) ==>
                             path[a, b] == old(path[a, b]) && next[a, b] == old(next[a, b])
  {
    if path[i, k] == 0 || path[k, j] == 0 {
      return;
    }
    var x := CombineWrapping(path[i, k], path[k, j]);
    if x < path[i, j] {
      path[i, j] := x;
      next[i, j] := Some(k);
    }
  }

  // The triple loop, in place on both matrices.
  method Improve(ghost w: Matrix, path: array2<u32>, next: array2<Option<nat>>)
    requires Adjacency(w)
    requires path.Length0 == path.Length1 == next.Length0 == next.Length1 == |w|
    requires forall i, j :: 0 <= i < |w| && 0 <= j < |w| ==> path[i, j] == w[i][j] && next[i, j] == None
    modifies path, next
    ensures forall i, j :: 0 <= i < |w| && 0 <= j < |w| ==>
                             path[i, j] == Path(w, i, j) && next[i, j] == Next(w, i, j)
  {
    var n := path.Length0;
    for k := 0 to n
      invariant forall a, b :: 0 <= a < n && 0 <= b < n ==>
                                 path[a, b] == Dist(w, k, a, b) && next[a, b] == Via(w, k, a, b)
    {
      for i := 0 to n
        invariant forall a, b :: 0 <= a < n && 0 <= b < n ==> Reached(w, k, i, 0, a, b, path[a, b], next[a, b])
      {
        for j := 0 to n
          invariant forall a, b :: 0 <= a < n && 0 <= b < n ==> Reached(w, k, i, j, a, b, path[a, b], next[a, b])
        {
          PivotFixed(w, k, i, k);
          PivotFixed(w, k, k, j);
          assert Reached(w, k, i, j, i, k, path[i, k], next[i, k]);
          assert Reached(w, k, i, j, k, j, path[k, j], next[k, j]);
          assert Reached(w, k, i, j, i, j, path[i, j], next[i, j]);
          Relax(w, path, next, k, i, j);
        }
      }
    }
  }
}
