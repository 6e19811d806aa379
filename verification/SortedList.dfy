/**
 The keyed arrays of the program: each is kept sorted by appending and calling qsort, searched
 with the DEF_BSEARCH loop and shrunk with DA_REMOVE.
 */
module SortedList {
  import opened Base

  ghost predicate Strict<T>(s: seq<T>, key: T -> int) {
    forall i, j :: 0 <= i < j < |s| ==> key(s[i]) < key(s[j])
  }

  ghost predicate Sorted<T>(s: seq<T>, key: T -> int) {
    forall i, j :: 0 <= i < j < |s| ==> key(s[i]) <= key(s[j])
  }

  ghost predicate HasKey<T>(s: seq<T>, key: T -> int, k: int) {
    exists i :: 0 <= i < |s| && key(s[i]) == k
  }

  ghost function At<T>(s: seq<T>, key: T -> int, k: int): (i: nat)
    requires HasKey(s, key, k)
    ensures i < |s| && key(s[i]) == k
  {
    var i :| 0 <= i < |s| && key(s[i]) == k;
    i
  }

  // x placed after every element that does not exceed it.
  function Insert<T>(s: seq<T>, key: T -> int, x: T): (r: seq<T>)
    ensures |r| == |s| + 1
    ensures multiset(r) == multiset(s) + multiset{x}
  {
    if |s| == 0 || key(s[|s| - 1]) <= key(x) then s + [x]
    else
      assert s == s[..|s| - 1] + [s[|s| - 1]];
      Insert(s[..|s| - 1], key, x) + [s[|s| - 1]]
  }

  lemma InsertMember<T>(s: seq<T>, key: T -> int, x: T, y: T)
    ensures y in Insert(s, key, x) <==> y in s || y == x
  {
  }

  lemma InsertMembers<T>(s: seq<T>, key: T -> int, x: T)
    ensures forall y :: y in Insert(s, key, x) <==> y in s || y == x
  {
  }

  lemma {:induction false} InsertSorted<T>(s: seq<T>, key: T -> int, x: T)
    requires Sorted(s, key)
    ensures Sorted(Insert(s, key, x), key)
  {
    if |s| == 0 || key(s[|s| - 1]) <= key(x) {
    } else {
      var front, last := s[..|s| - 1], s[|s| - 1];
      InsertSorted(front, key, x);
      var r := Insert(front, key, x);
      forall i | 0 <= i < |r| ensures key(r[i]) <= key(last) {
        InsertMember(front, key, x, r[i]);
      }
    }
  }

  // Insertion keeps a list strictly sorted exactly when the key is new.
  lemma {:induction false} InsertStrict<T>(s: seq<T>, key: T -> int, x: T)
    requires Strict(s, key)
    ensures Strict(Insert(s, key, x), key) <==> !HasKey(s, key, key(x))
  {
    var r := Insert(s, key, x);
    if |s| == 0 {
    } else if key(s[|s| - 1]) <= key(x) {
      if key(s[|s| - 1]) == key(x) {
        assert key(r[|s| - 1]) == key(r[|s|]);
      }
    } else {
      var front, last := s[..|s| - 1], s[|s| - 1];
      InsertStrict(front, key, x);
      var q := Insert(front, key, x);
      assert r == q + [last];
      forall i | 0 <= i < |q| ensures key(q[i]) < key(last) {
        InsertMember(front, key, x, q[i]);
      }
      assert HasKey(s, key, key(x)) <==> HasKey(front, key, key(x)) by {
        assert forall i :: 0 <= i < |front| ==> front[i] == s[i];
      }
      assert Strict(q, key) ==> Strict(r, key);
      assert Strict(r, key) ==> Strict(q, key) by {
        assert forall i :: 0 <= i < |q| ==> q[i] == r[i];
      }
    }
  }

  lemma HasKeyMember<T>(s: seq<T>, key: T -> int, x: T)
    requires x in s
    ensures HasKey(s, key, key(x))
  {
  }

  lemma InsertKeys<T>(s: seq<T>, key: T -> int, x: T, k: int)
    ensures HasKey(Insert(s, key, x), key, k) <==> HasKey(s, key, k) || key(x) == k
  {
    var r := Insert(s, key, x);
    InsertMembers(s, key, x);
    if HasKey(r, key, k) {
      var y := r[At(r, key, k)];
      assert y in r;
      if y != x {
        HasKeyMember(s, key, y);
      }
    }
    if HasKey(s, key, k) {
      var y := s[At(s, key, k)];
      assert y in r;
      HasKeyMember(r, key, y);
    }
    assert x in r;
    HasKeyMember(r, key, x);
  }

  lemma NoMembers<T>(s: seq<T>, t: seq<T>)
    ensures (forall x :: x in s <==> x in t) && (|s| == 0 || |t| == 0) ==> s == t
  {
    assert |s| > 0 ==> s[0] in s;
    assert |t| > 0 ==> t[0] in t;
  }

  // Strictly sorted lists with the same members are equal.
  lemma {:induction false} StrictUnique<T>(s: seq<T>, t: seq<T>, key: T -> int)
    requires Strict(s, key) && Strict(t, key)
    requires forall x :: x in s <==> x in t
    ensures s == t
  {
    if |s| == 0 || |t| == 0 {
      NoMembers(s, t);
    } else {
      assert s[0] in t;
      assert t[0] in s;
      assert s[0] == t[0];
      forall x ensures x in s[1..] <==> x in t[1..] {
        if x in s[1..] {
          assert x in s && x != s[0];
        }
        if x in t[1..] {
          assert x in t && x != t[0];
        }
      }
      StrictUnique(s[1..], t[1..], key);
    }
  }

  // Appending a new key and calling qsort has one possible outcome, the insertion.
  lemma QsortIsInsert<T>(s: seq<T>, key: T -> int, x: T, t: seq<T>)
    requires Strict(s, key) && !HasKey(s, key, key(x))
    requires Sorted(t, key) && multiset(t) == multiset(s + [x])
    ensures t == Insert(s, key, x)
  {
    var r := Insert(s, key, x);
    InsertStrict(s, key, x);
    InsertMembers(s, key, x);
    assert multiset(t) == multiset(r);
    forall y ensures y in t <==> y in r {
      assert y in t <==> y in multiset(t);
      assert y in r <==> y in multiset(r);
    }
    DistinctTransfer(r, t, key);
    StrictUnique(t, r, key);
  }

  ghost predicate DistinctKeys<T>(s: seq<T>, key: T -> int) {
    forall i, j :: 0 <= i < j < |s| ==> key(s[i]) != key(s[j])
  }

  lemma {:induction false} CountInDistinct<T>(s: seq<T>, key: T -> int, x: T)
    requires DistinctKeys(s, key)
    ensures multiset(s)[x] <= 1
  {
    if |s| > 0 {
      CountInDistinct(s[1..], key, x);
      assert s == [s[0]] + s[1..];
      assert s[0] !in s[1..];
    }
  }

  lemma CountOfPair<T>(s: seq<T>, i: nat, j: nat)
    requires i < j < |s| && s[i] == s[j]
    ensures multiset(s)[s[i]] >= 2
  {
    assert s == s[..i] + [s[i]] + s[i + 1..j] + [s[i]] + s[j + 1..];
  }

  lemma PairOfCount<T>(s: seq<T>, x: T) returns (i: nat, j: nat)
    requires multiset(s)[x] >= 2
    ensures i < j < |s| && s[i] == s[j] == x
  {
    assert x in multiset(s);
    var a :| 0 <= a < |s| && s[a] == x;
    var before, after := s[..a], s[a + 1..];
    assert s == before + [x] + after;
    if x in before {
      var b :| 0 <= b < |before| && before[b] == x;
      i, j := b, a;
    } else {
      assert x in multiset(after);
      var b :| 0 <= b < |after| && after[b] == x;
      i, j := a, a + 1 + b;
    }
  }

  // Whether keys repeat does not depend on the order of a list.
  lemma DistinctTransfer<T>(s: seq<T>, t: seq<T>, key: T -> int)
    requires multiset(s) == multiset(t) && DistinctKeys(s, key)
    ensures DistinctKeys(t, key)
  {
    forall i, j | 0 <= i < j < |t| ensures key(t[i]) != key(t[j]) {
      CountInDistinct(s, key, t[i]);
      if t[i] == t[j] {
        CountOfPair(t, i, j);
      }
      assert t[i] in multiset(t) && t[j] in multiset(t);
      assert t[i] in s && t[j] in s;
    }
  }

  // A list put together from two repeats a key exactly if one of them does or they share one.
  lemma DistinctConcat<T>(s: seq<T>, t: seq<T>, key: T -> int)
    ensures DistinctKeys(s + t, key) <==>
            && DistinctKeys(s, key) && DistinctKeys(t, key)
            && forall x, y :: x in s && y in t ==> key(x) != key(y)
  {
    var r := s + t;
    if DistinctKeys(r, key) {
      forall i, j | 0 <= i < j < |s| ensures key(s[i]) != key(s[j]) {
        assert r[i] == s[i] && r[j] == s[j];
      }
      forall i, j | 0 <= i < j < |t| ensures key(t[i]) != key(t[j]) {
        assert r[|s| + i] == t[i] && r[|s| + j] == t[j];
      }
      forall x, y | x in s && y in t ensures key(x) != key(y) {
        var i :| 0 <= i < |s| && s[i] == x;
        var j :| 0 <= j < |t| && t[j] == y;
        assert r[i] == x && r[|s| + j] == y;
      }
    }
  }

  function RemoveAt<T>(s: seq<T>, i: nat): (r: seq<T>)
    requires i < |s|
    ensures |r| == |s| - 1
    ensures forall t :: 0 <= t < |r| ==> r[t] == s[if t < i then t else t + 1]
  {
    s[..i] + s[i + 1..]
  }

  lemma RemoveKeys<T>(s: seq<T>, key: T -> int, i: nat, k: int)
    requires Strict(s, key) && i < |s|
    ensures Strict(RemoveAt(s, i), key)
    ensures HasKey(RemoveAt(s, i), key, k) <==> HasKey(s, key, k) && k != key(s[i])
    ensures forall y :: y in RemoveAt(s, i) <==> y in s && y != s[i]
  {
    var r := RemoveAt(s, i);
    forall t | 0 <= t < |s| && t != i ensures s[t] in r && s[t] != s[i] {
      assert r[if t < i then t else t - 1] == s[t];
    }
    forall y ensures y in r <==> y in s && y != s[i] {
    }
    if HasKey(s, key, k) && k != key(s[i]) {
      HasKeyMember(r, key, s[At(s, key, k)]);
    }
    if HasKey(r, key, k) {
      HasKeyMember(s, key, r[At(r, key, k)]);
    }
  }

  // ---- DEF_BSEARCH ----

  // cmp places key consistently along base: everything above it lies after everything below it.
  ghost predicate Partitioned<T>(key: T, base: seq<T>, cmp: (T, T) -> int) {
    forall i, j :: 0 <= i < j < |base| ==>
                     && (cmp(key, base[i]) < 0 ==> cmp(key, base[j]) < 0)
                     && (cmp(key, base[j]) > 0 ==> cmp(key, base[i]) > 0)
  }

  method BSearch<T>(key: T, base: seq<T>, cmp: (T, T) -> int) returns (r: Option<nat>)
    requires Partitioned(key, base, cmp)
    ensures r.Some? ==> r.value < |base| && cmp(key, base[r.value]) == 0
    ensures r.None? ==> forall i :: 0 <= i < |base| ==> cmp(key, base[i]) != 0
  {
    var l, u := 0, |base|;
    while l < u
      invariant 0 <= l <= u <= |base|
      invariant forall i :: 0 <= i < l ==> cmp(key, base[i]) > 0
      invariant forall i :: u <= i < |base| ==> cmp(key, base[i]) < 0
    {
      var idx := (l + u) / 2;
      var comparison := cmp(key, base[idx]);
      if comparison < 0 {
        u := idx;
      } else if comparison > 0 {
        l := idx + 1;
      } else {
        return Some(idx);
      }
    }
    return None;
  }
}
