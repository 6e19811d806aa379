/**
 The order in which threads take locks: the peer group's, the routing table's, one peer's write
 lock, and the reconnect limiter's by itself. From it, no interleaving deadlocks.
 */
module Locks {
  datatype Lock = Group | Routes | Write(peer: nat) | Limiter

  datatype Mode = Shared | Exclusive

  datatype Act = Acquire(lock: Lock, mode: Mode) | Release(lock: Lock)

  function Rank(l: Lock): nat {
    match l
    case Group => 0
    case Routes => 1
    case Write(_) => 2
    case Limiter => 3
  }

  // ---- what the calls of a thread do with locks ----

  datatype Call =
    | Broadcast(peers: seq<nat>)   // dpg_send_linkstate
    | Deliver(peers: seq<nat>)     // a data packet, or rt_get_edges for one peer
    | Send(peer: nat)              // a join, a probe or its answer
    | EditGroup                    // dpg_insert, dpg_remove
    | EditRoutes                   // the three operations that write the routing table
    | Limit                        // pcon_connect, which starts its thread after it unlocks

  function Writes(ps: seq<nat>): seq<Act> {
    if |ps| == 0 then [] else [Acquire(Write(ps[0]), Exclusive), Release(Write(ps[0]))] + Writes(ps[1..])
  }

  function Script(c: Call): seq<Act> {
    match c
    case Broadcast(ps) =>
      [Acquire(Group, Shared), Acquire(Routes, Shared)] + Writes(ps) + [Release(Routes), Release(Group)]
    case Deliver(ps) => [Acquire(Routes, Shared)] + Writes(ps) + [Release(Routes)]
    case Send(p) => Writes([p])
    case EditGroup => [Acquire(Group, Exclusive), Release(Group)]
    case EditRoutes => [Acquire(Routes, Exclusive), Release(Routes)]
    case Limit => [Acquire(Limiter, Exclusive), Release(Limiter)]
  }

  function Program(cs: seq<Call>): seq<Act> {
    if |cs| == 0 then [] else Script(cs[0]) + Program(cs[1..])
  }

  // ---- threads ----

  datatype Thread = Thread(held: map<Lock, Mode>, rest: seq<Act>)

  ghost predicate Compatible(ts: seq<Thread>, t: nat, l: Lock, m: Mode) {
    forall u :: 0 <= u < |ts| && u != t && l in ts[u].held ==> m == Shared && ts[u].held[l] == Shared
  }

  // Thread t can take its next action.
  ghost predicate Enabled(ts: seq<Thread>, t: nat) {
    && t < |ts| && |ts[t].rest| > 0
    && (ts[t].rest[0].Acquire? ==> Compatible(ts, t, ts[t].rest[0].lock, ts[t].rest[0].mode))
  }

  function Advance(th: Thread): Thread
    requires |th.rest| > 0
  {
    match th.rest[0]
    case Acquire(l, m) => Thread(th.held[l := m], th.rest[1..])
    case Release(l) => Thread(th.held - {l}, th.rest[1..])
  }

  ghost predicate Start(ts: seq<Thread>) {
    forall t :: 0 <= t < |ts| ==> exists cs :: ts[t] == Thread(map[], Program(cs))
  }

  ghost predicate Run(run: seq<seq<Thread>>, who: seq<nat>) {
    && |run| == |who| + 1 && Start(run[0])
    && forall i :: 0 <= i < |who| ==> Enabled(run[i], who[i]) && run[i + 1] == run[i][who[i] := Advance(run[i][who[i]])]
  }

  // ---- the order ----

  ghost predicate Below(held: map<Lock, Mode>, l: Lock) {
    forall h :: h in held ==> Rank(h) < Rank(l)
  }

  // Every lock in rest is taken above all that are held then, the limiter alone, only held locks
  // are released, and all are in the end.
  ghost predicate Ordered(held: map<Lock, Mode>, rest: seq<Act>)
    decreases |rest|
  {
    if |rest| == 0 then held == map[]
    else
      match rest[0]
      case Acquire(l, m) => Below(held, l) && (l == Limiter ==> held == map[]) && Ordered(held[l := m], rest[1..])
      case Release(l) => l in held && Ordered(held - {l}, rest[1..])
  }

  lemma {:induction false} OrderedConcat(held: map<Lock, Mode>, a: seq<Act>, b: seq<Act>)
    requires Ordered(held, a) && Ordered(map[], b)
    ensures Ordered(held, a + b)
    decreases |a|
  {
    if |a| == 0 {
      assert a + b == b;
    } else {
      assert (a + b)[1..] == a[1..] + b;
      match a[0]
      case Acquire(l, m) => OrderedConcat(held[l := m], a[1..], b);
      case Release(l) => OrderedConcat(held - {l}, a[1..], b);
    }
  }

  // Sending to one peer after another leaves what is held as it was.
  lemma {:induction false} WritesOrdered(held: map<Lock, Mode>, ps: seq<nat>, tail: seq<Act>)
    requires (forall h :: h in held ==> Rank(h) < 2) && Ordered(held, tail)
    ensures Ordered(held, Writes(ps) + tail)
  {
    if |ps| == 0 {
      assert Writes(ps) + tail == tail;
    } else {
      WritesOrdered(held, ps[1..], tail);
      var l := Write(ps[0]);
      var rest := Writes(ps[1..]) + tail;
      assert Writes(ps) + tail == [Acquire(l, Exclusive), Release(l)] + rest;
      assert ([Acquire(l, Exclusive), Release(l)] + rest)[1..] == [Release(l)] + rest;
      assert ([Release(l)] + rest)[1..] == rest;
      assert held[l := Exclusive] - {l} == held;
    }
  }

  lemma ReleaseRoutesOrdered(m: Mode)
    ensures Ordered(map[Routes := m], [Release(Routes)])
    ensures Ordered(map[], [Acquire(Routes, m), Release(Routes)])
  {
  }

  lemma BroadcastOrdered(ps: seq<nat>)
    ensures Ordered(map[], Script(Broadcast(ps)))
  {
    var g, gr := map[Group := Shared], map[Group := Shared, Routes := Shared];
    var end := [Release(Routes), Release(Group)];
    assert gr - {Routes} == g && g - {Group} == map[];
    assert end[1..] == [Release(Group)] && [Release(Group)][1..] == [];
    assert Ordered(g, [Release(Group)]);
    assert Ordered(gr, end);
    WritesOrdered(gr, ps, end);
    var rest := Writes(ps) + end;
    assert map[][Group := Shared] == g && g[Routes := Shared] == gr;
    assert ([Acquire(Routes, Shared)] + rest)[1..] == rest;
    assert Ordered(g, [Acquire(Routes, Shared)] + rest);
    var all := Script(Broadcast(ps));
    assert all == [Acquire(Group, Shared)] + ([Acquire(Routes, Shared)] + rest);
    assert all[1..] == [Acquire(Routes, Shared)] + rest;
  }

  lemma DeliverOrdered(ps: seq<nat>)
    ensures Ordered(map[], Script(Deliver(ps)))
  {
    ReleaseRoutesOrdered(Shared);
    WritesOrdered(map[Routes := Shared], ps, [Release(Routes)]);
    var all := Script(Deliver(ps));
    assert all[1..] == Writes(ps) + [Release(Routes)];
  }

  // ---- what is held while a peer is written to ----

  // Wherever rest takes a write lock, exactly the locks of need are held.
  ghost predicate WritesUnder(held: map<Lock, Mode>, rest: seq<Act>, need: map<Lock, Mode>)
    decreases |rest|
  {
    if |rest| == 0 then true
    else
      match rest[0]
      case Acquire(l, m) => (l.Write? ==> held == need && m == Exclusive) && WritesUnder(held[l := m], rest[1..], need)
      case Release(l) => WritesUnder(held - {l}, rest[1..], need)
  }

  // The peers whose write locks are taken, in order.
  function WrittenTo(rest: seq<Act>): seq<nat> {
    if |rest| == 0 then []
    else
      var more := WrittenTo(rest[1..]);
      if rest[0].Acquire? && rest[0].lock.Write? then [rest[0].lock.peer] + more else more
  }

  lemma {:induction false} WritesAll(held: map<Lock, Mode>, ps: seq<nat>, tail: seq<Act>)
    requires (forall h :: h in held ==> Rank(h) < 2) && WritesUnder(held, tail, held) && WrittenTo(tail) == []
    ensures WritesUnder(held, Writes(ps) + tail, held) && WrittenTo(Writes(ps) + tail) == ps
  {
    if |ps| == 0 {
      assert Writes(ps) + tail == tail;
    } else {
      WritesAll(held, ps[1..], tail);
      var l := Write(ps[0]);
      var rest := Writes(ps[1..]) + tail;
      var all := [Acquire(l, Exclusive)] + ([Release(l)] + rest);
      assert Writes(ps) + tail == all;
      assert all[1..] == [Release(l)] + rest && ([Release(l)] + rest)[1..] == rest;
      assert held[l := Exclusive] - {l} == held;
      assert WrittenTo([Release(l)] + rest) == WrittenTo(rest) == ps[1..];
    }
  }

  // A broadcast writes to each of its peers once, in order, with the group's and the routing lock
  // held for reading.
  lemma BroadcastHolds(ps: seq<nat>)
    ensures WritesUnder(map[], Script(Broadcast(ps)), map[Group := Shared, Routes := Shared])
    ensures WrittenTo(Script(Broadcast(ps))) == ps
  {
    var g, gr := map[Group := Shared], map[Group := Shared, Routes := Shared];
    var end := [Release(Routes), Release(Group)];
    assert end[1..] == [Release(Group)] && [Release(Group)][1..] == [];
    assert WrittenTo([Release(Group)]) == [];
    WritesAll(gr, ps, end);
    var rest := Writes(ps) + end;
    var tail := [Acquire(Routes, Shared)] + rest;
    assert map[][Group := Shared] == g && g[Routes := Shared] == gr;
    assert tail[1..] == rest;
    assert WrittenTo(tail) == WrittenTo(rest) && WritesUnder(g, tail, gr);
    var all := Script(Broadcast(ps));
    assert all == [Acquire(Group, Shared)] + tail;
    assert all[1..] == tail;
  }

  // A delivery does so with the routing lock held for reading.
  lemma DeliverHolds(ps: seq<nat>)
    ensures WritesUnder(map[], Script(Deliver(ps)), map[Routes := Shared])
    ensures WrittenTo(Script(Deliver(ps))) == ps
  {
    var r := map[Routes := Shared];
    assert [Release(Routes)][1..] == [];
    WritesAll(r, ps, [Release(Routes)]);
    var all := Script(Deliver(ps));
    assert map[][Routes := Shared] == r;
    assert all[1..] == Writes(ps) + [Release(Routes)];
  }

  // Whatever changes the group, the table or the limiter's list does so under its lock alone, held
  // for writing.
  lemma EditsExclude()
    ensures Script(EditGroup)[0] == Acquire(Group, Exclusive) && |Script(EditGroup)| == 2
    ensures Script(EditRoutes)[0] == Acquire(Routes, Exclusive) && |Script(EditRoutes)| == 2
    ensures Script(Limit)[0] == Acquire(Limiter, Exclusive) && |Script(Limit)| == 2
  {
  }

  lemma SingleLockOrdered(l: Lock)
    ensures Ordered(map[], [Acquire(l, Exclusive), Release(l)])
  {
  }

  lemma ScriptOrdered(c: Call)
    ensures Ordered(map[], Script(c))
  {
    match c
    case Broadcast(ps) => BroadcastOrdered(ps);
    case Deliver(ps) => DeliverOrdered(ps);
    case Send(p) =>
      SingleLockOrdered(Write(p));
      assert Writes([p]) == [Acquire(Write(p), Exclusive), Release(Write(p))];
    case EditGroup => SingleLockOrdered(Group);
    case EditRoutes => SingleLockOrdered(Routes);
    case Limit => SingleLockOrdered(Limiter);
  }

  lemma {:induction false} ProgramOrdered(cs: seq<Call>)
    ensures Ordered(map[], Program(cs))
  {
    if |cs| > 0 {
      ScriptOrdered(cs[0]);
      ProgramOrdered(cs[1..]);
      OrderedConcat(map[], Script(cs[0]), Program(cs[1..]));
    }
  }

  ghost predicate AllOrdered(ts: seq<Thread>) {
    forall t :: 0 <= t < |ts| ==> Ordered(ts[t].held, ts[t].rest)
  }

  // In every interleaving every thread stays within the order.
  lemma {:induction false} RunOrdered(run: seq<seq<Thread>>, who: seq<nat>, i: nat)
    requires Run(run, who) && i < |run|
    ensures AllOrdered(run[i]) && |run[i]| == |run[0]|
    decreases i
  {
    if i == 0 {
      forall t | 0 <= t < |run[0]| ensures Ordered(run[0][t].held, run[0][t].rest) {
        var cs :| run[0][t] == Thread(map[], Program(cs));
        ProgramOrdered(cs);
      }
    } else {
      RunOrdered(run, who, i - 1);
      assert Enabled(run[i - 1], who[i - 1]);
      forall t | 0 <= t < |run[i]| ensures Ordered(run[i][t].held, run[i][t].rest) {
        assert Ordered(run[i - 1][t].held, run[i - 1][t].rest);
      }
    }
  }

  // ---- exclusion ----

  ghost predicate Exclusion(ts: seq<Thread>) {
    forall t, u, l :: 0 <= t < |ts| && 0 <= u < |ts| && t != u && l in ts[t].held && l in ts[u].held ==>
                        ts[t].held[l] == ts[u].held[l] == Shared
  }

  // In every interleaving a lock that one thread holds is held by another only if both read.
  lemma {:induction false} RunExcludes(run: seq<seq<Thread>>, who: seq<nat>, i: nat)
    requires Run(run, who) && i < |run|
    ensures Exclusion(run[i])
    decreases i
  {
    if i == 0 {
      assert forall t :: 0 <= t < |run[0]| ==> run[0][t].held == map[];
    } else {
      RunExcludes(run, who, i - 1);
      assert Enabled(run[i - 1], who[i - 1]);
    }
  }

  // ---- waiting ----

  // Thread t wants a lock that thread u holds in a conflicting mode.
  ghost predicate Waits(ts: seq<Thread>, t: nat, u: nat) {
    && t < |ts| && u < |ts| && t != u && |ts[t].rest| > 0 && ts[t].rest[0].Acquire?
    && var l := ts[t].rest[0].lock;
    l in ts[u].held && !(ts[t].rest[0].mode == Shared && ts[u].held[l] == Shared)
  }

  // A thread that is waited for waits, if at all, for a higher lock.
  lemma WaitsClimb(ts: seq<Thread>, t: nat, u: nat)
    requires AllOrdered(ts) && Waits(ts, t, u)
    ensures |ts[u].rest| > 0
    ensures ts[u].rest[0].Acquire? ==> Rank(ts[u].rest[0].lock) > Rank(ts[t].rest[0].lock)
  {
  }

  lemma {:induction false} ChainClimbs(ts: seq<Thread>, chain: seq<nat>)
    requires AllOrdered(ts) && |chain| >= 2
    requires forall i :: 0 <= i < |chain| - 1 ==> Waits(ts, chain[i], chain[i + 1])
    ensures var z := chain[|chain| - 1];
            z < |ts| && (|ts[z].rest| > 0 && ts[z].rest[0].Acquire? ==>
                           chain[0] < |ts| && |ts[chain[0]].rest| > 0
                           && Rank(ts[z].rest[0].lock) > Rank(ts[chain[0]].rest[0].lock))
    decreases |chain|
  {
    var n := |chain|;
    assert Waits(ts, chain[n - 2], chain[n - 1]);
    WaitsClimb(ts, chain[n - 2], chain[n - 1]);
    if n > 2 {
      ChainClimbs(ts, chain[..n - 1]);
    }
  }

  // No cycle of waiting threads forms in any interleaving.
  lemma NoWaitCycle(run: seq<seq<Thread>>, who: seq<nat>, i: nat, cycle: seq<nat>)
    requires Run(run, who) && i < |run| && |cycle| >= 2 && cycle[0] == cycle[|cycle| - 1]
    ensures exists j :: 0 <= j < |cycle| - 1 && !Waits(run[i], cycle[j], cycle[j + 1])
  {
    RunOrdered(run, who, i);
    if forall j :: 0 <= j < |cycle| - 1 ==> Waits(run[i], cycle[j], cycle[j + 1]) {
      assert Waits(run[i], cycle[0], cycle[1]);
      ChainClimbs(run[i], cycle);
    }
  }

  // While some thread has work left, some thread can proceed.
  lemma {:induction false} SomeoneProceeds(ts: seq<Thread>, t: nat) returns (u: nat)
    requires AllOrdered(ts) && t < |ts| && |ts[t].rest| > 0
    ensures Enabled(ts, u)
    decreases if ts[t].rest[0].Acquire? then 3 - Rank(ts[t].rest[0].lock) else 0
  {
    u := t;
    if !Enabled(ts, t) {
      var l, m := ts[t].rest[0].lock, ts[t].rest[0].mode;
      var v :| 0 <= v < |ts| && v != t && l in ts[v].held && !(m == Shared && ts[v].held[l] == Shared);
      WaitsClimb(ts, t, v);
      if ts[v].rest[0].Acquire? {
        u := SomeoneProceeds(ts, v);
      } else {
        u := v;
      }
    }
  }

  lemma NoDeadlock(run: seq<seq<Thread>>, who: seq<nat>, i: nat, t: nat) returns (u: nat)
    requires Run(run, who) && i < |run| && t < |run[i]| && |run[i][t].rest| > 0
    ensures Enabled(run[i], u)
  {
    RunOrdered(run, who, i);
    u := SomeoneProceeds(run[i], t);
  }
}
