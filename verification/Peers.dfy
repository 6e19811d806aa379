/**
 Peer threads against the routing table and the peer group: every interleaving of any number of
 peer threads, which register, serve, unregister and free their peer, with any number of readers
 that hold a list of peers under a read lock.
 */
module Peers {
  import opened Base
  import opened Wire

  // What a peer thread does next. The three prologues differ in the order of registration.
  datatype Pc =
    // dp_th_initial
    | InitialInsert | InitialLink | InitialProbe
    // dp_th_linkstate
    | LinkstateLink | LinkstateInsert | LinkstateProbe
    // dp_th_incoming
    | IncomingSend | IncomingInsert | IncomingLink
    // dp_th
    | Serving
    // the cleanup labels: leave the group, then the table; the other way round; one of them; free
    | LeaveBoth | LeaveTableFirst | LeaveTable | LeaveGroup | Release
    | Freed

  datatype Peer = Peer(mac: Mac, pc: Pc)

  // rcount and gcount are the reader counts of the two locks; lists and casts are what readers
  // actually hold: peers out of the routing table, and peers out of the group. drops counts the
  // returns through the branch that gives up the lock twice.
  datatype Sys = Sys(
    group: map<Mac, nat>, peers: map<nat, Peer>,
    rcount: int, lists: map<nat, set<nat>>,
    gcount: int, casts: map<nat, set<nat>>,
    drops: nat)

  // Each action carries the outcome of the call it stands for.
  datatype Action =
    | Spawn(p: nat, mac: Mac, first: Pc)
    | Proceed(p: nat)                                       // a send or probe that succeeded
    | Fail(p: nat, to: Pc)                                  // any error, with the label it jumps to
    | InsertGroup(p: nat)                                   // dpg_insert
    | AddLink(p: nat, rtt: u32, now: u64, failed: bool)     // rt_dhost_add_link
    | MergeGraph(p: nat, packet: seq<WireEdge>)             // rt_update_edges
    | RemoveGroup(p: nat)                                   // dpg_remove
    | RemoveTable(p: nat)                                   // rt_dhost_remove
    | Free(p: nat)                                          // dp_cleanup_1
    | CheckOut(t: nat, src: Mac, dst: Mac, got: set<nat>)   // rt_dhosts_to_host, lock kept
    | CheckOutDropped(t: nat, src: Mac, dst: Mac)           // rt_dhosts_to_host, 0 without the lock
    | CheckOutFailed(t: nat, src: Mac, dst: Mac)            // rt_dhosts_to_host, an error code
    | CheckOutEdges(t: nat)                                 // rt_get_edges
    | CheckIn(t: nat)                                       // rt_hosts_free, rt_edges_free
    | CheckOutGroup(t: nat)                                 // dpg_send_linkstate begins
    | CheckInGroup(t: nat)                                  // dpg_send_linkstate ends

  // ---- the program ----

  predicate First(pc: Pc) { pc == InitialInsert || pc == LinkstateLink || pc == IncomingSend }

  function AfterSuccess(pc: Pc): Option<Pc> {
    match pc
    case InitialProbe => Some(Serving)
    case LinkstateProbe => Some(Serving)
    case IncomingSend => Some(IncomingInsert)
    case _ => None
  }

  predicate JumpsTo(pc: Pc, to: Pc) {
    match pc
    case InitialInsert => to == Release
    case InitialProbe => to == LeaveTableFirst
    case LinkstateLink => to == Release
    case LinkstateInsert => to == LeaveTable
    case LinkstateProbe => to == LeaveBoth
    case IncomingSend => to == Release || to == LeaveGroup
    case Serving => to == LeaveBoth
    case _ => false
  }

  function AfterInsert(pc: Pc, duplicate: bool): Option<Pc> {
    match pc
    case InitialInsert => Some(if duplicate then Release else InitialLink)
    case LinkstateInsert => Some(if duplicate then LeaveTable else LinkstateProbe)
    case IncomingInsert => Some(if duplicate then Release else IncomingLink)
    case _ => None
  }

  function AfterLink(pc: Pc, failed: bool): Option<Pc> {
    match pc
    case InitialLink => Some(if failed then LeaveGroup else InitialProbe)
    case LinkstateLink => Some(if failed then Release else LinkstateInsert)
    case IncomingLink => Some(if failed then LeaveGroup else Serving)
    case Serving => Some(if failed then LeaveBoth else Serving)
    case _ => None
  }

  predicate ReadsGraphs(pc: Pc) { pc == InitialInsert || pc == LinkstateInsert || pc == Serving }

  function AfterRemoveGroup(pc: Pc): Option<Pc> {
    match pc
    case LeaveBoth => Some(LeaveTable)
    case LeaveGroup => Some(Release)
    case _ => None
  }

  function AfterRemoveTable(pc: Pc): Option<Pc> {
    match pc
    case LeaveTableFirst => Some(LeaveGroup)
    case LeaveTable => Some(Release)
    case _ => None
  }

  function Move(s: Sys, p: nat, pc: Pc): Sys
    requires p in s.peers
  {
    s.(peers := s.peers[p := s.peers[p].(pc := pc)])
  }

  // What an action does to threads, group and locks.
  ghost predicate SysStep(s: Sys, a: Action, s': Sys) {
    match a
    case Spawn(p, mac, first) =>
      p !in s.peers && First(first) && s' == s.(peers := s.peers[p := Peer(mac, first)])
    case Proceed(p) =>
      p in s.peers && AfterSuccess(s.peers[p].pc).Some? && s' == Move(s, p, AfterSuccess(s.peers[p].pc).value)
    case Fail(p, to) =>
      p in s.peers && JumpsTo(s.peers[p].pc, to) && s' == Move(s, p, to)
    case InsertGroup(p) =>
      && p in s.peers && s.gcount == 0
      && var dup := s.peers[p].mac in s.group;
      var next := AfterInsert(s.peers[p].pc, dup);
      next.Some? && s' == Move(s, p, next.value).(group := if dup then s.group else s.group[s.peers[p].mac := p])
    case AddLink(p, _, _, failed) =>
      && p in s.peers && s.rcount == 0 && AfterLink(s.peers[p].pc, failed).Some?
      && s' == Move(s, p, AfterLink(s.peers[p].pc, failed).value)
    case MergeGraph(p, _) =>
      p in s.peers && s.rcount == 0 && ReadsGraphs(s.peers[p].pc) && s' == s
    case RemoveGroup(p) =>
      && p in s.peers && s.gcount == 0 && AfterRemoveGroup(s.peers[p].pc).Some?
      && s' == Move(s, p, AfterRemoveGroup(s.peers[p].pc).value).(group := s.group - {s.peers[p].mac})
    case RemoveTable(p) =>
      && p in s.peers && s.rcount == 0 && AfterRemoveTable(s.peers[p].pc).Some?
      && s' == Move(s, p, AfterRemoveTable(s.peers[p].pc).value)
    case Free(p) =>
      p in s.peers && s.peers[p].pc == Release && s' == Move(s, p, Freed)
    case CheckOut(t, _, _, got) =>
      t !in s.lists && s' == s.(rcount := s.rcount + 1, lists := s.lists[t := got])
    case CheckOutDropped(t, _, _) =>
      t !in s.lists && s' == s.(rcount := s.rcount - 1, drops := s.drops + 1)
    case CheckOutFailed(_, _, _) =>
      s' == s
    case CheckOutEdges(t) =>
      t !in s.lists && s' == s.(rcount := s.rcount + 1, lists := s.lists[t := {}])
    case CheckIn(t) =>
      t in s.lists && s' == s.(rcount := s.rcount - 1, lists := s.lists - {t})
    case CheckOutGroup(t) =>
      t !in s.casts && s' == s.(gcount := s.gcount + 1, casts := s.casts[t := s.group.Values])
    case CheckInGroup(t) =>
      t in s.casts && s' == s.(gcount := s.gcount - 1, casts := s.casts - {t})
  }

  // What an action does to the peers that the table points into, by address.
  ghost predicate OwnerStep(o: map<Mac, nat>, s: Sys, a: Action, o': map<Mac, nat>) {
    match a
    case AddLink(p, _, _, failed) =>
      p in s.peers && o' == if failed || s.peers[p].mac in o then o else o[s.peers[p].mac := p]
    case RemoveTable(p) => p in s.peers && o' == o - {s.peers[p].mac}
    case CheckOut(_, _, _, got) => o' == o && got <= o.Values
    case _ => o' == o
  }

  // Any interleaving, as far as threads, group and locks go.
  ghost predicate SysRun(ss: seq<Sys>, acts: seq<Action>) {
    && |ss| == |acts| + 1 && ss[0] == START
    && forall t :: 0 <= t < |acts| ==> SysStepAt(ss, acts, t)
  }

  ghost predicate SysStepAt(ss: seq<Sys>, acts: seq<Action>, t: nat) {
    t + 1 < |ss| && t < |acts| && SysStep(ss[t], acts[t], ss[t + 1])
  }

  lemma SysRunExtends(ss: seq<Sys>, acts: seq<Action>, a: Action, s: Sys)
    requires SysRun(ss, acts) && SysStep(ss[|ss| - 1], a, s)
    ensures SysRun(ss + [s], acts + [a])
  {
    var ss', acts' := ss + [s], acts + [a];
    forall t: nat | t < |acts'| ensures SysStepAt(ss', acts', t) {
      if t < |acts| {
        assert SysStepAt(ss, acts, t);
      }
    }
  }

  const START: Sys := Sys(map[], map[], 0, map[], 0, map[], 0)

  // A link graph is merged under the table's lock, by a peer that reads one before it joins the group
  // or that is served.
  lemma MergesIff(s: Sys, p: nat, packet: seq<WireEdge>)
    ensures (exists s' :: SysStep(s, MergeGraph(p, packet), s')) <==>
            p in s.peers && s.rcount == 0 && s.peers[p].pc in {InitialInsert, LinkstateInsert, Serving}
  {
    if p in s.peers && s.rcount == 0 && s.peers[p].pc in {InitialInsert, LinkstateInsert, Serving} {
      assert SysStep(s, MergeGraph(p, packet), s);
    }
  }

  // ---- the locks ----

  // The lock's own count against what readers really hold.
  ghost predicate Conserved(s: Sys) {
    s.rcount == |s.lists| - s.drops && s.gcount == |s.casts|
  }

  lemma MapSizes<V>(m: map<nat, V>, t: nat, v: V)
    ensures t !in m ==> |m[t := v]| == |m| + 1
    ensures t in m ==> |m - {t}| == |m| - 1
  {
  }

  lemma StepConserves(s: Sys, a: Action, s': Sys)
    requires SysStep(s, a, s') && Conserved(s)
    ensures Conserved(s') && s'.drops == s.drops + if a.CheckOutDropped? then 1 else 0
  {
  }

  // In every run the routing lock's count falls short of its holders by exactly the number of
  // drops, so it counts its holders if and only if no drop has happened.
  lemma {:induction false} LockCountsHoldersIffNoDrop(ss: seq<Sys>, acts: seq<Action>, t: nat)
    requires SysRun(ss, acts) && t < |ss|
    ensures Conserved(ss[t])
    ensures ss[t].rcount == |ss[t].lists| <==> ss[t].drops == 0
    ensures t > 0 ==> ss[t].drops == ss[t - 1].drops + if acts[t - 1].CheckOutDropped? then 1 else 0
    decreases t
  {
    if t > 0 {
      LockCountsHoldersIffNoDrop(ss, acts, t - 1);
      assert SysStepAt(ss, acts, t - 1);
      StepConserves(ss[t - 1], acts[t - 1], ss[t]);
    }
  }

  // What a broadcast holds is the whole group, from beginning to end.
  ghost predicate CastsAreGroup(s: Sys) {
    forall t :: t in s.casts ==> s.casts[t] == s.group.Values
  }

  lemma StepKeepsCasts(s: Sys, a: Action, s': Sys)
    requires SysStep(s, a, s') && CastsAreGroup(s) && s.gcount == |s.casts|
    ensures CastsAreGroup(s')
  {
    if a.InsertGroup? || a.RemoveGroup? {
      NoHolders(s.casts);
    }
  }

  // In every interleaving, drops or not.
  lemma {:induction false} BroadcastSeesGroup(ss: seq<Sys>, acts: seq<Action>, t: nat)
    requires SysRun(ss, acts) && t < |ss|
    ensures CastsAreGroup(ss[t])
    decreases t
  {
    if t > 0 {
      BroadcastSeesGroup(ss, acts, t - 1);
      LockCountsHoldersIffNoDrop(ss, acts, t - 1);
      assert SysStepAt(ss, acts, t - 1);
      StepKeepsCasts(ss[t - 1], acts[t - 1], ss[t]);
    }
  }

  // ---- liveness of what is held ----

  // The peer may be in the group: every way on leads through dpg_remove.
  predicate MayBeInGroup(pc: Pc) {
    pc in {InitialLink, InitialProbe, LinkstateProbe, IncomingLink, Serving, LeaveBoth, LeaveTableFirst, LeaveGroup}
  }

  // The table may point into the peer: every way on leads through rt_dhost_remove.
  predicate MayBeInTable(pc: Pc) {
    pc in {InitialProbe, LinkstateInsert, LinkstateProbe, Serving, LeaveBoth, LeaveTableFirst, LeaveTable}
  }

  ghost predicate Owns(s: Sys, o: map<Mac, nat>, p: nat) {
    p in s.peers && s.peers[p].mac in o && o[s.peers[p].mac] == p
  }

  ghost predicate TableLive(s: Sys, o: map<Mac, nat>) {
    forall m :: m in o ==> o[m] in s.peers && s.peers[o[m]].mac == m && MayBeInTable(s.peers[o[m]].pc)
  }

  ghost predicate GroupLive(s: Sys) {
    forall m :: m in s.group ==>
                  s.group[m] in s.peers && s.peers[s.group[m]].mac == m && MayBeInGroup(s.peers[s.group[m]].pc)
  }

  ghost predicate HeldLive(held: map<nat, set<nat>>, s: Sys, o: map<Mac, nat>) {
    forall t, p :: t in held && p in held[t] ==> Owns(s, o, p)
  }

  ghost predicate SysInv(s: Sys, o: map<Mac, nat>) {
    && TableLive(s, o) && GroupLive(s)
    && HeldLive(s.lists, s, o) && HeldLive(s.casts, s, s.group)
    && s.rcount == |s.lists| && s.gcount == |s.casts|
  }

  ghost predicate AllUnfreed(s: Sys, ps: set<nat>) {
    forall p :: p in ps ==> p in s.peers && s.peers[p].pc != Freed
  }

  // No peer that the table or the group points to, or that a reader holds, has been freed.
  ghost predicate Safe(s: Sys, o: map<Mac, nat>) {
    && AllUnfreed(s, o.Values) && AllUnfreed(s, s.group.Values)
    && (forall t :: t in s.lists ==> AllUnfreed(s, s.lists[t]))
    && (forall t :: t in s.casts ==> AllUnfreed(s, s.casts[t]))
  }

  lemma InvIsSafe(s: Sys, o: map<Mac, nat>)
    requires SysInv(s, o)
    ensures Safe(s, o)
  {
    forall t | t in s.lists ensures AllUnfreed(s, s.lists[t]) {
      assert forall p :: p in s.lists[t] ==> Owns(s, o, p);
    }
    forall t | t in s.casts ensures AllUnfreed(s, s.casts[t]) {
      assert forall p :: p in s.casts[t] ==> Owns(s, s.group, p);
    }
  }

  lemma NoHolders(m: map<nat, set<nat>>)
    ensures |m| == 0 ==> forall t :: t !in m
  {
  }

  // A peer moves on without forgetting a registration it may have.
  lemma MoveKeeps(s: Sys, o: map<Mac, nat>, p: nat, pc: Pc)
    requires SysInv(s, o) && p in s.peers
    requires MayBeInTable(s.peers[p].pc) ==> MayBeInTable(pc)
    requires MayBeInGroup(s.peers[p].pc) ==> MayBeInGroup(pc)
    ensures SysInv(Move(s, p, pc), o)
  {
    var s' := Move(s, p, pc);
    forall t, q | t in s.lists && q in s.lists[t] ensures Owns(s', o, q) {
      assert Owns(s, o, q);
    }
    forall t, q | t in s.casts && q in s.casts[t] ensures Owns(s', s.group, q) {
      assert Owns(s, s.group, q);
    }
  }

  lemma SpawnKeeps(s: Sys, o: map<Mac, nat>, p: nat, mac: Mac, first: Pc)
    requires SysInv(s, o) && p !in s.peers
    ensures SysInv(s.(peers := s.peers[p := Peer(mac, first)]), o)
  {
    var s' := s.(peers := s.peers[p := Peer(mac, first)]);
    forall t, q | t in s.lists && q in s.lists[t] ensures Owns(s', o, q) {
      assert Owns(s, o, q);
    }
    forall t, q | t in s.casts && q in s.casts[t] ensures Owns(s', s.group, q) {
      assert Owns(s, s.group, q);
    }
  }

  // With nobody in the table's lock, the table may change so long as it stays live.
  lemma TableWriteKeeps(s: Sys, o: map<Mac, nat>, p: nat, pc: Pc, o': map<Mac, nat>)
    requires SysInv(s, o) && p in s.peers && s.rcount == 0
    requires MayBeInGroup(s.peers[p].pc) ==> MayBeInGroup(pc)
    requires TableLive(Move(s, p, pc), o')
    ensures SysInv(Move(s, p, pc), o')
  {
    NoHolders(s.lists);
    var s' := Move(s, p, pc);
    forall t, q | t in s.casts && q in s.casts[t] ensures Owns(s', s.group, q) {
      assert Owns(s, s.group, q);
    }
  }

  // With nobody in the group's lock, the group may change so long as it stays live.
  lemma GroupWriteKeeps(s: Sys, o: map<Mac, nat>, p: nat, pc: Pc, g: map<Mac, nat>)
    requires SysInv(s, o) && p in s.peers && s.gcount == 0
    requires MayBeInTable(s.peers[p].pc) ==> MayBeInTable(pc)
    requires GroupLive(Move(s, p, pc).(group := g))
    ensures SysInv(Move(s, p, pc).(group := g), o)
  {
    NoHolders(s.casts);
    var s' := Move(s, p, pc).(group := g);
    forall t, q | t in s.lists && q in s.lists[t] ensures Owns(s', o, q) {
      assert Owns(s, o, q);
    }
  }

  lemma TableReadKeeps(s: Sys, o: map<Mac, nat>, a: Action, s': Sys)
    requires SysInv(s, o) && SysStep(s, a, s') && (a.CheckOut? || a.CheckOutEdges? || a.CheckIn?)
    requires a.CheckOut? ==> a.got <= o.Values
    ensures SysInv(s', o)
  {
    MapSizes(s.lists, a.t, if a.CheckOut? then a.got else {});
    ListsChange(s, o, s'.rcount, s'.lists);
  }

  // Only the table's readers change, and whoever is new among them holds owners.
  lemma ListsChange(s: Sys, o: map<Mac, nat>, n: int, lists: map<nat, set<nat>>)
    requires SysInv(s, o) && n == |lists|
    requires forall t :: t in lists ==> lists[t] <= o.Values || (t in s.lists && lists[t] == s.lists[t])
    ensures SysInv(s.(rcount := n, lists := lists), o)
  {
    var s' := s.(rcount := n, lists := lists);
    forall t, q | t in lists && q in lists[t] ensures Owns(s', o, q) {
      if lists[t] <= o.Values {
        var m :| m in o && o[m] == q;
      } else {
        assert Owns(s, o, q);
      }
    }
    forall t, q | t in s.casts && q in s.casts[t] ensures Owns(s', s.group, q) {
      assert Owns(s, s.group, q);
    }
  }

  lemma GroupReadKeeps(s: Sys, o: map<Mac, nat>, t: nat)
    requires SysInv(s, o)
    ensures t !in s.casts ==> SysInv(s.(gcount := s.gcount + 1, casts := s.casts[t := s.group.Values]), o)
    ensures t in s.casts ==> SysInv(s.(gcount := s.gcount - 1, casts := s.casts - {t}), o)
  {
    MapSizes(s.casts, t, s.group.Values);
    if t in s.casts {
      CastsChange(s, o, s.gcount - 1, s.casts - {t});
    } else {
      CastsChange(s, o, s.gcount + 1, s.casts[t := s.group.Values]);
    }
  }

  // Only the group's readers change, and whoever is new among them holds members of the group.
  lemma CastsChange(s: Sys, o: map<Mac, nat>, n: int, casts: map<nat, set<nat>>)
    requires SysInv(s, o) && n == |casts|
    requires forall t :: t in casts ==> casts[t] == s.group.Values || (t in s.casts && casts[t] == s.casts[t])
    ensures SysInv(s.(gcount := n, casts := casts), o)
  {
    var s' := s.(gcount := n, casts := casts);
    forall t, q | t in casts && q in casts[t] ensures Owns(s', s.group, q) {
      if casts[t] == s.group.Values {
        var m :| m in s.group && s.group[m] == q;
      } else {
        assert Owns(s, s.group, q);
      }
    }
    forall t, q | t in s.lists && q in s.lists[t] ensures Owns(s', o, q) {
      assert Owns(s, o, q);
    }
  }

  lemma InsertKeeps(s: Sys, o: map<Mac, nat>, p: nat, s': Sys)
    requires SysInv(s, o) && SysStep(s, InsertGroup(p), s')
    ensures SysInv(s', o)
  {
    GroupWriteKeeps(s, o, p, s'.peers[p].pc, s'.group);
  }

  lemma GroupLiveAfterRemoval(s: Sys, p: nat, pc: Pc)
    requires GroupLive(s) && p in s.peers
    ensures GroupLive(Move(s, p, pc).(group := s.group - {s.peers[p].mac}))
  {
  }

  lemma RemoveGroupKeeps(s: Sys, o: map<Mac, nat>, p: nat, s': Sys)
    requires SysInv(s, o) && SysStep(s, RemoveGroup(p), s')
    ensures SysInv(s', o)
  {
    GroupLiveAfterRemoval(s, p, s'.peers[p].pc);
    GroupWriteKeeps(s, o, p, s'.peers[p].pc, s'.group);
  }

  lemma AddLinkKeeps(s: Sys, o: map<Mac, nat>, a: Action, s': Sys, o': map<Mac, nat>)
    requires SysInv(s, o) && a.AddLink? && SysStep(s, a, s') && OwnerStep(o, s, a, o')
    ensures SysInv(s', o')
  {
    TableWriteKeeps(s, o, a.p, s'.peers[a.p].pc, o');
  }

  lemma TableLiveAfterRemoval(s: Sys, o: map<Mac, nat>, p: nat, pc: Pc)
    requires TableLive(s, o) && p in s.peers
    ensures TableLive(Move(s, p, pc), o - {s.peers[p].mac})
  {
  }

  lemma RemoveTableKeeps(s: Sys, o: map<Mac, nat>, p: nat, s': Sys, o': map<Mac, nat>)
    requires SysInv(s, o) && SysStep(s, RemoveTable(p), s') && OwnerStep(o, s, RemoveTable(p), o')
    ensures SysInv(s', o')
  {
    TableLiveAfterRemoval(s, o, p, s'.peers[p].pc);
    TableWriteKeeps(s, o, p, s'.peers[p].pc, o');
  }

  // Every action but a drop keeps the invariant.
  lemma StepKeepsSysInv(s: Sys, o: map<Mac, nat>, a: Action, s': Sys, o': map<Mac, nat>)
    requires SysInv(s, o) && SysStep(s, a, s') && OwnerStep(o, s, a, o') && !a.CheckOutDropped?
    ensures SysInv(s', o')
  {
    match a
    case Spawn(p, mac, first) => SpawnKeeps(s, o, p, mac, first);
    case Proceed(p) => MoveKeeps(s, o, p, AfterSuccess(s.peers[p].pc).value);
    case Fail(p, to) => MoveKeeps(s, o, p, to);
    case InsertGroup(p) => InsertKeeps(s, o, p, s');
    case AddLink(_, _, _, _) => AddLinkKeeps(s, o, a, s', o');
    case MergeGraph(_, _) =>
    case RemoveGroup(p) => RemoveGroupKeeps(s, o, p, s');
    case RemoveTable(p) => RemoveTableKeeps(s, o, p, s', o');
    case Free(p) => MoveKeeps(s, o, p, Freed);
    case CheckOut(_, _, _, _) => TableReadKeeps(s, o, a, s');
    case CheckOutDropped(_, _, _) =>
    case CheckOutFailed(_, _, _) =>
    case CheckOutEdges(_) => TableReadKeeps(s, o, a, s');
    case CheckIn(_) => TableReadKeeps(s, o, a, s');
    case CheckOutGroup(t) => GroupReadKeeps(s, o, t);
    case CheckInGroup(t) => GroupReadKeeps(s, o, t);
  }
}
