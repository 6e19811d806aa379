/**
 What update_cache derives from the table: the trimmed table, the graph that compute_paths starts
 from, and the exported edges.
 */
module Cache {
  import opened Base
  import opened SortedList
  import opened Table
  import opened Wire
  import opened FloydWarshall

  // ---- the graph ----

  ghost function LinkRtt(ls: seq<Link>, m: Mac): u32 {
    if HasLink(ls, m) then ls[At(ls, LinkKey, m)].rtt else 0
  }

  ghost function Weight(hs: seq<Host>, i: nat, j: nat): u32
    requires i < |hs| && j < |hs|
  {
    if i == j then 1 else LinkRtt(hs[i].links, hs[j].mac)
  }

  // The adjacency matrix of the table, by position.
  ghost function Graph(hs: seq<Host>): (w: Matrix)
    ensures |w| == |hs| && Adjacency(w)
    ensures forall i, j :: 0 <= i < |hs| && 0 <= j < |hs| ==> w[i][j] == Weight(hs, i, j)
  {
    seq(|hs|, i requires 0 <= i < |hs| => seq(|hs|, j requires 0 <= j < |hs| => Weight(hs, i, j)))
  }

  lemma LinkRttOf(ls: seq<Link>, l: Link)
    requires Strict(ls, LinkKey) && l in ls
    ensures HasLink(ls, l.dst) && LinkRtt(ls, l.dst) == l.rtt
  {
  }

  // What compute_paths starts from: 1 on the diagonal, the time of every link at the position of its
  // target, and 0 wherever there is no link.
  lemma GraphIsLinks(hs: seq<Host>, local: Mac, i: nat, j: nat)
    requires TableOk(hs, local) && i < |hs| && j < |hs|
    ensures Graph(hs)[i][i] == 1
    ensures forall l :: l in hs[i].links ==> Has(hs, l.dst) && Graph(hs)[i][Idx(hs, l.dst)] == l.rtt
    ensures i != j && (forall l :: l in hs[i].links ==> l.dst != hs[j].mac) ==> Graph(hs)[i][j] == 0
  {
    assert LinksOk(hs, hs[i]);
    forall l | l in hs[i].links ensures Has(hs, l.dst) && Graph(hs)[i][Idx(hs, l.dst)] == l.rtt {
      LinkRttOf(hs[i].links, l);
      assert Graph(hs)[i][Idx(hs, l.dst)] == Weight(hs, i, Idx(hs, l.dst));
    }
    assert Graph(hs)[i][j] == Weight(hs, i, j);
  }

  // In the terms of the table: the entry of a linked target is at most the time of the link, and at
  // most the sum over any two links in use that lead there.
  lemma EntryBoundsLinks(hs: seq<Host>, local: Mac, i: nat, l: Link, l1: Link, l2: Link)
    requires TableOk(hs, local) && i < |hs| && l in hs[i].links && l1 in hs[i].links && l.rtt != 0
    requires Has(hs, l1.dst) && l2 in Get(hs, l1.dst).links && l2.dst == l.dst && l1.rtt != 0 && l2.rtt != 0
    ensures Has(hs, l.dst)
    ensures Path(Graph(hs), i, Idx(hs, l.dst)) <= l.rtt
    ensures Path(Graph(hs), i, Idx(hs, l.dst)) <= l1.rtt + l2.rtt
  {
    var w, k := Graph(hs), Idx(hs, l1.dst);
    GraphIsLinks(hs, local, i, i);
    GraphIsLinks(hs, local, k, k);
    var j := Idx(hs, l.dst);
    NeverRaised(w, 0, |w|, i, j);
    TwoLegsBound(w, i, k, j);
  }

  // ---- trimming ----

  // One link to m removed, which in a list without repeats is every link to m.
  ghost function Unlink(ls: seq<Link>, m: Mac): seq<Link> {
    if HasLink(ls, m) then RemoveAt(ls, At(ls, LinkKey, m)) else ls
  }

  ghost function UnlinkAll(hs: seq<Host>, m: Mac): (r: seq<Host>)
    ensures |r| == |hs|
    ensures forall t :: 0 <= t < |hs| ==> r[t] == hs[t].(links := Unlink(hs[t].links, m))
  {
    seq(|hs|, t requires 0 <= t < |hs| => hs[t].(links := Unlink(hs[t].links, m)))
  }

  // trim_host for a normal host: remove it together with the links to it.
  ghost function DropHost(hs: seq<Host>, i: nat): (r: seq<Host>)
    requires i < |hs|
    ensures |r| == |hs| - 1
  {
    RemoveAt(UnlinkAll(hs, hs[i].mac), i)
  }

  // The loop of trim_disjoint_hosts from position i: it reads the old matrix by position while
  // the hosts shift down under it.
  ghost function TrimFrom(hs: seq<Host>, prev: Matrix, src: nat, i: nat): seq<Host>
    requires Adjacency(prev) && |hs| <= |prev| && src < |prev|
    decreases |hs| - i
  {
    if i >= |hs| then hs
    else if Path(prev, src, i) == 0 && i != src && hs[i].kind.Normal? then TrimFrom(DropHost(hs, i), prev, src, i + 1)
    else TrimFrom(hs, prev, src, i + 1)
  }

  // ---- what trimming keeps ----

  // h' is h without its links to hosts that are no longer in hs'.
  ghost predicate Pruned(h: Host, hs': seq<Host>, h': Host) {
    && h'.mac == h.mac && h'.kind == h.kind && h'.maxTs == h.maxTs
    && forall l :: l in h'.links <==> l in h.links && Has(hs', l.dst)
  }

  // hs' is hs without some of its normal hosts and without the links to those.
  ghost predicate TrimmedTo(hs: seq<Host>, hs': seq<Host>) {
    && (forall m: Mac :: Has(hs', m) ==> Has(hs, m) && Pruned(Get(hs, m), hs', Get(hs', m)))
    && (forall m: Mac :: Has(hs, m) && !Has(hs', m) ==> Get(hs, m).kind.Normal?)
  }

  lemma UnlinkMembers(ls: seq<Link>, m: Mac)
    requires Strict(ls, LinkKey)
    ensures Strict(Unlink(ls, m), LinkKey)
    ensures forall l :: l in Unlink(ls, m) <==> l in ls && l.dst != m
    ensures forall k: Mac :: HasLink(Unlink(ls, m), k) <==> HasLink(ls, k) && k != m
  {
    if HasLink(ls, m) {
      var p := At(ls, LinkKey, m);
      forall k: Mac ensures HasLink(Unlink(ls, m), k) <==> HasLink(ls, k) && k != m {
        RemoveKeys(ls, LinkKey, p, k);
      }
      RemoveKeys(ls, LinkKey, p, m);
      forall l | l in ls && l.dst == m ensures l == ls[p] {
      }
    } else {
      forall l | l in ls ensures l.dst != m {
        HasKeyMember(ls, LinkKey, l);
      }
    }
  }

  lemma UnlinkAllLookup(hs: seq<Host>, m: Mac)
    requires Strict(hs, HostKey)
    ensures Strict(UnlinkAll(hs, m), HostKey)
    ensures forall k: Mac :: Has(UnlinkAll(hs, m), k) <==> Has(hs, k)
    ensures forall k: Mac :: Has(hs, k) ==>
                               Get(UnlinkAll(hs, m), k) == Get(hs, k).(links := Unlink(Get(hs, k).links, m))
  {
  }

  lemma DropLookup(hs: seq<Host>, i: nat)
    requires Strict(hs, HostKey) && i < |hs|
    ensures Strict(DropHost(hs, i), HostKey)
    ensures forall k: Mac :: Has(DropHost(hs, i), k) <==> Has(hs, k) && k != hs[i].mac
    ensures forall k: Mac :: Has(hs, k) && k != hs[i].mac ==>
                               && Has(DropHost(hs, i), k)
                               && Get(DropHost(hs, i), k) == Get(hs, k).(links := Unlink(Get(hs, k).links, hs[i].mac))
  {
    var m := hs[i].mac;
    var us, r := UnlinkAll(hs, m), DropHost(hs, i);
    UnlinkAllLookup(hs, m);
    RemoveKeys(us, HostKey, i, m);
    forall k: Mac ensures Has(r, k) <==> Has(hs, k) && k != m {
      RemoveKeys(us, HostKey, i, k);
    }
    forall k: Mac | Has(hs, k) && k != m ensures Get(r, k) == Get(us, k) {
      assert Get(us, k) in us && Get(us, k) != us[i];
      GetMember(r, Get(us, k));
    }
  }

  lemma DropKeepsTable(hs: seq<Host>, local: Mac, i: nat)
    requires TableOk(hs, local) && i < |hs| && hs[i].kind.Normal?
    ensures TableOk(DropHost(hs, i), local) && TrimmedTo(hs, DropHost(hs, i))
  {
    var r, m := DropHost(hs, i), hs[i].mac;
    DropLookup(hs, i);
    GetUnique(hs, i);
    assert KindOk(hs, local, hs[i]);
    assert LinksOk(hs, Get(hs, local));
    UnlinkMembers(Get(hs, local).links, m);
    forall k: Mac | Has(r, k) ensures Pruned(Get(hs, k), r, Get(r, k)) && LinksOk(r, Get(r, k)) && TimesOk(Get(r, k)) {
      DropKeepsHost(hs, local, i, k);
    }
    forall h | h in r ensures LinksOk(r, h) && KindOk(r, local, h) && TimesOk(h) {
      GetMember(r, h);
      assert KindOk(hs, local, Get(hs, h.mac));
    }
  }

  lemma DropIsSound(hs: seq<Host>, local: Mac, i: nat)
    requires TableOk(hs, local) && i < |hs|
    ensures hs[i].kind.Normal? ==> TableOk(DropHost(hs, i), local)
  {
    if hs[i].kind.Normal? {
      DropKeepsTable(hs, local, i);
    }
  }

  lemma DropKeepsHost(hs: seq<Host>, local: Mac, i: nat, k: Mac)
    requires TableOk(hs, local) && i < |hs| && Has(DropHost(hs, i), k)
    ensures Has(hs, k)
    ensures var r := DropHost(hs, i); Pruned(Get(hs, k), r, Get(r, k)) && LinksOk(r, Get(r, k)) && TimesOk(Get(r, k))
  {
    DropLookup(hs, i);
    var h := Get(hs, k);
    assert LinksOk(hs, h) && TimesOk(h);
    UnlinkMembers(h.links, hs[i].mac);
  }

  lemma TrimmedTrans(a: seq<Host>, b: seq<Host>, c: seq<Host>)
    requires TrimmedTo(a, b) && TrimmedTo(b, c)
    ensures TrimmedTo(a, c)
  {
  }

  lemma TrimmedSelf(hs: seq<Host>, local: Mac)
    requires TableOk(hs, local)
    ensures TrimmedTo(hs, hs)
  {
  }

  // Trimming keeps the table invariant and removes normal hosts only, whatever the old matrix says.
  lemma {:induction false} TrimKeepsTable(hs: seq<Host>, local: Mac, prev: Matrix, src: nat, i: nat)
    requires TableOk(hs, local) && Adjacency(prev) && |hs| <= |prev| && src < |prev|
    ensures TableOk(TrimFrom(hs, prev, src, i), local) && TrimmedTo(hs, TrimFrom(hs, prev, src, i))
    ensures |TrimFrom(hs, prev, src, i)| <= |hs|
    decreases |hs| - i
  {
    if i >= |hs| {
      TrimmedSelf(hs, local);
    } else if Path(prev, src, i) == 0 && i != src && hs[i].kind.Normal? {
      DropKeepsTable(hs, local, i);
      TrimKeepsTable(DropHost(hs, i), local, prev, src, i + 1);
      TrimmedTrans(hs, DropHost(hs, i), TrimFrom(hs, prev, src, i));
    } else {
      TrimKeepsTable(hs, local, prev, src, i + 1);
    }
  }

  // Every host of hs before position i is in r, and of any two neighbours at least one is.
  ghost predicate Spared(hs: seq<Host>, r: seq<Host>, i: nat) {
    && (forall t :: 0 <= t < |hs| && t < i ==> Has(r, hs[t].mac))
    && (forall t :: 0 < t < |hs| ==> Has(r, hs[t - 1].mac) || Has(r, hs[t].mac))
  }

  lemma DropSpared(hs: seq<Host>, i: nat, r: seq<Host>)
    requires i < |hs| && Spared(DropHost(hs, i), r, i + 1)
    ensures Spared(hs, r, i)
  {
    var d := DropHost(hs, i);
    forall t | 0 <= t < i ensures Has(r, hs[t].mac) {
      assert d[t].mac == hs[t].mac;
    }
    forall t | 0 < t < |hs| ensures Has(r, hs[t - 1].mac) || Has(r, hs[t].mac) {
      if t <= i {
        assert Has(r, hs[t - 1].mac);
      } else if t == i + 1 {
        assert d[i].mac == hs[t].mac;
      } else {
        assert d[t - 1].mac == hs[t].mac && d[t - 2].mac == hs[t - 1].mac;
        assert Has(r, d[t - 1 - 1].mac) || Has(r, d[t - 1].mac);
      }
    }
  }

  // The loop steps over whatever shifts into a freed position: positions already passed stay,
  // and of two neighbours at most one is removed in one call.
  lemma {:induction false} TrimSparesNeighbours(hs: seq<Host>, prev: Matrix, src: nat, i: nat)
    requires Strict(hs, HostKey) && Adjacency(prev) && |hs| <= |prev| && src < |prev|
    ensures Spared(hs, TrimFrom(hs, prev, src, i), i)
    decreases |hs| - i
  {
    if i >= |hs| {
      forall t | 0 <= t < |hs| ensures Has(hs, hs[t].mac) {
        GetUnique(hs, t);
      }
    } else if Path(prev, src, i) == 0 && i != src && hs[i].kind.Normal? {
      DropLookup(hs, i);
      TrimSparesNeighbours(DropHost(hs, i), prev, src, i + 1);
      DropSpared(hs, i, TrimFrom(hs, prev, src, i));
    } else {
      TrimSparesNeighbours(hs, prev, src, i + 1);
    }
  }

  ghost predicate Trimmable(hs: seq<Host>, prev: Matrix, src: nat, t: nat)
    requires Adjacency(prev) && |hs| <= |prev| && src < |prev|
  {
    t < |hs| && Path(prev, src, t) == 0 && t != src && hs[t].kind.Normal?
  }

  // Trimming changes nothing exactly when no position calls for it.
  lemma {:induction false} TrimIdleIff(hs: seq<Host>, prev: Matrix, src: nat, i: nat)
    requires Adjacency(prev) && |hs| <= |prev| && src < |prev|
    ensures |TrimFrom(hs, prev, src, i)| <= |hs|
    ensures TrimFrom(hs, prev, src, i) == hs <==> forall t: nat :: i <= t ==> !Trimmable(hs, prev, src, t)
    decreases |hs| - i
  {
    if i < |hs| {
      if Trimmable(hs, prev, src, i) {
        TrimIdleIff(DropHost(hs, i), prev, src, i + 1);
      } else {
        TrimIdleIff(hs, prev, src, i + 1);
      }
    }
  }

  // ---- exactly which hosts one call removes ----

  // The columns of the old matrix that call for trimming, whatever host stands there.
  ghost function Cleared(prev: Matrix, src: nat): iset<nat>
    requires Adjacency(prev) && src < |prev|
  {
    iset i: nat | i < |prev| && Path(prev, src, i) == 0 && i != src
  }

  // With z for these columns, the loop that starts at position i removes the host at t: it is a
  // normal host, its predecessor is not removed, and the column it has shifted down to by then
  // calls for it.
  ghost predicate Goes(hs: seq<Host>, z: iset<nat>, i: nat, t: nat)
    decreases t, 1
  {
    && i <= t < |hs| && hs[t].kind.Normal?
    && !(i < t && Goes(hs, z, i, t - 1))
    && t - GoneBefore(hs, z, i, t) in z
  }

  // How many hosts before t the loop removes.
  ghost function GoneBefore(hs: seq<Host>, z: iset<nat>, i: nat, t: nat): (k: nat)
    ensures if i <= t then k <= t - i else k == 0
    decreases t, 0
  {
    if t <= i then 0
    else GoneBefore(hs, z, i, t - 1) + if Goes(hs, z, i, t - 1) then 1 else 0
  }

  // d is hs without position i, as far as kinds go.
  ghost predicate Closes(hs: seq<Host>, i: nat, d: seq<Host>) {
    |d| + 1 == |hs| && forall k {:trigger d[k]} :: i <= k < |d| ==> d[k].kind == hs[k + 1].kind
  }

  lemma {:induction false} GoesAfterDrop(hs: seq<Host>, z: iset<nat>, i: nat, t: nat, d: seq<Host>)
    requires i < t < |hs| && Goes(hs, z, i, i) && Closes(hs, i, d)
    ensures Goes(hs, z, i, t) <==> Goes(d, z, i + 1, t - 1)
    ensures GoneBefore(hs, z, i, t) == 1 + GoneBefore(d, z, i + 1, t - 1)
    decreases t
  {
    assert d[t - 1].kind == hs[t].kind;
    if t > i + 1 {
      GoesAfterDrop(hs, z, i, t - 1, d);
    }
  }

  lemma {:induction false} GoesAfterSkip(hs: seq<Host>, z: iset<nat>, i: nat, t: nat)
    requires i < t < |hs| && !Goes(hs, z, i, i)
    ensures Goes(hs, z, i, t) <==> Goes(hs, z, i + 1, t)
    ensures GoneBefore(hs, z, i, t) == GoneBefore(hs, z, i + 1, t)
    decreases t
  {
    if t > i + 1 {
      GoesAfterSkip(hs, z, i, t - 1);
    }
  }

  // For every table and every old matrix, the call removes exactly these hosts.
  lemma {:induction false} TrimRemovesIff(hs: seq<Host>, prev: Matrix, src: nat, i: nat, t: nat)
    requires Strict(hs, HostKey) && Adjacency(prev) && |hs| <= |prev| && src < |prev| && t < |hs|
    ensures Has(TrimFrom(hs, prev, src, i), hs[t].mac) <==> !Goes(hs, Cleared(prev, src), i, t)
    decreases |hs| - i, 2
  {
    DueIffGoes(hs, prev, src, i);
    if t <= i {
      EarlyRemovedIff(hs, prev, src, i, t);
    } else if Trimmable(hs, prev, src, i) {
      RemovedWhenDueIff(hs, prev, src, i, t);
    } else {
      TrimUnfolds(hs, prev, src, i);
      TrimRemovesIff(hs, prev, src, i + 1, t);
      assert Has(TrimFrom(hs, prev, src, i), hs[t].mac) <==> !Goes(hs, Cleared(prev, src), i + 1, t);
      GoesAfterSkip(hs, Cleared(prev, src), i, t);
    }
  }

  lemma DueIffGoes(hs: seq<Host>, prev: Matrix, src: nat, i: nat)
    requires Adjacency(prev) && |hs| <= |prev| && src < |prev|
    ensures Trimmable(hs, prev, src, i) <==> Goes(hs, Cleared(prev, src), i, i)
  {
  }

  lemma {:induction false} RemovedWhenDueIff(hs: seq<Host>, prev: Matrix, src: nat, i: nat, t: nat)
    requires Strict(hs, HostKey) && Adjacency(prev) && |hs| <= |prev| && src < |prev| && i < t < |hs|
    requires Trimmable(hs, prev, src, i)
    ensures Has(TrimFrom(hs, prev, src, i), hs[t].mac) <==> !Goes(hs, Cleared(prev, src), i, t)
    decreases |hs| - i, 1
  {
    DueIffGoes(hs, prev, src, i);
    DropShifts(hs, i, t);
    TrimUnfolds(hs, prev, src, i);
    RemovedLaterIff(hs, prev, src, i, t, DropHost(hs, i), TrimFrom(hs, prev, src, i));
  }

  // The same for a position behind the one that is dropped, which leaves d and in the end r.
  lemma {:induction false} RemovedLaterIff(
    hs: seq<Host>, prev: Matrix, src: nat, i: nat, t: nat, d: seq<Host>, r: seq<Host>)
    requires Adjacency(prev) && |hs| <= |prev| && src < |prev| && i < t < |hs|
    requires Goes(hs, Cleared(prev, src), i, i) && Closes(hs, i, d) && Strict(d, HostKey)
    requires d[t - 1].mac == hs[t].mac && r == TrimFrom(d, prev, src, i + 1)
    ensures Has(r, hs[t].mac) <==> !Goes(hs, Cleared(prev, src), i, t)
    decreases |hs| - i, 0
  {
    TrimRemovesIff(d, prev, src, i + 1, t - 1);
    assert Has(r, hs[t].mac) <==> !Goes(d, Cleared(prev, src), i + 1, t - 1);
    GoesAfterDrop(hs, Cleared(prev, src), i, t, d);
  }

  lemma EarlyRemovedIff(hs: seq<Host>, prev: Matrix, src: nat, i: nat, t: nat)
    requires Strict(hs, HostKey) && Adjacency(prev) && |hs| <= |prev| && src < |prev| && t < |hs| && t <= i
    ensures Has(TrimFrom(hs, prev, src, i), hs[t].mac) <==> !Goes(hs, Cleared(prev, src), i, t)
  {
    if t < i {
      TrimSparesNeighbours(hs, prev, src, i);
    } else {
      DueIffGoes(hs, prev, src, i);
      FirstRemovedIff(hs, prev, src, i);
    }
  }

  lemma FirstRemovedIff(hs: seq<Host>, prev: Matrix, src: nat, i: nat)
    requires Strict(hs, HostKey) && Adjacency(prev) && i < |hs| <= |prev| && src < |prev|
    ensures Has(TrimFrom(hs, prev, src, i), hs[i].mac) <==> !Trimmable(hs, prev, src, i)
  {
    TrimUnfolds(hs, prev, src, i);
    if Trimmable(hs, prev, src, i) {
      DropShifts(hs, i, i);
      StaysGone(DropHost(hs, i), prev, src, i + 1, hs[i].mac);
    } else {
      TrimSparesNeighbours(hs, prev, src, i + 1);
    }
  }

  lemma DropShifts(hs: seq<Host>, i: nat, t: nat)
    requires Strict(hs, HostKey) && i < |hs| && t < |hs|
    ensures Strict(DropHost(hs, i), HostKey) && !Has(DropHost(hs, i), hs[i].mac) && Closes(hs, i, DropHost(hs, i))
    ensures t < i ==> DropHost(hs, i)[t].mac == hs[t].mac
    ensures t > i ==> DropHost(hs, i)[t - 1].mac == hs[t].mac
  {
    DropLookup(hs, i);
  }

  lemma {:induction false} StaysGone(hs: seq<Host>, prev: Matrix, src: nat, i: nat, m: Mac)
    requires Strict(hs, HostKey) && Adjacency(prev) && |hs| <= |prev| && src < |prev| && !Has(hs, m)
    ensures !Has(TrimFrom(hs, prev, src, i), m)
    decreases |hs| - i
  {
    if i < |hs| && Trimmable(hs, prev, src, i) {
      DropLookup(hs, i);
      StaysGone(DropHost(hs, i), prev, src, i + 1, m);
    } else if i < |hs| {
      StaysGone(hs, prev, src, i + 1, m);
    }
  }

  // ---- when that is every host that is due ----

  ghost predicate AllDueGone(hs: seq<Host>, prev: Matrix, src: nat)
    requires Adjacency(prev) && |hs| <= |prev| && src < |prev|
  {
    forall t: nat :: Trimmable(hs, prev, src, t) ==> !Has(TrimFrom(hs, prev, src, 0), hs[t].mac)
  }

  ghost predicate AtMostOneDue(hs: seq<Host>, prev: Matrix, src: nat)
    requires Adjacency(prev) && |hs| <= |prev| && src < |prev|
  {
    forall a: nat, b: nat :: Trimmable(hs, prev, src, a) && Trimmable(hs, prev, src, b) ==> a == b
  }

  // The first host that is due is removed, and nothing before it.
  lemma {:induction false} FirstDueGoes(hs: seq<Host>, prev: Matrix, src: nat, t: nat)
    requires Adjacency(prev) && |hs| <= |prev| && src < |prev| && t < |hs|
    requires forall u: nat :: u < t ==> !Trimmable(hs, prev, src, u)
    ensures GoneBefore(hs, Cleared(prev, src), 0, t) == 0
    ensures Goes(hs, Cleared(prev, src), 0, t) <==> Trimmable(hs, prev, src, t)
    decreases t
  {
    if t > 0 {
      FirstDueGoes(hs, prev, src, t - 1);
    }
  }

  // Hosts after it stay, up to and including the next one that is due.
  lemma {:induction false} SecondDueStays(hs: seq<Host>, prev: Matrix, src: nat, p: nat, t: nat)
    requires Adjacency(prev) && |hs| <= |prev| && src < |prev| && p < t < |hs|
    requires Trimmable(hs, prev, src, p) && forall u: nat :: u < t && u != p ==> !Trimmable(hs, prev, src, u)
    requires forall u: nat :: u < |hs| && u in Cleared(prev, src) ==> hs[u].kind.Normal?
    ensures GoneBefore(hs, Cleared(prev, src), 0, t) == 1 && !Goes(hs, Cleared(prev, src), 0, t)
    decreases t
  {
    if t == p + 1 {
      FirstDueGoes(hs, prev, src, p);
    } else {
      SecondDueStays(hs, prev, src, p, t - 1);
      assert !Trimmable(hs, prev, src, t - 1);
    }
  }

  // The first position below n that is due.
  lemma {:induction false} FirstDue(hs: seq<Host>, prev: Matrix, src: nat, from: nat, n: nat) returns (p: nat)
    requires Adjacency(prev) && |hs| <= |prev| && src < |prev| && from <= n && Trimmable(hs, prev, src, n)
    ensures from <= p <= n && Trimmable(hs, prev, src, p)
    ensures forall u: nat :: from <= u < p ==> !Trimmable(hs, prev, src, u)
    decreases n - from
  {
    if Trimmable(hs, prev, src, from) {
      p := from;
    } else {
      p := FirstDue(hs, prev, src, from + 1, n);
    }
  }

  // A single host that is due is always removed. With more than one, where no other host stands in
  // a column that calls for trimming, some host that is due stays in the table.
  lemma AllDueGoneIff(hs: seq<Host>, prev: Matrix, src: nat)
    requires Strict(hs, HostKey) && Adjacency(prev) && |hs| <= |prev| && src < |prev|
    ensures AtMostOneDue(hs, prev, src) ==> AllDueGone(hs, prev, src)
    ensures (forall u: nat :: u < |hs| && u in Cleared(prev, src) ==> hs[u].kind.Normal?) ==>
            (AllDueGone(hs, prev, src) <==> AtMostOneDue(hs, prev, src))
  {
    if AtMostOneDue(hs, prev, src) {
      forall t: nat | Trimmable(hs, prev, src, t) ensures !Has(TrimFrom(hs, prev, src, 0), hs[t].mac) {
        FirstDueGoes(hs, prev, src, t);
        TrimRemovesIff(hs, prev, src, 0, t);
      }
    } else if forall u: nat :: u < |hs| && u in Cleared(prev, src) ==> hs[u].kind.Normal? {
      var q := SomeDueStays(hs, prev, src);
    }
  }

  lemma SomeDueStays(hs: seq<Host>, prev: Matrix, src: nat) returns (q: nat)
    requires Strict(hs, HostKey) && Adjacency(prev) && |hs| <= |prev| && src < |prev| && !AtMostOneDue(hs, prev, src)
    requires forall u: nat :: u < |hs| && u in Cleared(prev, src) ==> hs[u].kind.Normal?
    ensures Trimmable(hs, prev, src, q) && Has(TrimFrom(hs, prev, src, 0), hs[q].mac)
  {
    var a: nat, b: nat :| Trimmable(hs, prev, src, a) && Trimmable(hs, prev, src, b) && a < b;
    var p := FirstDue(hs, prev, src, 0, a);
    q := FirstDue(hs, prev, src, p + 1, b);
    SecondDueStays(hs, prev, src, p, q);
    TrimRemovesIff(hs, prev, src, 0, q);
  }

  // Node 2 with one peer, which announces two hosts of its own. Both are due, and one stays.
  const FAN: seq<Host> := [
    Host(2, Local, 5, [Link(4, 10, 5)]), Host(4, Direct(1), 6, [Link(8, 10, 6), Link(9, 10, 6)]),
    Host(8, Normal, 0, []), Host(9, Normal, 0, [])]

  lemma FanLookups()
    ensures Strict(FAN, HostKey) && Has(FAN, 2) && Has(FAN, 4) && Has(FAN, 8) && Has(FAN, 9)
    ensures forall m: Mac :: LocalLink(FAN, 2, m) <==> m == 4
  {
    GetUnique(FAN, 0);
    GetUnique(FAN, 1);
    GetUnique(FAN, 2);
    GetUnique(FAN, 3);
    assert LinkKey(FAN[0].links[0]) == 4;
  }

  lemma FanHosts()
    requires Has(FAN, 2) && Has(FAN, 4) && Has(FAN, 8) && Has(FAN, 9)
    requires forall m: Mac :: LocalLink(FAN, 2, m) <==> m == 4
    ensures forall h :: h in FAN ==> LinksOk(FAN, h) && KindOk(FAN, 2, h) && TimesOk(h)
  {
    assert FAN[1].links == [Link(8, 10, 6), Link(9, 10, 6)];
  }

  lemma FanIsSound()
    ensures TableOk(FAN, 2)
  {
    FanLookups();
    FanHosts();
  }

  lemma DueHostStays()
    ensures TableOk(FAN, 2) && Idx(FAN, 2) == 0
    ensures Trimmable(FAN, Graph(FAN), 0, 2) && Trimmable(FAN, Graph(FAN), 0, 3)
    ensures Has(TrimFrom(FAN, Graph(FAN), 0, 0), 9) && !Has(TrimFrom(FAN, Graph(FAN), 0, 0), 8)
  {
    var w := Graph(FAN);
    FanIsSound();
    GetUnique(FAN, 0);
    FanColumns();
    FirstDueGoes(FAN, w, 0, 2);
    SecondDueStays(FAN, w, 0, 2, 3);
    TrimRemovesIff(FAN, w, 0, 0, 2);
    TrimRemovesIff(FAN, w, 0, 0, 3);
  }

  lemma FanColumns()
    ensures 2 in Cleared(Graph(FAN), 0) && 3 in Cleared(Graph(FAN), 0) && 1 !in Cleared(Graph(FAN), 0)
  {
    var w := Graph(FAN);
    assert LinkKey(FAN[0].links[0]) == 4;
    assert w[0][1] == Weight(FAN, 0, 1) == 10 && w[0][2] == Weight(FAN, 0, 2) == 0 && w[0][3] == Weight(FAN, 0, 3) == 0;
    PatternKept(w, 4, 0, 1);
    PatternKept(w, 4, 0, 2);
    PatternKept(w, 4, 0, 3);
  }

  // ---- exporting ----

  // Targets are different hosts other than the source, so link numbers are matrix columns.
  lemma FewerLinksThanHosts(hs: seq<Host>, local: Mac, i: nat)
    requires TableOk(hs, local) && i < |hs|
    ensures |hs[i].links| < |hs|
  {
    var h := hs[i];
    assert LinksOk(hs, h);
    forall t | 0 <= t < |h.links| ensures Has(hs, h.links[t].dst) && h.links[t].dst != h.mac {
      assert h.links[t] in h.links;
    }
    var s := seq(|h.links|, t requires 0 <= t < |h.links| => Idx(hs, h.links[t].dst)) + [i];
    forall a, b | 0 <= a < b < |s| ensures s[a] != s[b] {
      if b < |h.links| {
        assert LinkKey(h.links[a]) < LinkKey(h.links[b]);
      }
    }
    Pigeonhole(s, |hs|);
  }

  // The record of link j of host i.
  function RecordOf(hs: seq<Host>, i: nat, j: nat): WireEdge
    requires i < |hs| && j < |hs[i].links|
  {
    Pack(hs[i].mac, hs[i].links[j].dst, hs[i].links[j].rtt, hs[i].links[j].ts)
  }

  // The records of the first n links of host i. A link is passed over when entry (i, j) is 0, where
  // j is its number among the links and not the position of its target.
  ghost function ExportHost(hs: seq<Host>, w: Matrix, i: nat, n: nat): seq<WireEdge>
    requires Adjacency(w) && i < |hs| == |w| && n <= |hs[i].links| < |hs|
  {
    if n == 0 then []
    else ExportHost(hs, w, i, n - 1) + if Path(w, i, n - 1) == 0 then [] else [RecordOf(hs, i, n - 1)]
  }

  ghost predicate Exportable(hs: seq<Host>) {
    forall i :: 0 <= i < |hs| ==> |hs[i].links| < |hs|
  }

  ghost function Export(hs: seq<Host>, w: Matrix, n: nat): seq<WireEdge>
    requires Adjacency(w) && n <= |hs| == |w| && Exportable(hs)
  {
    if n == 0 then [] else Export(hs, w, n - 1) + ExportHost(hs, w, n - 1, |hs[n - 1].links|)
  }

  // e describes a link that the table holds.
  ghost predicate Describes(hs: seq<Host>, e: WireEdge) {
    exists h, l :: h in hs && l in h.links && e.src == h.mac && e.dst == l.dst && Rtt(e) == l.rtt && Ts(e) == l.ts
  }

  // Record e is that of link j of host i, and entry (i, j) is not 0.
  ghost predicate Exports(hs: seq<Host>, w: Matrix, i: nat, j: nat, e: WireEdge)
    requires Adjacency(w) && |hs| == |w|
  {
    i < |hs| && j < |hs[i].links| && j < |hs| && Path(w, i, j) != 0 && e == RecordOf(hs, i, j)
  }

  ghost predicate ExportsBelow(hs: seq<Host>, w: Matrix, i: nat, n: nat, e: WireEdge)
    requires Adjacency(w) && |hs| == |w|
  {
    exists j :: 0 <= j < n && Exports(hs, w, i, j, e)
  }

  lemma {:induction false} HostExportIff(hs: seq<Host>, w: Matrix, i: nat, n: nat, e: WireEdge)
    requires Adjacency(w) && i < |hs| == |w| && n <= |hs[i].links| < |hs|
    ensures e in ExportHost(hs, w, i, n) <==> ExportsBelow(hs, w, i, n, e)
  {
    if n > 0 {
      HostExportIff(hs, w, i, n - 1, e);
      assert Exports(hs, w, i, n - 1, e) ==> e in ExportHost(hs, w, i, n);
    }
  }

  ghost predicate SomeHostExports(hs: seq<Host>, w: Matrix, n: nat, e: WireEdge)
    requires Adjacency(w) && n <= |hs| == |w|
  {
    exists i :: 0 <= i < n && ExportsBelow(hs, w, i, |hs[i].links|, e)
  }

  lemma SomeHostUnfolds(hs: seq<Host>, w: Matrix, n: nat, e: WireEdge)
    requires Adjacency(w) && 0 < n <= |hs| == |w|
    ensures SomeHostExports(hs, w, n, e) <==>
            SomeHostExports(hs, w, n - 1, e) || ExportsBelow(hs, w, n - 1, |hs[n - 1].links|, e)
  {
    if SomeHostExports(hs, w, n, e) {
      var i :| 0 <= i < n && ExportsBelow(hs, w, i, |hs[i].links|, e);
      assert i == n - 1 || i < n - 1;
    }
  }

  // Exactly the links whose own number is a nonzero column of their source's row are exported.
  lemma {:induction false} ExportIff(hs: seq<Host>, w: Matrix, n: nat, e: WireEdge)
    requires Adjacency(w) && n <= |hs| == |w| && Exportable(hs)
    ensures e in Export(hs, w, n) <==> SomeHostExports(hs, w, n, e)
  {
    if n > 0 {
      ExportIff(hs, w, n - 1, e);
      SomeHostUnfolds(hs, w, n, e);
      ExportUnfolds(hs, w, n, e);
    }
  }

  lemma ExportUnfolds(hs: seq<Host>, w: Matrix, n: nat, e: WireEdge)
    requires Adjacency(w) && 0 < n <= |hs| == |w| && Exportable(hs)
    ensures e in Export(hs, w, n) <==> e in Export(hs, w, n - 1) || ExportsBelow(hs, w, n - 1, |hs[n - 1].links|, e)
  {
    HostExportIff(hs, w, n - 1, |hs[n - 1].links|, e);
  }

  lemma ExportDescribes(hs: seq<Host>, w: Matrix, n: nat, e: WireEdge)
    requires Adjacency(w) && n <= |hs| == |w| && Exportable(hs) && e in Export(hs, w, n)
    ensures Describes(hs, e)
  {
    ExportIff(hs, w, n, e);
    var i :| 0 <= i < n && ExportsBelow(hs, w, i, |hs[i].links|, e);
    var j :| 0 <= j < |hs[i].links| && Exports(hs, w, i, j, e);
    var l := hs[i].links[j];
    PackRoundTrip(hs[i].mac, l.dst, l.rtt, l.ts);
    assert hs[i] in hs && l in hs[i].links;
  }

  // In a sound table a record stands for one link, so a link's record is exported exactly
  // if its own number is a column that its source has a nonzero entry in.
  lemma LinkExportedIff(hs: seq<Host>, local: Mac, i: nat, j: nat)
    requires TableOk(hs, local) && i < |hs| && j < |hs[i].links|
    ensures Exportable(hs) && j < |hs|
    ensures RecordOf(hs, i, j) in Export(hs, Graph(hs), |hs|) <==> Weight(hs, i, j) != 0
  {
    TablesAreExportable(hs, local);
    var w, e := Graph(hs), RecordOf(hs, i, j);
    ExportIff(hs, w, |hs|, e);
    PatternKept(w, |w|, i, j);
    if Weight(hs, i, j) != 0 {
      assert Exports(hs, w, i, j, e);
      assert ExportsBelow(hs, w, i, |hs[i].links|, e);
    }
    if e in Export(hs, w, |hs|) {
      var i' :| 0 <= i' < |hs| && ExportsBelow(hs, w, i', |hs[i'].links|, e);
      var j' :| 0 <= j' < |hs[i'].links| && Exports(hs, w, i', j', e);
      SameRecord(hs, local, i, j, i', j');
    }
  }

  lemma SameRecord(hs: seq<Host>, local: Mac, i: nat, j: nat, i': nat, j': nat)
    requires TableOk(hs, local) && i < |hs| && j < |hs[i].links| && i' < |hs| && j' < |hs[i'].links|
    requires RecordOf(hs, i, j).src == RecordOf(hs, i', j').src && RecordOf(hs, i, j).dst == RecordOf(hs, i', j').dst
    ensures i == i' && j == j'
  {
    GetUnique(hs, i);
    GetUnique(hs, i');
    assert LinksOk(hs, hs[i]);
    assert j < j' ==> LinkKey(hs[i].links[j]) < LinkKey(hs[i].links[j']);
    assert j' < j ==> LinkKey(hs[i].links[j']) < LinkKey(hs[i].links[j]);
  }

  lemma TablesAreExportable(hs: seq<Host>, local: Mac)
    requires TableOk(hs, local)
    ensures Exportable(hs)
  {
    forall i | 0 <= i < |hs| ensures |hs[i].links| < |hs| {
      FewerLinksThanHosts(hs, local, i);
    }
  }

  // Link j of host i has a measured time.
  ghost predicate InUse(hs: seq<Host>, i: nat, j: nat) {
    i < |hs| && j < |hs[i].links| && hs[i].links[j].rtt != 0
  }

  // Every link in use is exported if and only if the number of each is the position of a host that
  // its source has a link in use to, or its source's own.
  lemma AllExportedIff(hs: seq<Host>, local: Mac)
    requires TableOk(hs, local)
    ensures Exportable(hs)
    ensures (forall i: nat, j: nat :: InUse(hs, i, j) ==> RecordOf(hs, i, j) in Export(hs, Graph(hs), |hs|)) <==>
            (forall i: nat, j: nat :: InUse(hs, i, j) ==> j < |hs| && Weight(hs, i, j) != 0)
  {
    TablesAreExportable(hs, local);
    forall i: nat, j: nat | InUse(hs, i, j)
      ensures RecordOf(hs, i, j) in Export(hs, Graph(hs), |hs|) <==> j < |hs| && Weight(hs, i, j) != 0
    {
      LinkExportedIff(hs, local, i, j);
    }
  }

  // So a link in use can be withheld: the first link of any host but the first, as long as that
  // host has no link to the first one.
  lemma FirstLinkWithheld(hs: seq<Host>, local: Mac, i: nat)
    requires TableOk(hs, local) && 0 < i < |hs| && |hs[i].links| > 0 && Weight(hs, i, 0) == 0
    ensures Exportable(hs) && RecordOf(hs, i, 0) !in Export(hs, Graph(hs), |hs|)
  {
    LinkExportedIff(hs, local, i, 0);
  }

  // Host 1 is linked to 2 and 2 to 3; the link from 2 to 3 is not exported.
  const ROW: seq<Host> := [
    Host(1, Local, 0, [Link(2, 10, 5)]), Host(2, Direct(1), 5, [Link(3, 10, 5)]), Host(3, Normal, 0, [])]

  lemma RowIsSound()
    ensures TableOk(ROW, 1)
  {
    GetUnique(ROW, 0);
    GetUnique(ROW, 1);
    GetUnique(ROW, 2);
    assert LinkKey(ROW[0].links[0]) == 2;
    forall h | h in ROW ensures LinksOk(ROW, h) && KindOk(ROW, 1, h) && TimesOk(h) {
    }
  }

  lemma RowWithholdsLink()
    ensures TableOk(ROW, 1) && InUse(ROW, 1, 0)
    ensures Exportable(ROW) && RecordOf(ROW, 1, 0) !in Export(ROW, Graph(ROW), |ROW|)
  {
    RowIsSound();
    assert Weight(ROW, 1, 0) == 0;
    FirstLinkWithheld(ROW, 1, 1);
  }

  // ---- one export repeats no pair ----

  lemma {:induction false} HostExportNoRepeats(hs: seq<Host>, w: Matrix, i: nat, n: nat)
    requires Adjacency(w) && i < |hs| == |w| && n <= |hs[i].links| < |hs| && Strict(hs[i].links, LinkKey)
    ensures NoRepeatedPairs(ExportHost(hs, w, i, n))
  {
    if n > 0 {
      HostExportNoRepeats(hs, w, i, n - 1);
      var before, e := ExportHost(hs, w, i, n - 1), RecordOf(hs, i, n - 1);
      forall x | x in before ensures PairKey(x) != PairKey(e) {
        HostExportIff(hs, w, i, n - 1, x);
        var j :| 0 <= j < n - 1 && Exports(hs, w, i, j, x);
        assert LinkKey(hs[i].links[j]) < LinkKey(hs[i].links[n - 1]);
      }
      DistinctConcat(before, [e], PairKey);
    }
  }

  lemma {:induction false} ExportSources(hs: seq<Host>, w: Matrix, n: nat, e: WireEdge)
    requires Adjacency(w) && n <= |hs| == |w| && Exportable(hs) && e in Export(hs, w, n)
    ensures exists i :: 0 <= i < n && e.src == hs[i].mac
  {
    ExportIff(hs, w, n, e);
    var i :| 0 <= i < n && ExportsBelow(hs, w, i, |hs[i].links|, e);
    var j :| 0 <= j < |hs[i].links| && Exports(hs, w, i, j, e);
  }

  // The records that one refresh adds are of different pairs.
  lemma {:induction false} ExportNoRepeats(hs: seq<Host>, local: Mac, n: nat)
    requires TableOk(hs, local) && n <= |hs| && Exportable(hs)
    ensures NoRepeatedPairs(Export(hs, Graph(hs), n))
    decreases n
  {
    if n > 0 {
      var w, i := Graph(hs), n - 1;
      ExportNoRepeats(hs, local, i);
      assert LinksOk(hs, hs[i]);
      HostExportNoRepeats(hs, w, i, |hs[i].links|);
      var a, b := Export(hs, w, i), ExportHost(hs, w, i, |hs[i].links|);
      forall x, y | x in a && y in b ensures PairKey(x) != PairKey(y) {
        ExportSources(hs, w, i, x);
        HostExportIff(hs, w, i, |hs[i].links|, y);
        PairKeyIff(x, y);
      }
      DistinctConcat(a, b, PairKey);
    }
  }

  // ---- what trimming frees ----

  // trim_host reads the position of the host it has removed and frees what it finds there: the
  // host that shifted in, or the removed one if there is none.
  function FreedAt(hs: seq<Host>, i: nat): Mac
    requires i < |hs|
  {
    if i + 1 < |hs| then hs[i + 1].mac else hs[i].mac
  }

  // The hosts that one pass of trimming frees.
  ghost function TrimFrees(hs: seq<Host>, prev: Matrix, src: nat, i: nat): seq<Mac>
    requires Adjacency(prev) && |hs| <= |prev| && src < |prev|
    decreases |hs| - i
  {
    if i >= |hs| then []
    else if Trimmable(hs, prev, src, i) then [FreedAt(hs, i)] + TrimFrees(DropHost(hs, i), prev, src, i + 1)
    else TrimFrees(hs, prev, src, i + 1)
  }

  lemma TrimUnfolds(hs: seq<Host>, prev: Matrix, src: nat, i: nat)
    requires Adjacency(prev) && i < |hs| <= |prev| && src < |prev|
    ensures var hs' := if Trimmable(hs, prev, src, i) then DropHost(hs, i) else hs;
            var freed := if Trimmable(hs, prev, src, i) then [FreedAt(hs, i)] else [];
            && TrimFrom(hs, prev, src, i) == TrimFrom(hs', prev, src, i + 1)
            && TrimFrees(hs, prev, src, i) == freed + TrimFrees(hs', prev, src, i + 1)
  {
  }

  ghost predicate AllGone(ms: seq<Mac>, hs: seq<Host>) {
    forall m :: m in ms ==> !Has(hs, m)
  }

  // A pass frees only hosts that it removes if and only if no position before the last calls for
  // trimming.
  lemma {:induction false} FreesOnlyRemovedIff(hs: seq<Host>, prev: Matrix, src: nat, i: nat)
    requires Strict(hs, HostKey) && Adjacency(prev) && |hs| <= |prev| && src < |prev|
    ensures AllGone(TrimFrees(hs, prev, src, i), TrimFrom(hs, prev, src, i)) <==>
            forall t: nat :: i <= t && Trimmable(hs, prev, src, t) ==> t == |hs| - 1
    decreases |hs| - i
  {
    if i < |hs| && Trimmable(hs, prev, src, i) {
      TrimUnfolds(hs, prev, src, i);
      FirstFreed(hs, prev, src, i);
    } else if i < |hs| {
      FreesOnlyRemovedIff(hs, prev, src, i + 1);
    }
  }

  lemma FirstFreed(hs: seq<Host>, prev: Matrix, src: nat, i: nat)
    requires Strict(hs, HostKey) && Adjacency(prev) && |hs| <= |prev| && src < |prev| && Trimmable(hs, prev, src, i)
    ensures TrimFrees(hs, prev, src, i) != [] && TrimFrees(hs, prev, src, i)[0] == FreedAt(hs, i)
    ensures Has(TrimFrom(hs, prev, src, i), FreedAt(hs, i)) <==> i + 1 < |hs|
    ensures i + 1 == |hs| ==> TrimFrees(hs, prev, src, i) == [FreedAt(hs, i)]
  {
    var d := DropHost(hs, i);
    TrimUnfolds(hs, prev, src, i);
    DropShifts(hs, i, if i + 1 < |hs| then i + 1 else i);
    if i + 1 < |hs| {
      TrimSparesNeighbours(d, prev, src, i + 1);
      assert d[i].mac == FreedAt(hs, i);
    } else {
      assert TrimFrom(d, prev, src, i + 1) == d && TrimFrees(d, prev, src, i + 1) == [];
    }
  }

  // What trim_host frees is what the slot of the removed host holds once the rest has moved down
  // over it, the last slot being left as it was.
  lemma FreedIsInSlot(hs: seq<Host>, i: nat)
    requires i < |hs|
    ensures FreedAt(hs, i) == (RemoveAt(hs, i) + [hs[|hs| - 1]])[i].mac
  {
  }
}
