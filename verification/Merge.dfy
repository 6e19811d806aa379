/**
 rt_update_edges before it refreshes the cache: the loop over a sorted packet, and what it does
 to the table, stated source by source.
 */
module Merge {
  import opened Base
  import opened SortedList
  import opened Table
  import opened Wire

  // ---- the packet ----

  // The edges of source s in packet order, without those that double back.
  ghost function Group(es: seq<WireEdge>, s: Mac): (g: seq<WireEdge>)
    ensures forall e :: e in g <==> e in es && e.src == s && e.dst != s
  {
    if |es| == 0 then []
    else
      var front, e := es[..|es| - 1], es[|es| - 1];
      assert es == front + [e];
      if e.src == s && e.dst != s then Group(front, s) + [e] else Group(front, s)
  }

  function AsLink(e: WireEdge): Link { Link(e.dst, Rtt(e), Ts(e)) }

  ghost function AsLinks(g: seq<WireEdge>): (ls: seq<Link>)
    ensures |ls| == |g| && forall i :: 0 <= i < |g| ==> ls[i] == AsLink(g[i])
  {
    seq(|g|, i requires 0 <= i < |g| => AsLink(g[i]))
  }

  ghost function Newest(ts: u64, g: seq<WireEdge>): (r: u64)
    ensures r >= ts && forall e :: e in g ==> r >= Ts(e)
  {
    if |g| == 0 then ts
    else
      var r, e := Newest(ts, g[..|g| - 1]), g[|g| - 1];
      assert g == g[..|g| - 1] + [e];
      if Ts(e) > r then Ts(e) else r
  }

  // ---- the declarative merge ----

  // The packet replaces what the table hs knows about source s, given that it does so for exactly
  // the sources in taken before s: s is not the local host and its mark lies below the timestamp
  // of its first edge. A source not in the table is always taken, unless an earlier taken source
  // has just introduced it and its first edge is stamped 0.
  ghost predicate Fresh(hs: seq<Host>, es: seq<WireEdge>, taken: iset<Mac>, s: Mac) {
    var g := Group(es, s);
    g != [] &&
    if Has(hs, s) then !Get(hs, s).kind.Local? && Get(hs, s).maxTs < Ts(g[0])
    else Ts(g[0]) > 0 || !Introduced(es, taken, s)
  }

  ghost predicate Introduced(es: seq<WireEdge>, taken: iset<Mac>, s: Mac) {
    exists r: Mac :: r < s && r in taken && Names(es, r, s)
  }

  // The sources that the packet is used for.
  ghost function Taken(hs: seq<Host>, es: seq<WireEdge>): iset<Mac> {
    iset s: Mac | IsTaken(hs, es, s)
  }

  ghost predicate IsTaken(hs: seq<Host>, es: seq<WireEdge>, s: Mac)
    decreases s
  {
    Fresh(hs, es, (iset r: Mac | r < s && IsTaken(hs, es, r)), s)
  }

  ghost predicate Decides(hs: seq<Host>, es: seq<WireEdge>, taken: iset<Mac>) {
    forall s: Mac :: s in taken <==> Fresh(hs, es, taken, s)
  }

  // Taken settles every source by the rule Fresh.
  lemma TakenDecides(hs: seq<Host>, es: seq<WireEdge>)
    ensures Decides(hs, es, Taken(hs, es))
  {
  }

  // No other set does: the rule determines the merge.
  lemma {:induction false} TakenUnique(hs: seq<Host>, es: seq<WireEdge>, taken: iset<Mac>, s: Mac)
    requires Decides(hs, es, taken)
    ensures s in taken <==> s in Taken(hs, es)
    decreases s
  {
    TakenDecides(hs, es);
    forall r: Mac | r < s ensures r in taken <==> r in Taken(hs, es) {
      TakenUnique(hs, es, taken, r);
    }
    assert Introduced(es, taken, s) <==> Introduced(es, Taken(hs, es), s);
    assert s in taken <==> Fresh(hs, es, taken, s);
  }

  ghost predicate Names(es: seq<WireEdge>, src: Mac, dst: Mac) {
    exists e :: e in es && e.src == src && e.dst == dst
  }

  // An edge that the merge uses.
  ghost predicate Live(taken: iset<Mac>, e: WireEdge) {
    e.src != e.dst && e.src in taken
  }

  ghost predicate Touched(taken: iset<Mac>, p: seq<WireEdge>, m: Mac) {
    exists e :: e in p && Live(taken, e) && (e.src == m || e.dst == m)
  }

  ghost function Before(hs: seq<Host>, m: Mac): Host {
    if Has(hs, m) then Get(hs, m) else Stranger(m)
  }

  // h is right once the edges p of the packet es have been merged into hs: the links of a taken
  // source are exactly its edges, and every other host is as it was, or new and bare.
  ghost predicate HostMerged(hs: seq<Host>, taken: iset<Mac>, p: seq<WireEdge>, h: Host) {
    var prior := Before(hs, h.mac);
    var g := Group(p, h.mac);
    if g != [] && h.mac in taken then
      && h.kind == prior.kind && h.maxTs == Newest(prior.maxTs, g)
      && Sorted(h.links, LinkKey) && multiset(h.links) == multiset(AsLinks(g))
    else h == prior
  }

  ghost predicate Merged(hs: seq<Host>, taken: iset<Mac>, p: seq<WireEdge>, hs': seq<Host>) {
    && Strict(hs', HostKey)
    && (forall m: Mac :: Has(hs', m) <==> Has(hs, m) || Touched(taken, p, m))
    && (forall h :: h in hs' ==> HostMerged(hs, taken, p, h))
  }

  // ---- one edge at a time ----

  lemma GroupSnoc(p: seq<WireEdge>, e: WireEdge, s: Mac)
    ensures Group(p + [e], s) == if e.src == s && e.dst != s then Group(p, s) + [e] else Group(p, s)
  {
  }

  lemma TouchedSnoc(taken: iset<Mac>, p: seq<WireEdge>, e: WireEdge, m: Mac)
    ensures Touched(taken, p + [e], m) <==> Touched(taken, p, m) || (Live(taken, e) && (e.src == m || e.dst == m))
  {
  }

  // An edge that is not live changes nothing.
  lemma SkipEdge(hs: seq<Host>, taken: iset<Mac>, p: seq<WireEdge>, e: WireEdge, hs': seq<Host>)
    requires Merged(hs, taken, p, hs') && !Live(taken, e)
    ensures Merged(hs, taken, p + [e], hs')
  {
  }

  lemma MergedLookup(hs: seq<Host>, taken: iset<Mac>, p: seq<WireEdge>, hs': seq<Host>, m: Mac)
    requires Merged(hs, taken, p, hs')
    ensures Has(hs', m) ==> HostMerged(hs, taken, p, Get(hs', m))
    ensures !Has(hs', m) ==> !Has(hs, m) && (Group(p, m) == [] || m !in taken)
  {
    if Group(p, m) != [] && m in taken {
      assert Group(p, m)[0] in Group(p, m);
      assert Touched(taken, p, m);
    }
  }

  // The source record that an edge of s is added to.
  ghost function SourceFor(p: seq<WireEdge>, hs': seq<Host>, s: Mac): Host {
    if Group(p, s) == [] then Before(hs', s).(links := []) else Before(hs', s)
  }

  // hs'' is hs' with the edge e added to the record of its source.
  ghost predicate EdgeAdded(p: seq<WireEdge>, hs': seq<Host>, e: WireEdge, hs'': seq<Host>) {
    && Strict(hs'', HostKey)
    && (forall m: Mac :: Has(hs'', m) <==> Has(hs', m) || m == e.src || m == e.dst)
    && (forall m: Mac :: Has(hs'', m) ==>
          Get(hs'', m) == if m == e.src then AddLink(SourceFor(p, hs', m), AsLink(e)) else Before(hs', m))
  }

  lemma AddEdge(hs: seq<Host>, taken: iset<Mac>, p: seq<WireEdge>, e: WireEdge, hs': seq<Host>, hs'': seq<Host>)
    requires Merged(hs, taken, p, hs') && Live(taken, e) && EdgeAdded(p, hs', e, hs'')
    ensures Merged(hs, taken, p + [e], hs'')
  {
    forall m: Mac ensures Has(hs'', m) <==> Has(hs, m) || Touched(taken, p + [e], m) {
      TouchedSnoc(taken, p, e, m);
    }
    forall h | h in hs'' ensures HostMerged(hs, taken, p + [e], h) {
      AddEdgeHost(hs, taken, p, e, hs', hs'', h);
    }
  }

  lemma AddEdgeHost(
    hs: seq<Host>, taken: iset<Mac>, p: seq<WireEdge>, e: WireEdge, hs': seq<Host>, hs'': seq<Host>, h: Host)
    requires Merged(hs, taken, p, hs') && Live(taken, e) && EdgeAdded(p, hs', e, hs'') && h in hs''
    ensures HostMerged(hs, taken, p + [e], h)
  {
    GetMember(hs'', h);
    if h.mac == e.src {
      AddToSource(hs, taken, p, e, hs');
    } else {
      GroupSnoc(p, e, h.mac);
      MergedLookup(hs, taken, p, hs', h.mac);
    }
  }

  lemma AddToSource(hs: seq<Host>, taken: iset<Mac>, p: seq<WireEdge>, e: WireEdge, hs': seq<Host>)
    requires Merged(hs, taken, p, hs') && Live(taken, e)
    ensures HostMerged(hs, taken, p + [e], AddLink(SourceFor(p, hs', e.src), AsLink(e)))
  {
    MergedLookup(hs, taken, p, hs', e.src);
    GroupSnoc(p, e, e.src);
    AddLinkOfEdge(SourceFor(p, hs', e.src), Before(hs, e.src).maxTs, Group(p, e.src), e);
  }

  lemma AddLinkOfEdge(h: Host, ts: u64, g: seq<WireEdge>, e: WireEdge)
    requires h.maxTs == Newest(ts, g) && Sorted(h.links, LinkKey) && multiset(h.links) == multiset(AsLinks(g))
    ensures var h' := AddLink(h, AsLink(e));
            && h'.maxTs == Newest(ts, g + [e])
            && Sorted(h'.links, LinkKey) && multiset(h'.links) == multiset(AsLinks(g + [e]))
  {
    assert (g + [e])[..|g|] == g;
    assert AsLinks(g + [e]) == AsLinks(g) + [AsLink(e)];
    InsertSorted(h.links, LinkKey, AsLink(e));
  }

  // Where a new source begins, the test of the loop decides exactly Taken.
  lemma NewSource(hs: seq<Host>, es: seq<WireEdge>, taken: iset<Mac>, i: nat, hs': seq<Host>)
    requires SortedEdges(es) && Decides(hs, es, taken) && i < |es| && es[i].src != es[i].dst
    requires Merged(hs, taken, es[..i], hs') && Group(es[..i], es[i].src) == []
    ensures var s := es[i].src;
            s in taken <==> (Has(hs', s) ==> !Get(hs', s).kind.Local? && Get(hs', s).maxTs < Ts(es[i]))
  {
    var e, p := es[i], es[..i];
    var s := e.src;
    FirstOfGroup(es, i);
    MergedLookup(hs, taken, p, hs', s);
    IntroducedIffTouched(es, taken, i);
  }

  lemma IntroducedIffTouched(es: seq<WireEdge>, taken: iset<Mac>, i: nat)
    requires SortedEdges(es) && i < |es| && Group(es[..i], es[i].src) == []
    ensures Touched(taken, es[..i], es[i].src) <==> Introduced(es, taken, es[i].src)
  {
  }

  lemma {:induction false} GroupPrefix(es: seq<WireEdge>, i: nat, s: Mac)
    requires i <= |es|
    ensures Group(es[..i], s) <= Group(es, s)
    decreases |es|
  {
    if i == |es| {
      assert es[..i] == es;
    } else {
      var front := es[..|es| - 1];
      GroupPrefix(front, i, s);
      assert front[..i] == es[..i];
      assert es == front + [es[|es| - 1]];
      GroupSnoc(front, es[|es| - 1], s);
    }
  }

  lemma FirstOfGroup(es: seq<WireEdge>, i: nat)
    requires i < |es| && es[i].src != es[i].dst && Group(es[..i], es[i].src) == []
    ensures Group(es, es[i].src) != [] && Group(es, es[i].src)[0] == es[i]
  {
    assert es[..i + 1] == es[..i] + [es[i]];
    GroupSnoc(es[..i], es[i], es[i].src);
    GroupPrefix(es, i + 1, es[i].src);
  }

  // ---- the loop ----

  // The source of the last edge of p that does not double back.
  ghost predicate Current(p: seq<WireEdge>, cur: Option<Mac>) {
    && (forall s: Mac :: Group(p, s) != [] ==> cur.Some? && s <= cur.value)
    && (cur.Some? ==> Group(p, cur.value) != [])
  }

  lemma SourcesAscend(es: seq<WireEdge>, i: nat, s: Mac)
    requires SortedEdges(es) && i < |es| && Group(es[..i], s) != []
    ensures s <= es[i].src
  {
    var x := Group(es[..i], s)[0];
    assert x in Group(es[..i], s);
    var j :| 0 <= j < i && es[j] == x;
    assert CompareEdges(es[j], es[i]) <= 0;
  }

  lemma CurrentSnoc(es: seq<WireEdge>, i: nat, cur: Option<Mac>)
    requires SortedEdges(es) && i < |es| && Current(es[..i], cur)
    ensures es[..i + 1] == es[..i] + [es[i]]
    ensures Current(es[..i + 1], if es[i].src == es[i].dst then cur else Some(es[i].src))
    ensures cur != Some(es[i].src) ==> Group(es[..i], es[i].src) == []
  {
    var e, p := es[i], es[..i];
    assert es[..i + 1] == p + [e];
    var cur' := if e.src == e.dst then cur else Some(e.src);
    var p' := p + [e];
    forall s: Mac | Group(p', s) != [] ensures cur'.Some? && s <= cur'.value {
      GroupSnoc(p, e, s);
      if Group(p, s) != [] {
        SourcesAscend(es, i, s);
      }
    }
    if cur.Some? {
      GroupSnoc(p, e, cur.value);
      SourcesAscend(es, i, cur.value);
    }
    GroupSnoc(p, e, e.src);
  }

  method MergeEdges(hosts: seq<Host>, es: seq<WireEdge>) returns (hs: seq<Host>)
    requires Strict(hosts, HostKey) && SortedEdges(es)
    ensures Merged(hosts, Taken(hosts, es), es, hs)
  {
    hs := hosts;
    var cur: Option<Mac> := None;  // cur_host_src
    var skipping := false;         // cont_to_new_src
    ghost var taken := Taken(hosts, es);
    TakenDecides(hosts, es);
    NothingMerged(hosts, taken);
    for i := 0 to |es|
      invariant Merged(hosts, taken, es[..i], hs)
      invariant Current(es[..i], cur)
      invariant if cur.Some? then skipping <==> cur.value !in taken else !skipping
    {
      var e := es[i];
      CurrentSnoc(es, i, cur);
      if e.src == e.dst {
        SkipEdge(hosts, taken, es[..i], e, hs);
        continue;
      }
      if skipping {
        if cur == Some(e.src) {
          SkipEdge(hosts, taken, es[..i], e, hs);
          continue;
        }
        skipping := false;
      }
      ghost var before := hs;
      if cur != Some(e.src) {
        cur := Some(e.src);
        hs, skipping := BeginSource(hosts, es, taken, i, hs, e);
        if skipping {
          SkipEdge(hosts, taken, es[..i], e, hs);
          continue;
        }
      } else {
        MergedLookup(hosts, taken, es[..i], hs, e.src);
        SourceContinues(es[..i], hs, e);
      }
      hs := LinkUp(es[..i], before, hs, e);
      AddEdge(hosts, taken, es[..i], e, before, hs);
    }
    assert es[..|es|] == es;
  }

  // A new source: create it, wipe its links, or report that the packet has nothing new on it.
  method BeginSource(
    ghost hosts: seq<Host>, ghost es: seq<WireEdge>, ghost taken: iset<Mac>, ghost i: nat,
    before: seq<Host>, e: WireEdge)
    returns (hs: seq<Host>, stale: bool)
    requires SortedEdges(es) && Decides(hosts, es, taken) && i < |es| && e == es[i] && e.src != e.dst
    requires Merged(hosts, taken, es[..i], before) && Group(es[..i], e.src) == []
    ensures stale <==> e.src !in taken
    ensures if stale then hs == before else SourceReady(es[..i], before, e, hs)
  {
    NewSource(hosts, es, taken, i, before);
    hs, stale := before, false;
    var p := FindHost(hs, e.src);
    if p.None? {
      hs := AddHost(hs, Stranger(e.src));
      SourceCreated(es[..i], before, e);
    } else if !hs[p.value].kind.Local? && hs[p.value].maxTs < Ts(e) {
      hs := hs[p.value := hs[p.value].(links := [])];
      SourceWiped(es[..i], before, p.value, e);
    } else {
      stale := true;
    }
  }

  lemma SourceCreated(p: seq<WireEdge>, before: seq<Host>, e: WireEdge)
    requires Strict(before, HostKey) && !Has(before, e.src) && Group(p, e.src) == []
    ensures SourceReady(p, before, e, AddHost(before, Stranger(e.src)))
  {
    AddLookup(before, Stranger(e.src));
  }

  lemma SourceWiped(p: seq<WireEdge>, before: seq<Host>, i: nat, e: WireEdge)
    requires Strict(before, HostKey) && i < |before| && before[i].mac == e.src && Group(p, e.src) == []
    ensures SourceReady(p, before, e, before[i := before[i].(links := [])])
  {
    var h := before[i].(links := []);
    GetUnique(before, i);
    ReplaceLookup(before, i, h, before[i := h]);
  }

  lemma SourceContinues(p: seq<WireEdge>, hs: seq<Host>, e: WireEdge)
    requires Strict(hs, HostKey) && Has(hs, e.src) && Group(p, e.src) != []
    ensures SourceReady(p, hs, e, hs)
  {
  }

  // The table once the source of e is present and, if e is its first edge, wiped.
  ghost predicate SourceReady(p: seq<WireEdge>, before: seq<Host>, e: WireEdge, hs: seq<Host>) {
    && Strict(hs, HostKey)
    && (forall m: Mac :: Has(hs, m) <==> Has(before, m) || m == e.src)
    && (forall m: Mac :: Has(hs, m) ==>
          Get(hs, m) == if m == e.src then SourceFor(p, before, m) else Before(before, m))
  }

  // The same once the destination of e is present too.
  ghost predicate EndsReady(p: seq<WireEdge>, before: seq<Host>, e: WireEdge, hs: seq<Host>) {
    && Strict(hs, HostKey)
    && (forall m: Mac :: Has(hs, m) <==> Has(before, m) || m == e.src || m == e.dst)
    && (forall m: Mac :: Has(hs, m) ==>
          Get(hs, m) == if m == e.src then SourceFor(p, before, m) else Before(before, m))
  }

  lemma DestinationCreated(p: seq<WireEdge>, before: seq<Host>, e: WireEdge, hs: seq<Host>)
    requires e.src != e.dst && SourceReady(p, before, e, hs)
    ensures EndsReady(p, before, e, if Has(hs, e.dst) then hs else AddHost(hs, Stranger(e.dst)))
  {
    if !Has(hs, e.dst) {
      AddLookup(hs, Stranger(e.dst));
    }
  }

  lemma LinkAdded(p: seq<WireEdge>, before: seq<Host>, e: WireEdge, hs: seq<Host>, i: nat)
    requires EndsReady(p, before, e, hs) && i < |hs| && hs[i].mac == e.src
    ensures EdgeAdded(p, before, e, hs[i := AddLink(hs[i], AsLink(e))])
  {
    var h := AddLink(hs[i], AsLink(e));
    GetUnique(hs, i);
    ReplaceLookup(hs, i, h, hs[i := h]);
  }

  // Find or create the destination, then link_add.
  method LinkUp(ghost p: seq<WireEdge>, ghost before: seq<Host>, ready: seq<Host>, e: WireEdge) returns (hs: seq<Host>)
    requires e.src != e.dst && SourceReady(p, before, e, ready)
    ensures EdgeAdded(p, before, e, hs)
  {
    hs := ready;
    DestinationCreated(p, before, e, hs);
    var d := FindHost(hs, e.dst);
    if d.None? {
      hs := AddHost(hs, Stranger(e.dst));
    }
    var s := FindHost(hs, e.src);
    assert s.Some?;
    LinkAdded(p, before, e, hs, s.value);
    hs := hs[s.value := AddLink(hs[s.value], AsLink(e))];
  }

  lemma NothingMerged(hs: seq<Host>, taken: iset<Mac>)
    requires Strict(hs, HostKey)
    ensures Merged(hs, taken, [], hs)
  {
  }

  // ---- consequences ----

  // A merge that takes no source changes nothing.
  lemma NothingTaken(hs: seq<Host>, taken: iset<Mac>, es: seq<WireEdge>, hs': seq<Host>)
    requires Strict(hs, HostKey) && Merged(hs, taken, es, hs')
    requires forall s: Mac :: s !in taken
    ensures hs' == hs
  {
    forall m: Mac ensures !Touched(taken, es, m) {
    }
    forall m: Mac | Has(hs, m) ensures Get(hs', m) == Get(hs, m) {
      MergedLookup(hs, taken, es, hs', m);
    }
    LookupsDecide(hs, hs');
  }

  // The packet has nothing new to say about s.
  ghost predicate Stale(hs: seq<Host>, es: seq<WireEdge>, s: Mac) {
    Group(es, s) == []
    || (Has(hs, s) && (Get(hs, s).kind.Local? || Get(hs, s).maxTs >= Ts(Group(es, s)[0])))
  }

  // A packet whose sources are all stale or local is a no-op.
  lemma StalePacketChangesNothing(hs: seq<Host>, es: seq<WireEdge>, hs': seq<Host>)
    requires Strict(hs, HostKey) && Merged(hs, Taken(hs, es), es, hs')
    requires forall s: Mac :: Stale(hs, es, s)
    ensures hs' == hs
  {
    TakenDecides(hs, es);
    forall s: Mac ensures s !in Taken(hs, es) {
      assert Stale(hs, es, s);
      assert !Fresh(hs, es, Taken(hs, es), s);
    }
    NothingTaken(hs, Taken(hs, es), es, hs');
  }

  // The first edge of a source carries the largest unswapped timestamp.
  lemma {:induction false} FirstIsLargest(es: seq<WireEdge>, s: Mac)
    requires SortedEdges(es)
    ensures forall e :: e in Group(es, s) ==> e.ts <= Group(es, s)[0].ts
  {
    if |es| > 0 {
      var front, last := es[..|es| - 1], es[|es| - 1];
      assert es == front + [last];
      FirstIsLargest(front, s);
      GroupSnoc(front, last, s);
      if last in Group(es, s) && Group(front, s) != [] {
        var x := Group(front, s)[0];
        assert x in Group(front, s);
        var j :| 0 <= j < |front| && front[j] == x;
        assert CompareEdges(es[j], es[|es| - 1]) <= 0;
      }
    }
  }

  // Any two sorted forms of a packet agree on that timestamp.
  lemma SameFirst(es: seq<WireEdge>, es': seq<WireEdge>, s: Mac)
    requires SortedEdges(es) && SortedEdges(es') && multiset(es) == multiset(es')
    ensures Group(es, s) == [] <==> Group(es', s) == []
    ensures Group(es, s) != [] && Group(es', s) != [] ==> Ts(Group(es, s)[0]) == Ts(Group(es', s)[0])
  {
    FirstIsLargest(es, s);
    FirstIsLargest(es', s);
    forall e ensures e in Group(es, s) <==> e in Group(es', s) {
      assert e in es <==> e in multiset(es);
      assert e in es' <==> e in multiset(es');
    }
    if Group(es, s) != [] {
      assert Group(es, s)[0] in Group(es', s);
    }
    if Group(es', s) != [] {
      assert Group(es', s)[0] in Group(es, s);
    }
  }

  lemma MergedIsStale(hs: seq<Host>, es: seq<WireEdge>, hs': seq<Host>, s: Mac)
    requires Merged(hs, Taken(hs, es), es, hs')
    ensures Stale(hs', es, s)
  {
    var taken := Taken(hs, es);
    TakenDecides(hs, es);
    var g := Group(es, s);
    if g != [] {
      assert g[0] in g;
      MergedLookup(hs, taken, es, hs', s);
      assert s in taken <==> Fresh(hs, es, taken, s);
      if s !in taken && !Has(hs, s) {
        var r: Mac :| r < s && r in taken && Names(es, r, s);
        var x :| x in es && x.src == r && x.dst == s;
        assert Live(taken, x);
        assert Touched(taken, es, s);
      }
    }
  }

  // Merging the same packet again, in any order that qsort may give it, changes nothing.
  lemma MergeTwiceIsMergeOnce(hs: seq<Host>, es: seq<WireEdge>, hs': seq<Host>, es': seq<WireEdge>, hs'': seq<Host>)
    requires SortedEdges(es) && SortedEdges(es') && multiset(es) == multiset(es')
    requires Merged(hs, Taken(hs, es), es, hs') && Merged(hs', Taken(hs', es'), es', hs'')
    ensures hs'' == hs'
  {
    forall s: Mac ensures Stale(hs', es', s) {
      MergedIsStale(hs, es, hs', s);
      SameFirst(es, es', s);
    }
    StalePacketChangesNothing(hs', es', hs'');
  }

  // No two edges of the group go to the same destination.
  ghost predicate NoRepeats(g: seq<WireEdge>) {
    forall i, j :: 0 <= i < j < |g| ==> g[i].dst != g[j].dst
  }

  // The merged links of a taken source are free of repeats exactly when the packet is.
  lemma StrictIffNoRepeats(hs: seq<Host>, taken: iset<Mac>, es: seq<WireEdge>, h: Host)
    requires HostMerged(hs, taken, es, h) && h.mac in taken && Group(es, h.mac) != []
    ensures Strict(h.links, LinkKey) <==> NoRepeats(Group(es, h.mac))
  {
    var ls := AsLinks(Group(es, h.mac));
    assert NoRepeats(Group(es, h.mac)) <==> DistinctKeys(ls, LinkKey);
    if Strict(h.links, LinkKey) {
      DistinctTransfer(h.links, ls, LinkKey);
    }
    if DistinctKeys(ls, LinkKey) {
      DistinctTransfer(ls, h.links, LinkKey);
    }
  }

  // Marks only grow, and the local host is left alone.
  lemma MergeKeepsLocal(hs: seq<Host>, es: seq<WireEdge>, hs': seq<Host>, m: Mac)
    requires Merged(hs, Taken(hs, es), es, hs') && Has(hs, m)
    ensures Has(hs', m) && Get(hs', m).maxTs >= Get(hs, m).maxTs && Get(hs', m).kind == Get(hs, m).kind
    ensures Get(hs, m).kind.Local? ==> Get(hs', m) == Get(hs, m)
  {
  }

  lemma {:induction false} NewestIsStamp(ts: u64, g: seq<WireEdge>)
    ensures Newest(ts, g) == ts || exists e :: e in g && Ts(e) == Newest(ts, g)
  {
    if |g| > 0 {
      var front, e := g[..|g| - 1], g[|g| - 1];
      assert g == front + [e];
      NewestIsStamp(ts, front);
    }
  }

  // The mark of m in the table, 0 if m is not in it.
  ghost function MarkOf(hs: seq<Host>, m: Mac): u64 {
    if Has(hs, m) then Get(hs, m).maxTs else 0
  }

  // The mark after a merge is the mark before, or the stamp of some edge of that source in the
  // packet; for a taken source it is the largest of these.
  lemma MarkAfterMerge(hs: seq<Host>, es: seq<WireEdge>, hs': seq<Host>, m: Mac)
    requires Merged(hs, Taken(hs, es), es, hs')
    ensures MarkOf(hs', m) == MarkOf(hs, m) || exists e :: e in Group(es, m) && Ts(e) == MarkOf(hs', m)
    ensures MarkOf(hs', m) >= MarkOf(hs, m)
    ensures m in Taken(hs, es) ==> forall e :: e in Group(es, m) ==> Ts(e) <= MarkOf(hs', m)
    ensures m !in Taken(hs, es) ==> MarkOf(hs', m) == MarkOf(hs, m)
  {
    MergedLookup(hs, Taken(hs, es), es, hs', m);
    NewestIsStamp(MarkOf(hs, m), Group(es, m));
  }

  // The link of a merged host is one of its edges in the packet.
  lemma MergedLinkIsEdge(hs: seq<Host>, taken: iset<Mac>, es: seq<WireEdge>, h: Host, l: Link)
    requires HostMerged(hs, taken, es, h) && h.mac in taken && Group(es, h.mac) != [] && l in h.links
    ensures exists e :: e in Group(es, h.mac) && l == AsLink(e)
  {
    var ls := AsLinks(Group(es, h.mac));
    assert l in multiset(h.links);
    assert l in multiset(ls);
    var i :| 0 <= i < |ls| && ls[i] == l;
    assert Group(es, h.mac)[i] in Group(es, h.mac);
  }

  lemma MergedLinksOk(hs: seq<Host>, local: Mac, es: seq<WireEdge>, hs': seq<Host>, h: Host)
    requires TableOk(hs, local) && Merged(hs, Taken(hs, es), es, hs') && h in hs'
    requires h.mac in Taken(hs, es) ==> NoRepeats(Group(es, h.mac))
    ensures LinksOk(hs', h) && TimesOk(h)
  {
    var taken := Taken(hs, es);
    assert HostMerged(hs, taken, es, h);
    if Group(es, h.mac) != [] && h.mac in taken {
      StrictIffNoRepeats(hs, taken, es, h);
      forall l | l in h.links ensures l.dst != h.mac && Has(hs', l.dst) && l.ts <= h.maxTs {
        MergedLinkIsEdge(hs, taken, es, h, l);
        var e :| e in Group(es, h.mac) && l == AsLink(e);
        assert Live(taken, e) && Touched(taken, es, e.dst);
      }
    } else if Has(hs, h.mac) {
      assert h in hs;
    }
  }

  lemma NotLinkedWhenAbsent(hs: seq<Host>, local: Mac, m: Mac)
    requires TableOk(hs, local)
    ensures LocalLink(hs, local, m) ==> Has(hs, m)
  {
  }

  lemma MergedKindOk(hs: seq<Host>, local: Mac, es: seq<WireEdge>, hs': seq<Host>, h: Host)
    requires TableOk(hs, local) && Merged(hs, Taken(hs, es), es, hs') && h in hs'
    ensures KindOk(hs', local, h)
  {
    GetMember(hs', h);
    MergeKeepsLocal(hs, es, hs', local);
    assert KindOk(hs, local, Get(hs, local));
    if Has(hs, h.mac) {
      MergeKeepsLocal(hs, es, hs', h.mac);
      assert KindOk(hs, local, Get(hs, h.mac));
    } else {
      MergedLookup(hs, Taken(hs, es), es, hs', h.mac);
      NotLinkedWhenAbsent(hs, local, h.mac);
    }
  }

  // The merge keeps the table invariant exactly when the packet repeats no destination of any source
  // that it is used for.
  lemma MergeKeepsTableIff(hs: seq<Host>, local: Mac, es: seq<WireEdge>, hs': seq<Host>)
    requires TableOk(hs, local) && Merged(hs, Taken(hs, es), es, hs')
    ensures TableOk(hs', local) <==> forall s: Mac :: s in Taken(hs, es) ==> NoRepeats(Group(es, s))
  {
    if forall s: Mac :: s in Taken(hs, es) ==> NoRepeats(Group(es, s)) {
      MergeKeepsLocal(hs, es, hs', local);
      forall h | h in hs' ensures LinksOk(hs', h) && KindOk(hs', local, h) && TimesOk(h) {
        MergedLinksOk(hs, local, es, hs', h);
        MergedKindOk(hs, local, es, hs', h);
      }
    }
    if TableOk(hs', local) {
      forall s: Mac | s in Taken(hs, es) ensures NoRepeats(Group(es, s)) {
        TakenHasStrictLinks(hs, local, es, hs', s);
      }
    }
  }

  lemma TakenHasStrictLinks(hs: seq<Host>, local: Mac, es: seq<WireEdge>, hs': seq<Host>, s: Mac)
    requires Merged(hs, Taken(hs, es), es, hs') && TableOk(hs', local) && s in Taken(hs, es)
    ensures NoRepeats(Group(es, s))
  {
    TakenDecides(hs, es);
    assert Fresh(hs, es, Taken(hs, es), s);
    MergedLookup(hs, Taken(hs, es), es, hs', s);
    var h := Get(hs', s);
    assert LinksOk(hs', h);
    StrictIffNoRepeats(hs, Taken(hs, es), es, h);
  }

  lemma {:induction false} NoRepeatedPairsNoRepeats(es: seq<WireEdge>, s: Mac)
    requires NoRepeatedPairs(es)
    ensures NoRepeats(Group(es, s))
  {
    if |es| > 0 {
      var front, e := es[..|es| - 1], es[|es| - 1];
      assert es == front + [e];
      NoRepeatedPairsNoRepeats(front, s);
      forall x | x in Group(front, s) && e.src == s ensures x.dst != e.dst {
        var j :| 0 <= j < |front| && front[j] == x;
        assert PairKey(es[j]) != PairKey(es[|es| - 1]);
      }
    }
  }

  lemma {:induction false} GroupConcat(es: seq<WireEdge>, fs: seq<WireEdge>, s: Mac)
    ensures Group(es + fs, s) == Group(es, s) + Group(fs, s)
  {
    if |fs| == 0 {
      assert es + fs == es;
    } else {
      var front, e := fs[..|fs| - 1], fs[|fs| - 1];
      assert fs == front + [e] && es + fs == (es + front) + [e];
      GroupConcat(es, front, s);
      GroupSnoc(es + front, e, s);
      GroupSnoc(front, e, s);
    }
  }

  function EdgeDst(e: WireEdge): int { e.dst }

  lemma RepeatsConcat(g: seq<WireEdge>, h: seq<WireEdge>)
    ensures NoRepeats(g + h) <==> NoRepeats(g) && NoRepeats(h) && forall x, y :: x in g && y in h ==> x.dst != y.dst
  {
    assert forall f :: NoRepeats(f) <==> DistinctKeys(f, EdgeDst);
    DistinctConcat(g, h, EdgeDst);
  }

  // A packet in another order repeats the same destinations.
  lemma SameRepeats(es: seq<WireEdge>, es': seq<WireEdge>, s: Mac)
    requires multiset(es) == multiset(es')
    ensures NoRepeats(Group(es, s)) <==> NoRepeats(Group(es', s))
  {
    var g, g' := Group(es, s), Group(es', s);
    forall e ensures multiset(g)[e] == multiset(g')[e] {
      GroupCount(es, s, e);
      GroupCount(es', s, e);
    }
    assert multiset(g) == multiset(g');
    assert forall f :: NoRepeats(f) <==> DistinctKeys(f, EdgeDst);
    if NoRepeats(g) {
      DistinctTransfer(g, g', EdgeDst);
    }
    if NoRepeats(g') {
      DistinctTransfer(g', g, EdgeDst);
    }
  }

  lemma {:induction false} GroupCount(es: seq<WireEdge>, s: Mac, e: WireEdge)
    ensures multiset(Group(es, s))[e] == if e.src == s && e.dst != s then multiset(es)[e] else 0
  {
    if |es| > 0 {
      var front, last := es[..|es| - 1], es[|es| - 1];
      assert es == front + [last];
      GroupSnoc(front, last, s);
      GroupCount(front, s, e);
    }
  }

  // ---- packets sorted by unswapped timestamps ----

  // e has the largest unswapped timestamp among the packet's edges of s.
  ghost predicate Leads(packet: seq<WireEdge>, s: Mac, e: WireEdge) {
    e in Group(packet, s) && forall f :: f in Group(packet, s) ==> f.ts <= e.ts
  }

  // However qsort orders the packet, a known source is passed over exactly if the edge that leads
  // its group is not newer than its mark.
  lemma PassedOverIff(hs: seq<Host>, packet: seq<WireEdge>, es: seq<WireEdge>, s: Mac, e: WireEdge)
    requires SortedEdges(es) && multiset(es) == multiset(packet) && Leads(packet, s, e)
    requires Has(hs, s) && !Get(hs, s).kind.Local?
    ensures s !in Taken(hs, es) <==> Ts(e) <= Get(hs, s).maxTs
  {
    SameGroup(es, packet, s);
    FirstIsLargest(es, s);
    var g := Group(es, s);
    assert e in g;
    assert g[0] in g && g[0].ts == e.ts;
    TakenDecides(hs, es);
    assert s in Taken(hs, es) <==> Fresh(hs, es, Taken(hs, es), s);
  }

  lemma SameGroup(es: seq<WireEdge>, es': seq<WireEdge>, s: Mac)
    requires multiset(es) == multiset(es')
    ensures forall e :: e in Group(es, s) <==> e in Group(es', s)
  {
    forall e ensures e in Group(es, s) <==> e in Group(es', s) {
      assert e in es <==> e in multiset(es);
      assert e in es' <==> e in multiset(es');
    }
  }

  lemma {:induction false} SomeEdgeLeads(packet: seq<WireEdge>, s: Mac) returns (e: WireEdge)
    requires Group(packet, s) != []
    ensures Leads(packet, s, e)
  {
    var n := |packet| - 1;
    var front, last := packet[..n], packet[n];
    assert packet == front + [last];
    GroupSnoc(front, last, s);
    if Group(front, s) == [] {
      e := last;
    } else {
      e := SomeEdgeLeads(front, s);
      if last in Group(packet, s) && last.ts > e.ts {
        e := last;
      }
    }
  }

  ghost predicate HasNewer(packet: seq<WireEdge>, s: Mac, mark: u64) {
    exists f :: f in Group(packet, s) && Ts(f) > mark
  }

  // So news of a known source is lost exactly if its group has an edge newer than the mark, led by
  // one that is not.
  lemma NewsIsLostIff(hs: seq<Host>, packet: seq<WireEdge>, es: seq<WireEdge>, s: Mac)
    requires SortedEdges(es) && multiset(es) == multiset(packet) && Has(hs, s) && !Get(hs, s).kind.Local?
    ensures var mark := Get(hs, s).maxTs;
            s !in Taken(hs, es) && HasNewer(packet, s, mark) <==>
            HasNewer(packet, s, mark) && exists e :: Leads(packet, s, e) && Ts(e) <= mark
  {
    if Group(packet, s) != [] {
      var e := SomeEdgeLeads(packet, s);
      PassedOverIff(hs, packet, es, s, e);
      forall f | Leads(packet, s, f) ensures Ts(f) == Ts(e) {
        assert f.ts == e.ts;
      }
    }
  }

  // Node 1 knows a host marked 100, and a packet stamps one of its links 1 and a newer one 256.
  const MARKED: seq<Host> := [Host(1, Local, 0, []), Host(7, Normal, 100, [])]
  const MIXED: seq<WireEdge> := [Pack(7, 8, 5, 1), Pack(7, 9, 5, 256)]

  lemma MixedIsLedByOld()
    ensures SortedEdges(MIXED) && HasNewer(MIXED, 7, 100)
    ensures Group(MIXED, 7) != [] && Ts(Group(MIXED, 7)[0]) == 1
  {
    var a, b := MIXED[0], MIXED[1];
    PackRoundTrip(7, 8, 5, 1);
    PackRoundTrip(7, 9, 5, 256);
    StampsMisorder(7, 8, 9, 5);
    FirstIsLargest(MIXED, 7);
    assert a in MIXED && b in MIXED && forall x :: x in MIXED ==> x == a || x == b;
    assert a in Group(MIXED, 7) && b in Group(MIXED, 7);
    assert Group(MIXED, 7)[0] in Group(MIXED, 7);
  }

  lemma NoEdgesNoGroup(es: seq<WireEdge>, s: Mac)
    requires forall e :: e in es ==> e.src != s
    ensures Group(es, s) == []
  {
    assert forall e :: e !in Group(es, s);
    NoMembers([], Group(es, s));
  }

  lemma MixedIsStale(s: Mac)
    ensures Stale(MARKED, MIXED, s)
  {
    if s == 7 {
      MixedIsLedByOld();
      MarkedIsSound();
      GetUnique(MARKED, 1);
    } else {
      NoEdgesNoGroup(MIXED, s);
    }
  }

  lemma MarkedIsSound()
    ensures TableOk(MARKED, 1)
  {
    GetUnique(MARKED, 0);
    GetUnique(MARKED, 1);
    forall h | h in MARKED ensures LinksOk(MARKED, h) && KindOk(MARKED, 1, h) && TimesOk(h) {
    }
  }

  // The packet changes nothing, and the newer link is lost.
  lemma NewsIsLost(hs: seq<Host>)
    requires Merged(MARKED, Taken(MARKED, MIXED), MIXED, hs)
    ensures TableOk(MARKED, 1) && SortedEdges(MIXED) && HasNewer(MIXED, 7, 100) && hs == MARKED
  {
    MarkedIsSound();
    MixedIsLedByOld();
    forall s: Mac ensures Stale(MARKED, MIXED, s) {
      MixedIsStale(s);
    }
    StalePacketChangesNothing(MARKED, MIXED, hs);
  }
}
