/**
 The host table of routing_t as a value: hosts sorted by address, each with its links sorted by
 destination, the invariant that every operation keeps, and the small edits operations are made of.
 */
module Table {
  import opened Base
  import opened SortedList

  // Direct carries the peer whose address record the table points into.
  datatype Kind = Local | Direct(peer: nat) | Normal

  datatype Link = Link(dst: Mac, rtt: u32, ts: u64)

  datatype Host = Host(mac: Mac, kind: Kind, maxTs: u64, links: seq<Link>)

  function HostKey(h: Host): int { h.mac }

  function LinkKey(l: Link): int { l.dst }

  ghost predicate Has(hs: seq<Host>, m: Mac) { HasKey(hs, HostKey, m) }

  ghost function Idx(hs: seq<Host>, m: Mac): (i: nat)
    requires Has(hs, m)
    ensures i < |hs| && hs[i].mac == m
  {
    At(hs, HostKey, m)
  }

  ghost function Get(hs: seq<Host>, m: Mac): (h: Host)
    requires Has(hs, m)
    ensures h in hs && h.mac == m
  {
    hs[Idx(hs, m)]
  }

  ghost predicate HasLink(ls: seq<Link>, m: Mac) { HasKey(ls, LinkKey, m) }

  // What a stray host that only appears as a destination looks like.
  function Stranger(m: Mac): Host { Host(m, Normal, 0, []) }

  // ---- the invariant ----

  ghost predicate LocalLink(hs: seq<Host>, local: Mac, m: Mac) {
    Has(hs, local) && HasLink(Get(hs, local).links, m)
  }

  ghost predicate LinksOk(hs: seq<Host>, h: Host) {
    && Strict(h.links, LinkKey)
    && forall l :: l in h.links ==> l.dst != h.mac && Has(hs, l.dst)
  }

  ghost predicate KindOk(hs: seq<Host>, local: Mac, h: Host) {
    && (h.kind.Local? <==> h.mac == local)
    && (h.kind.Direct? <==> LocalLink(hs, local, h.mac))
  }

  ghost predicate TimesOk(h: Host) {
    h.kind.Local? || forall l :: l in h.links ==> l.ts <= h.maxTs
  }

  // Addresses strictly sorted, links strictly sorted, never to oneself and never dangling, one
  // local host, direct exactly when linked from it, marks that bound the links of others.
  ghost predicate TableOk(hs: seq<Host>, local: Mac) {
    && Strict(hs, HostKey)
    && Has(hs, local)
    && (forall h :: h in hs ==> LinksOk(hs, h) && KindOk(hs, local, h) && TimesOk(h))
  }

  // ---- looking up ----

  lemma GetUnique(hs: seq<Host>, i: nat)
    requires Strict(hs, HostKey) && i < |hs|
    ensures Has(hs, hs[i].mac) && Idx(hs, hs[i].mac) == i && Get(hs, hs[i].mac) == hs[i]
  {
  }

  lemma GetMember(hs: seq<Host>, h: Host)
    requires Strict(hs, HostKey) && h in hs
    ensures Has(hs, h.mac) && Get(hs, h.mac) == h
  {
  }

  lemma LinkTarget(hs: seq<Host>, h: Host, m: Mac)
    requires LinksOk(hs, h) && HasLink(h.links, m)
    ensures Has(hs, m) && m != h.mac
  {
  }

  function CompareHosts(a: Host, b: Host): int { a.mac - b.mac }

  method FindHost(hs: seq<Host>, m: Mac) returns (r: Option<nat>)
    requires Strict(hs, HostKey)
    ensures r.Some? <==> Has(hs, m)
    ensures r.Some? ==> r.value < |hs| && hs[r.value].mac == m && r.value == Idx(hs, m)
  {
    r := BSearch(Stranger(m), hs, CompareHosts);
    if r.Some? {
      GetUnique(hs, r.value);
    }
  }

  function CompareLinks(a: Link, b: Link): int { a.dst - b.dst }

  // Also in a list that repeats a target, where it finds one of the links to it.
  method FindLink(ls: seq<Link>, m: Mac) returns (r: Option<nat>)
    requires Sorted(ls, LinkKey)
    ensures r.Some? <==> HasLink(ls, m)
    ensures r.Some? ==> r.value < |ls| && ls[r.value].dst == m
    ensures r.Some? && Strict(ls, LinkKey) ==> r.value == At(ls, LinkKey, m)
  {
    r := BSearch(Link(m, 0, 0), ls, CompareLinks);
    if r.Some? {
      assert LinkKey(ls[r.value]) == m;
    }
  }

  // ---- edits ----

  // host_add for an address that is not in the table.
  function AddHost(hs: seq<Host>, h: Host): seq<Host> { Insert(hs, HostKey, h) }

  // link_add
  function AddLink(h: Host, l: Link): Host {
    h.(links := Insert(h.links, LinkKey, l), maxTs := if l.ts > h.maxTs then l.ts else h.maxTs)
  }

  // The host at index i exchanged for one with the same address.
  ghost predicate Replaces(hs: seq<Host>, i: nat, h: Host, hs': seq<Host>) {
    i < |hs| && h.mac == hs[i].mac && hs' == hs[i := h]
  }

  lemma ReplaceLookup(hs: seq<Host>, i: nat, h: Host, hs': seq<Host>)
    requires Strict(hs, HostKey) && Replaces(hs, i, h, hs')
    ensures Strict(hs', HostKey)
    ensures forall m: Mac :: Has(hs', m) <==> Has(hs, m)
    ensures forall m: Mac :: Has(hs, m) ==> Get(hs', m) == if m == h.mac then h else Get(hs, m)
  {
    forall m: Mac ensures Has(hs', m) <==> Has(hs, m) {
      if Has(hs, m) {
        assert HostKey(hs'[Idx(hs, m)]) == m;
      }
      if Has(hs', m) {
        assert HostKey(hs[Idx(hs', m)]) == m;
      }
    }
    forall m: Mac | Has(hs, m) ensures Get(hs', m) == if m == h.mac then h else Get(hs, m) {
      GetUnique(hs', Idx(hs, m));
    }
  }

  lemma AddLookup(hs: seq<Host>, h: Host)
    requires Strict(hs, HostKey) && !Has(hs, h.mac)
    ensures Strict(AddHost(hs, h), HostKey)
    ensures forall m: Mac :: Has(AddHost(hs, h), m) <==> Has(hs, m) || m == h.mac
    ensures forall m: Mac :: Has(hs, m) || m == h.mac ==>
                               Has(AddHost(hs, h), m) && Get(AddHost(hs, h), m) == if m == h.mac then h else Get(hs, m)
  {
    var hs' := AddHost(hs, h);
    InsertStrict(hs, HostKey, h);
    forall m: Mac ensures Has(hs', m) <==> Has(hs, m) || m == h.mac {
      InsertKeys(hs, HostKey, h, m);
    }
    forall m: Mac | Has(hs, m) || m == h.mac ensures Get(hs', m) == if m == h.mac then h else Get(hs, m) {
      var x := if m == h.mac then h else Get(hs, m);
      InsertMember(hs, HostKey, h, x);
      GetMember(hs', x);
    }
  }

  // Tables that agree on every lookup are equal.
  lemma LookupsDecide(hs: seq<Host>, hs': seq<Host>)
    requires Strict(hs, HostKey) && Strict(hs', HostKey)
    requires forall m: Mac :: Has(hs, m) <==> Has(hs', m)
    requires forall m: Mac :: Has(hs, m) && Has(hs', m) ==> Get(hs, m) == Get(hs', m)
    ensures hs == hs'
  {
    forall h ensures h in hs <==> h in hs' {
      if h in hs {
        GetMember(hs, h);
        assert Get(hs', h.mac) == h;
      }
      if h in hs' {
        GetMember(hs', h);
        assert Get(hs, h.mac) == h;
      }
    }
    StrictUnique(hs, hs', HostKey);
  }
}
