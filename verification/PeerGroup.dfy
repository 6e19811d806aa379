/** dpg.c: the live peers, sorted by address, with no two at the same address. */
module PeerGroup {
  import opened Base
  import opened SortedList

  datatype Member = Member(mac: Mac, peer: nat)

  function MemberKey(m: Member): int { m.mac }

  // dp_cmp
  function CompareMembers(a: Member, b: Member): int { a.mac - b.mac }

  // The group as a directory from addresses to peers.
  ghost function Directory(s: seq<Member>): (d: map<Mac, nat>)
    requires Strict(s, MemberKey)
    ensures forall m: Mac, p: nat :: m in d && d[m] == p <==> Member(m, p) in s
  {
    map x | x in s :: x.mac := x.peer
  }

  lemma DirectoryDecides(s: seq<Member>, d: map<Mac, nat>)
    requires Strict(s, MemberKey)
    requires forall m: Mac, p: nat :: m in d && d[m] == p <==> Member(m, p) in s
    ensures Directory(s) == d
  {
    var e := Directory(s);
    forall m: Mac | m in d ensures m in e && e[m] == d[m] {
      assert Member(m, d[m]) in s;
    }
    forall m: Mac | m in e ensures m in d {
      assert Member(m, e[m]) in s;
    }
  }

  lemma DirectoryKeys(s: seq<Member>, m: Mac)
    requires Strict(s, MemberKey)
    ensures m in Directory(s) <==> HasKey(s, MemberKey, m)
  {
  }

  lemma DirectoryInsert(s: seq<Member>, x: Member)
    requires Strict(s, MemberKey) && !HasKey(s, MemberKey, x.mac)
    ensures Strict(Insert(s, MemberKey, x), MemberKey) && x.mac !in Directory(s)
    ensures Directory(Insert(s, MemberKey, x)) == Directory(s)[x.mac := x.peer]
  {
    InsertStrict(s, MemberKey, x);
    InsertMembers(s, MemberKey, x);
    DirectoryKeys(s, x.mac);
    DirectoryDecides(Insert(s, MemberKey, x), Directory(s)[x.mac := x.peer]);
  }

  lemma DirectoryRemove(s: seq<Member>, i: nat)
    requires Strict(s, MemberKey) && i < |s|
    ensures Strict(RemoveAt(s, i), MemberKey) && s[i].mac in Directory(s)
    ensures Directory(RemoveAt(s, i)) == Directory(s) - {s[i].mac}
  {
    RemoveKeys(s, MemberKey, i, s[i].mac);
    assert s[i] in s;
    forall x | x in s && x.mac == s[i].mac ensures x == s[i] {
    }
    DirectoryDecides(RemoveAt(s, i), Directory(s) - {s[i].mac});
  }

  class Group {
    var dps: seq<Member>

    ghost predicate Valid()
      reads this
    {
      Strict(dps, MemberKey)
    }

    ghost function View(): map<Mac, nat>
      reads this
      requires Valid()
    {
      Directory(dps)
    }

    constructor ()
      ensures Valid() && View() == map[]
    {
      dps := [];
    }

    // dpg_insert
    method InsertPeer(x: Member) returns (ret: int)
      requires Valid()
      modifies this
      ensures Valid()
      ensures ret == if x.mac in old(View()) then 1 else 0
      ensures View() == if x.mac in old(View()) then old(View()) else old(View())[x.mac := x.peer]
    {
      var dup := BSearch(x, dps, CompareMembers);
      if dup.Some? {
        DirectoryRemove(dps, dup.value);
        return 1;
      }
      DirectoryInsert(dps, x);
      dps := Insert(dps, MemberKey, x);
      return 0;
    }

    // dpg_remove: by address, whoever is registered under it.
    method RemovePeer(x: Member) returns (ret: int)
      requires Valid()
      modifies this
      ensures Valid()
      ensures ret == if x.mac in old(View()) then 0 else -2
      ensures View() == old(View()) - {x.mac}
    {
      var res := BSearch(x, dps, CompareMembers);
      DirectoryKeys(dps, x.mac);
      if res.None? {
        assert View() - {x.mac} == View();
        return -2;
      }
      DirectoryRemove(dps, res.value);
      dps := RemoveAt(dps, res.value);
      return 0;
    }
  }
}
