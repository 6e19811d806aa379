/** pcon_connect: at most one connection attempt to the same host in any two seconds. */
module Pcon {
  import opened Base
  import opened Clock
  import opened SortedList

  const EASE: Timeval := Time(2, 0)

  // ---- attempts ----

  // What host_cmp looks at; ip and port are the numbers their bytes spell in network order.
  datatype Target = Target(mac: Mac, ip: u32, port: u16)

  datatype Attempt = Attempt(host: Target, launched: Timeval)

  function TargetKey(t: Target): int { (t.mac * 0x1_0000_0000 + t.ip) * 0x1_0000 + t.port }

  function AttemptKey(a: Attempt): int { TargetKey(a.host) }

  // host_cmp
  function CompareAttempts(a: Attempt, b: Attempt): int {
    if a.host.mac != b.host.mac then a.host.mac - b.host.mac
    else if a.host.ip != b.host.ip then a.host.ip - b.host.ip
    else a.host.port - b.host.port
  }

  // The comparison is a total order: that of one number, which identifies the host.
  lemma CompareIsOrder(a: Attempt, b: Attempt)
    ensures CompareAttempts(a, b) < 0 <==> AttemptKey(a) < AttemptKey(b)
    ensures CompareAttempts(a, b) == 0 <==> a.host == b.host
    ensures AttemptKey(a) == AttemptKey(b) <==> a.host == b.host
  {
  }

  lemma StrictIsPartitioned(s: seq<Attempt>, key: Attempt)
    requires Strict(s, AttemptKey)
    ensures Partitioned(key, s, CompareAttempts)
  {
  }

  // ---- the rule ----

  datatype Call = Call(host: Target, now: Timeval)

  // A call launches a connection: the host is new, or its last launch is more than two seconds ago.
  ghost predicate Granted(view: map<Target, Timeval>, c: Call) {
    c.host in view ==> Micros(c.now) - Micros(view[c.host]) > 2000000
  }

  ghost function Served(view: map<Target, Timeval>, c: Call): map<Target, Timeval> {
    if Granted(view, c) then view[c.host := c.now] else view
  }

  class Limiter {
    var ipas: seq<Attempt>

    ghost predicate Valid()
      reads this
    {
      Strict(ipas, AttemptKey)
    }

    // The time of the last launch to each host.
    ghost function View(): map<Target, Timeval>
      reads this
      requires Valid()
    {
      ViewOf(ipas)
    }

    constructor ()
      ensures Valid() && View() == map[]
    {
      ipas := [];
    }

    // pcon_connect: 0 launches, 1 does not.
    method Connect(host: Target, now: Timeval) returns (ret: int)
      requires Valid()
      modifies this
      ensures Valid() && (ret == 0 || ret == 1)
      ensures ret == 0 <==> Granted(old(View()), Call(host, now))
      ensures View() == Served(old(View()), Call(host, now))
    {
      var nh := Attempt(host, now);
      StrictIsPartitioned(ipas, nh);
      var fh := BSearch(nh, ipas, CompareAttempts);
      if fh.Some? {
        CompareIsOrder(nh, ipas[fh.value]);
        ViewFound(ipas, fh.value);
        var last := ipas[fh.value].launched;
        var tdiff := TimerSub(now, last);
        TimersAreMicros(now, last);
        TimersAreMicros(tdiff, EASE);
        if TimerGreater(tdiff, EASE) {
          ViewUpdate(ipas, fh.value, now);
          ipas := ipas[fh.value := ipas[fh.value].(launched := now)];
          return 0;
        }
        return 1;
      }
      ViewInsert(ipas, nh);
      ipas := Insert(ipas, AttemptKey, nh);
      return 0;
    }
  }

  ghost function ViewOf(s: seq<Attempt>): (v: map<Target, Timeval>)
    requires Strict(s, AttemptKey)
    ensures forall h, t :: h in v && v[h] == t <==> Attempt(h, t) in s
  {
    map a | a in s :: a.host := a.launched
  }

  lemma ViewDecides(s: seq<Attempt>, v: map<Target, Timeval>)
    requires Strict(s, AttemptKey)
    requires forall h, t :: h in v && v[h] == t <==> Attempt(h, t) in s
    ensures ViewOf(s) == v
  {
    var w := ViewOf(s);
    forall h | h in v ensures h in w && w[h] == v[h] {
      assert Attempt(h, v[h]) in s;
    }
    forall h | h in w ensures h in v {
      assert Attempt(h, w[h]) in s;
    }
  }

  lemma ViewFound(s: seq<Attempt>, i: nat)
    requires Strict(s, AttemptKey) && i < |s|
    ensures s[i].host in ViewOf(s) && ViewOf(s)[s[i].host] == s[i].launched
  {
  }

  lemma ViewUpdate(s: seq<Attempt>, i: nat, now: Timeval)
    requires Strict(s, AttemptKey) && i < |s|
    ensures var r := s[i := s[i].(launched := now)];
            Strict(r, AttemptKey) && ViewOf(r) == ViewOf(s)[s[i].host := now]
  {
    var host := s[i].host;
    var r := s[i := Attempt(host, now)];
    forall h, t ensures Attempt(h, t) in r <==> if h == host then t == now else Attempt(h, t) in s {
      UpdatedMember(s, i, now, Attempt(h, t));
    }
    ViewDecides(r, ViewOf(s)[host := now]);
  }

  lemma UpdatedMember(s: seq<Attempt>, i: nat, now: Timeval, a: Attempt)
    requires Strict(s, AttemptKey) && i < |s|
    ensures a in s[i := Attempt(s[i].host, now)] <==> if a.host == s[i].host then a.launched == now else a in s
  {
    var r := s[i := Attempt(s[i].host, now)];
    assert r[i] in r;
    if a in r {
      var j :| 0 <= j < |r| && r[j] == a;
      assert j != i ==> AttemptKey(s[j]) != AttemptKey(s[i]);
    }
    if a in s && a.host != s[i].host {
      var j :| 0 <= j < |s| && s[j] == a;
      assert r[j] == a;
    }
  }

  lemma ViewInsert(s: seq<Attempt>, a: Attempt)
    requires Strict(s, AttemptKey) && forall i :: 0 <= i < |s| ==> CompareAttempts(a, s[i]) != 0
    ensures a.host !in ViewOf(s) && Strict(Insert(s, AttemptKey, a), AttemptKey)
    ensures ViewOf(Insert(s, AttemptKey, a)) == ViewOf(s)[a.host := a.launched]
  {
    forall i | 0 <= i < |s| ensures s[i].host != a.host && AttemptKey(s[i]) != AttemptKey(a) {
      CompareIsOrder(a, s[i]);
    }
    assert forall t :: Attempt(a.host, t) !in s;
    InsertStrict(s, AttemptKey, a);
    InsertMembers(s, AttemptKey, a);
    ViewDecides(Insert(s, AttemptKey, a), ViewOf(s)[a.host := a.launched]);
  }

  // ---- any sequence of calls ----

  ghost function After(calls: seq<Call>): map<Target, Timeval> {
    if |calls| == 0 then map[] else Served(After(calls[..|calls| - 1]), calls[|calls| - 1])
  }

  lemma AfterSnoc(calls: seq<Call>, n: nat)
    requires 0 < n <= |calls|
    ensures After(calls[..n]) == Served(After(calls[..n - 1]), calls[n - 1])
  {
    assert calls[..n][..n - 1] == calls[..n - 1];
  }

  // Call number i launches a connection to host.
  ghost predicate Launches(calls: seq<Call>, host: Target, i: nat) {
    i < |calls| && calls[i].host == host && Granted(After(calls[..i]), calls[i])
  }

  // A launch is recorded, and what is recorded is never earlier than any launch so far.
  lemma {:induction false} RecordIsLatest(calls: seq<Call>, host: Target, i: nat, n: nat)
    requires i < n <= |calls| && Launches(calls, host, i)
    ensures host in After(calls[..n]) && Micros(calls[i].now) <= Micros(After(calls[..n])[host])
    decreases n
  {
    AfterSnoc(calls, n);
    if i < n - 1 {
      RecordIsLatest(calls, host, i, n - 1);
    }
  }

  // What is recorded is a launch.
  lemma {:induction false} RecordIsLaunch(calls: seq<Call>, host: Target, n: nat) returns (i: nat)
    requires n <= |calls| && host in After(calls[..n])
    ensures i < n && Launches(calls, host, i) && After(calls[..n])[host] == calls[i].now
  {
    AfterSnoc(calls, n);
    if calls[n - 1].host == host && Granted(After(calls[..n - 1]), calls[n - 1]) {
      i := n - 1;
    } else {
      i := RecordIsLaunch(calls, host, n - 1);
    }
  }

  // Whatever the calls and however the clock behaves, a call launches if and only if every earlier
  // launch to its host is more than two seconds old.
  lemma LaunchesIff(calls: seq<Call>, i: nat)
    requires i < |calls|
    ensures Launches(calls, calls[i].host, i) <==>
            forall j :: 0 <= j < i && Launches(calls, calls[i].host, j) ==>
                          Micros(calls[i].now) - Micros(calls[j].now) > 2000000
  {
    var host := calls[i].host;
    if Launches(calls, host, i) {
      forall j | 0 <= j < i && Launches(calls, host, j) ensures Micros(calls[i].now) - Micros(calls[j].now) > 2000000 {
        PairSpaced(calls, host, j, i);
      }
    } else {
      var j := RecordIsLaunch(calls, host, i);
    }
  }

  // Two launches to one host are more than two seconds apart.
  lemma PairSpaced(calls: seq<Call>, host: Target, i: nat, j: nat)
    requires i < j && Launches(calls, host, i) && Launches(calls, host, j)
    ensures Micros(calls[j].now) - Micros(calls[i].now) >= 2000001
  {
    RecordIsLatest(calls, host, i, j);
  }

  // Whatever the calls and however the clock behaves, n launches to one host span more than
  // 2 (n - 1) seconds.
  lemma {:induction false} LaunchesSpaced(calls: seq<Call>, host: Target, launches: seq<nat>)
    requires |launches| > 0 && forall i :: 0 <= i < |launches| ==> Launches(calls, host, launches[i])
    requires forall i, j :: 0 <= i < j < |launches| ==> launches[i] < launches[j]
    ensures launches[0] < |calls| && launches[|launches| - 1] < |calls|
    ensures Micros(calls[launches[|launches| - 1]].now) - Micros(calls[launches[0]].now) >= 2000001 * (|launches| - 1)
    decreases |launches|
  {
    var n := |launches|;
    assert Launches(calls, host, launches[n - 1]);
    if n > 1 {
      LaunchesSpaced(calls, host, launches[..n - 1]);
      PairSpaced(calls, host, launches[n - 2], launches[n - 1]);
    }
  }
}
