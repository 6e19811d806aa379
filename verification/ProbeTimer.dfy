/** The timer of dp_th: when a peer thread probes its peer and when it broadcasts the link state. */
module ProbeTimer {
  import opened Clock

  const PROBE_TIMEOUT: Timeval := Time(1, 0)
  const LINK_MULT := 10

  // The clock in one turn of the loop: as a probe is sent, if one is, after it has been sent, and
  // after the wait and whatever packet ended it.
  datatype Turn = Turn(sent: Timeval, before: Timeval, after: Timeval)

  // ---- which turns probe, by the clock alone ----

  // When turn k begins, a second has passed since the probe of turn j was sent.
  ghost predicate Elapsed(turns: seq<Turn>, j: nat, k: nat) {
    j < k < |turns| && Micros(turns[k - 1].after) - Micros(turns[j].before) >= 1000000
  }

  // Of the first n turns those in ps probe: the first, and after every probe the first turn before
  // which a second has passed.
  ghost predicate Schedule(turns: seq<Turn>, n: nat, ps: seq<nat>)
    requires n <= |turns|
  {
    && (if n == 0 then ps == [] else |ps| > 0 && ps[0] == 0)
    && (forall x :: 0 <= x < |ps| ==> ps[x] < n)
    && (forall x :: 0 < x < |ps| ==> Elapsed(turns, ps[x - 1], ps[x]))
    && (forall x, k :: 0 <= x < |ps| && ps[x] < k < (if x + 1 < |ps| then ps[x + 1] else n) ==>
          !Elapsed(turns, ps[x], k))
  }

  // The rule leaves no choice.
  lemma {:induction false} ScheduleUnique(turns: seq<Turn>, n: nat, ps: seq<nat>, qs: seq<nat>, x: nat)
    requires n <= |turns| && Schedule(turns, n, ps) && Schedule(turns, n, qs) && x <= |ps|
    ensures x <= |qs| && ps[..x] == qs[..x]
  {
    if x > 0 {
      ScheduleUnique(turns, n, ps, qs, x - 1);
      if x > 1 {
        var j, k := ps[x - 2], ps[x - 1];
        assert qs[x - 2] == qs[..x - 1][x - 2] == ps[..x - 1][x - 2] == j;
        assert Elapsed(turns, ps[x - 1 - 1], ps[x - 1]);
        if x <= |qs| {
          assert Elapsed(turns, qs[x - 1 - 1], qs[x - 1]);
        }
      }
      assert ps[..x] == ps[..x - 1] + [ps[x - 1]];
    }
  }

  // The clock does not run backwards.
  ghost predicate Monotone(turns: seq<Turn>) {
    && (forall k :: 0 <= k < |turns| ==> Micros(turns[k].sent) <= Micros(turns[k].before) <= Micros(turns[k].after))
    && (forall j, k :: 0 <= j < k < |turns| ==> Micros(turns[j].after) <= Micros(turns[k].sent))
  }

  // Under a clock that does not run backwards, any two probes are at least a second apart.
  lemma {:induction false} ProbesSpaced(turns: seq<Turn>, n: nat, ps: seq<nat>, x: nat, y: nat)
    requires n <= |turns| && Schedule(turns, n, ps) && Monotone(turns) && x < y < |ps|
    ensures Micros(turns[ps[y]].sent) - Micros(turns[ps[x]].sent) >= 1000000
    decreases y
  {
    var j, k := ps[y - 1], ps[y];
    assert Elapsed(turns, j, k);
    assert Micros(turns[k - 1].after) <= Micros(turns[k].sent);
    if x < y - 1 {
      ProbesSpaced(turns, n, ps, x, y - 1);
    }
  }

  // If every turn lasts a second, every turn probes.
  lemma {:induction false} SlowTurnsAllProbe(turns: seq<Turn>, ps: seq<nat>, x: nat)
    requires Schedule(turns, |turns|, ps) && x < |turns|
    requires forall k :: 0 <= k < |turns| ==> Micros(turns[k].after) - Micros(turns[k].before) >= 1000000
    ensures x < |ps| && ps[x] == x
  {
    if x > 0 {
      SlowTurnsAllProbe(turns, ps, x - 1);
      assert Elapsed(turns, x - 1, x);
      assert ps[x - 1] == x - 1;
      if x < |ps| {
        assert Elapsed(turns, ps[x - 1], ps[x]);
      }
    }
  }

  // A wait that reaches over a second ends in a probe: between two turns that are a second apart
  // some turn probes.
  lemma ProbeWithinSecond(turns: seq<Turn>, n: nat, ps: seq<nat>, x: nat, k: nat)
    requires n <= |turns| && Schedule(turns, n, ps) && x < |ps| && k < n && Elapsed(turns, ps[x], k)
    ensures x + 1 < |ps| && ps[x + 1] <= k
  {
  }

  // ---- broadcasts ----

  // probe_ct after n probes.
  ghost predicate Counted(n: nat, probeCt: nat) {
    if n == 0 then probeCt == 0 else probeCt == (n - 1) % LINK_MULT + 1
  }

  // One probe: the counter goes on, and a broadcast is due with the first of every ten.
  method CountProbe(ghost n: nat, probeCt: nat) returns (probeCt': nat, due: bool)
    requires Counted(n, probeCt)
    ensures Counted(n + 1, probeCt') && (due <==> n % 10 == 0)
  {
    due := probeCt % LINK_MULT == 0;
    probeCt' := (if due then 0 else probeCt) + 1;
  }

  // bs are the first of every ten of the turns ps.
  ghost predicate EveryTenth(ps: seq<nat>, bs: seq<nat>) {
    |bs| == (|ps| + 9) / 10 && forall x :: 0 <= x < |bs| ==> bs[x] == ps[10 * x]
  }

  lemma EveryTenthSnoc(ps: seq<nat>, bs: seq<nat>, k: nat)
    requires EveryTenth(ps, bs)
    ensures EveryTenth(ps + [k], if |ps| % 10 == 0 then bs + [k] else bs)
  {
  }

  // What a probe in turn k does besides.
  method BroadcastIfDue(ghost ps: seq<nat>, probeCt: nat, bs: seq<nat>, k: nat) returns (probeCt': nat, bs': seq<nat>)
    requires EveryTenth(ps, bs) && Counted(|ps|, probeCt)
    ensures EveryTenth(ps + [k], bs') && Counted(|ps + [k]|, probeCt')
  {
    var due;
    probeCt', due := CountProbe(|ps|, probeCt);
    bs' := if due then bs + [k] else bs;
    EveryTenthSnoc(ps, bs, k);
  }

  // ---- the loop ----

  // timersub and timercmp as the loop uses them
  method Subtract(a: Timeval, b: Timeval) returns (c: Timeval)
    ensures Micros(c) == Micros(a) - Micros(b)
  {
    c := TimerSub(a, b);
    TimersAreMicros(a, b);
  }

  method IsPositive(a: Timeval) returns (r: bool)
    ensures r <==> Micros(a) > 0
  {
    r := TimerGreater(a, Time(0, 0));
    TimersAreMicros(a, Time(0, 0));
  }

  // wtime is what is left at now of the second that began when the clock stood at started.
  ghost predicate Left(wtime: Timeval, now: Timeval, started: int) {
    Micros(wtime) == 1000000 - (Micros(now) - started)
  }

  // What is left after a wait.
  method Remaining(wtime: Timeval, before: Timeval, after: Timeval, ghost started: int) returns (r: Timeval)
    requires Left(wtime, before, started)
    ensures Left(r, after, started)
  {
    var dtime := Subtract(after, before);
    r := Subtract(wtime, dtime);
  }

  // The timer in one turn, for the second that began at started, or for no second yet: it probes
  // exactly if that second is over, and then another begins.
  method OneTurn(turn: Turn, wtime: Timeval, after: Timeval, ghost first: bool, ghost started: int)
    returns (probed: bool, wtime': Timeval)
    requires if first then wtime == Time(0, 0) else Left(wtime, after, started)
    ensures probed <==> first || Micros(after) - started >= 1000000
    ensures Left(wtime', turn.after, if probed then Micros(turn.before) else started)
  {
    var waiting := IsPositive(wtime);
    probed := !waiting;
    if probed {
      wtime' := Remaining(PROBE_TIMEOUT, turn.before, turn.after, Micros(turn.before));
    } else {
      wtime' := Remaining(wtime, after, turn.after, started);
    }
  }

  // Turn n probes, after the probes ps.
  ghost predicate Due(turns: seq<Turn>, n: nat, ps: seq<nat>) {
    |ps| == 0 || Elapsed(turns, ps[|ps| - 1], n)
  }

  lemma ScheduleSnoc(turns: seq<Turn>, n: nat, ps: seq<nat>)
    requires n < |turns| && Schedule(turns, n, ps)
    ensures Schedule(turns, n + 1, if Due(turns, n, ps) then ps + [n] else ps)
  {
  }

  // The timer as turn n finds it: nothing before the first turn, then what is left of the second
  // since the last probe.
  ghost predicate TimerAt(turns: seq<Turn>, n: nat, ps: seq<nat>, wtime: Timeval, after: Timeval) {
    if n == 0 then |ps| == 0 && wtime == Time(0, 0)
    else
      && |ps| > 0 && ps[|ps| - 1] < n <= |turns| && after == turns[n - 1].after
      && Left(wtime, after, Micros(turns[ps[|ps| - 1]].before))
  }

  method TurnAt(turns: seq<Turn>, k: nat, ghost ps: seq<nat>, wtime: Timeval, after: Timeval)
    returns (probed: bool, wtime': Timeval)
    requires k < |turns| && TimerAt(turns, k, ps, wtime, after)
    ensures probed <==> Due(turns, k, ps)
    ensures TimerAt(turns, k + 1, if probed then ps + [k] else ps, wtime', turns[k].after)
  {
    ghost var started := if k == 0 then 0 else Micros(turns[ps[|ps| - 1]].before);
    probed, wtime' := OneTurn(turns[k], wtime, after, k == 0, started);
  }

  // One turn of the loop, with what it adds to the turns that probe and to those that broadcast.
  method TurnOfLoop(turns: seq<Turn>, k: nat, loop: Loop) returns (loop': Loop)
    requires k < |turns| && LoopAt(turns, k, loop)
    ensures LoopAt(turns, k + 1, loop')
  {
    ScheduleSnoc(turns, k, loop.probes);
    var probed, wtime := TurnAt(turns, k, loop.probes, loop.wtime, loop.after);
    loop' := loop.(wtime := wtime, after := turns[k].after);
    if probed {
      var probeCt, broadcasts := BroadcastIfDue(loop.probes, loop.probeCt, loop.broadcasts, k);
      loop' := loop'.(probes := loop.probes + [k], probeCt := probeCt, broadcasts := broadcasts);
    }
  }

  // The variables of the loop.
  datatype Loop = Loop(probes: seq<nat>, broadcasts: seq<nat>, probeCt: nat, wtime: Timeval, after: Timeval)

  ghost predicate LoopAt(turns: seq<Turn>, k: nat, loop: Loop)
    requires k <= |turns|
  {
    && Schedule(turns, k, loop.probes) && TimerAt(turns, k, loop.probes, loop.wtime, loop.after)
    && EveryTenth(loop.probes, loop.broadcasts) && Counted(|loop.probes|, loop.probeCt)
  }

  // Turns of the loop until the thread ends, for whatever reason, after whatever packets and under
  // any clock: the turns that probe, and those that broadcast.
  method Serve(turns: seq<Turn>) returns (probes: seq<nat>, broadcasts: seq<nat>)
    ensures Schedule(turns, |turns|, probes)
    ensures EveryTenth(probes, broadcasts)
  {
    var loop := Loop([], [], 0, Time(0, 0), Time(0, 0));
    for k := 0 to |turns|
      invariant LoopAt(turns, k, loop)
    {
      loop := TurnOfLoop(turns, k, loop);
    }
    return loop.probes, loop.broadcasts;
  }
}
