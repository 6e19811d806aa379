/** struct timeval and the two macros that the program applies to it. */
module Clock {
  datatype Time = Time(sec: int, usec: int)

  type Timeval = t: Time | 0 <= t.usec < 1000000 witness Time(0, 0)

  function Micros(t: Timeval): int { t.sec * 1000000 + t.usec }

  function TimerSub(a: Timeval, b: Timeval): Timeval {
    if a.usec - b.usec < 0 then Time(a.sec - b.sec - 1, a.usec - b.usec + 1000000)
    else Time(a.sec - b.sec, a.usec - b.usec)
  }

  predicate TimerGreater(a: Timeval, b: Timeval) {
    if a.sec == b.sec then a.usec > b.usec else a.sec > b.sec
  }

  // The two macros are subtraction and comparison of microseconds.
  lemma TimersAreMicros(a: Timeval, b: Timeval)
    ensures Micros(TimerSub(a, b)) == Micros(a) - Micros(b)
    ensures TimerGreater(a, b) <==> Micros(a) > Micros(b)
  {
  }
}
