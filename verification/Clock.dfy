/** Deadlines of message_handler's queue wait and the wrapping tick clock of coap_time.h. */
module Clock {

  const W32 := 0x1_0000_0000
  const HALF := 0x8000_0000

  // ---------------------------------------------------------------- deadlines

  /** struct timespec */
  datatype Time = Time(sec: int, nsec: int)

  const SECOND := 1_000_000_000
  const CARRY := 999_999_999

  function Nanos(t: Time): int {
    t.sec * SECOND + t.nsec
  }

  predicate Normalised(t: Time) {
    0 <= t.nsec < SECOND
  }

  /** The delay in nanoseconds, multiplied out in 32 bits. */
  function Delay(us: nat): nat {
    us * 1000 % W32
  }

  /** delay_us_at_TimesSpec, given the reading of the clock. */
  function Deadline(now: Time, us: nat): Time
    requires Normalised(now) && us < W32
  {
    var tmp := now.nsec + Delay(us);
    if tmp > CARRY then Time(now.sec + tmp / CARRY, tmp % CARRY) else now.(nsec := tmp)
  }

  /** How late a deadline is, for the nanosecond count it was computed from. */
  function Lateness(tmp: nat): nat {
    if tmp > CARRY then tmp / CARRY else 0
  }

  /** The deadline is normalised and late by the carry alone, at most 5 ns. */
  lemma DeadlineIsLateBy(now: Time, us: nat)
    requires Normalised(now) && us < W32
    ensures var d, tmp := Deadline(now, us), now.nsec + Delay(us);
            && Normalised(d) && Lateness(tmp) <= 5
            && Nanos(d) == Nanos(now) + Delay(us) + Lateness(tmp)
  {
    var tmp := now.nsec + Delay(us);
    assert tmp == (tmp / CARRY) * CARRY + tmp % CARRY;
  }

  /** The same in the fields of the two times: on top of the delay, which is 1000 ns for every microsecond as long as
      that fits 32 bits, comes one ns for every 999999999 in the sum that carries. */
  lemma DeadlineIs(now: Time, us: nat)
    requires 0 <= now.nsec < 1_000_000_000 && us < 0x1_0000_0000
    ensures var d, tmp := Deadline(now, us), now.nsec + us * 1000 % 0x1_0000_0000;
            && 0 <= d.nsec < 1_000_000_000
            && d.sec * 1_000_000_000 + d.nsec
               == now.sec * 1_000_000_000 + tmp + if tmp > 999_999_999 then tmp / 999_999_999 else 0
    ensures us <= 4_294_967 ==>
              var d, tmp := Deadline(now, us), now.nsec + 1000 * us;
              d.sec * 1_000_000_000 + d.nsec
              == now.sec * 1_000_000_000 + tmp + if tmp > 999_999_999 then tmp / 999_999_999 else 0
  {
    DeadlineIsLateBy(now, us);
    assert us <= 4_294_967 ==> us * 1000 % 0x1_0000_0000 == 1000 * us;
  }

  /** It is early exactly when the delay does not fit 32 bits of nanoseconds. */
  lemma EarlyIffOverflow(now: Time, us: nat)
    requires Normalised(now) && us < W32
    ensures Nanos(Deadline(now, us)) >= Nanos(now) + 1000 * us <==> us <= 4_294_967
    ensures var d := Deadline(now, us);
            d.sec * 1_000_000_000 + d.nsec >= now.sec * 1_000_000_000 + now.nsec + 1000 * us <==> us <= 4_294_967
  {
    hide Deadline;
    DeadlineIsLateBy(now, us);
    if us > 4_294_967 {
      DelayWraps(us);
    }
  }

  lemma DelayWraps(us: nat)
    requires 4_294_967 < us < W32
    ensures Delay(us) + W32 <= us * 1000
  {
    var ns := us * 1000;
    assert ns == (ns / W32) * W32 + ns % W32 && ns / W32 >= 1;
  }

  /** A deadline asked for later is never earlier, although the carry is off by one: no delay is an odd number of
      nanoseconds. */
  lemma DeadlinesKeepOrder(now: Time, next: Time, us: nat)
    requires Normalised(now) && Normalised(next) && us < W32 && Nanos(now) <= Nanos(next)
    ensures Nanos(Deadline(now, us)) <= Nanos(Deadline(next, us))
  {
    hide Deadline;
    DeadlineIsLateBy(now, us);
    DeadlineIsLateBy(next, us);
    DelayIsMultipleOf8(us);
    LatenessGap(now.nsec, next.nsec, Delay(us));
    assert now.sec <= next.sec;
  }

  lemma DelayIsMultipleOf8(us: nat)
    ensures Delay(us) % 8 == 0
  {
    var ns := us * 1000;
    assert ns == (ns / W32) * W32 + ns % W32;
    assert ns % W32 == 8 * (125 * us - 0x2000_0000 * (ns / W32));
  }

  lemma LatenessGap(m: nat, n: nat, ns: nat)
    requires m < SECOND && n < SECOND && ns < W32 && ns % 8 == 0
    ensures m <= n ==> Lateness(m + ns) <= Lateness(n + ns)
    ensures m > n ==> Lateness(m + ns) <= Lateness(n + ns) + SECOND - (m - n)
  {
  }

  // -------------------------------------------------------------------- ticks

  /** The value of 32 bits read as a signed number. */
  function Signed(x: nat): int
    requires x < W32
  {
    if x < HALF then x else x - W32
  }

  type Tick = x: int | 0 <= x < W32

  /** coap_time_lt */
  predicate TimeLt(a: Tick, b: Tick) {
    Signed((a - b) % W32) < 0
  }

  /** coap_time_le */
  predicate TimeLe(a: Tick, b: Tick) {
    a == b || TimeLt(a, b)
  }

  /** One tick is before another when the other is at most half the circle ahead. */
  lemma LtIsHalfCircle(a: Tick, b: Tick)
    ensures TimeLt(a, b) <==> 1 <= (b - a) % 0x1_0000_0000 <= 0x8000_0000
  {
  }

  lemma Congruent(x: int, y: int)
    ensures (x % W32 - y % W32) % W32 == (x - y) % W32
  {
    var q := x / W32 - y / W32;
    assert x % W32 - y % W32 == (x - y) - q * W32;
    ModShift(x - y, q);
  }

  lemma ModShift(d: int, q: int)
    ensures (d - q * W32) % W32 == d % W32
  {
    var r := d - q * W32;
    assert r == (r / W32) * W32 + r % W32;
  }

  /** For instants less than 2^31 ticks apart the comparison of their wrapped ticks is the true order. */
  lemma LtIsTrueOrder(x: int, y: int)
    requires -0x8000_0000 < x - y < 0x8000_0000
    ensures TimeLt(x % 0x1_0000_0000, y % 0x1_0000_0000) <==> x < y
    ensures TimeLe(x % 0x1_0000_0000, y % 0x1_0000_0000) <==> x <= y
  {
    Congruent(x, y);
  }

  /** Exactly half a circle apart each tick counts as before the other; nowhere else. */
  lemma LtBothWays(a: Tick, b: Tick)
    ensures TimeLt(a, b) && TimeLt(b, a) <==> (b - a) % W32 == HALF
    ensures TimeLt(a, b) || TimeLt(b, a) || a == b
  {
  }

  lemma BackFrom(from: Tick, a: Tick)
    ensures (from + (a - from) % W32) % W32 == a
  {
  }

  lemma LtInWindow(from: Tick, a: Tick, b: Tick)
    requires (a - from) % W32 < HALF && (b - from) % W32 < HALF
    ensures TimeLt(a, b) <==> (a - from) % W32 < (b - from) % W32
    ensures (a - from) % W32 == (b - from) % W32 ==> a == b
  {
    hide TimeLt;
    BackFrom(from, a);
    BackFrom(from, b);
    LtIsTrueOrder(from + (a - from) % W32, from + (b - from) % W32);
  }

  /** Inside a window of 2^31 ticks the comparison is a strict total order. */
  lemma LtIsOrderInWindow(from: Tick, a: Tick, b: Tick, c: Tick)
    requires (a - from) % W32 < HALF && (b - from) % W32 < HALF && (c - from) % W32 < HALF
    ensures TimeLt(a, b) ==> !TimeLt(b, a)
    ensures TimeLt(a, b) && TimeLt(b, c) ==> TimeLt(a, c)
    ensures !TimeLt(a, b) && !TimeLt(b, a) ==> a == b
  {
    hide TimeLt;
    LtInWindow(from, a, b);
    LtInWindow(from, b, a);
    LtInWindow(from, b, c);
    LtInWindow(from, a, c);
  }

  /** It carries over from two steps exactly if together they go no further than half the circle. */
  lemma LtTransitiveIff(a: Tick, b: Tick, c: Tick)
    requires TimeLt(a, b) && TimeLt(b, c)
    ensures TimeLt(a, c) <==> (b - a) % W32 + (c - b) % W32 <= HALF
  {
    hide TimeLt;
    LtIsHalfCircle(a, b);
    LtIsHalfCircle(b, c);
    LtIsHalfCircle(a, c);
  }

  /** Two steps of three eighths of the circle. */
  lemma LtIsNotTransitive()
    ensures TimeLt(0, 0x6000_0000) && TimeLt(0x6000_0000, 0xC000_0000) && !TimeLt(0, 0xC000_0000)
  {
  }

  const TICKS_PER_SECOND := 1024

  /** coap_ticks_impl, given the reading of the clock and the clock offset. */
  function Ticks(sec: int, usec: nat, offset: int): Tick {
    ((sec - offset) * TICKS_PER_SECOND + usec * TICKS_PER_SECOND / 1_000_000) % W32
  }

  /** Microseconds since the clock offset. */
  function Elapsed(sec: int, usec: nat, offset: int): int {
    (sec - offset) * 1_000_000 + usec
  }

  /** The tick of an instant on a clock that never wraps. */
  function TrueTicks(us: int): int {
    1024 * us / 1_000_000
  }

  /** A tick is the whole number of 1/1024 s since the offset, modulo 2^32. */
  lemma TicksAreFloor(sec: int, usec: nat, offset: int)
    ensures Ticks(sec, usec, offset) == TrueTicks(Elapsed(sec, usec, offset)) % W32
    ensures Ticks(sec, usec, offset) == 1024 * ((sec - offset) * 1_000_000 + usec) / 1_000_000 % 0x1_0000_0000
  {
    var s, u := sec - offset, usec * 1024;
    assert 1024 * (s * 1_000_000 + usec) == u + s * 1024 * 1_000_000;
    FloorShift(u, s * 1024);
  }

  lemma FloorShift(u: int, k: int)
    ensures (u + k * 1_000_000) / 1_000_000 == u / 1_000_000 + k
  {
  }

  /** A reading taken later never compares before an earlier one, and after 977 us or more it compares after it, as
      long as fewer than 2^31 ticks pass in between. */
  lemma LaterReadings(s0: int, u0: nat, s1: int, u1: nat, offset: int)
    requires s0 * 1_000_000 + u0 <= s1 * 1_000_000 + u1
    requires 1024 * ((s1 * 1_000_000 + u1) - (s0 * 1_000_000 + u0)) <= 0x7FFF_FFFE * 1_000_000
    ensures TimeLe(Ticks(s0, u0, offset), Ticks(s1, u1, offset))
    ensures (s1 * 1_000_000 + u1) - (s0 * 1_000_000 + u0) >= 977 ==>
              TimeLt(Ticks(s0, u0, offset), Ticks(s1, u1, offset))
  {
    var e0, e1 := Elapsed(s0, u0, offset), Elapsed(s1, u1, offset);
    TicksAreFloor(s0, u0, offset);
    TicksAreFloor(s1, u1, offset);
    hide Ticks, TimeLt, TimeLe;
    LtIsTrueOrder(TrueTicks(e0), TrueTicks(e1));
  }
}
