// The clock chain: time stamp counter to duration (kernel/src/x86_64/tsc.c), timer interrupt
// (kernel/src/common/main.c), boot time (boottime.c) and wall clock (kernel/src/x86_64/rtc.c),
// with the duration arithmetic of common/include/time.h.
module Clock {
  import opened Arithmetic
  import opened Options

  const NANOS := 1_000_000_000
  const U32 := 0x1_0000_0000
  const I64 := 0x8000_0000_0000_0000

  // int64_t seconds and uint32_t nanoseconds
  datatype Duration = Duration(seconds: int, nanos: nat)

  predicate Normal(d: Duration) {
    d.nanos < NANOS
  }

  // Far from the ends of int64_t: sums and differences do not overflow.
  predicate Small(d: Duration) {
    -0x4000_0000_0000_0000 < d.seconds < 0x4000_0000_0000_0000
  }

  function Total(d: Duration): int {
    d.seconds * NANOS + d.nanos
  }

  // --- time.h -------------------------------------------------------------------------------------

  // The nanoseconds wrap around 2^32 when they go below zero, and this is how a borrow is noticed.
  method DurationSub(a: Duration, b: Duration) returns (d1: Duration)
    requires Normal(a) && Normal(b) && Small(a) && Small(b)
    ensures Total(d1) == Total(a) - Total(b) && Normal(d1)
    ensures -I64 <= d1.seconds < I64
  {
    d1 := a;
    d1 := d1.(seconds := d1.seconds - b.seconds);
    d1 := d1.(nanos := (d1.nanos - b.nanos) % U32);
    if d1.nanos > NANOS {
      d1 := d1.(seconds := d1.seconds - 1);
      d1 := d1.(nanos := (d1.nanos + NANOS) % U32);
    }
  }

  // The sum is right; it is normal unless the nanoseconds add up to exactly one second, which the
  // comparison lets pass.
  method DurationAdd(a: Duration, b: Duration) returns (d1: Duration)
    requires Normal(a) && Normal(b) && Small(a) && Small(b)
    ensures Total(d1) == Total(a) + Total(b) && d1.nanos <= NANOS
    ensures Normal(d1) <==> a.nanos + b.nanos != NANOS
    ensures -I64 <= d1.seconds < I64
  {
    d1 := a;
    d1 := d1.(seconds := d1.seconds + b.seconds);
    d1 := d1.(nanos := (d1.nanos + b.nanos) % U32);
    if d1.nanos > NANOS {
      d1 := d1.(seconds := d1.seconds + 1);
      d1 := d1.(nanos := d1.nanos - NANOS);
    }
  }

  // --- tsc.c --------------------------------------------------------------------------------------

  function ReadTsc(raw: nat, f: nat): Duration
    requires f > 0
  {
    var seconds := raw / f;
    var ticks := raw % f;
    Duration(if seconds < I64 then seconds else seconds - WORDS, (ticks * NANOS % WORDS) / f % U32)
  }

  lemma FloorOfFraction(r: nat, f: nat)
    requires r < f
    ensures r * NANOS / f < NANOS
  {
    var t := r * NANOS / f;
    DivMod(r * NANOS, f);
    if t >= NANOS {
      MulMonotone(NANOS, t, f);
    }
  }

  lemma Regroup(q: nat, f: nat, r: nat, t: nat, s: nat)
    requires r * NANOS == t * f + s
    ensures (q * f + r) * NANOS == (q * NANOS + t) * f + s
  {
    assert (q * NANOS + t) * f == q * NANOS * f + t * f;
    assert q * NANOS * f == q * f * NANOS;
  }

  // The whole seconds and the rest of a second of a reading
  lemma SplitReading(raw: nat, f: nat)
    requires f > 0
    ensures raw * NANOS / f == raw / f * NANOS + raw % f * NANOS / f
    ensures raw % f * NANOS / f < NANOS
  {
    var q, r := raw / f, raw % f;
    var t, s := r * NANOS / f, r * NANOS % f;
    DivMod(raw, f);
    DivMod(r * NANOS, f);
    FloorOfFraction(r, f);
    Regroup(q, f, r, t, s);
    DivUnique(raw * NANOS, q * NANOS + t, s, f);
  }

  // The greatest frequency for which ticks * 10^9 fits 64 bits for every reading
  const MAX_FREQUENCY := 18446744074

  // A reading taken at most 2^63 seconds after the counter started is exact to the nanosecond.
  lemma TscExact(raw: nat, f: nat)
    requires 0 < f <= MAX_FREQUENCY && raw / f < I64
    ensures Total(ReadTsc(raw, f)) == raw * NANOS / f && Normal(ReadTsc(raw, f))
  {
    SplitReading(raw, f);
    DivMod(raw, f);
    NoOverflow(raw % f, f);
  }

  lemma NoOverflow(ticks: nat, f: nat)
    requires ticks < f <= MAX_FREQUENCY
    ensures (ticks * NANOS % WORDS) / f % U32 == ticks * NANOS / f
  {
    FloorOfFraction(ticks, f);
    assert ticks * NANOS < WORDS;
    Fits(ticks * NANOS, f);
  }

  lemma Fits(x: nat, f: nat)
    requires f > 0 && x < WORDS && x / f < U32
    ensures x % WORDS / f % U32 == x / f
  {
    assert x % WORDS == x;
    Remainder(x / f);
  }

  lemma Remainder(a: nat)
    ensures a % U32 <= a && (a < U32 ==> a % U32 == a)
  {
  }

  // Beyond that frequency the multiplication overflows, and some reading is wrong.
  lemma TscInexact(f: nat) returns (raw: nat)
    requires MAX_FREQUENCY < f < WORDS
    ensures raw < WORDS && Total(ReadTsc(raw, f)) != raw * NANOS / f
  {
    raw := f - 1;
    DivUnique(raw, 0, raw, f);
    DivMod(raw, f);
    assert raw / f == 0 && raw % f == raw;
    Overflow(raw, f);
  }

  lemma Overflow(ticks: nat, f: nat)
    requires MAX_FREQUENCY <= ticks < f < WORDS
    ensures (ticks * NANOS % WORDS) / f % U32 < ticks * NANOS / f
  {
    assert ticks * NANOS >= WORDS;
    WrappedQuotient(ticks * NANOS, f);
  }

  lemma WrappedQuotient(x: nat, f: nat)
    requires 0 < f < WORDS <= x
    ensures x % WORDS / f % U32 < x / f
  {
    SmallerQuotient(x, f);
    DivMod(x % WORDS, f);
    var t := x % WORDS / f;
    Remainder(t);
  }

  lemma SmallerQuotient(x: nat, f: nat)
    requires 0 < f < WORDS <= x
    ensures x % WORDS / f < x / f
  {
    DivMod(x, f);
    DivMod(x % WORDS, f);
    var t := x % WORDS / f;
    if t >= x / f {
      MulMonotone(x / f, t, f);
    }
  }

  // At 1 Hz the seconds of a reading do not fit int64_t.
  lemma OneHertzInexact()
    ensures Total(ReadTsc(I64, 1)) != I64 * NANOS / 1
  {
    DivUnique(I64, I64, 0, 1);
    assert I64 / 1 == I64 && I64 % 1 == 0;
  }

  // Every 64-bit reading is exact if and only if the frequency is in this range.
  lemma TscExactIff(f: nat)
    requires 0 < f < WORDS
    ensures 2 <= f <= MAX_FREQUENCY <==> forall raw: nat :: raw < WORDS ==> Total(ReadTsc(raw, f)) == raw * NANOS / f
  {
    if f == 1 {
      OneHertzInexact();
    } else if f <= MAX_FREQUENCY {
      forall raw: nat | raw < WORDS
        ensures Total(ReadTsc(raw, f)) == raw * NANOS / f
      {
        DivMod(raw, f);
        MulMonotone(2, f, raw / f);
        TscExact(raw, f);
      }
    } else {
      var raw := TscInexact(f);
    }
  }

  // --- The timer interrupt and the clocks built on it ----------------------------------------------

  // A reading in nanoseconds
  function Ns(raw: nat, f: nat): nat
    requires f > 0
  {
    raw * NANOS / f
  }

  lemma NsMonotone(raw: nat, raw': nat, f: nat)
    requires f > 0 && raw <= raw'
    ensures Ns(raw, f) <= Ns(raw', f)
  {
    var x, x' := raw * NANOS, raw' * NANOS;
    DivMod(x, f);
    DivMod(x', f);
    if x / f > x' / f {
      MulStep(x' / f, x / f, f);
    }
  }

  // The microseconds that one interrupt adds, for the readings before and now.
  function Ticked(before: nat, now: nat): nat {
    if now < before then 0 else (now - before) / 1000
  }

  // The microseconds that the interrupts at these readings add, after a first reading.
  function BootTime(first: nat, readings: seq<nat>): nat
    decreases |readings|
  {
    if readings == [] then 0 else Ticked(first, readings[0]) + BootTime(readings[0], readings[1..])
  }

  predicate NonDecreasing(first: nat, readings: seq<nat>)
    decreases |readings|
  {
    readings == [] || (first <= readings[0] && NonDecreasing(readings[0], readings[1..]))
  }

  function Last(first: nat, readings: seq<nat>): nat {
    if readings == [] then first else readings[|readings| - 1]
  }

  // Each interrupt loses less than a microsecond, and none gains: the bound over any run.
  lemma {:induction false} DriftBound(first: nat, readings: seq<nat>)
    requires NonDecreasing(first, readings)
    ensures var b, elapsed := BootTime(first, readings), Last(first, readings) - first;
      1000 * b <= elapsed <= 1000 * b + 999 * |readings|
    decreases |readings|
  {
    if readings != [] {
      DriftBound(readings[0], readings[1..]);
      assert Last(first, readings) == Last(readings[0], readings[1..]);
    }
  }

  // The bound is reached: readings 1.999 microseconds apart lose 999 ns each.
  lemma DriftReached(first: nat, n: nat)
    ensures BootTime(first, seq(n, i => first + 1999 * (i + 1))) == n
    decreases n
  {
    var r := seq(n, i => first + 1999 * (i + 1));
    if n > 0 {
      var next := first + 1999;
      assert r[1..] == seq(n - 1, i => next + 1999 * (i + 1));
      DriftReached(next, n - 1);
    }
  }

  // Boot time never goes back, whatever the readings do.
  lemma {:induction false} BootTimeGrows(first: nat, readings: seq<nat>, more: seq<nat>)
    ensures BootTime(first, readings + more) == BootTime(first, readings) + BootTime(Last(first, readings), more)
    decreases |readings|
  {
    if readings == [] {
      assert readings + more == more;
    } else {
      assert (readings + more)[1..] == readings[1..] + more;
      BootTimeGrows(readings[0], readings[1..], more);
      assert Last(first, readings) == Last(readings[0], readings[1..]);
    }
  }

  const SECONDS_LIMIT := 0x800_0000_0000

  function AllNs(raws: seq<nat>, f: nat): (r: seq<nat>)
    requires f > 0
    ensures |r| == |raws|
  {
    seq(|raws|, i requires 0 <= i < |raws| => Ns(raws[i], f))
  }

  lemma TscReading(raw: nat, f: nat)
    requires 0 < f <= MAX_FREQUENCY && raw / f < SECONDS_LIMIT
    ensures var d := ReadTsc(raw, f); Normal(d) && 0 <= d.seconds < SECONDS_LIMIT && Total(d) == Ns(raw, f)
    ensures Ns(raw, f) < SECONDS_LIMIT * NANOS
  {
    TscExact(raw, f);
    TscSeconds(raw, f);
    hide ReadTsc;
  }

  lemma TscSeconds(raw: nat, f: nat)
    requires f > 0 && raw / f < I64
    ensures ReadTsc(raw, f).seconds == raw / f >= 0
  {
  }

  lemma TotalNonNegative(d: Duration)
    requires Normal(d) && 0 <= d.seconds < SECONDS_LIMIT
    ensures 0 <= Total(d) < SECONDS_LIMIT * NANOS
  {
  }

  // The microseconds of a step, none for a negative one
  function Micros(step: Duration): int {
    if step.seconds < 0 then 0 else step.seconds * 1_000_000 + step.nanos / 1000
  }

  lemma StepAdds(step: Duration, before: nat, now: nat, b: nat)
    requires Normal(step) && Total(step) == now - before && now < SECONDS_LIMIT * NANOS && b < WORDS
    ensures Micros(step) >= 0 && (b + Micros(step)) % WORDS == (b + Ticked(before, now)) % WORDS
    ensures (b + Ticked(before, now)) % WORDS == if before <= now then (b + (now - before) / 1000) % WORDS else b
  {
    hide Total;
    StepMicros(step, before, now);
    TickedIs(before, now, b);
  }

  lemma StepMicros(step: Duration, before: nat, now: nat)
    requires Normal(step) && Total(step) == now - before && now < SECONDS_LIMIT * NANOS
    ensures step.seconds < 0 <==> now < before
    ensures now < before ==> Ticked(before, now) == 0
    ensures now >= before ==> Ticked(before, now) == (now - before) / 1000
    ensures now >= before ==> step.seconds * 1_000_000 + step.nanos / 1000 == (now - before) / 1000 < I64
  {
  }

  // Readings within 2^43 seconds, so that the microseconds of a step fit 64 bits
  predicate InRange(raws: seq<nat>, f: nat)
    requires f > 0
  {
    forall i :: 0 <= i < |raws| ==> raws[i] / f < SECONDS_LIMIT
  }

  class Timer {
    const frequency: nat
    const isRoot: bool
    var lastTsc: Duration
    // the counter of boottime.c
    var boottime: nat
    // rtc_last_init_time and rtc_last_init_boottime
    var rtcTime: Duration
    var rtcBoottime: nat

    ghost predicate Valid()
      reads this
    {
      && 0 < frequency <= MAX_FREQUENCY && boottime < WORDS
      && Normal(lastTsc) && 0 <= lastTsc.seconds < SECONDS_LIMIT
      && rtcTime.nanos == 0 && Small(rtcTime) && -SECONDS_LIMIT < rtcTime.seconds < SECONDS_LIMIT && rtcBoottime < WORDS
    }

    constructor (frequency: nat, isRoot: bool, raw: nat)
      requires 0 < frequency <= MAX_FREQUENCY && raw / frequency < SECONDS_LIMIT
      ensures Valid() && this.frequency == frequency && this.isRoot == isRoot
      ensures Total(lastTsc) == Ns(raw, frequency) && boottime == 0
    {
      hide ReadTsc, Ns;
      this.frequency, this.isRoot := frequency, isRoot;
      TscReading(raw, frequency);
      lastTsc := ReadTsc(raw, frequency);
      boottime, rtcTime, rtcBoottime := 0, Duration(0, 0), 0;
    }

    method TimerIrq(raw: nat)
      requires Valid() && raw / frequency < SECONDS_LIMIT
      modifies this`lastTsc, this`boottime
      ensures Valid()
      ensures Total(lastTsc) == Ns(raw, frequency)
      ensures boottime ==
        if isRoot then (old(boottime) + Ticked(Total(old(lastTsc)), Ns(raw, frequency))) % WORDS else old(boottime)
      ensures var before, now := Total(old(lastTsc)), Ns(raw, frequency);
        boottime == if isRoot && before <= now then (old(boottime) + (now - before) / 1000) % WORDS
                    else old(boottime)
    {
      hide ReadTsc, Ns, Total, Ticked;
      TscReading(raw, frequency);
      var dur := ReadTsc(raw, frequency);
      var step := DurationSub(dur, lastTsc);
      TotalNonNegative(lastTsc);
      StepAdds(step, Total(lastTsc), Ns(raw, frequency), boottime);
      if step.seconds < 0 {
        step := Duration(0, 0);
      }
      lastTsc := dur;
      if isRoot {
        var micros := step.seconds * 1_000_000 + step.nanos / 1000;
        boottime := (boottime + micros) % WORDS;
      }
    }

    // A run of timer interrupts
    method Interrupts(raws: seq<nat>)
      requires Valid() && InRange(raws, frequency)
      modifies this`lastTsc, this`boottime
      ensures Valid()
      ensures Total(lastTsc) == Last(Total(old(lastTsc)), AllNs(raws, frequency))
      ensures isRoot ==> boottime == (old(boottime) + BootTime(Total(old(lastTsc)), AllNs(raws, frequency))) % WORDS
      ensures !isRoot ==> boottime == old(boottime)
    {
      hide Ns, Total, Ticked;
      ghost var first, ns := Total(lastTsc), AllNs(raws, frequency);
      TotalNonNegative(lastTsc);
      var i := 0;
      while i < |raws|
        invariant 0 <= i <= |raws|
        invariant Valid() && Total(lastTsc) == Last(first, ns[..i])
        invariant boottime == if isRoot then (old(boottime) + BootTime(first, ns[..i])) % WORDS else old(boottime)
      {
        BootTimeOneMore(first, ns, i, old(boottime));
        TimerIrq(raws[i]);
        i := i + 1;
      }
      assert ns[..i] == ns;
    }

    // The end of init_rtc: the time the hardware clock showed, and the boot time then.
    method SetRtc(seconds: int)
      requires Valid() && -SECONDS_LIMIT < seconds < SECONDS_LIMIT
      modifies this`rtcTime, this`rtcBoottime
      ensures Valid() && rtcTime == Duration(seconds, 0) && rtcBoottime == boottime
    {
      rtcTime, rtcBoottime := Duration(seconds, 0), boottime;
    }

    // read_global_rtc; None is the halt.
    method ReadGlobalRtc() returns (r: Option<Duration>)
      requires Valid()
      ensures r.None? <==> boottime < rtcBoottime
      ensures r.Some? ==> Normal(r.value) && Total(r.value) == Total(rtcTime) + (boottime - rtcBoottime) * 1000
    {
      var diff := (boottime - rtcBoottime) % WORDS;
      if diff > boottime {
        return None;
      }
      var delta := Duration(diff / 1_000_000, diff % 1_000_000 * 1000);
      var dur := DurationAdd(rtcTime, delta);
      return Some(dur);
    }
  }

  lemma BootTimeOneMore(first: nat, ns: seq<nat>, i: nat, start: nat)
    requires i < |ns|
    ensures Last(first, ns[..i + 1]) == ns[i]
    ensures BootTime(first, ns[..i + 1]) == BootTime(first, ns[..i]) + Ticked(Last(first, ns[..i]), ns[i])
    ensures ((start + BootTime(first, ns[..i])) % WORDS + Ticked(Last(first, ns[..i]), ns[i])) % WORDS
      == (start + BootTime(first, ns[..i + 1])) % WORDS
  {
    assert ns[..i + 1] == ns[..i] + [ns[i]];
    BootTimeGrows(first, ns[..i], [ns[i]]);
    assert BootTime(ns[i], []) == 0;
    hide BootTime, Ticked;
    SumModulo(start + BootTime(first, ns[..i]), Ticked(Last(first, ns[..i]), ns[i]));
  }

  lemma TickedIs(before: nat, now: nat, b: nat)
    requires b < WORDS
    ensures (b + Ticked(before, now)) % WORDS == if before <= now then (b + (now - before) / 1000) % WORDS else b
  {
  }

  lemma SumModulo(a: nat, b: nat)
    ensures (a % WORDS + b) % WORDS == (a + b) % WORDS
  {
  }

  lemma ReadingsInOrder(first: nat, raws: seq<nat>, f: nat)
    requires f > 0 && NonDecreasing(first, raws)
    ensures NonDecreasing(Ns(first, f), AllNs(raws, f))
    decreases |raws|
  {
    if raws != [] {
      NsMonotone(first, raws[0], f);
      ReadingsInOrder(raws[0], raws[1..], f);
      assert AllNs(raws, f)[1..] == AllNs(raws[1..], f);
    }
  }

  // No wrap-around of the boot time within the range of readings
  lemma BootTimeBelow(first: nat, ns: seq<nat>)
    requires NonDecreasing(first, ns) && first < SECONDS_LIMIT * NANOS
    requires forall n :: n in ns ==> n < SECONDS_LIMIT * NANOS
    ensures BootTime(first, ns) < WORDS && first <= Last(first, ns)
  {
    DriftBound(first, ns);
    assert ns != [] ==> ns[|ns| - 1] in ns;
  }

  // The wall clock on the root core, read after two runs of interrupts, with readings that do not
  // decrease. It never goes back, it never runs ahead of the counter, and after n >= 1 interrupts it
  // is less than n microseconds behind.
  method WallClock(f: nat, raw0: nat, seconds: int, raws: seq<nat>, more: seq<nat>) returns (r: Duration, r': Duration)
    requires 0 < f <= MAX_FREQUENCY && -SECONDS_LIMIT < seconds < SECONDS_LIMIT
    requires raw0 / f < SECONDS_LIMIT && InRange(raws, f) && InRange(more, f)
    requires NonDecreasing(raw0, raws + more)
    ensures Normal(r) && Normal(r') && Total(r) <= Total(r')
    ensures var shown, elapsed := Total(r') - seconds * NANOS, Ns(Last(raw0, raws + more), f) - Ns(raw0, f);
      && shown <= elapsed
      && (|raws + more| >= 1 ==> elapsed < shown + 1000 * |raws + more|)
  {
    hide Ns, ReadTsc, NonDecreasing, BootTime, Last, AllNs, Total, InRange;
    TotalOfSeconds(seconds);
    ghost var b1 := BootTime(Ns(raw0, f), AllNs(raws, f));
    ghost var b2 := b1 + BootTime(Last(Ns(raw0, f), AllNs(raws, f)), AllNs(more, f));
    WallClockFacts(f, raw0, raws, more);
    var t := new Timer(f, true, raw0);
    t.SetRtc(seconds);
    t.Interrupts(raws);
    assert t.boottime == b1 by { Remains(b1); }
    var now := t.ReadGlobalRtc();
    t.Interrupts(more);
    assert t.boottime == b2 by { Remains(b2); }
    var later := t.ReadGlobalRtc();
    return now.value, later.value;
  }

  lemma Remains(b: nat)
    ensures b < WORDS ==> b % WORDS == b
  {
  }

  lemma TotalOfSeconds(seconds: int)
    ensures Total(Duration(seconds, 0)) == seconds * NANOS
  {
  }

  lemma AllNsBelow(raws: seq<nat>, f: nat)
    requires 0 < f <= MAX_FREQUENCY && InRange(raws, f)
    ensures forall n :: n in AllNs(raws, f) ==> n < SECONDS_LIMIT * NANOS
  {
    hide Ns;
    forall i | 0 <= i < |raws|
      ensures AllNs(raws, f)[i] < SECONDS_LIMIT * NANOS
    {
      TscReading(raws[i], f);
    }
  }

  lemma InRangeBoth(raws: seq<nat>, more: seq<nat>, f: nat)
    requires f > 0 && InRange(raws, f) && InRange(more, f)
    ensures InRange(raws + more, f)
  {
  }

  lemma AllNsSplit(first: nat, raws: seq<nat>, more: seq<nat>, f: nat)
    requires f > 0
    ensures AllNs(raws + more, f) == AllNs(raws, f) + AllNs(more, f)
    ensures Last(Ns(first, f), AllNs(raws + more, f)) == Ns(Last(first, raws + more), f)
  {
    hide Ns;
  }

  lemma WallClockFacts(f: nat, raw0: nat, raws: seq<nat>, more: seq<nat>)
    requires 0 < f <= MAX_FREQUENCY
    requires raw0 / f < SECONDS_LIMIT && InRange(raws, f) && InRange(more, f)
    requires NonDecreasing(raw0, raws + more)
    ensures var first, a, b := Ns(raw0, f), AllNs(raws, f), AllNs(more, f);
      var b1, b2 := BootTime(first, a), BootTime(first, a) + BootTime(Last(first, a), b);
      var elapsed := Ns(Last(raw0, raws + more), f) - first;
      && b1 <= b2 < WORDS
      && 1000 * b2 <= elapsed <= 1000 * b2 + 999 * |raws + more|
  {
    var all := raws + more;
    hide Ns, AllNs, BootTime, Last;
    InRangeBoth(raws, more, f);
    hide InRange;
    AllNsBelow(all, f);
    TscReading(raw0, f);
    ReadingsInOrder(raw0, all, f);
    AllNsSplit(raw0, raws, more, f);
    hide NonDecreasing;
    BootTimeGrows(Ns(raw0, f), AllNs(raws, f), AllNs(more, f));
    DriftBound(Ns(raw0, f), AllNs(all, f));
    BootTimeBelow(Ns(raw0, f), AllNs(all, f));
  }
}
