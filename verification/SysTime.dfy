/**
 The system tick: a millisecond counter that skips one tick in every `reload` to make up
 for the remainder of the PIT clock, how far it drifts from true PIT time, and the
 timestamp that the callback derives from it.
 */
module SysTime {
  import opened Arith
  import opened Timers

  const PIT_CLOCK := 1193181

  /** The configurable tick frequencies. */
  predicate Supported(f: nat) { f in {1000, 500, 250, 125, 50} }

  /** SYS_TICK_CORRECTION. */
  function Correction(f: nat): nat
    requires f > 0
  {
    var r := PIT_CLOCK % f;
    if r == 0 then 0 else CorrectionFor(PIT_CLOCK / f * f, r)
  }

  function CorrectionFor(whole: nat, r: nat): nat
    requires r > 0
  {
    whole / r
  }

  function Increment(f: nat): nat
    requires f > 0
  {
    1000 / f
  }

  /** The counter after `n` ticks. */
  function CounterAfter(n: nat, reload: nat, inc: nat): int
    requires reload > 0
  {
    inc * (n - n / reload)
  }

  lemma DivStep(n: nat, r: nat)
    requires r > 0
    ensures (n + 1) / r == n / r + (if n % r == r - 1 then 1 else 0)
    ensures (n + 1) % r == (if n % r == r - 1 then 0 else n % r + 1)
  {
    var q, m := n / r, n % r;
    assert n == q * r + m;
    if m == r - 1 {
      assert n + 1 == (q + 1) * r + 0;
      DivUnique(n + 1, r, q + 1, 0);
    } else {
      assert n + 1 == q * r + (m + 1);
      DivUnique(n + 1, r, q, m + 1);
    }
  }

  class Clock {
    var counter: nat         // SysTickCounter
    var increment: nat       // SysTickIncrement
    var reload: nat          // TickAdjustReload
    var current: nat         // TickAdjustCurrent
    const os: OsData         // receives the tick callback
    ghost var n: nat         // ticks since the frequency was set
    ghost var base: nat      // the counter at that time

    /** After `n` ticks the counter has its closed form. */
    ghost predicate Valid()
      reads this
    {
      && reload > 0 && current == reload - n % reload
      && counter == base + CounterAfter(n, reload, increment)
    }

    constructor (os: OsData)
      ensures this.os == os && counter == 0
    {
      counter, increment, reload, current := 0, 1, 0, 0;
      this.os := os;
    }

    /** `SetSysTimerFrequency`; programming the PIT is left out. */
    method SetFrequency(f: nat)
      requires Supported(f)
      modifies this
      ensures Valid() && n == 0 && counter == old(counter) && base == counter
      ensures reload == Correction(f) && increment == Increment(f)
    {
      reload := Correction(f);
      current := reload;
      increment := 1000 / f;
      n, base := 0, counter;
    }

    /** `SysTick` with the callback installed. */
    method SysTick()
      requires Valid() && os.Valid()
      modifies this, os, os.blocks
      ensures Valid() && n == old(n) + 1 && base == old(base) && reload == old(reload) && increment == old(increment)
      ensures os.Valid() && os.St() == Apply(old(os.St()), Tick, os.inc)
      ensures os.sysTime == counter && os.timestamp == old(os.timestamp) + if counter % 1000 == 0 then 1 else 0
    {
      DivStep(n, reload);
      CounterStep(n, reload, increment);
      current := current - 1;
      if current == 0 {
        current := reload;
      } else {
        counter := counter + increment;
      }
      n := n + 1;
      os.SysTickFun(counter);
    }

    /** `k` ticks at the default frequency of 1000 Hz, from a counter at zero. */
    method RunDefault(k: nat)
      requires os.Valid() && counter == 0
      modifies this, os, os.blocks
      ensures counter == CounterAfter(k, 6591, 1)
      ensures os.timestamp == old(os.timestamp) + counter / 1000 + k / 659100
      ensures os.Valid()
    {
      SetFrequency(1000);
      assert reload == 6591 && increment == 1;
      RunTicks(k);
      StampsClosed(k);
    }

    method RunTicks(k: nat)
      requires Valid() && os.Valid() && n == 0 && base == 0 && reload == 6591 && increment == 1
      modifies this, os, os.blocks
      ensures counter == CounterAfter(k, 6591, 1) && os.timestamp == old(os.timestamp) + Stamps(k)
      ensures os.Valid()
    {
      var t := 0;
      while t < k
        invariant 0 <= t <= k && Valid() && n == t && base == 0 && reload == 6591 && increment == 1
        invariant os.Valid() && os.timestamp == old(os.timestamp) + Stamps(t)
      {
        SysTick();
        t := t + 1;
      }
    }
  }

  lemma CounterStep(n: nat, reload: nat, inc: nat)
    requires reload > 0
    ensures CounterAfter(n + 1, reload, inc) == CounterAfter(n, reload, inc) + if n % reload == reload - 1 then 0 else inc
  {
    DivStep(n, reload);
    var a := n - n / reload;
    assert inc * (a + 1) == inc * a + inc;
  }

  // ----- Drift -----

  /** The parameters of each supported frequency. */
  lemma Parameters(f: nat)
    requires Supported(f)
    ensures var r, reload := PIT_CLOCK % f, Correction(f);
            && r > 0 && reload > 0 && Increment(f) * f == 1000
            && r * reload <= PIT_CLOCK - r && r * reload > PIT_CLOCK - 2 * r
  {}

  /**
   True time after `n` ticks is 1000 * n * (PIT_CLOCK / f) / PIT_CLOCK milliseconds. The
   counter is never a full increment ahead of it, and it lags by less than
   inc * n * 2R / (reload * PIT_CLOCK) milliseconds, where R is PIT_CLOCK mod f.
   */
  lemma Drift(f: nat, n: nat)
    requires Supported(f) && n > 0
    ensures var r, reload, inc := PIT_CLOCK % f, Correction(f), Increment(f);
            var ahead := PIT_CLOCK * CounterAfter(n, reload, inc) - 1000 * n * (PIT_CLOCK / f);
            ahead < inc * PIT_CLOCK && reload * -ahead < inc * n * 2 * r
  {
    Parameters(f);
    var r, reload, inc := PIT_CLOCK % f, Correction(f), Increment(f);
    var q, m := PIT_CLOCK / f, n / reload;
    DriftTicks(r, reload, n);
    var d := r * n - PIT_CLOCK * m;
    AheadTicks(f, q, r, inc, n, m);
    ScaleBounds(inc, d, reload, n, r);
  }

  /** In ticks scaled by the PIT clock. */
  lemma DriftTicks(r: nat, reload: nat, n: nat)
    requires r > 0 && reload > 0 && n > 0 && r * reload <= PIT_CLOCK - r && r * reload > PIT_CLOCK - 2 * r
    ensures var d := r * n - PIT_CLOCK * (n / reload);
            d < PIT_CLOCK && reload * -d < n * 2 * r
  {
    var m, b := n / reload, n % reload;
    assert n == m * reload + b;
    NotAhead(r, reload, n, m, b);
    NotBehind(r, reload, n, m, b);
  }

  lemma NotAhead(r: nat, reload: nat, n: nat, m: nat, b: nat)
    requires reload > 0 && n == m * reload + b && b < reload && r * reload <= PIT_CLOCK - r && r > 0
    ensures r * n - PIT_CLOCK * m < PIT_CLOCK
  {
    assert r * n == (r * reload) * m + r * b;
    MulLess(r * reload, PIT_CLOCK, m);
    MulLess(b, reload, r);
  }

  lemma NotBehind(r: nat, reload: nat, n: nat, m: nat, b: nat)
    requires n > 0 && n == m * reload + b && r * reload > PIT_CLOCK - 2 * r
    ensures reload * (PIT_CLOCK * m - r * n) < n * 2 * r
  {
    var x := PIT_CLOCK - r * reload;
    assert reload * (PIT_CLOCK * m - r * n) == PIT_CLOCK * (m * reload) - (r * reload) * n;
    MulLess(m * reload, n, PIT_CLOCK);
    assert PIT_CLOCK * n - (r * reload) * n == x * n;
    MulStrict(x, 2 * r, n);
  }

  lemma AheadTicks(f: nat, q: nat, r: nat, inc: nat, n: nat, m: int)
    requires PIT_CLOCK == q * f + r && inc * f == 1000
    ensures PIT_CLOCK * (inc * (n - m)) - 1000 * n * q == inc * (r * n - PIT_CLOCK * m)
  {
    assert 1000 * n * q == inc * f * n * q == inc * (n * (q * f));
    assert n * (q * f) == n * PIT_CLOCK - n * r;
    assert PIT_CLOCK * (inc * (n - m)) == inc * (PIT_CLOCK * n - PIT_CLOCK * m);
  }

  lemma ScaleBounds(inc: nat, d: int, reload: nat, n: nat, r: nat)
    requires inc > 0 && d < PIT_CLOCK && reload * -d < n * 2 * r
    ensures inc * d < inc * PIT_CLOCK && reload * -(inc * d) < inc * n * 2 * r
  {
    MulStrict(d, PIT_CLOCK, inc);
    MulStrict(reload * -d, n * 2 * r, inc);
    assert reload * -(inc * d) == (reload * -d) * inc;
    assert inc * n * 2 * r == (n * 2 * r) * inc;
  }

  // ----- The timestamp -----

  /** How often the callback has seen a counter that is a multiple of 1000, at the default frequency. */
  function Stamps(n: nat): nat {
    if n == 0 then 0 else Stamps(n - 1) + Hit(n)
  }

  /** Whether tick `n` adds a second. */
  function Hit(n: nat): nat {
    if CounterAfter(n, 6591, 1) % 1000 == 0 then 1 else 0
  }

  /** One second per 1000 on the counter, and one more in every 659100 ticks. */
  function ExpectedStamps(n: nat): int {
    CounterAfter(n, 6591, 1) / 1000 + n / 659100
  }

  /**
   Exact closed form of the timestamp: the extra second comes when the skipped tick
   repeats a counter that is a multiple of 1000.
   */
  lemma {:induction false} StampsClosed(n: nat)
    ensures Stamps(n) == ExpectedStamps(n)
  {
    if n == 0 {
      NoStamps(n);
    } else {
      StampsClosed(n - 1);
      StampStep(n);
    }
  }

  lemma NoStamps(n: nat)
    requires n == 0
    ensures ExpectedStamps(n) == 0
  {}

  lemma StampStep(n: nat)
    requires n > 0
    ensures ExpectedStamps(n) == ExpectedStamps(n - 1) + Hit(n)
  {
    var q, r := n / 6591, n % 6591;
    assert n == 6591 * q + r;
    assert n / 659100 == q / 100;
    if r == 0 {
      assert (n - 1) / 6591 == q - 1 && (n - 1) / 659100 == (q - 1) / 100;
      SkippedTick(q);
    } else {
      assert (n - 1) / 6591 == q && (n - 1) / 659100 == q / 100;
    }
  }

  lemma SkippedTick(q: nat)
    ensures 6590 * q % 1000 == 0 <==> q % 100 == 0
  {
    if 6590 * q % 1000 == 0 {
      var t := 6590 * q / 1000;
      assert 659 * q == 100 * t;
      assert q == (39 * t - 257 * q) * 100 + 0;
      DivUnique(q, 100, 39 * t - 257 * q, 0);
    }
    if q % 100 == 0 {
      var a := q / 100;
      assert 6590 * q == (659 * a) * 1000 + 0;
      DivUnique(6590 * q, 1000, 659 * a, 0);
    }
  }
}
