/** packet.c: scaling of MLAT counters and signal levels between formats. */
module Mlat {
  import opened Bytes
  import opened Arith

  const MLAT_MHZ := 120

  /** struct packet_mlat_state, as a value. */
  datatype Clock = Clock(last: uint64, gen: uint64)

  const ZERO := Clock(0, 0)

  function Factor(mhz: nat): (f: nat)
    requires mhz > 0
    ensures f <= 120 && (mhz <= 120 ==> f >= 1)
  {
    if mhz <= MLAT_MHZ then FactorPositive(mhz); MLAT_MHZ / mhz else MLAT_MHZ / mhz
  }

  lemma FactorPositive(mhz: nat)
    requires 0 < mhz <= 120
    ensures 1 <= 120 / mhz <= 120
  {}

  /** Multiply as uint64 does, then fold below INT64_MAX. */
  function Stretch(t: uint64, f: nat): (r: uint64)
    ensures r < INT64_MAX
  {
    t * f % TWO64 % INT64_MAX
  }

  function Advance(c: Clock, ts: uint64, max: uint64): Clock {
    Clock(ts, if ts < c.last then (c.gen + max) % TWO64 else c.gen)
  }

  function ScaleIn(c: Clock, ts: uint64, max: uint64, mhz: nat): (r: uint64)
    requires mhz > 0
    ensures r < INT64_MAX
  {
    Stretch((Advance(c, ts, max).gen + ts) % TWO64, Factor(mhz))
  }

  /** No rate above the hub's own can be scaled: the factor between them is zero. */
  lemma NoFactor(c: Clock, ts: uint64, max: uint64, mhz: nat)
    requires mhz > MLAT_MHZ
    ensures ScaleIn(c, ts, max, mhz) == 0
  {
    assert MLAT_MHZ / mhz == 0;
  }

  function ScaleOut(t: uint64, max: uint64, mhz: nat): (r: uint64)
    requires 0 < mhz <= MLAT_MHZ && max > 0
    ensures r < max
  {
    t / Factor(mhz) % max
  }

  class MlatState {
    var last: uint64
    var gen: uint64

    constructor ()
      ensures Value() == ZERO
    {
      last, gen := 0, 0;
    }

    ghost function Value(): Clock
      reads this
    {
      Clock(last, gen)
    }

    method ScaleWidthIn(ts: uint64, max: uint64) returns (r: uint64)
      modifies this
      ensures Value() == Advance(old(Value()), ts, max)
      ensures r == (gen + ts) % TWO64
    {
      if ts < last {
        gen := (gen + max) % TWO64;
      }
      last := ts;
      r := (gen + ts) % TWO64;
    }

    method TimestampIn(ts: uint64, max: uint64, mhz: uint16) returns (r: uint64)
      requires mhz > 0
      modifies this
      ensures Value() == Advance(old(Value()), ts, max)
      ensures r == ScaleIn(old(Value()), ts, max, mhz)
    {
      var wide := ScaleWidthIn(ts, max);
      var f := Factor(mhz);
      r := wide * f % TWO64 % INT64_MAX;
    }
  }

  // ---------------------------------------------------------------- whole runs

  /** State after the first `k` timestamps of a run. */
  function ClockAfter(c: Clock, ws: seq<uint64>, max: uint64, k: nat): Clock
    requires k <= |ws|
  {
    if k == 0 then c else Advance(ClockAfter(c, ws, max, k - 1), ws[k - 1], max)
  }

  /** What timestamp `k` of a run is turned into. */
  function Reading(c: Clock, ws: seq<uint64>, max: uint64, mhz: nat, k: nat): uint64
    requires mhz > 0 && k < |ws|
  {
    ScaleIn(ClockAfter(c, ws, max, k), ws[k], max, mhz)
  }

  /** Number of times the wire counter drops up to timestamp `k`. */
  function Wraps(ws: seq<nat>, k: nat): nat
    requires k < |ws|
  {
    if k == 0 then 0 else Wraps(ws, k - 1) + if ws[k] < ws[k - 1] then 1 else 0
  }

  /** The unwrapped counter, in unbounded integers. */
  function Unwrapped(ws: seq<nat>, max: nat, k: nat): nat
    requires k < |ws|
  {
    max * Wraps(ws, k) + ws[k]
  }

  predicate Within(ws: seq<nat>, max: nat) {
    forall i :: 0 <= i < |ws| ==> ws[i] <= max
  }

  /** The unwrapped counter never runs backwards. */
  lemma {:induction false} UnwrappedRises(ws: seq<nat>, max: nat, i: nat, k: nat)
    requires Within(ws, max) && i <= k < |ws|
    ensures Unwrapped(ws, max, i) <= Unwrapped(ws, max, k)
    decreases k
  {
    if i < k {
      UnwrappedRises(ws, max, i, k - 1);
      var n := Wraps(ws, k - 1);
      MulStep(max, n);
    }
  }

  lemma StretchExact(t: nat, f: nat)
    requires f >= 1 && f * t < INT64_MAX
    ensures t < INT64_MAX && Stretch(t, f) == f * t
  {
    MulMonotone(t, 1, f);
    assert t * f == f * t;
  }

  /** Over any run at all the generation is the multiple of `max` counted modulo 2^64. */
  lemma {:induction false} GenerationModulo(ws: seq<uint64>, max: uint64, k: nat)
    requires k < |ws|
    ensures ClockAfter(ZERO, ws, max, k + 1) == Clock(ws[k], (max * Wraps(ws, k)) % TWO64)
  {
    assert ClockAfter(ZERO, ws, max, k + 1) == Advance(ClockAfter(ZERO, ws, max, k), ws[k], max);
    if k > 0 {
      GenerationModulo(ws, max, k - 1);
      MulStep(max, Wraps(ws, k - 1));
      ModAdd(max * Wraps(ws, k - 1), max, TWO64);
    }
  }

  /** So a reading is the unwrapped counter sped up, modulo 2^64 and then modulo INT64_MAX, in range or not. */
  lemma ReadingModulo(ws: seq<uint64>, max: uint64, mhz: nat, k: nat)
    requires k < |ws| && mhz > 0
    ensures Reading(ZERO, ws, max, mhz, k) == Factor(mhz) * Unwrapped(ws, max, k) % TWO64 % INT64_MAX
  {
    hide Factor, ClockAfter, Wraps;
    var f, u, g := Factor(mhz), Unwrapped(ws, max, k), max * Wraps(ws, k);
    AfterNext(ws, max, k);
    GenerationModulo(ws, max, k);
    ModAdd(g, ws[k], TWO64);
    ModTimes(u, f, TWO64);
    assert (u % TWO64) * f == f * (u % TWO64) && u * f == f * u;
  }

  lemma AfterNext(ws: seq<uint64>, max: uint64, k: nat)
    requires k < |ws|
    ensures ClockAfter(ZERO, ws, max, k + 1) == Advance(ClockAfter(ZERO, ws, max, k), ws[k], max)
  {}

  lemma ModAdd(a: nat, b: nat, m: nat)
    requires m > 0
    ensures (a % m + b) % m == (a + b) % m
  {
    Euclid(a, m);
    Euclid(a % m + b, m);
    var q := a / m + (a % m + b) / m;
    assert m * q == m * (a / m) + m * ((a % m + b) / m);
    RemainderUnique(a + b, m, q, (a % m + b) % m);
  }

  lemma ModTimes(a: nat, f: nat, m: nat)
    requires m > 0
    ensures a % m * f % m == a * f % m
  {
    Euclid(a, m);
    var r := a % m * f;
    Euclid(r, m);
    var q := a / m * f + r / m;
    assert m * q == m * (a / m) * f + m * (r / m);
    assert a * f == m * (a / m) * f + r;
    RemainderUnique(a * f, m, q, r % m);
  }

  lemma GenerationIsMultiple(ws: seq<uint64>, max: uint64, k: nat)
    requires Within(ws, max) && k < |ws| && Unwrapped(ws, max, k) < TWO64
    ensures ClockAfter(ZERO, ws, max, k + 1) == Clock(ws[k], max * Wraps(ws, k))
  {
    GenerationModulo(ws, max, k);
    SmallMod(max * Wraps(ws, k), TWO64);
  }

  lemma Product(a: nat, b: nat)
    ensures a * b >= 0
  {}

  /** The machine arithmetic is the unbounded one for as long as the value itself is in range. */
  lemma ReadingIsUnwrapped(ws: seq<uint64>, max: uint64, mhz: nat, k: nat)
    requires Within(ws, max) && k < |ws| && 0 < mhz <= MLAT_MHZ
    requires Factor(mhz) * Unwrapped(ws, max, k) < INT64_MAX
    ensures Reading(ZERO, ws, max, mhz, k) == Factor(mhz) * Unwrapped(ws, max, k)
  {
    hide Reading, Unwrapped, Factor, Within;
    ReadingModulo(ws, max, mhz, k);
    Product(Factor(mhz), Unwrapped(ws, max, k));
    SmallMod(Factor(mhz) * Unwrapped(ws, max, k), TWO64);
    SmallMod(Factor(mhz) * Unwrapped(ws, max, k), INT64_MAX);
  }

  /** Reading a counter and sending it on at the same rate and width gives back every timestamp below
      `max`, over any run; `max` itself comes back as zero. */
  lemma RelayKeepsWire(ws: seq<uint64>, max: uint64, mhz: nat, k: nat)
    requires max > 0 && Within(ws, max) && k < |ws| && 0 < mhz <= MLAT_MHZ
    requires Factor(mhz) * Unwrapped(ws, max, k) < INT64_MAX
    ensures ScaleOut(Reading(ZERO, ws, max, mhz, k), max, mhz) == if ws[k] == max then 0 else ws[k]
  {
    ReadingIsUnwrapped(ws, max, mhz, k);
    MulDivExact(Factor(mhz), Unwrapped(ws, max, k));
    var n := Wraps(ws, k);
    if ws[k] == max {
      MulStep(max, n);
      RemainderUnique(max * n + max, max, n + 1, 0);
    } else {
      RemainderUnique(max * n + ws[k], max, n, ws[k]);
    }
  }

  // ---------------------------------------------------------------- rates

  /** The hub's clock ticks at 120 MHz: a slower counter is sped up by the largest whole factor that fits. */
  lemma LargestFactor(mhz: nat)
    requires mhz > 0
    ensures Factor(mhz) * mhz <= 120 < (Factor(mhz) + 1) * mhz
  {
    Euclid(120, mhz);
    assert mhz * (120 / mhz) == Factor(mhz) * mhz;
    assert (Factor(mhz) + 1) * mhz == Factor(mhz) * mhz + mhz;
  }

  /** No other factor does. */
  lemma FactorIs(mhz: nat, k: nat)
    requires mhz > 0 && k * mhz <= 120 < (k + 1) * mhz
    ensures Factor(mhz) == k
  {
    assert mhz * k == k * mhz && mhz * (k + 1) == k * mhz + mhz;
    RemainderUnique(120, mhz, k, 120 - mhz * k);
  }

  /** The first timestamp of a connection, at a rate that divides the hub's: exact if and only if it is below
      INT64_MAX; there the hub's clock starts over, and again at 2^64. */
  lemma FirstReading(ts: uint64, max: uint64, mhz: nat, k: nat)
    requires k * mhz == 120
    ensures mhz > 0
    ensures ScaleIn(ZERO, ts, max, mhz) == k * ts <==> k * ts < INT64_MAX
    ensures INT64_MAX <= k * ts < 2 * INT64_MAX ==> ScaleIn(ZERO, ts, max, mhz) == k * ts - INT64_MAX
    ensures TWO64 <= k * ts < TWO64 + INT64_MAX ==> ScaleIn(ZERO, ts, max, mhz) == k * ts - TWO64
  {
    assert mhz > 0;
    assert (k + 1) * mhz == 120 + mhz;
    FactorIs(mhz, k);
    assert Advance(ZERO, ts, max).gen + ts == ts;
    SmallMod(ts, TWO64);
    Folded(ts, k);
  }

  lemma Folded(t: uint64, k: nat)
    ensures Stretch(t, k) == k * t <==> k * t < INT64_MAX
    ensures INT64_MAX <= k * t < 2 * INT64_MAX ==> Stretch(t, k) == k * t - INT64_MAX
    ensures TWO64 <= k * t < TWO64 + INT64_MAX ==> Stretch(t, k) == k * t - TWO64
  {
    var v: nat := k * t;
    assert t * k == v;
    FoldedValue(v);
  }

  lemma FoldedValue(v: nat)
    ensures v < INT64_MAX ==> v % TWO64 % INT64_MAX == v
    ensures INT64_MAX <= v < 2 * INT64_MAX ==> v % TWO64 % INT64_MAX == v - INT64_MAX
    ensures TWO64 <= v < TWO64 + INT64_MAX ==> v % TWO64 % INT64_MAX == v - TWO64
  {}

  /** A reading is the time its counter shows, in ticks of the hub's clock, rounded down to whole factors: exact
      from the first tick on if and only if the rate divides 120 MHz. */
  lemma ReadingIsTime(ws: seq<uint64>, max: uint64, mhz: nat, k: nat)
    requires Within(ws, max) && k < |ws| && 0 < mhz <= 120 && 120 * Unwrapped(ws, max, k) < INT64_MAX * mhz
    ensures var u, r := Unwrapped(ws, max, k), Reading(ZERO, ws, max, mhz, k);
            && r * mhz <= 120 * u <= (r + u) * mhz
            && (u > 0 ==> (r * mhz == 120 * u <==> 120 % mhz == 0))
  {
    var f, u := Factor(mhz), Unwrapped(ws, max, k);
    LargestFactor(mhz);
    TimeArithmetic(f, mhz, u);
    ReadingIsUnwrapped(ws, max, mhz, k);
    if f * mhz == 120 { RemainderUnique(120, mhz, f, 0); } else { RemainderUnique(120, mhz, f, 120 - f * mhz); }
  }

  lemma TimeArithmetic(f: nat, mhz: nat, u: nat)
    requires f * mhz <= 120 < (f + 1) * mhz && 120 * u < INT64_MAX * mhz
    ensures f * u < INT64_MAX
    ensures f * u * mhz <= 120 * u <= (f * u + u) * mhz
    ensures u > 0 ==> (f * u * mhz == 120 * u <==> f * mhz == 120)
  {
    assert f * u * mhz == (f * mhz) * u;
    assert (f * u + u) * mhz == ((f + 1) * mhz) * u;
    MulMonotone(u, f * mhz, 120);
    MulMonotone(u, 120, (f + 1) * mhz);
    if f * u >= INT64_MAX { MulMonotone(mhz, INT64_MAX, f * u); }
    if u > 0 && f * mhz < 120 {
      ProductAtLeast(u, 120 - f * mhz);
      assert u * (120 - f * mhz) == 120 * u - (f * mhz) * u;
    }
  }

  /** From one rate to another, both dividing the hub's: what is sent is the same instant, rounded down to a tick of
      the counter it is sent on and wrapped to that counter's width. */
  lemma SameInstant(ws: seq<uint64>, max: uint64, mhz: nat, k: nat, toMax: uint64, toMhz: nat, t: nat)
    requires Within(ws, max) && k < |ws| && 0 < mhz <= 120 && 120 * Unwrapped(ws, max, k) < INT64_MAX * mhz
    requires 120 % mhz == 0 && toMax > 0 && 0 < toMhz <= 120 && 120 % toMhz == 0
    requires t * mhz <= Unwrapped(ws, max, k) * toMhz < (t + 1) * mhz
    ensures ScaleOut(Reading(ZERO, ws, max, mhz, k), toMax, toMhz) == t % toMax
  {
    hide Unwrapped, Reading, Factor, Within;
    var u, r, f := Unwrapped(ws, max, k), Reading(ZERO, ws, max, mhz, k), Factor(toMhz);
    ReadingIsTime(ws, max, mhz, k);
    WholeFactor(toMhz);
    InstantArithmetic(u, r, mhz, toMhz, f, t);
    QuotientIs(r, f, t);
  }

  lemma WholeFactor(mhz: nat)
    requires 0 < mhz <= 120 && 120 % mhz == 0
    ensures Factor(mhz) * mhz == 120
  {
    LargestFactor(mhz);
    Euclid(120, mhz);
    var k := 120 / mhz;
    assert k * mhz == mhz * k && (k + 1) * mhz == k * mhz + mhz;
    FactorIs(mhz, k);
  }

  lemma QuotientIs(r: nat, f: nat, t: nat)
    requires f > 0 && f * t <= r < f * (t + 1)
    ensures r / f == t
  {
    MulStep(f, t);
    RemainderUnique(r, f, t, r - f * t);
  }

  lemma InstantArithmetic(u: nat, r: nat, a: nat, b: nat, f: nat, t: nat)
    requires a > 0 && b > 0 && r * a == 120 * u && f * b == 120 && t * a <= u * b < (t + 1) * a
    ensures f * t <= r < f * (t + 1)
  {
    // f * t * a * b == 120 * t * a and r * a * b == 120 * u * b
    Times120(t, a, b, f);
    Times120(t + 1, a, b, f);
    assert (r * a) * b == 120 * (u * b);
    assert r * (a * b) == (r * a) * b;
    if f * t > r { MulMonotone(a * b, r + 1, f * t); }
    if r >= f * (t + 1) { MulMonotone(a * b, f * (t + 1), r); }
  }

  lemma Times120(t: nat, a: nat, b: nat, f: nat)
    requires f * b == 120
    ensures (f * t) * (a * b) == 120 * (t * a)
  {
    assert (f * t) * (a * b) == (f * b) * (t * a);
  }

  // ---------------------------------------------------------------- a periodic counter behind the wire

  predicate Rising(xs: seq<nat>) {
    forall i :: 0 < i < |xs| ==> xs[i - 1] <= xs[i]
  }

  /** What a counter of period `p` shows at the readings `xs`. */
  function Wire(xs: seq<nat>, p: nat): (ws: seq<uint64>)
    requires 0 < p <= TWO64
    ensures |ws| == |xs| && forall i :: 0 <= i < |xs| ==> ws[i] == xs[i] % p
  {
    seq(|xs|, i requires 0 <= i < |xs| => xs[i] % p)
  }

  /** Whole counter periods that go by between consecutive readings, up to reading `k`. */
  function Lost(xs: seq<nat>, p: nat, k: nat): nat
    requires p > 0 && k < |xs| && Rising(xs)
  {
    if k == 0 then 0 else Lost(xs, p, k - 1) + (xs[k] - xs[k - 1]) / p
  }

  /** Every period is either noticed as one drop of the wire counter or lost. */
  lemma {:induction false} PeriodsAccountedFor(xs: seq<nat>, p: nat, k: nat)
    requires 0 < p <= TWO64 && Rising(xs) && k < |xs|
    ensures xs[k] / p == xs[0] / p + Lost(xs, p, k) + Wraps(Wire(xs, p), k)
  {
    if k > 0 {
      PeriodsAccountedFor(xs, p, k - 1);
      Carry(xs[k - 1], xs[k] - xs[k - 1], p);
    }
  }

  lemma SmallQuotient(a: nat, p: nat)
    requires p > 0
    ensures a / p == 0 <==> a < p
  {}

  predicate GapsBelow(xs: seq<nat>, p: nat) {
    forall i :: 0 < i < |xs| ==> xs[i] - xs[i - 1] < p
  }

  lemma {:induction false} LostNothing(xs: seq<nat>, p: nat, k: nat)
    requires p > 0 && k < |xs| && Rising(xs)
    ensures Lost(xs, p, k) == 0 <==> forall i :: 0 < i <= k ==> xs[i] - xs[i - 1] < p
  {
    if k > 0 {
      LostNothing(xs, p, k - 1);
      SmallQuotient(xs[k] - xs[k - 1], p);
      Euclid(xs[k] - xs[k - 1], p);
    }
  }

  lemma PeriodArithmetic(x: nat, p: nat, max: nat, a: nat, w: nat, q: nat, r: nat)
    requires max <= p && a + w == q && x == p * q + r
    ensures max * w + r == x - p * a - (p - max) * w
    ensures max * w + r <= x
  {}

  lemma UnwrappedTruth(xs: seq<nat>, max: nat, p: nat, k: nat)
    requires 0 < p <= TWO64 && max <= p && Rising(xs) && k < |xs|
    ensures Unwrapped(Wire(xs, p), max, k) ==
            xs[k] - p * (xs[0] / p + Lost(xs, p, k)) - (p - max) * Wraps(Wire(xs, p), k)
    ensures Unwrapped(Wire(xs, p), max, k) <= xs[k]
  {
    PeriodsAccountedFor(xs, p, k);
    var a, w, q, r := xs[0] / p + Lost(xs, p, k), Wraps(Wire(xs, p), k), xs[k] / p, xs[k] % p;
    Euclid(xs[0], p);
    Euclid(xs[k], p);
    assert Unwrapped(Wire(xs, p), max, k) == max * w + r;
    PeriodArithmetic(xs[k], p, max, a, w, q, r);
  }

  /** A source whose counter really has period max + 1 (48-bit hardware, say): the code adds only `max`
      at each wrap, so the result lags the true time by one tick for every wrap. */
  lemma FullRangeCounterLags(xs: seq<nat>, max: uint64, mhz: nat, k: nat)
    requires 0 < mhz <= MLAT_MHZ && max < TWO64 - 1 && Rising(xs) && GapsBelow(xs, max + 1) && k < |xs|
    requires Factor(mhz) * xs[k] < INT64_MAX
    ensures var ws := Wire(xs, max + 1);
            Reading(ZERO, ws, max, mhz, k) ==
            Factor(mhz) * (xs[k] - (max + 1) * (xs[0] / (max + 1)) - Wraps(ws, k))
  {
    var p, ws, f := max + 1, Wire(xs, max + 1), Factor(mhz);
    LostNothing(xs, p, k);
    UnwrappedTruth(xs, max, p, k);
    var v := Unwrapped(ws, max, k);
    assert v == xs[k] - p * (xs[0] / p) - Wraps(ws, k);
    MulMonotone(f, v, xs[k]);
    ReadingIsUnwrapped(ws, max, mhz, k);
  }

  // ---------------------------------------------------------------- hub time over a narrow counter

  predicate HubTimes(ms: seq<nat>) {
    |ms| > 0 && Rising(ms) && forall i :: 0 <= i < |ms| ==> ms[i] < INT64_MAX
  }

  /** Hub times in ticks of a wire counter that advances once every `f` hub ticks. */
  function Ticks(ms: seq<nat>, f: nat): (xs: seq<nat>)
    requires f > 0
    ensures |xs| == |ms| && forall i :: 0 <= i < |ms| ==> xs[i] == ms[i] / f
  {
    seq(|ms|, i requires 0 <= i < |ms| => Quotient(ms[i], f))
  }

  function Quotient(a: nat, b: nat): nat
    requires b > 0
  {
    SmallQuotient(a, b);
    DivMonotone(0, a, b);
    a / b
  }

  lemma TicksRise(ms: seq<nat>, f: nat)
    requires f > 0 && Rising(ms)
    ensures Rising(Ticks(ms, f))
  {
    forall i | 0 < i < |ms| ensures ms[i - 1] / f <= ms[i] / f {
      DivMonotone(ms[i - 1], ms[i], f);
    }
  }

  /** What scale_out puts on the wire for hub times `ms`. */
  function SentTimes(ms: seq<nat>, max: uint64, mhz: nat): (ws: seq<uint64>)
    requires 0 < mhz <= MLAT_MHZ && max > 0 && HubTimes(ms)
    ensures |ws| == |ms| && forall i :: 0 <= i < |ms| ==> ws[i] == ScaleOut(ms[i], max, mhz)
  {
    seq(|ms|, i requires 0 <= i < |ms| => ScaleOut(ms[i], max, mhz))
  }

  lemma SentIsWire(ms: seq<nat>, max: uint64, mhz: nat)
    requires 0 < mhz <= MLAT_MHZ && max > 0 && HubTimes(ms)
    ensures SentTimes(ms, max, mhz) == Wire(Ticks(ms, Factor(mhz)), max)
    ensures Within(SentTimes(ms, max, mhz), max)
  {}

  /** Timeline recovery with its exact loss: hub times sent through a counter of rate `mhz` that wraps at
      `max` come back rounded to the rate, shifted by one constant, and short of one counter period for
      every whole period in which nothing was sent. */
  lemma TimelineLoss(ms: seq<nat>, max: uint64, mhz: nat, k: nat)
    requires 0 < mhz <= MLAT_MHZ && max > 0 && HubTimes(ms) && k < |ms|
    ensures var xs := Ticks(ms, Factor(mhz));
            Rising(xs) &&
            Reading(ZERO, SentTimes(ms, max, mhz), max, mhz, k) ==
            ms[k] - ms[k] % Factor(mhz) - Factor(mhz) * (max * (xs[0] / max + Lost(xs, max, k)))
  {
    hide Factor, Ticks, SentTimes, Wire, Unwrapped, Lost, Reading, Rising, Within;
    var f := Factor(mhz);
    var xs, ws := Ticks(ms, f), SentTimes(ms, max, mhz);
    TicksRise(ms, f);
    SentIsWire(ms, max, mhz);
    Euclid(xs[0], max);
    var a, v := max * (xs[0] / max + Lost(xs, max, k)), Unwrapped(ws, max, k);
    UnwrappedTruth(xs, max, max, k);
    assert v == xs[k] - a;
    TimelineArithmetic(ms[k], f, a, v);
    ReadingIsUnwrapped(ws, max, mhz, k);
  }

  lemma TimelineArithmetic(m: nat, f: nat, shift: nat, v: nat)
    requires f > 0 && v == m / f - shift
    ensures f * v == m - m % f - f * shift && f * v <= m
  {}

  /** The difference between what came back and the rounded hub time. */
  function Shift(ms: seq<nat>, max: uint64, mhz: nat, k: nat): int
    requires 0 < mhz <= MLAT_MHZ && max > 0 && HubTimes(ms) && k < |ms|
  {
    ms[k] - ms[k] % Factor(mhz) - Reading(ZERO, SentTimes(ms, max, mhz), max, mhz, k)
  }

  lemma ShiftIs(ms: seq<nat>, max: uint64, mhz: nat, k: nat)
    requires 0 < mhz <= MLAT_MHZ && max > 0 && HubTimes(ms) && k < |ms|
    ensures Rising(Ticks(ms, Factor(mhz)))
    ensures Shift(ms, max, mhz, k) == Shift(ms, max, mhz, 0) <==> Lost(Ticks(ms, Factor(mhz)), max, k) == 0
  {
    TimelineLoss(ms, max, mhz, 0);
    TimelineLoss(ms, max, mhz, k);
    var f := Factor(mhz);
    var xs := Ticks(ms, f);
    Euclid(xs[0], max);
    SameProduct(f, max, xs[0] / max, Lost(xs, max, k));
  }

  lemma SameProduct(f: nat, max: nat, a: nat, l: nat)
    requires f >= 1 && max >= 1
    ensures f * (max * (a + l)) == f * (max * a) <==> l == 0
  {}

  /** Recovery is exact, up to rounding and one constant for the whole run, precisely when fewer than
      `max` wire ticks pass between consecutive packets. */
  lemma TimelineExact(ms: seq<nat>, max: uint64, mhz: nat)
    requires 0 < mhz <= MLAT_MHZ && max > 0 && HubTimes(ms)
    ensures (forall k :: 0 <= k < |ms| ==> Shift(ms, max, mhz, k) == Shift(ms, max, mhz, 0))
            <==> GapsBelow(Ticks(ms, Factor(mhz)), max)
  {
    var xs := Ticks(ms, Factor(mhz));
    forall k | 0 <= k < |ms|
      ensures Shift(ms, max, mhz, k) == Shift(ms, max, mhz, 0) <==> forall i :: 0 < i <= k ==> xs[i] - xs[i - 1] < max
    {
      ShiftIs(ms, max, mhz, k);
      LostNothing(xs, max, k);
    }
    var last := |ms| - 1;
    if forall k :: 0 <= k < |ms| ==> Shift(ms, max, mhz, k) == Shift(ms, max, mhz, 0) {
      assert Shift(ms, max, mhz, last) == Shift(ms, max, mhz, 0);
    }
  }

  // ---------------------------------------------------------------- signal levels

  function RssiIn(v: uint32, max: uint32): uint32
    requires max > 0
  {
    v * RssiStep(max) % TWO32
  }

  function RssiOut(v: uint32, max: uint32): (r: uint32)
    requires max > 0
    ensures r <= v
  {
    var s := RssiStep(max);
    Euclid(v, s);
    MulMonotone(v / s, 1, s);
    v / s
  }

  function RssiStep(max: uint32): (s: nat)
    requires max > 0
    ensures s >= 1 && s * max <= UINT32_MAX
  {
    Euclid(UINT32_MAX, max);
    SmallQuotient(UINT32_MAX, max);
    UINT32_MAX / max
  }

  /** A level read is the same share of the widest scale, rounded down to whole steps. */
  lemma LevelIsShare(v: uint32, max: uint32)
    requires 0 < max && v <= max
    ensures var r := RssiIn(v, max); r * max <= 0xFFFF_FFFF * v <= (r + v) * max
  {
    var s := RssiStep(max);
    Euclid(UINT32_MAX, max);
    assert s * max <= UINT32_MAX < (s + 1) * max;
    MulMonotone(s, v, max);
    assert v * s == s * v;
    SmallMod(s * v, TWO32);
    MulMonotone(v, s * max, UINT32_MAX);
    MulMonotone(v, UINT32_MAX, (s + 1) * max);
    assert s * v * max == v * (s * max) && (s * v + v) * max == v * ((s + 1) * max);
  }

  /** A level sent to a narrower scale and read back is rounded down to that scale's step, never wrapped. */
  lemma RssiRounds(v: uint32, max: uint32)
    requires max > 0
    ensures RssiIn(RssiOut(v, max), max) == v - v % RssiStep(max)
  {
    var s := RssiStep(max);
    Euclid(v, s);
    var q := v / s;
    assert q * s == s * q;
    SmallMod(q * s, TWO32);
  }

  /** A level of the narrower scale survives the trip up and down. */
  lemma RssiSurvives(v: uint32, max: uint32)
    requires 0 < max && v <= max
    ensures RssiOut(RssiIn(v, max), max) == v
  {
    var s := RssiStep(max);
    MulMonotone(s, v, max);
    assert v * s == s * v;
    SmallMod(s * v, TWO32);
    MulDivExact(s, v);
  }
}
