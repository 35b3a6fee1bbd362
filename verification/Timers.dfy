/** Timers on a 32-bit millisecond count. True times are unbounded; the program sees them modulo 2^32. */
module Timers {
  import opened Words

  /** Unsigned 32-bit subtraction. */
  function Minus32(a: Tick, b: Tick): Tick { (a - b) % U32 }

  predicate IsElapsed(start: Tick, current: Tick, timeout: Tick) { Minus32(current, start) >= timeout }

  lemma MinusOfWrapped(start: nat, now: nat)
    requires start <= now
    ensures Minus32(Wrap32(now), Wrap32(start)) == Wrap32(now - start)
  {
    var q, r := start / U32, start % U32;
    var q', r' := now / U32, now % U32;
    var d := now - start;
    var k, m := d / U32, d % U32;
    assert r' - r == U32 * (k - q' + q) + m;
    ModUnique(r' - r, k - q' + q, m);
  }

  /** The wrapped comparison sees the true distance modulo 2^32: it is right for distances below 2^32,
      and beyond them exactly when the remainder reaches the timeout too. */
  lemma ElapsedExact(start: nat, now: nat, timeout: Tick)
    requires start <= now
    ensures var elapsed := IsElapsed(Wrap32(start), Wrap32(now), timeout);
            && (now - start < U32 ==> (elapsed <==> now - start >= timeout))
            && ((elapsed <==> now - start >= timeout) <==> now - start < U32 || Wrap32(now - start) >= timeout)
  {
    MinusOfWrapped(start, now);
    NoWrap(now - start);
    hide Wrap32, Minus32;
  }

  /** One of the two expectations in the repository's overflow test does not follow from the code: 354 ms
      after the start a timeout of 99 ms has elapsed. */
  lemma OverflowTestExpectation()
    ensures IsElapsed(0xFFFF_FF00, 0x62, 99) && Minus32(0x62, 0xFFFF_FF00) == 354
  {}

  // ---- SoftTimer ----

  datatype Soft = Soft(start: Tick, running: bool)

  /** Calls with the true time at which they happen. */
  datatype SoftEvent =
    | Start(at: nat)
    | Stop
    | Restart(at: nat)

  function SoftStep(s: Soft, ev: SoftEvent): Soft {
    match ev
    case Start(at) => Soft(Wrap32(at), true)
    case Stop => s.(running := false)
    case Restart(at) => s.(start := Wrap32(at))
  }

  function SoftRun(evs: seq<SoftEvent>): Soft {
    if evs == [] then Soft(0, false) else SoftStep(SoftRun(evs[..|evs| - 1]), evs[|evs| - 1])
  }

  class SoftTimer {
    var start: Tick
    var running: bool

    ghost function View(): Soft
      reads this
    {
      Soft(start, running)
    }

    constructor ()
      ensures View() == SoftRun([])
    {
      start, running := 0, false;
    }

    method DoStart(tick: Tick)
      modifies this
      ensures forall t: nat | Wrap32(t) == tick :: View() == SoftStep(old(View()), Start(t))
    {
      start, running := tick, true;
    }

    method DoStop()
      modifies this
      ensures View() == SoftStep(old(View()), Stop)
    {
      running := false;
    }

    method DoRestart(tick: Tick)
      modifies this
      ensures forall t: nat | Wrap32(t) == tick :: View() == SoftStep(old(View()), Restart(t))
    {
      start := tick;
    }

    method IsExpired(tick: Tick, timeout: Tick) returns (r: bool)
      ensures r == Expired(View(), tick, timeout)
    {
      if !running {
        return false;
      }
      r := IsElapsed(start, tick, timeout);
    }

    method ElapsedMs(tick: Tick) returns (ms: Tick)
      ensures ms == if running then Minus32(tick, start) else 0
    {
      if !running {
        return 0;
      }
      ms := Minus32(tick, start);
    }
  }

  predicate Expired(s: Soft, tick: Tick, timeout: Tick) { s.running && IsElapsed(s.start, tick, timeout) }

  /** The true time from which the timer counts: the last start or restart. */
  function StartedAt(evs: seq<SoftEvent>): nat {
    if evs == [] then 0
    else
      match evs[|evs| - 1]
      case Stop => StartedAt(evs[..|evs| - 1])
      case Start(at) => at
      case Restart(at) => at
  }

  /** Started, and not stopped since; a restart does not start a stopped timer. */
  predicate Runs(evs: seq<SoftEvent>) {
    evs != [] &&
    match evs[|evs| - 1]
    case Start(_) => true
    case Stop => false
    case Restart(_) => Runs(evs[..|evs| - 1])
  }

  lemma {:induction false} SoftHistory(evs: seq<SoftEvent>)
    ensures SoftRun(evs) == Soft(Wrap32(StartedAt(evs)), Runs(evs))
  {
    if evs == [] {
      NoWrap(0);
    } else {
      SoftHistory(evs[..|evs| - 1]);
    }
    hide Wrap32;
  }

  /** In every run, less than 2^32 ms after it was last started, the timer is expired exactly when it is
      running and the timeout has passed in true time, wherever the tick count wrapped meanwhile. */
  lemma ExpiredIffHistory(evs: seq<SoftEvent>, now: nat, timeout: Tick)
    requires StartedAt(evs) <= now < StartedAt(evs) + U32
    ensures Expired(SoftRun(evs), Wrap32(now), timeout) <==> Runs(evs) && now - StartedAt(evs) >= timeout
  {
    SoftHistory(evs);
    ElapsedExact(StartedAt(evs), now, timeout);
    hide Wrap32, IsElapsed, SoftRun, StartedAt, Runs;
  }

  // ---- PeriodicTimer ----

  class PeriodicTimer {
    const period: Tick
    var next: Tick
    var started: bool

    constructor (period: Tick)
      ensures this.period == period && !started
    {
      this.period, next, started := period, 0, false;
    }

    method DoStart(now: Tick)
      modifies this
      ensures started && next == Armed(now, period)
    {
      next, started := Wrap32(now + period), true;
    }

    method DoTick(now: Tick) returns (fired: bool)
      modifies this
      ensures started == old(started)
      ensures fired <==> started && Fires(old(next), now)
      ensures next == if fired then Armed(now, period) else old(next)
    {
      if !started {
        return false;
      }
      if now >= next {
        next := Wrap32(now + period);
        return true;
      }
      fired := false;
    }
  }

  function Armed(now: Tick, period: Tick): Tick { Wrap32(now + period) }

  predicate Fires(next: Tick, now: Tick) { now >= next }

  lemma ArmedWrapped(t: nat, period: Tick)
    ensures Armed(Wrap32(t), period) == Wrap32(t + period)
  {
    WrapSum(t, period);
  }

  /** Whether a tick less than 2^32 ms after the timer was armed does the right thing: exactly when the
      due time and the tick lie in the same wrap of the count. The comparison is not wrap-safe. */
  lemma PeriodicCorrectIff(armedAt: nat, now: nat, period: Tick)
    requires armedAt <= now < armedAt + U32
    ensures var fires := Fires(Armed(Wrap32(armedAt), period), Wrap32(now));
            (fires <==> now >= armedAt + period) <==> (armedAt + period) / U32 == now / U32
  {
    ArmedWrapped(armedAt, period);
    var due := armedAt + period;
    var q, r := due / U32, due % U32;
    var q', r' := now / U32, now % U32;
    assert due == U32 * q + r && now == U32 * q' + r';
    if q < q' {
      assert q' == q + 1;
    } else if q' < q {
      assert q == q' + 1;
    }
  }

  /** Started 500 ms before the count wraps, a timer of 1000 ms fires at once. */
  lemma PeriodicFiresEarly()
    ensures Fires(Armed(0xFFFF_FE0C, 1000), 0xFFFF_FE0C)
  {}

  /** The true times of the firings, given the true times of the ticks after a start at `armedAt`. */
  function Firings(armedAt: nat, period: Tick, ticks: seq<nat>): seq<nat> {
    if ticks == [] then []
    else
      var before, now := Firings(armedAt, period, ticks[..|ticks| - 1]), ticks[|ticks| - 1];
      if Fires(Armed(Wrap32(LastOf(armedAt, before)), period), Wrap32(now)) then before + [now] else before
  }

  function LastOf(first: nat, s: seq<nat>): nat { if s == [] then first else s[|s| - 1] }

  predicate InOrder(armedAt: nat, ticks: seq<nat>) {
    ticks == [] ||
    (InOrder(armedAt, ticks[..|ticks| - 1]) && LastOf(armedAt, ticks[..|ticks| - 1]) <= ticks[|ticks| - 1])
  }

  /** No tick, and no due time computed at one, wraps. */
  predicate Unwrapped(armedAt: nat, period: Tick, ticks: seq<nat>) {
    armedAt + period < U32 && forall t <- ticks :: t + period < U32
  }

  lemma Unfold(armedAt: nat, period: Tick, ticks: seq<nat>)
    requires ticks != [] && Unwrapped(armedAt, period, ticks)
    requires LastOf(armedAt, Firings(armedAt, period, ticks[..|ticks| - 1])) + period < U32
    ensures var before, now := Firings(armedAt, period, ticks[..|ticks| - 1]), ticks[|ticks| - 1];
            Firings(armedAt, period, ticks) ==
            if now >= LastOf(armedAt, before) + period then before + [now] else before
  {
    var before, now := Firings(armedAt, period, ticks[..|ticks| - 1]), ticks[|ticks| - 1];
    assert now in ticks;
    NoWrap(now);
    NoWrap(LastOf(armedAt, before));
    NoWrap(LastOf(armedAt, before) + period);
    hide Wrap32;
  }

  /** While nothing wraps: the k-th firing is at least k periods after the start, no later than the last
      tick, and a tick goes by without firing only if the period is not over. */
  lemma {:induction false} FiringsSpaced(armedAt: nat, period: Tick, ticks: seq<nat>)
    requires InOrder(armedAt, ticks) && Unwrapped(armedAt, period, ticks)
    ensures var fired := Firings(armedAt, period, ticks);
            && armedAt + |fired| * period <= LastOf(armedAt, fired) <= LastOf(armedAt, ticks)
            && LastOf(armedAt, fired) + period < U32
            && (ticks != [] && 0 < period ==> LastOf(armedAt, ticks) < LastOf(armedAt, fired) + period)
  {
    hide Firings, InOrder, Unwrapped;
    if ticks == [] {
      NoTicks(armedAt, period);
      Bounds(armedAt, period, ticks);
    } else {
      var init, now := ticks[..|ticks| - 1], ticks[|ticks| - 1];
      var before := Firings(armedAt, period, init);
      Bounds(armedAt, period, ticks);
      FiringsSpaced(armedAt, period, init);
      Unfold(armedAt, period, ticks);
      OneMore(|before|, period);
    }
  }

  lemma OneMore(n: nat, p: nat)
    ensures (n + 1) * p == n * p + p
  {}

  lemma Bounds(armedAt: nat, period: Tick, ticks: seq<nat>)
    requires InOrder(armedAt, ticks) && Unwrapped(armedAt, period, ticks)
    ensures LastOf(armedAt, ticks) + period < U32
    ensures ticks != [] ==>
              var init := ticks[..|ticks| - 1];
              && InOrder(armedAt, init) && Unwrapped(armedAt, period, init)
              && LastOf(armedAt, init) <= LastOf(armedAt, ticks)
  {
    if ticks != [] {
      var init := ticks[..|ticks| - 1];
      assert ticks[|ticks| - 1] in ticks;
      assert forall t <- init :: t in ticks;
    }
  }

  lemma NoTicks(armedAt: nat, period: Tick)
    ensures Firings(armedAt, period, []) == []
  {}

  /** While nothing wraps, the timer fires at most once per period. */
  lemma FiresAtMostOncePerPeriod(armedAt: nat, period: Tick, ticks: seq<nat>)
    requires InOrder(armedAt, ticks) && Unwrapped(armedAt, period, ticks) && 0 < period
    ensures |Firings(armedAt, period, ticks)| <= (LastOf(armedAt, ticks) - armedAt) / period
  {
    hide Firings, InOrder, Unwrapped;
    FiringsSpaced(armedAt, period, ticks);
    QuotientBound(|Firings(armedAt, period, ticks)|, LastOf(armedAt, ticks) - armedAt, period);
  }

  lemma QuotientBound(k: nat, d: nat, p: nat)
    requires 0 < p && k * p <= d
    ensures k <= d / p
  {
    var q := d / p;
    if k > q {
      TimesMore(k, q, p);
    }
  }

  lemma Distribute(a: nat, b: nat, p: nat)
    ensures (a + b) * p == a * p + b * p
  {}

  lemma TimesMore(k: nat, q: nat, p: nat)
    requires k > q
    ensures k * p >= q * p + p
  {
    Distribute(k - q - 1, q + 1, p);
    Distribute(q, 1, p);
  }
}
