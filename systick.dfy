/** The millisecond time base of the scheduler: the SysTick reload set up by
    `Loop::init`, the idle decision taken after a pass of `Loop::run`, and the
    tick arithmetic of `Loop::idleFor`, which stretches one SysTick period
    over a whole idle interval and then works out how many milliseconds
    actually went by. The 24-bit SysTick counter counts down from its reload
    value; COUNTFLAG says whether it reached zero. */
module SysTick {
  import opened CInt

  /** The largest value the 24-bit reload register holds. */
  const RELOAD_MAX: int := 0xFF_FFFF

  /** `rcc_ahb_frequency / 8 / 1000`: SysTick runs on the AHB clock divided
      by 8, so this many counts make one millisecond. */
  function CountsPerTick(ahb: uint32): (cpt: uint32)
    requires ahb >= 8000
    ensures 1 <= cpt && cpt * 8000 <= ahb
  {
    var c := ahb / 8 / 1000;
    assert ahb / 8 >= 1000;
    c
  }

  /** `0xFFFFFF / m_counts_per_tick`: the longest wait, in milliseconds,
      that one reload of the 24-bit counter covers. */
  function MaxIdle(cpt: uint32): uint32
    requires cpt >= 1
  {
    RELOAD_MAX / cpt
  }

  /** A wait of up to MaxIdle milliseconds fits the counter, and every clock
      the firmware can run at (up to 2^32 Hz) allows waits of at least 31 ms. */
  lemma MaxIdleCovers(cpt: uint32)
    requires cpt >= 1
    ensures cpt * MaxIdle(cpt) <= RELOAD_MAX < cpt * (MaxIdle(cpt) + 1)
    ensures cpt <= RELOAD_MAX ==> MaxIdle(cpt) >= 1
    ensures cpt * 8000 < TWO_32 ==> MaxIdle(cpt) >= 31
  {
    var m := MaxIdle(cpt);
    assert cpt * m + RELOAD_MAX % cpt == RELOAD_MAX;
    assert cpt * (m + 1) == cpt * m + cpt;
    if cpt <= RELOAD_MAX {
      DivAntitone(cpt, RELOAD_MAX, RELOAD_MAX);
    }
    if cpt * 8000 < TWO_32 {
      assert cpt <= 536870;
      DivAntitone(cpt, 536870, RELOAD_MAX);
      assert RELOAD_MAX / 536870 == 31;
    }
  }

  /** A larger divisor gives a smaller (or equal) quotient. */
  lemma DivAntitone(a: int, b: int, n: nat)
    requires 1 <= a <= b
    ensures n / b <= n / a
  {
    var qb := n / b;
    MulMonotone(qb, a, b);
    QuotientBound(qb, a, n);
  }

  /** A multiple of the divisor that fits in n is at most the quotient. */
  lemma QuotientBound(k: nat, a: int, n: nat)
    requires a >= 1 && k * a <= n
    ensures k <= n / a
  {
    if k > n / a {
      MulMonotone(a, n / a + 1, k);
    }
  }

  /** What `Loop::run` does once a pass is over. */
  datatype Idle =
    | Busy            // start the next pass at once
    | WaitOne         // one `wfi`: sleep until the next SysTick interrupt
    | Sleep(ms: uint32) // `idleFor(ms)`

  /** The idle decision: nothing is done if the change counter moved during
      the pass; otherwise the time left until the deadline picks between a
      single `wfi`, an `idleFor`, and no wait at all. The int64 difference
      is passed to `idleFor` as a uint32. */
  function IdleChoice(changedBefore: uint32, changedAfter: uint32, deadline: int, now: int): (r: Idle)
    ensures !r.Busy? ==> changedBefore == changedAfter
    ensures changedBefore == changedAfter && deadline - now >= 1 ==> !r.Busy?
    ensures r.WaitOne? <==> changedBefore == changedAfter && deadline - now == 1
    ensures r.Sleep? ==> deadline - now >= 2 && r.ms == U32(deadline - now)
  {
    if changedBefore != changedAfter then Busy
    else
      var wait := deadline - now;
      if wait == 1 then WaitOne
      else if wait > 1 then Sleep(U32(wait))
      else Busy
  }

  /** When the deadline is at most MaxIdle milliseconds away, as a pass
      guarantees, the request passed to `idleFor` is exactly the time left
      and is within what `idleFor` can wait without clamping. */
  lemma SleepRequestExact(changedBefore: uint32, changedAfter: uint32, deadline: int, now: int, maxIdle: uint32)
    requires deadline <= now + maxIdle
    requires IdleChoice(changedBefore, changedAfter, deadline, now).Sleep?
    ensures var ms := IdleChoice(changedBefore, changedAfter, deadline, now).ms;
      ms == deadline - now && 2 <= ms <= maxIdle && Clamp(ms, maxIdle) == ms
  {
  }

  /** `std::min(idle_time, m_max_idle_time)`. */
  function Clamp(idle: uint32, maxIdle: uint32): (r: uint32)
    ensures r <= idle && r <= maxIdle && (r == idle || r == maxIdle)
  {
    if maxIdle < idle then maxIdle else idle
  }

  /** The reload value `idleFor` programs: the counts still left in the
      current millisecond plus one full millisecond per further tick of the
      wait, in uint32 arithmetic (`idle_time - 1` wraps when it is 0). */
  function Reload(cvr: uint32, cpt: uint32, idle: uint32): uint32
  {
    U32(cvr + U32(cpt * U32(idle - 1)))
  }

  /** Once clamped to MaxIdle (and at least 1), the wait fits the 24-bit
      reload register with nothing wrapped; cvr is at most cpt because the
      counter was running with reload cpt. */
  lemma ReloadFits(cvr: uint32, cpt: uint32, idle: uint32)
    requires cpt >= 1 && cvr <= cpt && 1 <= idle <= MaxIdle(cpt)
    ensures Reload(cvr, cpt, idle) == cvr + cpt * (idle - 1)
    ensures Reload(cvr, cpt, idle) <= cpt * idle <= RELOAD_MAX
  {
    MaxIdleCovers(cpt);
    MulMonotone(cpt, idle, MaxIdle(cpt));
    var n: nat := idle - 1;
    var p := cpt * n;
    MulMonotone(cpt, 0, n);
    assert cpt * idle == p + cpt by { assert cpt * (n + 1) == cpt * n + cpt; }
    assert U32(idle - 1) == n;
    assert U32(cpt * n) == p;
    assert U32(cvr + p) == cvr + p;
  }

  lemma MulMonotone(c: nat, a: nat, b: nat)
    requires a <= b
    ensures c * a <= c * b
  {
    assert c * b - c * a == c * (b - a);
  }

  /** The milliseconds `idleFor` adds to the tick counter on waking: one
      less than the wait if the counter ran out (the SysTick interrupt that
      is then pending adds the last one), otherwise the whole milliseconds
      counted so far, `((idle * cpt) - remaining) / cpt` in uint32. */
  function Slept(idle: uint32, cpt: uint32, countedToZero: bool, remaining: uint32): uint32
    requires cpt >= 1
  {
    if countedToZero then U32(idle - 1)
    else
      var counted := U32(U32(idle * cpt) - remaining);
      DivAntitone(1, cpt, counted);
      counted / cpt
  }

  /** The tick counter never advances by more than the wait: when the
      counter ran out it advances by idle - 1, and otherwise by the whole
      milliseconds elapsed, which is at most idle because the counter
      started no higher than idle * cpt. */
  lemma SleptAtMostIdle(idle: uint32, cpt: uint32, countedToZero: bool, remaining: uint32)
    requires cpt >= 1 && 1 <= idle <= MaxIdle(cpt) && remaining <= cpt * idle
    ensures countedToZero ==> Slept(idle, cpt, countedToZero, remaining) == idle - 1
    ensures !countedToZero ==> Slept(idle, cpt, countedToZero, remaining) == (cpt * idle - remaining) / cpt
    ensures Slept(idle, cpt, countedToZero, remaining) <= idle
  {
    MaxIdleCovers(cpt);
    MulMonotone(cpt, idle, MaxIdle(cpt));
    assert idle * cpt == cpt * idle;
    if !countedToZero {
      var e := cpt * idle - remaining;
      assert U32(U32(idle * cpt) - remaining) == e;
      DivMonotone(e, cpt * idle, cpt);
      DivUnique(cpt * idle, cpt, idle, 0);
    }
  }

  /** What `Loop::log` returns: 0 before the first call (while the stored
      time is 0), otherwise the milliseconds since the stored time, as a
      uint32. */
  function Elapsed(lastLog: int, now: int): (r: uint32)
    ensures lastLog == 0 ==> r == 0
    ensures lastLog != 0 && 0 <= now - lastLog < TWO_32 ==> r == now - lastLog
  {
    if lastLog != 0 then U32(now - lastLog) else 0
  }
}
