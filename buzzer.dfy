/** The PWM buzzer on TIM14: frequency and duty-cycle clamping, the search
    for the smallest prescaler that fits the 16-bit period, and the
    playing flag. The APB1 clock frequency is an input. */
module Buzzer {
  import opened CInt

  const MIN_FREQ: int := 20
  const MAX_FREQ: int := 20000
  const MAX_DUTY: int := 100
  /** The period must end up below this bound to fit the 16-bit timer. */
  const PERIOD_LIMIT: int := 0xFFFF

  function ClampFreq(freq: uint32): (f: uint32)
    ensures MIN_FREQ <= f <= MAX_FREQ
    ensures MIN_FREQ <= freq <= MAX_FREQ ==> f == freq
    ensures freq < MIN_FREQ ==> f == MIN_FREQ
    ensures freq > MAX_FREQ ==> f == MAX_FREQ
  {
    if freq < MIN_FREQ then MIN_FREQ else if freq > MAX_FREQ then MAX_FREQ else freq
  }

  function ClampDuty(duty: uint32): (d: uint32)
    ensures d <= MAX_DUTY
    ensures d == duty || (duty > MAX_DUTY && d == MAX_DUTY)
  {
    if duty > MAX_DUTY then MAX_DUTY else duty
  }

  /** The timer period (in prescaled ticks) for prescaler `psc`. */
  function Apr(apb1: uint32, psc: nat, freq: uint32): nat
    requires psc >= 1 && freq >= 1
  {
    apb1 / (psc * freq)
  }

  /** `psc` is the least positive prescaler whose period fits. */
  ghost predicate IsLeastPrescaler(apb1: uint32, freq: uint32, psc: nat)
    requires freq >= 1
  {
    && psc >= 1
    && Apr(apb1, psc, freq) < PERIOD_LIMIT
    && forall k: nat :: 1 <= k < psc ==> Apr(apb1, k, freq) >= PERIOD_LIMIT
  }

  /** While the period is still too long, the prescaler is at most apb1. */
  lemma PrescalerBound(apb1: uint32, psc: nat, freq: uint32)
    requires psc >= 1 && freq >= 1 && Apr(apb1, psc, freq) >= PERIOD_LIMIT
    ensures psc <= apb1
  {
    QuotientAtLeastOne(apb1, psc * freq);
    assert psc <= psc * freq;
  }

  /** The do-while loop of `play`: increments psc from 0 until the period
      apb1 / (psc * freq) drops below 0xFFFF. */
  method PrescalerSearch(apb1: uint32, freq: uint32) returns (psc: nat, apr: nat)
    requires freq >= 1
    ensures IsLeastPrescaler(apb1, freq, psc)
    ensures apr == Apr(apb1, psc, freq)
  {
    psc := 0;
    apr := PERIOD_LIMIT;
    while apr >= PERIOD_LIMIT
      invariant psc <= apb1 + 1
      invariant psc == 0 ==> apr == PERIOD_LIMIT
      invariant psc >= 1 ==> apr == Apr(apb1, psc, freq)
      invariant forall k: nat :: 1 <= k < psc ==> Apr(apb1, k, freq) >= PERIOD_LIMIT
      decreases apb1 + 1 - psc
    {
      if psc >= 1 {
        PrescalerBound(apb1, psc, freq);
        assert Apr(apb1, psc, freq) >= PERIOD_LIMIT;
      }
      psc := psc + 1;
      apr := Apr(apb1, psc, freq);
    }
  }

  /** The compare value: at least 1, and duty percent of half the period. */
  function DutyPeriod(apr: nat, duty: uint32): nat
  {
    if duty > 0 then Max(1, (apr / 2) * duty / 100) else 1
  }

  function Max(a: int, b: int): int
  {
    if a >= b then a else b
  }

  /** The pulse never exceeds half the period (so the duty cycle is at most
      50%) once the period is at least 2 ticks. */
  lemma DutyWithinHalfPeriod(apr: nat, duty: uint32)
    requires duty <= MAX_DUTY && apr >= 2
    ensures 1 <= DutyPeriod(apr, duty) <= apr / 2
  {
    var h := apr / 2;
    assert h * duty <= h * 100;
    assert (h * duty) / 100 <= h by {
      DivUnique(h * 100, 100, h, 0);
      DivMonotone(h * duty, h * 100, 100);
    }
  }

  /** The buzzer's timer and the `m_playing` flag. */
  class Player {
    var playing: bool
    var clockEnabled: bool
    var counterEnabled: bool
    /** The prescaler, auto-reload and compare registers of TIM14. */
    var prescaler: uint32
    var period: uint32
    var compare: nat

    /** A playing buzzer has its clock and counter running. */
    ghost predicate Valid()
      reads this
    {
      playing ==> clockEnabled && counterEnabled
    }

    constructor ()
      ensures Valid() && !playing && !clockEnabled && !counterEnabled
    {
      playing, clockEnabled, counterEnabled := false, false, false;
      prescaler, period, compare := 0, 0, 0;
    }

    method Play(apb1: uint32, freq: uint32, dutyPct: uint32)
      requires Valid()
      modifies this
      ensures Valid() && playing && clockEnabled && counterEnabled
      ensures IsLeastPrescaler(apb1, ClampFreq(freq), prescaler + 1)
      ensures period == U32(Apr(apb1, prescaler + 1, ClampFreq(freq)) as int - 1)
      ensures compare == DutyPeriod(Apr(apb1, prescaler + 1, ClampFreq(freq)), ClampDuty(dutyPct))
    {
      clockEnabled := true;
      var f := ClampFreq(freq);
      var duty := ClampDuty(dutyPct);
      var psc, apr := PrescalerSearch(apb1, f);
      assert psc <= apb1 + 1 && psc - 1 < TWO_32 by {
        if psc >= 2 {
          PrescalerBound(apb1, psc - 1, f);
        }
      }
      var dutyPeriod := DutyPeriod(apr, duty);
      prescaler := psc - 1;
      period := U32(apr as int - 1);
      compare := dutyPeriod;
      if !playing {
        counterEnabled := true;
      }
      playing := true;
    }

    method Stop()
      requires Valid()
      modifies this
      ensures Valid() && !playing
      ensures old(playing) ==> !counterEnabled && !clockEnabled
      ensures !old(playing) ==> counterEnabled == old(counterEnabled) && clockEnabled == old(clockEnabled)
      ensures prescaler == old(prescaler) && period == old(period) && compare == old(compare)
    {
      if playing {
        counterEnabled := false;
        clockEnabled := false;
        playing := false;
      }
    }
  }
}
