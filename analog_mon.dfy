/** The analog monitor: ten rounds of ADC samples over five channels are
    averaged and turned into millivolts and thousandths of a degree with
    the firmware's truncating integer formulas, and the DCIN reading is
    published only when nothing could have disturbed it. */
module Analog {
  import opened CInt
  import Config

  /** The scan order of the ADC channels. */
  const DCIN: nat := 0
  const VBAT: nat := 1
  const BAT_TEMP: nat := 2
  const CPU_TEMP: nat := 3
  const VREF: nat := 4
  const CHANNELS: nat := 5

  /** Rounds of samples averaged per reading. */
  const ADC_AVG_CNT: nat := 10

  /** The sum of channel j over the first n rounds. */
  function SumTo(samples: seq<seq<uint16>>, j: nat, n: nat): int
    requires n <= |samples| && forall r :: 0 <= r < |samples| ==> j < |samples[r]|
  {
    if n == 0 then 0 else SumTo(samples, j, n - 1) + samples[n - 1][j]
  }

  /** The sum of n 16-bit samples stays below n * 2^16, so the uint32
      accumulator of ten rounds never wraps. */
  lemma {:induction false} SumBound(samples: seq<seq<uint16>>, j: nat, n: nat)
    requires n <= |samples| && forall r :: 0 <= r < |samples| ==> j < |samples[r]|
    ensures 0 <= SumTo(samples, j, n) <= n * (TWO_16 - 1)
  {
    if n > 0 {
      SumBound(samples, j, n - 1);
    }
  }

  ghost predicate WellShaped(samples: seq<seq<uint16>>)
  {
    |samples| == ADC_AVG_CNT && forall r :: 0 <= r < |samples| ==> |samples[r]| == CHANNELS
  }

  /** The truncated mean of channel j over the rounds; it fits 16 bits. */
  function Mean(samples: seq<seq<uint16>>, j: nat): (m: uint32)
    requires WellShaped(samples) && j < CHANNELS
    ensures m < TWO_16
  {
    SumBound(samples, j, ADC_AVG_CNT);
    SumTo(samples, j, ADC_AVG_CNT) / ADC_AVG_CNT
  }

  /** The averaging loop of `read`: every round adds its samples to the
      per-channel sums, and the last round divides each sum by the number
      of rounds, once. Each result is the truncated mean of the channel. */
  method Average(samples: seq<seq<uint16>>) returns (avg: seq<uint32>)
    requires WellShaped(samples)
    ensures |avg| == CHANNELS
    ensures forall j :: 0 <= j < CHANNELS ==> avg[j] == Mean(samples, j)
  {
    var result := new uint32[CHANNELS](_ => 0);
    var i := 0;
    while i < ADC_AVG_CNT
      invariant 0 <= i <= ADC_AVG_CNT
      invariant forall k :: 0 <= k < CHANNELS ==>
        result[k] == if i == ADC_AVG_CNT then SumTo(samples, k, i) / ADC_AVG_CNT else SumTo(samples, k, i)
    {
      var j := 0;
      while j < CHANNELS
        invariant 0 <= j <= CHANNELS
        invariant forall k :: 0 <= k < j ==>
          result[k] == if i == ADC_AVG_CNT - 1 then SumTo(samples, k, i + 1) / ADC_AVG_CNT else SumTo(samples, k, i + 1)
        invariant forall k :: j <= k < CHANNELS ==> result[k] == SumTo(samples, k, i)
      {
        SumBound(samples, j, i + 1);
        result[j] := result[j] + samples[i][j];
        if i == ADC_AVG_CNT - 1 {
          result[j] := result[j] / ADC_AVG_CNT as uint32;
        }
        j := j + 1;
      }
      i := i + 1;
    }
    avg := result[..];
  }

  /** `toVoltage`: a 12-bit reading scaled by the reference voltage and
      the divider ratio (in thousandths), truncating after each division. */
  function ToVoltage(raw: int, vref: int, rdiv: int): int
  {
    CDiv(CDiv(raw * vref, 4095) * rdiv, 1000)
  }

  /** A full-scale reading is the reference voltage times the divider
      ratio, and the conversion never decreases as the reading grows. */
  lemma ToVoltageScale(raw: nat, raw': nat, vref: nat, rdiv: nat)
    requires raw <= raw'
    ensures ToVoltage(4095, vref, rdiv) == vref * rdiv / 1000
    ensures ToVoltage(raw, vref, rdiv) <= ToVoltage(raw', vref, rdiv)
  {
    DivUnique(4095 * vref, 4095, vref, 0);
    MulLe(raw, raw', vref);
    DivMonotone(raw * vref, raw' * vref, 4095);
    MulLe(raw * vref / 4095, raw' * vref / 4095, rdiv);
    DivMonotone(raw * vref / 4095 * rdiv, raw' * vref / 4095 * rdiv, 1000);
  }

  lemma MulLe(a: nat, b: nat, c: nat)
    requires a <= b
    ensures a * c <= b * c
  {
    assert b * c - a * c == (b - a) * c;
  }

  /** `toTemperature`: the line through the two calibration points, with
      C's truncating division. */
  function ToTemperature(raw: int, cal: Config.Temp): int
    requires cal.value1 != cal.value0
  {
    cal.t0 - CDiv((cal.value0 - raw) * (cal.t1 - cal.t0), cal.value1 - cal.value0)
  }

  /** The interpolation passes exactly through both calibration points. */
  lemma ToTemperatureCalibrated(cal: Config.Temp)
    requires cal.value1 != cal.value0
    ensures ToTemperature(cal.value0, cal) == cal.t0
    ensures ToTemperature(cal.value1, cal) == cal.t1
  {
    var d := cal.value1 - cal.value0;
    var x := cal.t1 - cal.t0;
    assert (cal.value0 - cal.value0) * x == 0;
    assert (cal.value0 - cal.value1) * x == (-x) * d by {
      NegSwap(d, x);
    }
    CDivExact(-x, d);
  }

  lemma NegSwap(d: int, x: int)
    ensures (-d) * x == (-x) * d
  {
    MulNeg(d, x);
    MulNeg(x, d);
  }

  /** C's division of a multiple of b by b is exact. */
  lemma CDivExact(a: int, b: int)
    requires b != 0
    ensures CDiv(a * b, b) == a
  {
    var p := a * b;
    CDivMod(p, b);
    var q, r := CDiv(p, b), CMod(p, b);
    var k := a - q;
    MulSub(a, q, b);
    assert k * b == r;
    if b > 0 {
      MulSmall(k, b);
    } else {
      MulNegNeg(k, b);
      MulSmall(-k, -b);
    }
  }

  lemma MulSub(a: int, q: int, b: int)
    ensures (a - q) * b == a * b - q * b
  {
  }

  /** `getBatPct`: the charge in thousandths of a percent, linear between
      v_min and v_max and clamped to 0..100000. */
  function BatPct(vbat: int): (r: int)
    ensures 0 <= r <= 100000
  {
    var lin := CDiv((vbat - Config.V_MIN) * 100 * 1000, Config.V_MAX - Config.V_MIN);
    var atLeastZero := if 0 < lin then lin else 0;
    if atLeastZero < 100000 then atLeastZero else 100000
  }

  /** Empty at or below v_min, full at or above v_max, and never lower for
      a higher voltage. */
  lemma BatPctShape(v: int, v': int)
    requires v <= v'
    ensures v <= Config.V_MIN ==> BatPct(v) == 0
    ensures v >= Config.V_MAX ==> BatPct(v) == 100000
    ensures BatPct(v) <= BatPct(v')
  {
    var span := Config.V_MAX - Config.V_MIN;
    if v <= Config.V_MIN {
      assert CDiv((v - Config.V_MIN) * 100 * 1000, span) <= 0;
    }
    if v >= Config.V_MAX {
      var n := (v - Config.V_MIN) * 100000;
      assert n >= span * 100000;
      DivUnique(span * 100000, span, 100000, 0);
      DivMonotone(span * 100000, n, span);
    }
    if v >= Config.V_MIN {
      var n, n' := (v - Config.V_MIN) * 100000, (v' - Config.V_MIN) * 100000;
      assert n <= n';
      DivMonotone(n, n', span);
    }
  }

  /** `3300 * VREFINT_CAL / avg(VREF)`: the supply voltage in millivolts
      from the factory reference calibration word; the average must not be
      zero. */
  function VrefInt(vrefCal: uint16, vrefAvg: uint32): int
    requires vrefAvg != 0
  {
    3300 * vrefCal / vrefAvg
  }

  /** What one `read` gathered from the hardware: ten rounds of the five
      channels, the power key level after each round, the factory
      calibration words, the DCIN pin level and the time. */
  datatype Sampling = Sampling(samples: seq<seq<uint16>>, keyLevels: seq<bool>,
    vrefCal: uint16, tsCal1: uint16, tsCal2: uint16, dcinPin: bool, now: int)

  /** The DCIN reading is published only if the power key was never seen
      high while sampling (pressing it disturbs the DCIN divider), the
      reading is not being ignored, and the ignore guard time has passed. */
  predicate PublishDcin(keyPressed: bool, ignoreDcin: bool, now: int, lastDcinIgnore: int)
  {
    !keyPressed && !ignoreDcin && now >= lastDcinIgnore
  }

  class AnalogMon {
    var ignoreDcin: bool
    var lastDcinIgnore: int
    var vbat: int
    var dcin: int
    var cpuTemp: int
    var batTemp: int
    var batTempRaw: int
    var dcinPresent: bool

    /** A new monitor has every reading at zero and nothing ignored. */
    constructor ()
      ensures !ignoreDcin && lastDcinIgnore == 0 && !dcinPresent
      ensures vbat == 0 && dcin == 0 && cpuTemp == 0 && batTemp == 0 && batTempRaw == 0
    {
      ignoreDcin, lastDcinIgnore := false, 0;
      vbat, dcin, cpuTemp, batTemp, batTempRaw := 0, 0, 0, 0, 0;
      dcinPresent := false;
    }

    /** `read`: averages the samples and converts them. The battery voltage
        and both temperatures are updated every time; the DCIN voltage and
        presence only when PublishDcin holds. */
    method Read(s: Sampling)
      requires WellShaped(s.samples) && |s.keyLevels| == ADC_AVG_CNT
      requires Mean(s.samples, VREF) != 0
      requires s.tsCal1 != s.tsCal2
      modifies this`vbat, this`dcin, this`cpuTemp, this`batTemp, this`batTempRaw, this`dcinPresent
      ensures var vref := VrefInt(s.vrefCal, Mean(s.samples, VREF));
        && vbat == ToVoltage(Mean(s.samples, VBAT), vref, Config.VBAT_RDIV)
        && cpuTemp == ToTemperature(Mean(s.samples, CPU_TEMP), Config.CpuTemp(s.tsCal1, s.tsCal2))
        && batTempRaw == ToVoltage(Mean(s.samples, BAT_TEMP), vref, 1000)
        && batTemp == ToTemperature(batTempRaw, Config.BAT_TEMP)
        && if PublishDcin(true in s.keyLevels, ignoreDcin, s.now, lastDcinIgnore)
           then dcin == ToVoltage(Mean(s.samples, DCIN), vref, Config.DCIN_RDIV) && dcinPresent == s.dcinPin
           else dcin == old(dcin) && dcinPresent == old(dcinPresent)
    {
      var avg := Average(s.samples);
      var keyPressed := KeySeen(s.keyLevels);
      var vref := VrefInt(s.vrefCal, avg[VREF]);
      vbat := ToVoltage(avg[VBAT], vref, Config.VBAT_RDIV);
      cpuTemp := ToTemperature(avg[CPU_TEMP], Config.CpuTemp(s.tsCal1, s.tsCal2));
      batTempRaw := ToVoltage(avg[BAT_TEMP], vref, 1000);
      batTemp := ToTemperature(batTempRaw, Config.BAT_TEMP);
      if !keyPressed {
        if !ignoreDcin && s.now >= lastDcinIgnore {
          dcin := ToVoltage(avg[DCIN], vref, Config.DCIN_RDIV);
          dcinPresent := s.dcinPin;
        }
      }
    }

    /** The `pwr_key_pressed` flag of `read`: set once the key is seen high
        after any round. */
    static method KeySeen(levels: seq<bool>) returns (pressed: bool)
      ensures pressed <==> true in levels
    {
      pressed := false;
      var i := 0;
      while i < |levels|
        invariant 0 <= i <= |levels|
        invariant pressed <==> true in levels[..i]
      {
        if levels[i] {
          pressed := true;
        }
        assert levels[..i + 1] == levels[..i] + [levels[i]];
        i := i + 1;
      }
      assert levels[..i] == levels;
    }

    predicate IsBatDischarged()
      reads this`vbat
    {
      vbat <= Config.V_SHUTDOWN
    }

    predicate IsBatPresent()
      reads this`vbat
    {
      vbat >= Config.V_PRESENCE
    }

    predicate IsDcinPresent()
      reads this`dcinPresent
    {
      dcinPresent
    }

    predicate IsDcinGood()
      reads this`dcinPresent, this`dcin
    {
      IsDcinPresent() && dcin >= Config.DCIN_MIN_VOLTAGE
    }

    /** `getDcin`: 0 while DCIN is absent, the last published voltage
        otherwise. */
    function GetDcin(): (r: int)
      reads this`dcinPresent, this`dcin
      ensures !IsDcinPresent() ==> r == 0
      ensures IsDcinPresent() ==> r == dcin
    {
      if IsDcinPresent() then dcin else 0
    }

    function GetBatPct(): (r: int)
      reads this`vbat
      ensures 0 <= r <= 100000
    {
      BatPct(vbat)
    }

    /** Good DCIN is present DCIN at or above the minimum voltage, and a
        present but low DCIN is not good. */
    lemma Thresholds()
      ensures IsDcinGood() ==> IsDcinPresent() && GetDcin() >= Config.DCIN_MIN_VOLTAGE
      ensures IsDcinPresent() && dcin < Config.DCIN_MIN_VOLTAGE ==> !IsDcinGood()
    {
    }

    /** `ignoreDcinVoltage`: sets or clears the ignore flag, and in both
        cases the DCIN reading stays unpublished for the next second. */
    method IgnoreDcinVoltage(state: bool, now: int)
      modifies this`ignoreDcin, this`lastDcinIgnore
      ensures ignoreDcin == state && lastDcinIgnore == now + 1000
      ensures forall keyPressed, t :: t < now + 1000 ==> !PublishDcin(keyPressed, ignoreDcin, t, lastDcinIgnore)
    {
      ignoreDcin := state;
      lastDcinIgnore := now + 1000;
    }
  }
}
