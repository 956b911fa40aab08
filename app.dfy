/** The decision engine of the PMIC: the twelve-flag status word, the
    battery temperature hysteresis, the charge-enable rule with its failure
    bookkeeping and cooldowns, power sequencing, the power key, the polling
    cadence of the monitor task, and the register map the host reads and
    writes. The tasks the engine arms are represented by their due times
    (`Some(t)` armed for time t, `None` cancelled); what arming does to the
    scheduler's list is modelled in Scheduler. Output pins are recorded as
    fields. */
module PmicApp {
  import opened CInt
  import Config
  import Analog
  import Buttons
  import Rtc
  import Buzzer

  /** The flags of `m_state`, in the enum's order: flag i is bit i of the
      word. */
  datatype Flag =
    | DcinGood | DcinPresent | BatPresent | PowerOn | UserPowerOff | BatCharging
    | BatChargeEn | BatLowTemp | BatHighTemp | BatChargeLowTemp | BatChargeHighTemp | PwrKeyPressed

  /** The status word, as the set of flags that are on. */
  type State = set<Flag>

  /** The enum value of each flag. */
  function Mask(f: Flag): bv32
  {
    match f
    case DcinGood => 0x001
    case DcinPresent => 0x002
    case BatPresent => 0x004
    case PowerOn => 0x008
    case UserPowerOff => 0x010
    case BatCharging => 0x020
    case BatChargeEn => 0x040
    case BatLowTemp => 0x080
    case BatHighTemp => 0x100
    case BatChargeLowTemp => 0x200
    case BatChargeHighTemp => 0x400
    case PwrKeyPressed => 0x800
  }

  /** Each flag is a single bit, and distinct flags are distinct bits. */
  lemma MasksDisjoint(f: Flag, g: Flag)
    ensures Mask(f) != 0 && Mask(f) & (Mask(f) - 1) == 0
    ensures Mask(f) & Mask(g) == 0 <==> f != g
  {
  }

  function Bit(s: State, f: Flag): bv32
  {
    if f in s then Mask(f) else 0
  }

  /** The twelve flags in bit order. */
  const FLAGS: seq<Flag> := [DcinGood, DcinPresent, BatPresent, PowerOn, UserPowerOff, BatCharging,
    BatChargeEn, BatLowTemp, BatHighTemp, BatChargeLowTemp, BatChargeHighTemp, PwrKeyPressed]

  /** The OR of the masks of the flags of fs that are on in s. */
  function WordOf(s: State, fs: seq<Flag>): bv32
  {
    if fs == [] then 0 else Bit(s, fs[0]) | WordOf(s, fs[1..])
  }

  /** `m_state` as the firmware holds it: the OR of the masks of the flags
      that are on, a 12-bit word. */
  function Word(s: State): (w: bv32)
    ensures w < 0x1000
  {
    WordFits(s, FLAGS);
    WordOf(s, FLAGS)
  }

  /** Every mask lies in the low twelve bits, and so does any OR of them. */
  lemma {:induction false} WordFits(s: State, fs: seq<Flag>)
    ensures WordOf(s, fs) & 0xFFFF_F000 == 0 && WordOf(s, fs) < 0x1000
  {
    if fs != [] {
      WordFits(s, fs[1..]);
      var a, b := Bit(s, fs[0]), WordOf(s, fs[1..]);
      assert a & 0xFFFF_F000 == 0;
      assert (a | b) & 0xFFFF_F000 == (a & 0xFFFF_F000) | (b & 0xFFFF_F000);
    }
  }

  /** Masking the OR of a list of distinct flags with one flag's mask keeps
      that flag's term if the flag is in the list, and nothing otherwise. */
  lemma {:induction false} WordOfBit(s: State, fs: seq<Flag>, f: Flag)
    requires forall i, j :: 0 <= i < j < |fs| ==> fs[i] != fs[j]
    ensures WordOf(s, fs) & Mask(f) == if f in fs then Bit(s, f) else 0
  {
    if fs != [] {
      var g := fs[0];
      WordOfBit(s, fs[1..], f);
      MasksDisjoint(g, f);
      var a, b := Bit(s, g), WordOf(s, fs[1..]);
      assert (a | b) & Mask(f) == (a & Mask(f)) | (b & Mask(f));
    }
  }

  /** `is(bit)` on the word reads the flag: testing a flag's mask against
      the word tells exactly whether the flag is on. */
  lemma WordBits(s: State, f: Flag)
    ensures Word(s) & Mask(f) != 0 <==> f in s
  {
    FlagsListed(f);
    WordOfBit(s, FLAGS, f);
    MasksDisjoint(f, f);
  }

  /** FLAGS lists every flag once. */
  lemma FlagsListed(f: Flag)
    ensures f in FLAGS
    ensures forall i, j :: 0 <= i < j < |FLAGS| ==> FLAGS[i] != FLAGS[j]
  {
    match f
    case DcinGood => assert FLAGS[0] == f;
    case DcinPresent => assert FLAGS[1] == f;
    case BatPresent => assert FLAGS[2] == f;
    case PowerOn => assert FLAGS[3] == f;
    case UserPowerOff => assert FLAGS[4] == f;
    case BatCharging => assert FLAGS[5] == f;
    case BatChargeEn => assert FLAGS[6] == f;
    case BatLowTemp => assert FLAGS[7] == f;
    case BatHighTemp => assert FLAGS[8] == f;
    case BatChargeLowTemp => assert FLAGS[9] == f;
    case BatChargeHighTemp => assert FLAGS[10] == f;
    case PwrKeyPressed => assert FLAGS[11] == f;
  }

  /** Hence the word loses nothing: two states with the same word are the
      same set of flags. */
  lemma WordInjective(a: State, b: State)
    requires Word(a) == Word(b)
    ensures a == b
  {
    FromWordOfWord(a);
    FromWordOfWord(b);
  }

  /** The flags whose masks are set in a word; bits outside the twelve
      masks are dropped. */
  function FromWord(w: bv32): (s: State)
    ensures forall f :: f in s <==> w & Mask(f) != 0
  {
    set f: Flag | w & Mask(f) != 0
  }

  /** Decoding the word of a state gives the state back. */
  lemma FromWordOfWord(s: State)
    ensures FromWord(Word(s)) == s
  {
    forall f: Flag
      ensures f in FromWord(Word(s)) <==> f in s
    {
      WordBits(s, f);
    }
  }

  /** Two states that agree outside a set of flags agree on each flag
      outside it. */
  lemma Outside(a: State, b: State, m: State, f: Flag)
    requires a - m == b - m && f !in m
    ensures f in a <==> f in b
  {
    assert f in a <==> f in a - m;
    assert f in b <==> f in b - m;
  }

  /** Agreement outside m1 and then outside m2 is agreement outside any set
      holding both. */
  lemma AgreeOutside(a: State, b: State, c: State, m1: State, m2: State, m: State)
    requires a - m1 == b - m1 && b - m2 == c - m2 && m1 + m2 <= m
    ensures a - m == c - m
  {
    forall f | f !in m
      ensures f in a <==> f in c
    {
      Outside(a, b, m1, f);
      Outside(b, c, m2, f);
    }
  }

  /** The flags derived from the analog readings. */
  const SENSED: State := {DcinGood, DcinPresent, BatPresent, BatLowTemp, BatHighTemp, BatChargeLowTemp, BatChargeHighTemp}

  /** The flags the power key can change. */
  const KEY_FLAGS: State := {PowerOn, UserPowerOff, PwrKeyPressed}

  /** A step that changes only flags outside SENSED keeps every sensed flag. */
  lemma SensedKept(a: State, b: State, m: State)
    requires a - m == b - m && m !! SENSED
    ensures forall f :: f in SENSED ==> (f in a <==> f in b)
  {
    forall f | f in SENSED
      ensures f in a <==> f in b
    {
      Outside(a, b, m, f);
    }
  }

  /** `setStateBit` on the word: the flag takes the value and no other flag
      changes. */
  function WithFlag(s: State, f: Flag, value: bool): (r: State)
    ensures (f in r) == value && r - {f} == s - {f}
    ensures r == s <==> (f in s) == value
  {
    if value then s + {f} else s - {f}
  }

  /** Why charging is not allowed, or NONE. */
  datatype ChrgFailure = ChrgNone | ChrgLowTemp | ChrgHighTemp | ChrgNoDcin | ChrgBadDcin | ChrgNoBat

  /** Why the system may not be powered, or NONE. */
  datatype PwrOnFailure = PwrNone | BatIsLow | BatTempIsLow | BatTempIsHigh

  /** `getTimeoutForChrgFail`: the cooldown after a charge failure. */
  function TimeoutForChrgFail(r: ChrgFailure): (t: uint32)
    ensures t <= Config.CHARGING_BAD_TEMP_TIMEOUT
    ensures t == 0 <==> r == ChrgNone || r == ChrgNoBat
  {
    match r
    case ChrgLowTemp => Config.CHARGING_BAD_TEMP_TIMEOUT
    case ChrgHighTemp => Config.CHARGING_BAD_TEMP_TIMEOUT
    case ChrgNoDcin => Config.CHARGING_LOST_DCIN_TIMEOUT
    case ChrgBadDcin => Config.CHARGING_BAD_DCIN_TIMEOUT
    case ChrgNoBat => 0
    case ChrgNone => 0
  }

  /** `checkChargingAllowed`: the first failing condition in the order
      battery, DCIN presence, DCIN quality, charge temperature. */
  function ChargingAllowed(s: State, dcinBadCnt: int): (r: ChrgFailure)
    ensures r == ChrgNone <==>
      BatPresent in s && DcinPresent in s && DcinGood in s && BatChargeLowTemp !in s && BatChargeHighTemp !in s
    ensures r == ChrgNoBat <==> BatPresent !in s
    ensures r == ChrgBadDcin <==> BatPresent in s && DcinPresent in s && DcinGood !in s && dcinBadCnt >= 5
    ensures r == ChrgNoDcin <==> BatPresent in s && (DcinPresent !in s || (DcinGood !in s && dcinBadCnt < 5))
    ensures r == ChrgHighTemp ==> BatChargeLowTemp !in s
  {
    if BatPresent !in s then ChrgNoBat
    else if DcinPresent !in s then ChrgNoDcin
    else if DcinGood !in s then (if dcinBadCnt >= 5 then ChrgBadDcin else ChrgNoDcin)
    else if BatChargeLowTemp in s then ChrgLowTemp
    else if BatChargeHighTemp in s then ChrgHighTemp
    else ChrgNone
  }

  /** `checkPowerOnAllowed`: with good DCIN the system may always run; on
      battery alone a discharged battery, then a cold one, then a hot one
      forbids it. */
  function PowerOnAllowed(s: State, vbat: int): (r: PwrOnFailure)
    ensures DcinGood in s ==> r == PwrNone
    ensures r == PwrNone <==>
      DcinGood in s || (vbat > Config.V_SHUTDOWN && BatLowTemp !in s && BatHighTemp !in s)
    ensures r == BatIsLow <==> DcinGood !in s && vbat <= Config.V_SHUTDOWN
  {
    if DcinGood !in s then
      if vbat <= Config.V_SHUTDOWN then BatIsLow
      else if BatLowTemp in s then BatTempIsLow
      else if BatHighTemp in s then BatTempIsHigh
      else PwrNone
    else PwrNone
  }

  /** Whether power-on is allowed does not depend on the power flags
      themselves, so switching the system on or off does not change it. */
  lemma PowerOnAllowedIgnoresPower(a: State, b: State, vbat: int)
    requires a - {PowerOn, UserPowerOff} == b - {PowerOn, UserPowerOff}
    ensures PowerOnAllowed(a, vbat) == PowerOnAllowed(b, vbat)
  {
    assert DcinGood in a <==> DcinGood in a - {PowerOn, UserPowerOff};
    assert DcinGood in b <==> DcinGood in b - {PowerOn, UserPowerOff};
    assert BatLowTemp in a <==> BatLowTemp in a - {PowerOn, UserPowerOff};
    assert BatLowTemp in b <==> BatLowTemp in b - {PowerOn, UserPowerOff};
    assert BatHighTemp in a <==> BatHighTemp in a - {PowerOn, UserPowerOff};
    assert BatHighTemp in b <==> BatHighTemp in b - {PowerOn, UserPowerOff};
  }

  /** The flags the charging decision ignores: its own enable and charging
      flags and the power flags. */
  const CHARGE_AND_POWER: State := {BatChargeEn, BatCharging, PowerOn, UserPowerOff}

  /** Whether charging is allowed does not depend on the charge or power
      flags, so enabling charging or switching the system does not change
      it. */
  lemma ChargingAllowedIgnoresOutputs(a: State, b: State, dcinBadCnt: int)
    requires a - CHARGE_AND_POWER == b - CHARGE_AND_POWER
    ensures ChargingAllowed(a, dcinBadCnt) == ChargingAllowed(b, dcinBadCnt)
  {
    assert BatPresent in a <==> BatPresent in a - CHARGE_AND_POWER;
    assert BatPresent in b <==> BatPresent in b - CHARGE_AND_POWER;
    assert DcinPresent in a <==> DcinPresent in a - CHARGE_AND_POWER;
    assert DcinPresent in b <==> DcinPresent in b - CHARGE_AND_POWER;
    assert DcinGood in a <==> DcinGood in a - CHARGE_AND_POWER;
    assert DcinGood in b <==> DcinGood in b - CHARGE_AND_POWER;
    assert BatChargeLowTemp in a <==> BatChargeLowTemp in a - CHARGE_AND_POWER;
    assert BatChargeLowTemp in b <==> BatChargeLowTemp in b - CHARGE_AND_POWER;
    assert BatChargeHighTemp in a <==> BatChargeHighTemp in a - CHARGE_AND_POWER;
    assert BatChargeHighTemp in b <==> BatChargeHighTemp in b - CHARGE_AND_POWER;
  }

  /** `isChargingDisabled`: always without good DCIN; otherwise while the
      cooldown of the last recorded failure runs (a failure time of 0
      means none is recorded). */
  predicate ChargingDisabled(s: State, failure: ChrgFailure, failureTime: int, now: int)
  {
    DcinGood !in s || (failureTime != 0 && now - failureTime < TimeoutForChrgFail(failure))
  }

  /** With good DCIN, charging is disabled exactly during the cooldown:
      never after NONE or NO_BAT, for 5 s after a lost DCIN, and for 30
      minutes after a temperature or bad-DCIN failure. */
  lemma Cooldowns(s: State, failure: ChrgFailure, failureTime: int, now: int)
    requires DcinGood in s && failureTime <= now
    ensures failure == ChrgNone || failure == ChrgNoBat || failureTime == 0 ==> !ChargingDisabled(s, failure, failureTime, now)
    ensures failure == ChrgNoDcin && failureTime != 0 ==>
      (ChargingDisabled(s, failure, failureTime, now) <==> now < failureTime + 5000)
    ensures failure in {ChrgLowTemp, ChrgHighTemp, ChrgBadDcin} && failureTime != 0 ==>
      (ChargingDisabled(s, failure, failureTime, now) <==> now < failureTime + 1800000)
    ensures ChargingDisabled(s, failure, failureTime, now) ==> now < failureTime + 1800000
  {
  }

  /** `isAutoPowerOnDisabled`. */
  predicate AutoPowerOnDisabled(s: State, lastPwronFail: PwrOnFailure)
  {
    (lastPwronFail == BatIsLow && BatChargeEn !in s) || lastPwronFail == BatTempIsHigh
  }

  /** The only value the engine ever stores as the last power-on failure is
      NONE, and with it automatic power-on is never disabled. */
  lemma AutoPowerOnNeverDisabled(s: State)
    ensures !AutoPowerOnDisabled(s, PwrNone)
  {
  }

  /** The low-temperature flag after `checkBatteryTemp`: it is cleared once
      the temperature is above min + hysteresis, and then set if it is at
      or below min. Set, it stays set up to min + hysteresis; clear, it
      sets only at min. */
  function LowAfter(was: bool, temp: int, min: int): (r: bool)
    ensures !was ==> (r <==> temp <= min)
    ensures was ==> (r <==> temp <= min + Config.T_HYSTERESIS)
  {
    var cleared := was && !(temp > min + Config.T_HYSTERESIS);
    cleared || temp <= min
  }

  /** The high-temperature flag, mirrored: it clears below max -
      hysteresis and sets at or above max. */
  function HighAfter(was: bool, temp: int, max: int): (r: bool)
    ensures !was ==> (r <==> temp >= max)
    ensures was ==> (r <==> temp >= max - Config.T_HYSTERESIS)
  {
    var cleared := was && !(temp < max - Config.T_HYSTERESIS);
    cleared || temp >= max
  }

  /** When the two bands are more than twice the hysteresis apart, as both
      configured pairs are, no temperature leaves both flags set. */
  lemma BandsExclusive(wasLow: bool, wasHigh: bool, temp: int, min: int, max: int)
    requires min + Config.T_HYSTERESIS < max - Config.T_HYSTERESIS
    ensures !(LowAfter(wasLow, temp, min) && HighAfter(wasHigh, temp, max))
  {
  }

  /** The polling period `monitorTask` picks, or None when it lets the
      system sleep deeply instead of re-arming itself: 200 ms while
      charging, 500 ms while charging is enabled, 1 s with good DCIN or for
      5 s after DCIN was connected, and 30 s otherwise. Deep sleep needs the
      system off, DCIN absent, and both wake-up pins low. */
  function NextTimeout(s: State, sinceConnected: int, wakePinHigh: bool): (r: Option<uint32>)
    ensures r.None? <==>
      BatCharging !in s && BatChargeEn !in s && DcinGood !in s && DcinPresent !in s && PowerOn !in s && !wakePinHigh
    ensures r.Some? ==> r.value in {200, 500, 1000, 30000}
    ensures r == Some(200) <==> BatCharging in s
    ensures r == Some(500) <==> BatCharging !in s && BatChargeEn in s
    ensures r == Some(1000) <==>
      BatCharging !in s && BatChargeEn !in s && (DcinGood in s || (DcinPresent in s && sinceConnected <= 5000))
  {
    if BatCharging in s then Some(200)
    else if BatChargeEn in s then Some(500)
    else if DcinGood in s then Some(1000)
    else if DcinPresent in s && sinceConnected <= 5000 then Some(1000)
    else if PowerOn !in s && DcinPresent !in s && !wakePinHigh then None
    else Some(30000)
  }

  /** The register numbers of the host protocol. */
  const REG_STATUS: uint8 := 0
  const REG_IRQ_STATUS: uint8 := 1
  const REG_BAT_VOLTAGE: uint8 := 2
  const REG_BAT_TEMP: uint8 := 3
  const REG_BAT_MIN_TEMP: uint8 := 4
  const REG_BAT_MAX_TEMP: uint8 := 5
  const REG_BAT_PCT: uint8 := 6
  const REG_DCIN_VOLTAGE: uint8 := 7
  const REG_CPU_TEMP: uint8 := 8
  const REG_GET_MAX_BAT_VOLTAGE: uint8 := 9
  const REG_GET_MIN_BAT_VOLTAGE: uint8 := 10
  const REG_POWER_OFF: uint8 := 11
  const REG_RTC_TIME: uint8 := 12
  const REG_PLAY_BUZZER: uint8 := 13

  /** The monitor values `readReg` reports, as the analog monitor's
      getters return them. */
  datatype Readings = Readings(vbat: int, batTemp: int, batPct: int, dcin: int, cpuTemp: int)

  /** The value `readReg` returns: the status word, a reading or a
      configured constant converted to uint32, the RTC time, and all ones
      for a register it does not know (including the write-only ones). The
      battery percentage is capped at 99 % while charging. */
  function RegValue(reg: uint8, s: State, m: Readings, rtcTime: uint32): (r: uint32)
    ensures reg == REG_STATUS || reg == REG_IRQ_STATUS ==> r == Word(s) as int
    ensures reg == REG_POWER_OFF || reg == REG_PLAY_BUZZER || reg > REG_PLAY_BUZZER ==> r == 0xFFFF_FFFF
    ensures reg == REG_BAT_PCT && 0 <= m.batPct <= 100000 ==>
      r == (if BatCharging in s && m.batPct > 99000 then 99000 else m.batPct)
    ensures reg == REG_RTC_TIME ==> r == rtcTime
  {
    if reg == REG_STATUS || reg == REG_IRQ_STATUS then Word(s) as int
    else if reg == REG_BAT_VOLTAGE then U32(m.vbat)
    else if reg == REG_BAT_TEMP then U32(m.batTemp)
    else if reg == REG_BAT_MIN_TEMP then U32(Config.T_MIN)
    else if reg == REG_BAT_MAX_TEMP then U32(Config.T_MAX)
    else if reg == REG_BAT_PCT then
      U32(if BatCharging in s then (if 99 * 1000 < m.batPct then 99 * 1000 else m.batPct) else m.batPct)
    else if reg == REG_DCIN_VOLTAGE then U32(m.dcin)
    else if reg == REG_CPU_TEMP then U32(m.cpuTemp)
    else if reg == REG_GET_MIN_BAT_VOLTAGE then U32(Config.V_MIN)
    else if reg == REG_GET_MAX_BAT_VOLTAGE then U32(Config.V_MAX)
    else if reg == REG_RTC_TIME then rtcTime
    else 0xFFFF_FFFF
  }

  /** The signed registers come back as the host reinterprets them: an int
      reading converted to uint32 and read back as s32 is the reading. */
  lemma SignedRegisters(s: State, m: Readings, rtcTime: uint32)
    requires -TWO_31 <= m.batTemp < TWO_31 && -TWO_31 <= m.cpuTemp < TWO_31
    ensures S32(RegValue(REG_BAT_TEMP, s, m, rtcTime)) == m.batTemp
    ensures S32(RegValue(REG_CPU_TEMP, s, m, rtcTime)) == m.cpuTemp
    ensures S32(RegValue(REG_BAT_MIN_TEMP, s, m, rtcTime)) == Config.T_MIN
  {
    S32OfU32(m.batTemp);
    S32OfU32(m.cpuTemp);
    S32OfU32(Config.T_MIN);
  }

  /** The decision engine's state: the status word, the charge-failure
      bookkeeping, the buzzer request, the recorded output levels, the due
      times of its four tasks, and the analog monitor it owns. */
  class App {
    var state: State
    var lastChrgFailure: ChrgFailure
    var lastChrgFailureTime: int
    var lastChrgFailureCnt: int
    var dcinBadCnt: int
    var lastCharging: int
    var dcinConnected: int
    var lastPwronFail: PwrOnFailure
    var lastPwron: int
    var buzzerFreq: uint32
    var buzzerVol: uint32
    /** The levels last written to I2C_IRQ (set = true), CHARGER_EN and VCC_EN. */
    var irqLine: bool
    var chargerEn: bool
    var vccEn: bool
    /** When `m_task_irq_pulse`, `m_task_analog_mon`, `m_task_buzzer` and
        `m_task_watchdog` are due, or None while cancelled. */
    var pulseDue: Option<int>
    var monitorDue: Option<int>
    var buzzerDue: Option<int>
    var watchdogDue: Option<int>
    /** The broken-down time last handed to the RTC. */
    var rtcSet: Option<Rtc.Tm>
    const mon: Analog.AnalogMon

    /** What holds between passes of the engine: good DCIN is present DCIN,
        charging implies charging is enabled, neither temperature pair has
        both flags set, a powered system is not user-powered-off, the last
        power-on failure stays NONE, and the CHARGER_EN and VCC_EN outputs
        follow their flags. */
    ghost predicate Valid()
      reads this`state, this`lastPwronFail, this`chargerEn, this`vccEn
    {
      && (DcinGood in state ==> DcinPresent in state)
      && (BatCharging in state ==> BatChargeEn in state)
      && !(BatLowTemp in state && BatHighTemp in state)
      && !(BatChargeLowTemp in state && BatChargeHighTemp in state)
      && (Flag.PowerOn in state ==> UserPowerOff !in state)
      && lastPwronFail == PwrNone
      && chargerEn == (BatChargeEn in state)
      && vccEn == (Flag.PowerOn in state)
    }

    /** A change of the status word has raised the IRQ line and armed the
        10 ms pulse; without a change neither was touched except by
        another such change. */
    ghost predicate Announced(s0: State, irq0: bool, pulse0: Option<int>, now: int)
      reads this`state, this`irqLine, this`pulseDue
    {
      && (state != s0 ==> irqLine && pulseDue == Some(now + 10))
      && (irqLine == irq0 || irqLine)
      && (pulseDue == pulse0 || pulseDue == Some(now + 10))
    }

    /** The field initialisers: an empty status word, no failure recorded,
        zero counters and times; the outputs as the hardware set-up leaves
        them (IRQ line released, charger and system supply off); no task
        armed. */
    constructor ()
      ensures state == {} && lastChrgFailure == ChrgNone && lastChrgFailureTime == 0
      ensures lastChrgFailureCnt == 0 && dcinBadCnt == 0 && lastCharging == 0 && dcinConnected == 0
      ensures lastPwronFail == PwrNone && lastPwron == 0 && buzzerFreq == 0 && buzzerVol == 0
      ensures irqLine && !chargerEn && !vccEn
      ensures pulseDue == None && monitorDue == None && buzzerDue == None && watchdogDue == None
      ensures rtcSet == None && fresh(mon) && Valid()
    {
      state := {};
      lastChrgFailure, lastChrgFailureTime, lastChrgFailureCnt := ChrgNone, 0, 0;
      dcinBadCnt, lastCharging, dcinConnected := 0, 0, 0;
      lastPwronFail, lastPwron := PwrNone, 0;
      buzzerFreq, buzzerVol := 0, 0;
      irqLine, chargerEn, vccEn := true, false, false;
      pulseDue, monitorDue, buzzerDue, watchdogDue := None, None, None, None;
      rtcSet := None;
      mon := new Analog.AnalogMon();
    }

    /** `setStateBit`: the flag takes the value and every other flag stays;
        only a real change raises the IRQ line and arms the pulse task
        10 ms out. The result says whether the flag changed. */
    method SetStateBit(f: Flag, value: bool, now: int) returns (changed: bool)
      modifies this`state, this`irqLine, this`pulseDue
      ensures state == WithFlag(old(state), f, value)
      ensures changed <==> (f in old(state)) != value
      ensures changed ==> irqLine && pulseDue == Some(now + 10)
      ensures !changed ==> state == old(state) && irqLine == old(irqLine) && pulseDue == old(pulseDue)
    {
      changed := value != (f in state);
      state := WithFlag(state, f, value);
      if changed {
        irqLine := true;
        pulseDue := Some(now + 10);
      }
    }

    /** The presence part of `monitorTask`: DCIN presence, DCIN quality and
        battery presence are copied from the monitor. A newly connected DCIN
        is time-stamped, and if the last charge failure was a bad DCIN it is
        downgraded to a lost DCIN with both counters reset, so a new supply
        gets a fresh chance after the short cooldown. */
    method UpdatePresence(now: int)
      modifies this`state, this`irqLine, this`pulseDue, this`dcinConnected
      modifies this`lastChrgFailure, this`lastChrgFailureCnt, this`lastChrgFailureTime, this`dcinBadCnt
      ensures (DcinPresent in state) == mon.IsDcinPresent()
      ensures (DcinGood in state) == mon.IsDcinGood()
      ensures (BatPresent in state) == mon.IsBatPresent()
      ensures state - {DcinPresent, DcinGood, BatPresent} == old(state) - {DcinPresent, DcinGood, BatPresent}
      ensures Announced(old(state), old(irqLine), old(pulseDue), now)
      ensures var plugged := DcinPresent !in old(state) && mon.IsDcinPresent();
        && dcinConnected == (if plugged then now else old(dcinConnected))
        && if plugged && old(lastChrgFailure) == ChrgBadDcin then
             lastChrgFailure == ChrgNoDcin && lastChrgFailureCnt == 0 && lastChrgFailureTime == now && dcinBadCnt == 0
           else
             && lastChrgFailure == old(lastChrgFailure) && lastChrgFailureCnt == old(lastChrgFailureCnt)
             && lastChrgFailureTime == old(lastChrgFailureTime) && dcinBadCnt == old(dcinBadCnt)
    {
      var changed := SetStateBit(DcinPresent, mon.IsDcinPresent(), now);
      if changed {
        if DcinPresent in state {
          dcinConnected := now;
          if lastChrgFailure == ChrgBadDcin {
            lastChrgFailure := ChrgNoDcin;
            lastChrgFailureCnt := 0;
            lastChrgFailureTime := now;
            dcinBadCnt := 0;
          }
        }
      }
      changed := SetStateBit(DcinGood, DcinPresent in state && mon.IsDcinGood(), now);
      changed := SetStateBit(BatPresent, mon.IsBatPresent(), now);
    }

    /** `checkBatteryTemp`: the two flags of one temperature band follow
        LowAfter and HighAfter of the battery temperature; the rest of the
        word is kept. */
    method CheckBatteryTemp(min: int, max: int, lo: Flag, hi: Flag, now: int)
      requires lo != hi
      modifies this`state, this`irqLine, this`pulseDue
      ensures (lo in state) == LowAfter(lo in old(state), mon.batTemp, min)
      ensures (hi in state) == HighAfter(hi in old(state), mon.batTemp, max)
      ensures state - {lo, hi} == old(state) - {lo, hi}
      ensures Announced(old(state), old(irqLine), old(pulseDue), now)
    {
      var temp := mon.batTemp;
      ghost var s0 := state;
      SetIf(lo, false, lo in state && temp > min + Config.T_HYSTERESIS, now);
      ghost var s1 := state;
      SetIf(hi, false, hi in state && temp < max - Config.T_HYSTERESIS, now);
      ghost var s2 := state;
      Outside(s2, s1, {hi}, lo);
      Outside(s1, s0, {lo}, hi);
      SetIf(lo, true, lo !in state && temp <= min, now);
      ghost var s3 := state;
      Outside(s3, s2, {lo}, hi);
      SetIf(hi, true, hi !in state && temp >= max, now);
      Outside(state, s3, {hi}, lo);
      AgreeOutside(s0, s1, s2, {lo}, {hi}, {lo, hi});
      AgreeOutside(s2, s3, state, {lo}, {hi}, {lo, hi});
      AgreeOutside(s0, s2, state, {lo, hi}, {lo, hi}, {lo, hi});
    }

    /** One test of `checkBatteryTemp`: when the condition holds the flag
        is set to the value through `setStateBit`; otherwise nothing
        changes. */
    method SetIf(f: Flag, value: bool, cond: bool, now: int)
      modifies this`state, this`irqLine, this`pulseDue
      ensures (f in state) == (if cond then value else f in old(state))
      ensures state - {f} == old(state) - {f}
      ensures Announced(old(state), old(irqLine), old(pulseDue), now)
    {
      if cond {
        var changed := SetStateBit(f, value, now);
      }
    }

    /** The charge-enable part of `monitorTask`. With the failure reason
        taken once at the start: charging ends up enabled exactly when the
        reason is NONE and it either was enabled or is not in a cooldown.
        Turning it on stamps the time; turning it off records the reason and
        time, and counts the failure (and a lost DCIN) if charging ran less
        than MIN_CHARGE_TIME, otherwise resets both counters. */
    method UpdateCharging(now: int)
      modifies this`state, this`irqLine, this`pulseDue, this`lastCharging
      modifies this`lastChrgFailure, this`lastChrgFailureTime, this`lastChrgFailureCnt, this`dcinBadCnt
      ensures var reason := ChargingAllowed(old(state), old(dcinBadCnt));
        var wasOn := BatChargeEn in old(state);
        var disabled := ChargingDisabled(old(state), old(lastChrgFailure), old(lastChrgFailureTime), now);
        && (BatChargeEn in state) == (reason == ChrgNone && (wasOn || !disabled))
        && lastCharging == (if !wasOn && reason == ChrgNone && !disabled then now else old(lastCharging))
        && if wasOn && reason != ChrgNone then
             && lastChrgFailure == reason && lastChrgFailureTime == now
             && if now - old(lastCharging) < Config.MIN_CHARGE_TIME then
                  && lastChrgFailureCnt == old(lastChrgFailureCnt) + 1
                  && dcinBadCnt == old(dcinBadCnt) + (if reason == ChrgNoDcin then 1 else 0)
                else lastChrgFailureCnt == 0 && dcinBadCnt == 0
           else
             && lastChrgFailure == old(lastChrgFailure) && lastChrgFailureTime == old(lastChrgFailureTime)
             && lastChrgFailureCnt == old(lastChrgFailureCnt) && dcinBadCnt == old(dcinBadCnt)
      ensures state - {BatChargeEn} == old(state) - {BatChargeEn}
      ensures Announced(old(state), old(irqLine), old(pulseDue), now)
    {
      var reason := ChargingAllowed(state, dcinBadCnt);
      var changed: bool;
      if BatChargeEn !in state && reason == ChrgNone && !ChargingDisabled(state, lastChrgFailure, lastChrgFailureTime, now) {
        lastCharging := now;
        changed := SetStateBit(BatChargeEn, true, now);
      }
      if BatChargeEn in state && reason != ChrgNone {
        lastChrgFailure := reason;
        lastChrgFailureTime := now;
        if now - lastCharging < Config.MIN_CHARGE_TIME {
          lastChrgFailureCnt := lastChrgFailureCnt + 1;
          if reason == ChrgNoDcin {
            dcinBadCnt := dcinBadCnt + 1;
          }
        } else {
          lastChrgFailureCnt := 0;
          dcinBadCnt := 0;
        }
        changed := SetStateBit(BatChargeEn, false, now);
      }
    }

    /** CHARGER_EN follows the enable flag, and the charging flag is the
        charger's status input while charging is enabled. */
    method UpdateChargerOutputs(chargerActive: bool, now: int)
      modifies this`state, this`irqLine, this`pulseDue, this`chargerEn
      ensures chargerEn == (BatChargeEn in state) == (BatChargeEn in old(state))
      ensures (BatCharging in state) == (chargerActive && BatChargeEn in old(state))
      ensures state - {BatCharging} == old(state) - {BatCharging}
      ensures Announced(old(state), old(irqLine), old(pulseDue), now)
    {
      chargerEn := BatChargeEn in state;
      var changed := SetStateBit(BatCharging, chargerActive && BatChargeEn in state, now);
    }

    /** `powerOn`: only if power-on is allowed, the system supply is
        switched on, POWER_ON set, USER_POWER_OFF cleared and the time
        stamped; the monitor task is re-armed at once in any case. */
    method PowerOn(now: int)
      requires Valid()
      modifies this`state, this`irqLine, this`pulseDue, this`lastPwron, this`vccEn, this`monitorDue
      ensures Valid()
      ensures var allowed := PowerOnAllowed(old(state), mon.vbat) == PwrNone;
        && (allowed ==> Flag.PowerOn in state && UserPowerOff !in state && lastPwron == now)
        && (!allowed ==> state == old(state) && lastPwron == old(lastPwron))
      ensures state - {Flag.PowerOn, UserPowerOff} == old(state) - {Flag.PowerOn, UserPowerOff}
      ensures monitorDue == Some(now)
      ensures Announced(old(state), old(irqLine), old(pulseDue), now)
    {
      var fail := PowerOnAllowed(state, mon.vbat);
      if fail == PwrNone {
        lastPwron := now;
        var changed := SetStateBit(Flag.PowerOn, true, now);
        changed := SetStateBit(UserPowerOff, false, now);
        vccEn := true;
      }
      monitorDue := Some(now);
    }

    /** `powerOff`: POWER_ON cleared, USER_POWER_OFF set to whether the user
        asked, the supply switched off, the buzzer request dropped, and the
        monitor and buzzer tasks re-armed at once. */
    method PowerOff(user: bool, now: int)
      requires Valid()
      modifies this`state, this`irqLine, this`pulseDue, this`vccEn, this`buzzerFreq, this`monitorDue, this`buzzerDue
      ensures Valid()
      ensures Flag.PowerOn !in state && (UserPowerOff in state) == user && !vccEn
      ensures state - {Flag.PowerOn, UserPowerOff} == old(state) - {Flag.PowerOn, UserPowerOff}
      ensures buzzerFreq == 0 && monitorDue == Some(now) && buzzerDue == Some(now)
      ensures Announced(old(state), old(irqLine), old(pulseDue), now)
    {
      var changed := SetStateBit(Flag.PowerOn, false, now);
      changed := SetStateBit(UserPowerOff, user, now);
      vccEn := false;
      buzzerFreq := 0;
      monitorDue := Some(now);
      buzzerDue := Some(now);
    }
  
    /** The power-on part of `monitorTask`. An unpowered system that the
        user did not switch off is powered if power-on is allowed; a powered
        one is switched off (not by the user) once it no longer is. So the
        system ends up powered exactly when it was powered or not switched
        off by the user, and power-on is allowed. */
    method AutoPower(now: int)
      requires Valid()
      modifies this`state, this`irqLine, this`pulseDue, this`lastPwron, this`vccEn
      modifies this`monitorDue, this`buzzerFreq, this`buzzerDue
      ensures Valid()
      ensures var allowed := PowerOnAllowed(old(state), mon.vbat) == PwrNone;
        var wasOn := Flag.PowerOn in old(state);
        var userOff := UserPowerOff in old(state);
        && (Flag.PowerOn in state) == ((wasOn || !userOff) && allowed)
        && (UserPowerOff in state) == userOff
        && lastPwron == (if !wasOn && !userOff && allowed then now else old(lastPwron))
        && monitorDue == (if (!wasOn && !userOff) || (wasOn && !allowed) then Some(now) else old(monitorDue))
        && (wasOn && !allowed ==> buzzerFreq == 0 && buzzerDue == Some(now))
        && (!(wasOn && !allowed) ==> buzzerFreq == old(buzzerFreq) && buzzerDue == old(buzzerDue))
      ensures state - {Flag.PowerOn, UserPowerOff} == old(state) - {Flag.PowerOn, UserPowerOff}
      ensures Announced(old(state), old(irqLine), old(pulseDue), now)
    {
      ghost var s0 := state;
      if Flag.PowerOn !in state && UserPowerOff !in state && !AutoPowerOnDisabled(state, lastPwronFail) {
        PowerOn(now);
      }
      if Flag.PowerOn in state {
        var fail := PowerOnAllowed(state, mon.vbat);
        PowerOnAllowedIgnoresPower(state, s0, mon.vbat);
        if fail != PwrNone {
          PowerOff(false, now);
        }
      }
    }

    /** The cadence part of `monitorTask`: the monitor task is re-armed
        after the period NextTimeout picks, or, when it picks none, deep
        sleep is allowed (the monitor and watchdog tasks are cancelled).
        `wakePinHigh` is whether the DCIN or power-key pin reads high. */
    method ScheduleNext(now: int, wakePinHigh: bool)
      modifies this`monitorDue, this`watchdogDue
      ensures var next := NextTimeout(state, now - dcinConnected, wakePinHigh);
        && (next.None? ==> monitorDue == None && watchdogDue == None)
        && (next.Some? ==> monitorDue == Some(now + next.value) && watchdogDue == old(watchdogDue))
    {
      var next := NextTimeout(state, now - dcinConnected, wakePinHigh);
      if next.None? {
        AllowDeepSleep(true, now);
      } else {
        monitorDue := Some(now + next.value);
      }
    }

    /** `allowDeepSleep`: allowing it cancels the monitor and watchdog
        tasks, so nothing is left to run; forbidding it runs both at once. */
    method AllowDeepSleep(flag: bool, now: int)
      modifies this`monitorDue, this`watchdogDue
      ensures flag ==> monitorDue == None && watchdogDue == None
      ensures !flag ==> monitorDue == Some(now) && watchdogDue == Some(now)
    {
      if flag {
        monitorDue, watchdogDue := None, None;
      } else {
        monitorDue, watchdogDue := Some(now), Some(now);
      }
    }

    /** The flags `monitorTask` derives from the reading: presence and
        quality as UpdatePresence sets them, then both temperature bands.
        Because each pair of bands is more than twice the hysteresis wide,
        no pair ends up with both flags set. */
    method UpdateFlags(now: int)
      modifies this`state, this`irqLine, this`pulseDue, this`dcinConnected
      modifies this`lastChrgFailure, this`lastChrgFailureCnt, this`lastChrgFailureTime, this`dcinBadCnt
      ensures (DcinPresent in state) == mon.IsDcinPresent() && (DcinGood in state) == mon.IsDcinGood()
      ensures (BatPresent in state) == mon.IsBatPresent()
      ensures (BatLowTemp in state) == LowAfter(BatLowTemp in old(state), mon.batTemp, Config.T_MIN)
      ensures (BatHighTemp in state) == HighAfter(BatHighTemp in old(state), mon.batTemp, Config.T_MAX)
      ensures (BatChargeLowTemp in state) == LowAfter(BatChargeLowTemp in old(state), mon.batTemp, Config.T_CHRG_MIN)
      ensures (BatChargeHighTemp in state) == HighAfter(BatChargeHighTemp in old(state), mon.batTemp, Config.T_CHRG_MAX)
      ensures !(BatLowTemp in state && BatHighTemp in state)
      ensures !(BatChargeLowTemp in state && BatChargeHighTemp in state)
      ensures state - SENSED == old(state) - SENSED
      ensures Announced(old(state), old(irqLine), old(pulseDue), now)
    {
      ghost var s0 := state;
      UpdatePresence(now);
      ghost var s1 := state;
      CheckBatteryTemp(Config.T_MIN, Config.T_MAX, BatLowTemp, BatHighTemp, now);
      ghost var s2 := state;
      CheckBatteryTemp(Config.T_CHRG_MIN, Config.T_CHRG_MAX, BatChargeLowTemp, BatChargeHighTemp, now);
      Outside(s1, s0, {DcinPresent, DcinGood, BatPresent}, BatLowTemp);
      Outside(s1, s0, {DcinPresent, DcinGood, BatPresent}, BatHighTemp);
      Outside(s1, s0, {DcinPresent, DcinGood, BatPresent}, BatChargeLowTemp);
      Outside(s1, s0, {DcinPresent, DcinGood, BatPresent}, BatChargeHighTemp);
      Outside(s2, s1, {BatLowTemp, BatHighTemp}, BatChargeLowTemp);
      Outside(s2, s1, {BatLowTemp, BatHighTemp}, BatChargeHighTemp);
      Outside(state, s2, {BatChargeLowTemp, BatChargeHighTemp}, BatLowTemp);
      Outside(state, s2, {BatChargeLowTemp, BatChargeHighTemp}, BatHighTemp);
      Outside(state, s2, {BatChargeLowTemp, BatChargeHighTemp}, DcinPresent);
      Outside(state, s2, {BatChargeLowTemp, BatChargeHighTemp}, DcinGood);
      Outside(state, s2, {BatChargeLowTemp, BatChargeHighTemp}, BatPresent);
      Outside(s2, s1, {BatLowTemp, BatHighTemp}, DcinPresent);
      Outside(s2, s1, {BatLowTemp, BatHighTemp}, DcinGood);
      Outside(s2, s1, {BatLowTemp, BatHighTemp}, BatPresent);
      BandsExclusive(BatLowTemp in s1, BatHighTemp in s1, mon.batTemp, Config.T_MIN, Config.T_MAX);
      BandsExclusive(BatChargeLowTemp in s2, BatChargeHighTemp in s2, mon.batTemp, Config.T_CHRG_MIN, Config.T_CHRG_MAX);
      AgreeOutside(state, s2, s1, {BatChargeLowTemp, BatChargeHighTemp}, {BatLowTemp, BatHighTemp}, SENSED);
      AgreeOutside(state, s1, s0, SENSED, {DcinPresent, DcinGood, BatPresent}, SENSED);
    }

    /** The charging part of `monitorTask`: UpdateCharging, then the charger
        outputs. Charging ends up enabled only if the failure reason was
        NONE, in which case the bad-DCIN count is kept. */
    method UpdateCharger(chargerActive: bool, now: int)
      modifies this`state, this`irqLine, this`pulseDue, this`lastCharging, this`chargerEn
      modifies this`lastChrgFailure, this`lastChrgFailureTime, this`lastChrgFailureCnt, this`dcinBadCnt
      ensures BatChargeEn in state ==> ChargingAllowed(old(state), old(dcinBadCnt)) == ChrgNone && dcinBadCnt == old(dcinBadCnt)
      ensures (BatCharging in state) == (chargerActive && BatChargeEn in state)
      ensures chargerEn == (BatChargeEn in state)
      ensures state - {BatChargeEn, BatCharging} == old(state) - {BatChargeEn, BatCharging}
      ensures Announced(old(state), old(irqLine), old(pulseDue), now)
    {
      ghost var s0 := state;
      UpdateCharging(now);
      ghost var s1 := state;
      UpdateChargerOutputs(chargerActive, now);
      AgreeOutside(state, s1, s0, {BatCharging}, {BatChargeEn}, {BatChargeEn, BatCharging});
    }

    /** What `monitorTask` decides from a reading: the flags, the charge
        enable, the charger outputs and the power state, in that order.
        Afterwards the flags agree with the reading, charging is enabled
        only while every charging condition holds, the charging flag is the
        charger's status gated by the enable, and the system is powered
        only while power-on is allowed. */
    method Evaluate(chargerActive: bool, now: int)
      requires Valid()
      modifies this`state, this`irqLine, this`pulseDue, this`dcinConnected, this`lastCharging
      modifies this`lastChrgFailure, this`lastChrgFailureTime, this`lastChrgFailureCnt, this`dcinBadCnt
      modifies this`chargerEn, this`lastPwron, this`vccEn, this`monitorDue, this`buzzerFreq, this`buzzerDue
      ensures Valid()
      ensures (DcinPresent in state) == mon.IsDcinPresent() && (DcinGood in state) == mon.IsDcinGood()
      ensures (BatPresent in state) == mon.IsBatPresent()
      ensures BatChargeEn in state ==> ChargingAllowed(state, dcinBadCnt) == ChrgNone
      ensures (BatCharging in state) == (chargerActive && BatChargeEn in state)
      ensures Flag.PowerOn in state ==> PowerOnAllowed(state, mon.vbat) == PwrNone
      ensures Announced(old(state), old(irqLine), old(pulseDue), now)
    {
      ghost var s0 := state;
      UpdateFlags(now);
      ghost var s1 := state;
      UpdateCharger(chargerActive, now);
      ghost var s2 := state;
      AgreeOutside(s2, s1, s0, {BatChargeEn, BatCharging}, SENSED, SENSED + {BatChargeEn, BatCharging});
      Outside(s2, s0, SENSED + {BatChargeEn, BatCharging}, Flag.PowerOn);
      Outside(s2, s0, SENSED + {BatChargeEn, BatCharging}, UserPowerOff);
      SensedKept(s2, s1, {BatChargeEn, BatCharging});
      AutoPower(now);
      SensedKept(state, s2, {Flag.PowerOn, UserPowerOff});
      Outside(state, s2, {Flag.PowerOn, UserPowerOff}, BatChargeEn);
      Outside(state, s2, {Flag.PowerOn, UserPowerOff}, BatCharging);
      PowerOnAllowedIgnoresPower(state, s2, mon.vbat);
      AgreeOutside(state, s2, s1, {Flag.PowerOn, UserPowerOff}, {BatChargeEn, BatCharging}, CHARGE_AND_POWER);
      ChargingAllowedIgnoresOutputs(state, s1, dcinBadCnt);
    }

    /** `monitorTask`: a fresh reading, Evaluate, and the next period as
        ScheduleNext picks it from the final state. */
    method MonitorTask(s: Analog.Sampling, chargerActive: bool, wakePinHigh: bool)
      requires Valid()
      requires Analog.WellShaped(s.samples) && |s.keyLevels| == Analog.ADC_AVG_CNT
      requires Analog.Mean(s.samples, Analog.VREF) != 0 && s.tsCal1 != s.tsCal2
      modifies mon`vbat, mon`dcin, mon`cpuTemp, mon`batTemp, mon`batTempRaw, mon`dcinPresent
      modifies this`state, this`irqLine, this`pulseDue, this`dcinConnected, this`lastCharging
      modifies this`lastChrgFailure, this`lastChrgFailureTime, this`lastChrgFailureCnt, this`dcinBadCnt
      modifies this`chargerEn, this`lastPwron, this`vccEn, this`monitorDue, this`buzzerFreq, this`buzzerDue
      modifies this`watchdogDue
      ensures Valid()
      ensures (DcinPresent in state) == mon.IsDcinPresent() && (DcinGood in state) == mon.IsDcinGood()
      ensures (BatPresent in state) == mon.IsBatPresent()
      ensures BatChargeEn in state ==> ChargingAllowed(state, dcinBadCnt) == ChrgNone
      ensures (BatCharging in state) == (chargerActive && BatChargeEn in state)
      ensures Flag.PowerOn in state ==> PowerOnAllowed(state, mon.vbat) == PwrNone
      ensures DcinGood in state ==> DcinPresent in state
      ensures BatCharging in state ==> BatChargeEn in state
      ensures var next := NextTimeout(state, s.now - dcinConnected, wakePinHigh);
        && (next.None? ==> monitorDue == None && watchdogDue == None)
        && (next.Some? ==> monitorDue == Some(s.now + next.value))
      ensures Announced(old(state), old(irqLine), old(pulseDue), s.now)
    {
      mon.Read(s);
      Evaluate(chargerActive, s.now);
      ScheduleNext(s.now, wakePinHigh);
      mon.Thresholds();
    }

    /** `watchdogTask`: the watchdog is kicked and the task re-armed 5 s
        before the watchdog period runs out. */
    method WatchdogTask(now: int)
      modifies this`watchdogDue
      ensures watchdogDue == Some(now + Config.WATCHDOG_TIMEOUT - 5000)
    {
      watchdogDue := Some(now + Config.WATCHDOG_TIMEOUT - 5000);
    }

    /** `irqPulseTask`: the IRQ line is cleared when the pulse ends. */
    method IrqPulseTask()
      modifies this`irqLine
      ensures !irqLine
    {
      irqLine := false;
    }

    /** `buzzerTask`: the requested tone plays while a frequency is set (the
        volume is the duty cycle), and the buzzer stops otherwise. */
    method BuzzerTask(player: Buzzer.Player, apb1: uint32)
      requires player.Valid()
      modifies player
      ensures player.Valid()
      ensures buzzerFreq != 0 ==> player.playing && Buzzer.IsLeastPrescaler(apb1, Buzzer.ClampFreq(buzzerFreq), player.prescaler + 1)
      ensures buzzerFreq == 0 ==> !player.playing
    {
      if buzzerFreq != 0 {
        player.Play(apb1, buzzerFreq, buzzerVol);
      } else {
        player.Stop();
      }
    }

    /** `onDcinChange`, `onBatChange` and `onChargerStatus`: any change of
        those inputs runs the monitor task at once. */
    method OnInputChange(now: int)
      modifies this`monitorDue
      ensures monitorDue == Some(now)
    {
      monitorDue := Some(now);
    }

    /** `onPwrKey`: a press starts ignoring the DCIN reading and a release
        (short or long) stops it; then the flags change as KeyFlags says,
        and the monitor task runs at once. */
    method OnPwrKey(evt: Buttons.Event, now: int)
      requires Valid()
      modifies mon`ignoreDcin, mon`lastDcinIgnore, this`lastPwronFail
      modifies this`state, this`irqLine, this`pulseDue, this`vccEn, this`buzzerFreq, this`monitorDue, this`buzzerDue
      ensures Valid()
      ensures evt == Buttons.Press ==> mon.ignoreDcin && mon.lastDcinIgnore == now + 1000
      ensures evt == Buttons.Release || evt == Buttons.LongRelease ==> !mon.ignoreDcin && mon.lastDcinIgnore == now + 1000
      ensures evt == Buttons.LongPress ==> mon.ignoreDcin == old(mon.ignoreDcin) && mon.lastDcinIgnore == old(mon.lastDcinIgnore)
      ensures evt == Buttons.LongPress ==>
        Flag.PowerOn !in state && UserPowerOff in state && !vccEn && buzzerFreq == 0 && buzzerDue == Some(now)
      ensures evt != Buttons.LongPress ==>
        && (Flag.PowerOn in state) == (Flag.PowerOn in old(state)) && vccEn == old(vccEn)
        && buzzerFreq == old(buzzerFreq) && buzzerDue == old(buzzerDue)
      ensures evt == Buttons.Release ==> UserPowerOff !in state
      ensures evt == Buttons.Press || evt == Buttons.LongRelease ==> (UserPowerOff in state) == (UserPowerOff in old(state))
      ensures (PwrKeyPressed in state) == (evt == Buttons.Press || evt == Buttons.LongPress)
      ensures state - KEY_FLAGS == old(state) - KEY_FLAGS
      ensures monitorDue == Some(now)
      ensures Announced(old(state), old(irqLine), old(pulseDue), now)
    {
      if evt == Buttons.Press {
        mon.IgnoreDcinVoltage(true, now);
      }
      if evt == Buttons.Release || evt == Buttons.LongRelease {
        mon.IgnoreDcinVoltage(false, now);
      }
      KeyFlags(evt, now);
      monitorDue := Some(now);
    }

    /** The flag part of `onPwrKey`: a short release clears the user's
        power-off and the last power-on failure; a long press powers the
        system off as the user; the key flag follows whether the key is
        held. */
    method KeyFlags(evt: Buttons.Event, now: int)
      requires Valid()
      modifies this`lastPwronFail, this`state, this`irqLine, this`pulseDue, this`vccEn, this`buzzerFreq
      modifies this`monitorDue, this`buzzerDue
      ensures Valid()
      ensures evt == Buttons.LongPress ==>
        Flag.PowerOn !in state && UserPowerOff in state && !vccEn && buzzerFreq == 0 && buzzerDue == Some(now)
      ensures evt != Buttons.LongPress ==>
        && (Flag.PowerOn in state) == (Flag.PowerOn in old(state)) && vccEn == old(vccEn)
        && buzzerFreq == old(buzzerFreq) && buzzerDue == old(buzzerDue)
      ensures evt == Buttons.Release ==> UserPowerOff !in state
      ensures evt == Buttons.Press || evt == Buttons.LongRelease ==> (UserPowerOff in state) == (UserPowerOff in old(state))
      ensures (PwrKeyPressed in state) == (evt == Buttons.Press || evt == Buttons.LongPress)
      ensures state - KEY_FLAGS == old(state) - KEY_FLAGS
      ensures Announced(old(state), old(irqLine), old(pulseDue), now)
    {
      var changed: bool;
      ghost var s0 := state;
      if evt == Buttons.Release {
        lastPwronFail := PwrNone;
        changed := SetStateBit(UserPowerOff, false, now);
      }
      if evt == Buttons.LongPress {
        PowerOff(true, now);
      }
      ghost var s1 := state;
      changed := SetStateBit(PwrKeyPressed, evt == Buttons.Press || evt == Buttons.LongPress, now);
      AgreeOutside(state, s1, s0, {PwrKeyPressed}, {Flag.PowerOn, UserPowerOff}, KEY_FLAGS);
    }

    /** The readings `readReg` reports, as the monitor's getters give them. */
    function Report(): Readings
      reads mon`vbat, mon`batTemp, mon`dcinPresent, mon`dcin, mon`cpuTemp
    {
      Readings(mon.vbat, mon.batTemp, mon.GetBatPct(), mon.GetDcin(), mon.cpuTemp)
    }

    /** `readReg`: the register's value; reading IRQ_STATUS acknowledges the
        interrupt, raising the line and cancelling the pending pulse.
        `rtcTime` is what the RTC reads at that moment. */
    method ReadReg(reg: uint8, rtcTime: uint32) returns (r: uint32)
      modifies this`irqLine, this`pulseDue
      ensures r == RegValue(reg, state, Report(), rtcTime)
      ensures reg == REG_IRQ_STATUS ==> irqLine && pulseDue == None
      ensures reg != REG_IRQ_STATUS ==> irqLine == old(irqLine) && pulseDue == old(pulseDue)
    {
      if reg == REG_IRQ_STATUS {
        irqLine := true;
        pulseDue := None;
      }
      r := RegValue(reg, state, Report(), rtcTime);
    }

    /** `writeReg`. POWER_OFF takes 0 (power on, if allowed), 1 (shut down
        as the user) or 2 (reboot: power off, not as the user, and look
        again in 2 s); RTC_TIME sets the RTC to the broken-down form of the
        Unix time; PLAY_BUZZER takes a 16-bit frequency above an 8-bit
        volume and starts the buzzer task. Any other register or
        POWER_OFF value changes nothing. */
    method WriteReg(reg: uint8, value: uint32, now: int)
      requires Valid()
      modifies this`state, this`irqLine, this`pulseDue, this`lastPwron, this`vccEn, this`monitorDue
      modifies this`buzzerFreq, this`buzzerVol, this`buzzerDue, this`rtcSet
      ensures Valid()
      ensures reg == REG_POWER_OFF && value == 0 ==>
        && (PowerOnAllowed(old(state), mon.vbat) == PwrNone ==> Flag.PowerOn in state && UserPowerOff !in state)
        && (PowerOnAllowed(old(state), mon.vbat) != PwrNone ==> state == old(state))
        && monitorDue == Some(now)
      ensures reg == REG_POWER_OFF && value == 1 ==>
        Flag.PowerOn !in state && UserPowerOff in state && !vccEn && buzzerFreq == 0 && monitorDue == Some(now)
      ensures reg == REG_POWER_OFF && value == 2 ==>
        Flag.PowerOn !in state && UserPowerOff !in state && !vccEn && buzzerFreq == 0 && monitorDue == Some(now + 2000)
      ensures reg == REG_POWER_OFF && value <= 2 ==> state - {Flag.PowerOn, UserPowerOff} == old(state) - {Flag.PowerOn, UserPowerOff}
      ensures reg == REG_RTC_TIME ==>
        && rtcSet.Some? && 1 <= rtcSet.value.month <= 12
        && Rtc.ToUnixTime(rtcSet.value.year, rtcSet.value.month, rtcSet.value.day,
                          rtcSet.value.hours, rtcSet.value.minutes, rtcSet.value.seconds) == value
        && state == old(state)
      ensures reg == REG_PLAY_BUZZER ==>
        && buzzerFreq < TWO_16 && buzzerVol < 256 && buzzerDue == Some(now)
        && value == value / 0x100_0000 * 0x100_0000 + buzzerFreq * 256 + buzzerVol
        && state == old(state)
      ensures reg != REG_RTC_TIME ==> rtcSet == old(rtcSet)
      ensures !(reg == REG_POWER_OFF && value <= 2) && reg != REG_RTC_TIME && reg != REG_PLAY_BUZZER ==>
        && state == old(state) && irqLine == old(irqLine) && pulseDue == old(pulseDue) && vccEn == old(vccEn)
        && monitorDue == old(monitorDue) && buzzerFreq == old(buzzerFreq) && buzzerVol == old(buzzerVol)
        && buzzerDue == old(buzzerDue)
      ensures Announced(old(state), old(irqLine), old(pulseDue), now)
    {
      if reg == REG_POWER_OFF {
        WritePowerOff(value, now);
      } else if reg == REG_RTC_TIME {
        WriteRtcTime(value);
      } else if reg == REG_PLAY_BUZZER {
        WritePlayBuzzer(value, now);
      }
    }

    /** The POWER_OFF case of `writeReg`. */
    method WritePowerOff(value: uint32, now: int)
      requires Valid()
      modifies this`state, this`irqLine, this`pulseDue, this`lastPwron, this`vccEn, this`monitorDue
      modifies this`buzzerFreq, this`buzzerDue
      ensures Valid()
      ensures value == 0 ==>
        && (PowerOnAllowed(old(state), mon.vbat) == PwrNone ==> Flag.PowerOn in state && UserPowerOff !in state)
        && (PowerOnAllowed(old(state), mon.vbat) != PwrNone ==> state == old(state))
        && monitorDue == Some(now)
      ensures value == 1 ==>
        Flag.PowerOn !in state && UserPowerOff in state && !vccEn && buzzerFreq == 0 && monitorDue == Some(now)
      ensures value == 2 ==>
        Flag.PowerOn !in state && UserPowerOff !in state && !vccEn && buzzerFreq == 0 && monitorDue == Some(now + 2000)
      ensures state - {Flag.PowerOn, UserPowerOff} == old(state) - {Flag.PowerOn, UserPowerOff}
      ensures value > 2 ==>
        && state == old(state) && irqLine == old(irqLine) && pulseDue == old(pulseDue) && vccEn == old(vccEn)
        && monitorDue == old(monitorDue) && buzzerFreq == old(buzzerFreq) && buzzerDue == old(buzzerDue)
      ensures Announced(old(state), old(irqLine), old(pulseDue), now)
    {
      if value == 0 {
        PowerOn(now);
      }
      if value == 1 {
        PowerOff(true, now);
      }
      if value == 2 {
        PowerOff(false, now);
        monitorDue := Some(now + 2000);
      }
    }

    /** The RTC_TIME case of `writeReg`: the RTC is set to the broken-down
        form of the Unix time, which converts back to that time. */
    method WriteRtcTime(value: uint32)
      modifies this`rtcSet
      ensures rtcSet.Some? && 1 <= rtcSet.value.month <= 12
      ensures 1 <= rtcSet.value.day <= Rtc.DaysInMonth(rtcSet.value.year, rtcSet.value.month)
      ensures Rtc.ToUnixTime(rtcSet.value.year, rtcSet.value.month, rtcSet.value.day,
                             rtcSet.value.hours, rtcSet.value.minutes, rtcSet.value.seconds) == value
    {
      var ok, tm := Rtc.FromUnixTime(value);
      rtcSet := Some(tm);
    }

    /** The PLAY_BUZZER case of `writeReg`: `(value >> 8) & 0xFFFF` is the
        frequency and `value & 0xFF` the volume; together they are the low
        three bytes of the value. */
    method WritePlayBuzzer(value: uint32, now: int)
      modifies this`buzzerFreq, this`buzzerVol, this`buzzerDue
      ensures buzzerFreq < TWO_16 && buzzerVol < 256
      ensures value == value / 0x100_0000 * 0x100_0000 + buzzerFreq * 256 + buzzerVol
      ensures buzzerDue == Some(now)
    {
      buzzerFreq := value / 256 % 65536;
      buzzerVol := value % 256;
      buzzerDue := Some(now);
    }
  }
}
