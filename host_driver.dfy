/** The Linux power-supply driver on the host side of the I2C link. It
    reads the PMIC's 32-bit registers with one four-byte block read each
    and exposes them as two power supplies, "dcin" (the mains charger) and
    "bat" (the battery). Readings in millivolts and milli-degrees become
    the kernel's microvolts and tenths of a degree, and the status word
    becomes the battery's status and health. */
module HostDriver {
  import opened CInt
  import opened PmicApp
  import Config

  /** The status bits the driver tests, `1 << 0` to `1 << 11`. */
  const PMIC_DCIN_GOOD: bv32 := 1 << 0
  const PMIC_DCIN_PRESENT: bv32 := 1 << 1
  const PMIC_BAT_PRESENT: bv32 := 1 << 2
  const PMIC_POWER_ON: bv32 := 1 << 3
  const PMIC_USER_POWER_OFF: bv32 := 1 << 4
  const PMIC_BAT_CHARGING: bv32 := 1 << 5
  const PMIC_BAT_CHARGE_EN: bv32 := 1 << 6
  const PMIC_BAT_LOW_TEMP: bv32 := 1 << 7
  const PMIC_BAT_HIGH_TEMP: bv32 := 1 << 8
  const PMIC_BAT_CHARGE_LOW_TEMP: bv32 := 1 << 9
  const PMIC_BAT_CHARGE_HIGH_TEMP: bv32 := 1 << 10
  const PMIC_PWR_KEY_PRESSED: bv32 := 1 << 11

  /** The driver's copy of the register numbers; it has none for the
      buzzer register, which it never uses. */
  const PMIC_REG_STATUS: uint8 := 0
  const PMIC_REG_IRQ_STATUS: uint8 := 1
  const PMIC_REG_BAT_VOLTAGE: uint8 := 2
  const PMIC_REG_BAT_TEMP: uint8 := 3
  const PMIC_REG_BAT_MIN_TEMP: uint8 := 4
  const PMIC_REG_BAT_MAX_TEMP: uint8 := 5
  const PMIC_REG_BAT_PCT: uint8 := 6
  const PMIC_REG_DCIN_VOLTAGE: uint8 := 7
  const PMIC_REG_CPU_TEMP: uint8 := 8
  const PMIC_REG_GET_MAX_BAT_VOLTAGE: uint8 := 9
  const PMIC_REG_GET_MIN_BAT_VOLTAGE: uint8 := 10
  const PMIC_REG_POWER_OFF: uint8 := 11
  const PMIC_REG_RTC_TIME: uint8 := 12

  /** The driver and the firmware agree on every status bit and on every
      register number the driver defines. The status-bit half compares two
      independent definitions (the driver's masks and the firmware's flag
      order); the register half holds by construction, because the shown
      firmware does not number its registers and the model takes the
      numbers from the driver. */
  lemma DriverMatchesFirmware()
    ensures PMIC_DCIN_GOOD == Mask(DcinGood) && PMIC_DCIN_PRESENT == Mask(DcinPresent)
    ensures PMIC_BAT_PRESENT == Mask(BatPresent) && PMIC_POWER_ON == Mask(Flag.PowerOn)
    ensures PMIC_USER_POWER_OFF == Mask(UserPowerOff) && PMIC_BAT_CHARGING == Mask(BatCharging)
    ensures PMIC_BAT_CHARGE_EN == Mask(BatChargeEn) && PMIC_BAT_LOW_TEMP == Mask(BatLowTemp)
    ensures PMIC_BAT_HIGH_TEMP == Mask(BatHighTemp) && PMIC_BAT_CHARGE_LOW_TEMP == Mask(BatChargeLowTemp)
    ensures PMIC_BAT_CHARGE_HIGH_TEMP == Mask(BatChargeHighTemp) && PMIC_PWR_KEY_PRESSED == Mask(PwrKeyPressed)
    ensures PMIC_REG_STATUS == REG_STATUS && PMIC_REG_IRQ_STATUS == REG_IRQ_STATUS
    ensures PMIC_REG_BAT_VOLTAGE == REG_BAT_VOLTAGE && PMIC_REG_BAT_TEMP == REG_BAT_TEMP
    ensures PMIC_REG_BAT_MIN_TEMP == REG_BAT_MIN_TEMP && PMIC_REG_BAT_MAX_TEMP == REG_BAT_MAX_TEMP
    ensures PMIC_REG_BAT_PCT == REG_BAT_PCT && PMIC_REG_DCIN_VOLTAGE == REG_DCIN_VOLTAGE
    ensures PMIC_REG_CPU_TEMP == REG_CPU_TEMP && PMIC_REG_GET_MAX_BAT_VOLTAGE == REG_GET_MAX_BAT_VOLTAGE
    ensures PMIC_REG_GET_MIN_BAT_VOLTAGE == REG_GET_MIN_BAT_VOLTAGE && PMIC_REG_POWER_OFF == REG_POWER_OFF
    ensures PMIC_REG_RTC_TIME == REG_RTC_TIME
  {
  }

  /** `stm32f0_pmic_read`: the SMBus block read returns how many bytes it
      got (or a negative error); anything but all four reads as 0, and four
      bytes are taken little-endian. */
  function PmicRead(ret: int, data: seq<uint8>): (v: uint32)
    requires |data| == 4
    ensures ret != 4 ==> v == 0
    ensures ret == 4 ==> LE32Bytes(v) == data
  {
    if ret != 4 then 0
    else
      BytesOfLE32(data);
      LE32(data)
  }

  /** A complete read returns exactly the value the firmware staged for
      transmission, so every register value crosses the link unchanged. */
  lemma ReadReturnsStaged(v: uint32)
    ensures PmicRead(4, LE32Bytes(v)) == v
  {
    LE32OfBytes(v);
  }

  /** A short or failed read cannot be told apart from a register holding
      0: for the status word it reads as "no flag set". */
  lemma FailedReadIsZero(ret: int, data: seq<uint8>)
    requires |data| == 4 && ret != 4
    ensures FromWord(PmicRead(ret, data) as bv32) == {}
  {
    var w := PmicRead(ret, data) as bv32;
    assert w == 0;
    forall f: Flag
      ensures f !in FromWord(w)
    {
      assert w & Mask(f) == 0;
    }
  }

  /** The power-supply properties the two supplies are asked for; `Other`
      stands for every property the driver does not know. */
  datatype Prop =
    | Online | Present | Status | Health | VoltageNow | VoltageMaxDesign
    | VoltageMinDesign | Capacity | Temp | Technology | Other(id: int)

  datatype ChargeStatus = Charging | Discharging | NotCharging | Full
  datatype BatHealth = Good | Overheat | Cold

  /** What `val->intval` is set to: a number or one of the kernel's
      enumerations. */
  datatype PropVal =
    | IntVal(i: int)
    | StatusVal(status: ChargeStatus)
    | HealthVal(health: BatHealth)
    | TechLiIon

  /** The property value, or the negative error code the callback returns. */
  datatype Reply = Ok(val: PropVal) | Err(code: int)

  const EINVAL: int := 22

  /** The properties each supply advertises. */
  const CHARGER_PROPS: set<Prop> := {Online, Present, VoltageNow, Temp}
  const BATTERY_PROPS: set<Prop> :=
    {Status, Health, Present, VoltageNow, Capacity, Temp, Technology, VoltageMaxDesign, VoltageMinDesign}

  /** Whether `word & mask` is non-zero. */
  predicate Has(word: bv32, mask: bv32)
  {
    word & mask != 0
  }

  /** `(s32) raw * 1000` in the kernel's 32-bit int arithmetic, which wraps
      on overflow. */
  function Micro(raw: uint32): (r: int)
    ensures -TWO_31 <= r < TWO_31
  {
    S32(U32(S32(raw) * 1000))
  }

  /** `(s32) raw / d`, truncating toward zero as C does. */
  function Scaled(raw: uint32, d: int): (r: int)
    requires d > 0
  {
    CDiv(S32(raw), d)
  }

  /** A reading of at most 2147483 in magnitude is multiplied by 1000
      exactly; only larger values would wrap. */
  lemma MicroExact(raw: uint32)
    requires -2147483 <= S32(raw) <= 2147483
    ensures Micro(raw) == S32(raw) * 1000
  {
    S32OfU32(S32(raw) * 1000);
  }

  /** The division keeps the sign and drops the remainder toward zero:
      scaling the result back up gives the reading within less than d, on
      the zero side. */
  lemma ScaledTruncates(x: int, d: int)
    requires d > 0
    ensures x >= 0 ==> 0 <= CDiv(x, d) * d <= x < CDiv(x, d) * d + d
    ensures x < 0 ==> CDiv(x, d) * d - d < x <= CDiv(x, d) * d <= 0
  {
    if x >= 0 {
      CDivModPositive(x, d);
      if CDiv(x, d) * d < 0 {
        NegativeFactor(CDiv(x, d), d);
      }
    } else {
      CDivModNegDividend(x, d);
      assert CDiv(x, d) <= 0;
      MulNeg(CDiv(x, d), d);
      if CDiv(x, d) * d > 0 {
        NegativeFactor(-CDiv(x, d), d);
      }
    }
  }

  /** `stm32f0_pmic_charger_get_property`: "dcin" is online when the
      supply is good and present when it is detected; its voltage is
      reported in microvolts and the MCU temperature in tenths of a degree.
      Every other property is refused with -EINVAL. */
  function ChargerGetProperty(psp: Prop, read: uint8 -> uint32): (r: Reply)
    ensures r.Err? <==> psp !in CHARGER_PROPS
    ensures r.Err? ==> r.code == -EINVAL
    ensures r.Ok? ==> r.val.IntVal?
  {
    match psp
    case Online => Ok(IntVal(if Has(read(PMIC_REG_STATUS) as bv32, PMIC_DCIN_GOOD) then 1 else 0))
    case Present => Ok(IntVal(if Has(read(PMIC_REG_STATUS) as bv32, PMIC_DCIN_PRESENT) then 1 else 0))
    case VoltageNow => Ok(IntVal(Micro(read(PMIC_REG_DCIN_VOLTAGE))))
    case Temp => Ok(IntVal(Scaled(read(PMIC_REG_CPU_TEMP), 100)))
    case _ => Err(-EINVAL)
  }

  /** The battery status from the status word: discharging without a good
      supply; with one, charging or full while charging is enabled (as the
      charger reports activity), not charging otherwise. */
  function BatteryStatus(word: bv32): ChargeStatus
  {
    if Has(word, PMIC_DCIN_GOOD) then
      if Has(word, PMIC_BAT_CHARGE_EN) then
        if Has(word, PMIC_BAT_CHARGING) then Charging else Full
      else NotCharging
    else Discharging
  }

  /** The battery health from the status word: overheat if either high
      temperature band is flagged, else cold if either low band is, else
      good. */
  function BatteryHealth(word: bv32): BatHealth
  {
    if Has(word, PMIC_BAT_HIGH_TEMP | PMIC_BAT_CHARGE_HIGH_TEMP) then Overheat
    else if Has(word, PMIC_BAT_LOW_TEMP | PMIC_BAT_CHARGE_LOW_TEMP) then Cold
    else Good
  }

  /** `stm32f0_pmic_battery_get_property`: "bat" answers its advertised
      properties, and also ONLINE (the inverse of "supply good"), which it
      does not advertise; every other property is refused with -EINVAL.
      Voltages go to microvolts, the charge level from thousandths of a
      percent to percent, the temperature to tenths of a degree, and the
      chemistry is always lithium-ion. */
  function BatteryGetProperty(psp: Prop, read: uint8 -> uint32): (r: Reply)
    ensures r.Err? <==> psp !in BATTERY_PROPS && psp != Online
    ensures r.Err? ==> r.code == -EINVAL
    ensures psp == Technology ==> r == Ok(TechLiIon)
  {
    match psp
    case Online => Ok(IntVal(if Has(read(PMIC_REG_STATUS) as bv32, PMIC_DCIN_GOOD) then 0 else 1))
    case Present => Ok(IntVal(if Has(read(PMIC_REG_STATUS) as bv32, PMIC_BAT_PRESENT) then 1 else 0))
    case Status => Ok(StatusVal(BatteryStatus(read(PMIC_REG_STATUS) as bv32)))
    case Health => Ok(HealthVal(BatteryHealth(read(PMIC_REG_STATUS) as bv32)))
    case VoltageMaxDesign => Ok(IntVal(Micro(read(PMIC_REG_GET_MAX_BAT_VOLTAGE))))
    case VoltageMinDesign => Ok(IntVal(Micro(read(PMIC_REG_GET_MIN_BAT_VOLTAGE))))
    case VoltageNow => Ok(IntVal(Micro(read(PMIC_REG_BAT_VOLTAGE))))
    case Capacity => Ok(IntVal(Scaled(read(PMIC_REG_BAT_PCT), 1000)))
    case Temp => Ok(IntVal(Scaled(read(PMIC_REG_BAT_TEMP), 100)))
    case Technology => Ok(TechLiIon)
    case _ => Err(-EINVAL)
  }

  /** The link as the host sees it when every read completes: each
      register reads as the firmware's `readReg` answer for the given
      state, readings and clock. */
  ghost predicate Serves(read: uint8 -> uint32, s: State, m: Readings, rtcTime: uint32)
  {
    forall reg :: read(reg) == RegValue(reg, s, m, rtcTime)
  }

  /** The status register reaches the host as the firmware's status word,
      bit for bit. */
  lemma StatusReadsWord(read: uint8 -> uint32, s: State, m: Readings, rtcTime: uint32)
    requires Serves(read, s, m, rtcTime)
    ensures read(PMIC_REG_STATUS) as bv32 == Word(s)
  {
    assert read(PMIC_REG_STATUS) == RegValue(REG_STATUS, s, m, rtcTime);
    WordRoundTrip(Word(s));
  }

  /** A bit-vector converted to a number and back is unchanged. */
  lemma WordRoundTrip(w: bv32)
    ensures (w as int) as bv32 == w
  {
  }

  /** The status word tests an OR of two masks exactly when it tests one of
      them. */
  lemma HasEither(w: bv32, a: bv32, b: bv32)
    ensures w & (a | b) != 0 <==> w & a != 0 || w & b != 0
  {
    assert w & (a | b) == (w & a) | (w & b);
  }

  /** The status the host reports, in terms of the firmware's flags. */
  function ExpectedStatus(s: State): ChargeStatus
  {
    if DcinGood !in s then Discharging
    else if BatChargeEn !in s then NotCharging
    else if BatCharging in s then Charging
    else Full
  }

  /** The health the host reports, in terms of the firmware's flags. */
  function ExpectedHealth(s: State): BatHealth
  {
    if BatHighTemp in s || BatChargeHighTemp in s then Overheat
    else if BatLowTemp in s || BatChargeLowTemp in s then Cold
    else Good
  }

  /** On the firmware's status word the battery status decodes to the
      status the flags describe. */
  lemma StatusOfWord(s: State)
    ensures BatteryStatus(Word(s)) == ExpectedStatus(s)
  {
    WordBits(s, DcinGood);
    WordBits(s, BatChargeEn);
    WordBits(s, BatCharging);
  }

  /** On the firmware's status word the battery health decodes to the
      health the temperature flags describe. */
  lemma HealthOfWord(s: State)
    ensures BatteryHealth(Word(s)) == ExpectedHealth(s)
  {
    var w := Word(s);
    HasEither(w, PMIC_BAT_HIGH_TEMP, PMIC_BAT_CHARGE_HIGH_TEMP);
    HasEither(w, PMIC_BAT_LOW_TEMP, PMIC_BAT_CHARGE_LOW_TEMP);
    WordBits(s, BatHighTemp);
    WordBits(s, BatChargeHighTemp);
    WordBits(s, BatLowTemp);
    WordBits(s, BatChargeLowTemp);
  }

  /** The "dcin" supply and the battery's ONLINE and PRESENT properties
      mirror the firmware's flags: online is "supply good", present is
      "supply detected", the battery is online exactly when the supply is
      not good, and it is present when its presence flag is on. */
  lemma PresenceMirrorsFlags(read: uint8 -> uint32, s: State, m: Readings, rtcTime: uint32)
    requires Serves(read, s, m, rtcTime)
    ensures ChargerGetProperty(Online, read) == Ok(IntVal(if DcinGood in s then 1 else 0))
    ensures ChargerGetProperty(Present, read) == Ok(IntVal(if DcinPresent in s then 1 else 0))
    ensures BatteryGetProperty(Online, read) == Ok(IntVal(if DcinGood in s then 0 else 1))
    ensures BatteryGetProperty(Present, read) == Ok(IntVal(if BatPresent in s then 1 else 0))
  {
    StatusReadsWord(read, s, m, rtcTime);
    WordBits(s, DcinGood);
    WordBits(s, DcinPresent);
    WordBits(s, BatPresent);
  }

  /** The battery status follows the flags; in particular the host sees
      CHARGING exactly when the supply is good and the charger is enabled
      and active, and FULL when it is enabled but idle. */
  lemma StatusMirrorsFlags(read: uint8 -> uint32, s: State, m: Readings, rtcTime: uint32)
    requires Serves(read, s, m, rtcTime)
    ensures BatteryGetProperty(Status, read) == Ok(StatusVal(ExpectedStatus(s)))
    ensures ExpectedStatus(s) == Charging <==> DcinGood in s && BatChargeEn in s && BatCharging in s
    ensures ExpectedStatus(s) == Full <==> DcinGood in s && BatChargeEn in s && BatCharging !in s
  {
    StatusReadsWord(read, s, m, rtcTime);
    StatusOfWord(s);
  }

  /** The battery health follows the temperature flags: overheat whenever a
      high band is flagged, cold when only a low band is, good when none
      is. */
  lemma HealthMirrorsFlags(read: uint8 -> uint32, s: State, m: Readings, rtcTime: uint32)
    requires Serves(read, s, m, rtcTime)
    ensures BatteryGetProperty(Health, read) == Ok(HealthVal(ExpectedHealth(s)))
    ensures ExpectedHealth(s) == Good <==> s * {BatLowTemp, BatHighTemp, BatChargeLowTemp, BatChargeHighTemp} == {}
  {
    StatusReadsWord(read, s, m, rtcTime);
    HealthOfWord(s);
    var temps := {BatLowTemp, BatHighTemp, BatChargeLowTemp, BatChargeHighTemp};
    if ExpectedHealth(s) != Good {
      if BatHighTemp in s {
        assert BatHighTemp in s * temps;
      } else if BatChargeHighTemp in s {
        assert BatChargeHighTemp in s * temps;
      } else if BatLowTemp in s {
        assert BatLowTemp in s * temps;
      } else {
        assert BatChargeLowTemp in s * temps;
      }
    }
  }

  /** The capacity the host shows is the charge level in whole percent,
      between 0 and 100, and never above 99 while charging, because the
      firmware caps the level it reports during a charge. */
  lemma CapacityInPercent(read: uint8 -> uint32, s: State, m: Readings, rtcTime: uint32)
    requires Serves(read, s, m, rtcTime)
    requires 0 <= m.batPct <= 100000
    ensures BatteryGetProperty(Capacity, read).Ok?
    ensures var c := BatteryGetProperty(Capacity, read).val.i;
      && 0 <= c <= 100
      && (BatCharging !in s ==> c == m.batPct / 1000)
      && (BatCharging in s ==> c == (if m.batPct > 99000 then 99 else m.batPct / 1000))
  {
    var raw := read(PMIC_REG_BAT_PCT);
    assert raw == RegValue(REG_BAT_PCT, s, m, rtcTime);
    assert S32(raw) == raw;
    DivMonotone(raw, 100000, 1000);
  }

  /** Temperatures reach the host in tenths of a degree, truncated toward
      zero from the firmware's milli-degrees, and the voltages in microvolts:
      the supply and battery voltages as measured, and the design limits as
      configured. */
  lemma ReadingsInKernelUnits(read: uint8 -> uint32, s: State, m: Readings, rtcTime: uint32)
    requires Serves(read, s, m, rtcTime)
    requires -TWO_31 <= m.batTemp < TWO_31 && -TWO_31 <= m.cpuTemp < TWO_31
    requires 0 <= m.vbat <= 2147483 && 0 <= m.dcin <= 2147483
    ensures BatteryGetProperty(Temp, read) == Ok(IntVal(CDiv(m.batTemp, 100)))
    ensures ChargerGetProperty(Temp, read) == Ok(IntVal(CDiv(m.cpuTemp, 100)))
    ensures BatteryGetProperty(VoltageNow, read) == Ok(IntVal(m.vbat * 1000))
    ensures ChargerGetProperty(VoltageNow, read) == Ok(IntVal(m.dcin * 1000))
    ensures BatteryGetProperty(VoltageMaxDesign, read) == Ok(IntVal(Config.V_MAX * 1000))
    ensures BatteryGetProperty(VoltageMinDesign, read) == Ok(IntVal(Config.V_MIN * 1000))
  {
    SignedRegisters(s, m, rtcTime);
    assert read(PMIC_REG_BAT_TEMP) == RegValue(REG_BAT_TEMP, s, m, rtcTime);
    assert read(PMIC_REG_CPU_TEMP) == RegValue(REG_CPU_TEMP, s, m, rtcTime);
    var vb := read(PMIC_REG_BAT_VOLTAGE);
    var dc := read(PMIC_REG_DCIN_VOLTAGE);
    var vmax := read(PMIC_REG_GET_MAX_BAT_VOLTAGE);
    var vmin := read(PMIC_REG_GET_MIN_BAT_VOLTAGE);
    assert vb == RegValue(REG_BAT_VOLTAGE, s, m, rtcTime) == m.vbat;
    assert dc == RegValue(REG_DCIN_VOLTAGE, s, m, rtcTime) == m.dcin;
    assert vmax == RegValue(REG_GET_MAX_BAT_VOLTAGE, s, m, rtcTime) == Config.V_MAX;
    assert vmin == RegValue(REG_GET_MIN_BAT_VOLTAGE, s, m, rtcTime) == Config.V_MIN;
    MicroExact(vb);
    MicroExact(dc);
    MicroExact(vmax);
    MicroExact(vmin);
  }
}
