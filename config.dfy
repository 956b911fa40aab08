/** The numbers of the firmware's configuration header, in the integer form
    the firmware computes them in (millivolts, thousandths of a degree
    Celsius, milliseconds). */
module Config {

  const WATCHDOG_TIMEOUT: int := 60000

  const CHARGING_BAD_TEMP_TIMEOUT: int := 1000 * 60 * 30
  const CHARGING_LOST_DCIN_TIMEOUT: int := 1000 * 5
  const CHARGING_BAD_DCIN_TIMEOUT: int := 1000 * 60 * 30
  const MIN_CHARGE_TIME: int := 1000 * 60

  // Battery settings
  const V_MIN: int := 3400
  const V_MAX: int := 4150
  const V_SHUTDOWN: int := 3300
  const V_PRESENCE: int := 2500
  const T_MAX: int := 45000
  const T_MIN: int := -20000
  const T_CHRG_MAX: int := 40000
  const T_CHRG_MIN: int := 5000
  const T_HYSTERESIS: int := 4000

  const DCIN_MIN_VOLTAGE: int := 4500

  // Voltage divider ratios, in thousandths
  const DCIN_RDIV: int := 2000
  const VBAT_RDIV: int := 2000

  /** Two-point calibration of a temperature sensor: T[k] is reached at value[k]. */
  datatype Temp = Temp(t0: int, t1: int, value0: int, value1: int)

  /** Diode sensor of the battery temperature. */
  const BAT_TEMP: Temp := Temp(19000, 45000, 592, 536)

  /** The die sensor; its two values are factory calibration words read from ROM. */
  function CpuTemp(tsCal1: int, tsCal2: int): Temp {
    Temp(30000, 110000, tsCal1, tsCal2)
  }
}
