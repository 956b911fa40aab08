# A verified model of the stm32f0 PMIC firmware and its Linux driver

This project models the battery power-management controller (PMIC) that runs on an STM32F0, together with the Linux power-supply driver that talks to it over I2C. Everything is written in Dafny.

The firmware does the following:

- It samples the battery voltage, the DCIN (mains input) voltage and two temperatures with the ADC, averaging ten rounds.
- It keeps a 12-bit state word of flags: DCIN good/present, battery present, power on, user power-off, charging, charge enabled, four temperature flags and the power key.
- From that word it decides when to enable the charger and when to switch system power on or off. Temperature flags have hysteresis. Failures are counted and followed by cooldowns.
- It serves a register map over a byte-level I2C slave protocol.
- It runs all of this on a cooperative scheduler: tasks sit in an intrusive doubly linked list and the loop sleeps with SysTick until the next deadline.
- It debounces the power key with a three-state button machine driven by three timers.
- It converts between Unix time and calendar fields for the RTC.

The host driver reads the registers and turns the state word into the kernel's battery status and health. It also converts the readings into kernel units.

The model has one module per component:

| module | component |
|---|---|
| `CInt` | C integer semantics (32-bit wrap, truncating division, little-endian byte order) |
| `Config` | the configuration constants |
| `Utils` | `idec`/`iexp`, the critical-section counter |
| `Gpio` | pin and bank index maps |
| `Exti` | the EXTI channel table |
| `Buzzer` | buzzer timer set-up |
| `Rtc` | calendar and BCD arithmetic |
| `SysTick` | tick arithmetic of the idle wait |
| `Scheduler` | `Task` and `Loop` |
| `Buttons` | the debounced button |
| `I2C` | the register byte protocol |
| `Analog` | `AnalogMon` |
| `PmicApp` | the decision engine `App` |
| `HostDriver` | the Linux driver |

The firmware's state changes in place, so the stateful parts are Dafny classes: the task list, the button, the I2C buffers, the EXTI table, the analog monitor and the application. The pure parts are functions with lemmas:

- the C integer semantics;
- the calendar and BCD arithmetic;
- the conversions;
- the failure classification;
- the register map;
- the driver's decoding.

Hardware effects become inputs or recorded fields:

- ADC samples, pin levels and SysTick readings are parameters.
- GPIO outputs become fields such as `irqLine`, `chargerEn` and `vccEn`.
- The application's timers become due times.

## Model

| member | source | states |
|---|---|---|
| CInt.S32 | linux/stm32f0-pmic.c:89 | the `(s32)` cast of a register value lies in the signed 32-bit range and converts back to the same unsigned word |
| CInt.CDivMod | src/AnalogMon.cpp:118 | C's truncating `/` and `%` satisfy a == q*b + r, with the remainder smaller than the divisor in magnitude and signed like the dividend |
| CInt.FloorFixUp | src/RTC.cpp:150-163 | the correction step after a truncating division (a negative remainder adds the divisor and lowers the quotient by one) yields floor division and a non-negative remainder |
| CInt.LE32OfBytes | src/I2CSlave.cpp:58-63 | a value staged as four little-endian bytes is read back unchanged by the STOP decoding |
| CInt.BytesOfLE32 | src/I2CSlave.cpp:77-80 | any four received bytes are exactly the little-endian bytes of the value they decode to |
| Utils.Idec | src/utils.cpp:17-22 | on unbounded integers, `idec(v, n)` is 0 for n <= 0 and otherwise v / 10^n truncated toward zero (the C int arithmetic agrees for n <= 8, see IntermediatesFitInt). The remainder is below 10^n and signed like v. The inline copy at src/utils.h:10-15 is the same function |
| Utils.PowerLoop | src/utils.h:11-13 | on unbounded integers, the counting loop leaves div = 10^n for n >= 1 and 0 otherwise; in C int this holds for n <= 9 |
| Utils.IntermediatesFitInt | src/utils.cpp:24-29 | for a 32-bit v and 1 <= n <= 8, the divisor, `idec(v, n) * div` and the scaled remainder all fit a 32-bit int, so the unbounded model is exact there; at n = 10 the divisor overflows |
| Utils.Truncation | src/utils.h:14 | truncating division by a positive power leaves a remainder of magnitude below the divisor, signed like the dividend |
| Utils.Iexp | src/utils.cpp:24-29 | on unbounded integers, the sign-corrected `iexp` is the first decimal digit below 10^n of abs(v), in 0..9 for every v and n >= 1; the C int arithmetic agrees for n <= 8 |
| Utils.InlineIexp | src/utils.h:17-22 | the header's `iexp` is that digit negated for negative v, so in -9..9 |
| Utils.DigitOfRemainder | src/utils.h:21 | (v mod 10^n)*10 / 10^n, both truncating, is the digit of abs(v), signed like v |
| Utils.InlineIexpOfNegative | src/utils.h:21 | for v = -1500 the header's `iexp` gives -5 where the sign-corrected one gives 5 |
| Utils.CriticalSection.constructor | src/utils.cpp:14 | the nesting counter starts at 0 with interrupts enabled |
| Utils.CriticalSection.Enter | src/utils.cpp:44-49 | ENTER_CRITICAL masks interrupts and adds one to the 32-bit counter |
| Utils.CriticalSection.Exit | src/utils.cpp:51-56 | EXIT_CRITICAL subtracts one with 32-bit wrap-around. Interrupts come back on exactly when the counter reaches 0. At 0 the counter wraps to 0xFFFFFFFF and the interrupt state is unchanged |
| Utils.CriticalSection.Nested | src/utils.cpp:44-56 | a balanced enter/exit pair restores the counter, and afterwards interrupts are enabled exactly when the counter is 0 |
| Gpio.Id2Pin | src/Gpio.h:28-30 | `1 << id` truncated to 16 bits is a non-zero single bit for ids 0..15 and 0 above |
| Gpio.Pin2Id | src/Gpio.h:6-26 | the switch yields an index below 16 |
| Gpio.Pin2IdOfId2Pin | src/Gpio.h:6-30 | pin2id(id2pin(i)) == i for 0 <= i <= 15 |
| Gpio.Pin2IdSpec | src/Gpio.h:6-26 | pin2id inverts id2pin on the sixteen single-bit masks and returns 0 for every other argument |
| Gpio.Id2Bank | src/Gpio.h:37-40 | id2bank is GPIO_PORT_A_BASE plus a multiple of the 0x400 bank stride |
| Gpio.Bank2IdOfId2Bank | src/Gpio.h:32-40 | bank2id(id2bank(i)) == i |
| Gpio.Id2BankOfBank2Id | src/Gpio.h:32-40 | id2bank(bank2id(p)) == p for every bank address on the 0x400 grid |
| Gpio.Bank2NameOfId2Bank | src/Gpio.h:42-45 | bank2name(id2bank(i)) is 'A' + i while that fits the 8-bit `char`, and wraps modulo 256 from i = 191 on (id 255 gives '@') |
| Exti.ErrorCode | src/Exti.h:39-43 | the error codes are non-positive and only ERR_SUCCESS is 0 |
| Exti.Slot | src/Exti.cpp:10 | a pin selects one of the sixteen slots, keyed by pin number only |
| Exti.EdgeState | src/Exti.cpp:76-82 | the reported state is the pin level with both edges enabled, true for rising only, and false without a rising edge |
| Exti.Registry.constructor | src/Exti.cpp:7 | the table starts with every slot free and no request, rising or falling edge enabled |
| Exti.Registry.Enable | src/Exti.cpp:9-17 | ERR_NOT_EXISTS when the slot is empty or belongs to another bank. Otherwise ERR_SUCCESS and the slot's request is unmasked |
| Exti.Registry.Disable | src/Exti.cpp:19-27 | always ERR_SUCCESS; the request is masked only when the slot belongs to that bank |
| Exti.Registry.Set | src/Exti.cpp:29-48 | an occupied slot gives ERR_EXISTS and changes nothing, even for the same pin in another bank. A free slot stores bank, callback and user data, selects the bank and the edges, and returns what `enable` returns |
| Exti.Registry.Remove | src/Exti.cpp:50-70 | as written: always ERR_SUCCESS and a non-matching slot is untouched. A matching slot is cleared and its source deselected, but its request stays unmasked (see Findings) |
| Exti.Registry.RemoveCorrected | src/Exti.cpp:50-70 | with `disable` before the slot is cleared, a matching slot is cleared and its request masked too |
| Exti.Registry.HandleIrq | src/Exti.cpp:72-86 | the interrupt goes to the slot's callback and user data, with the level chosen by the enabled edges |
| Exti.SamePinOtherBank | src/Exti.cpp:30-34 | registering pin 3 of bank A and then pin 3 of bank B gives ERR_SUCCESS and then ERR_EXISTS |
| Exti.RemoveKeepsRequest | src/Exti.cpp:50-70 | after set then remove as written, the slot's request is still unmasked |
| Exti.RemoveCorrectedMasksRequest | src/Exti.cpp:50-70 | after set then the corrected remove, the request is masked |
| Buzzer.ClampFreq | src/Buzzer.cpp:31 | the frequency is clamped to [20, 20000] and unchanged inside it |
| Buzzer.ClampDuty | src/Buzzer.cpp:32 | the duty is at most 100 and unchanged up to 100 |
| Buzzer.PrescalerBound | src/Buzzer.cpp:34-37 | any prescaler that still leaves the period at or above 0xFFFF is at most the APB1 clock, so the search ends |
| Buzzer.PrescalerSearch | src/Buzzer.cpp:34-37 | the do-while loop finds the least prescaler >= 1 whose period apb1/(psc*freq) is below 0xFFFF, with that period |
| Buzzer.DutyWithinHalfPeriod | src/Buzzer.cpp:39 | the compare value is at least 1 and at most half the period when the period is at least 2 |
| Buzzer.Player.constructor | src/Buzzer.cpp:8 | the buzzer starts silent with the timer clock and counter off |
| Buzzer.Player.Play | src/Buzzer.cpp:26-51 | the timer gets the least valid prescaler minus 1, the period minus 1 (32-bit) and the clamped duty's compare value, and the buzzer is playing |
| Buzzer.Player.Stop | src/Buzzer.cpp:53-60 | stopping a playing buzzer turns counter and clock off; stopping a silent one changes nothing |
| Rtc.EpochIsZero | src/RTC.cpp:132-140 | 1970-01-01 00:00:00 is time 0 |
| Rtc.ToUnixTimeExact | src/RTC.cpp:132-140 | for dates from the epoch on, the 32-bit arithmetic equals the exact day count times 86400 plus the clock seconds, taken mod 2^32 |
| Rtc.DaysSinceEpochLeaps | src/RTC.cpp:134-138 | the February-adjusted leap count from year -4800 equals 365 days a year plus the Gregorian leap years through the previous year, minus the 477 before 1970 |
| Rtc.ToUnixTimeIsPosix | src/RTC.cpp:132-140 | toUnixTime equals the seconds-since-the-epoch expression of POSIX.1-2017 Base Definitions section 4.16 (tm_year, tm_yday, hours, minutes, seconds), mod 2^32 |
| Rtc.LeapsNonNegative | src/RTC.cpp:138 | no year from 1970 on has fewer leap years than 1969 |
| Rtc.CyclesToYears | src/RTC.cpp:165-180 | 400-, 100- and 4-year cycles plus single years give back the same number of days as the years they count |
| Rtc.MarchToCivil | src/RTC.cpp:182-192 | a March-based year, month and day maps to the civil date whose day count is the same |
| Rtc.ClockSplit | src/RTC.cpp:193-195 | seconds of a day split into hours < 24, minutes < 60 and seconds < 60 that add back up |
| Rtc.FloorDivide | src/RTC.cpp:150-163 | a truncating division followed by the negative-remainder fix gives floor division with a remainder in [0, b) |
| Rtc.SplitEra | src/RTC.cpp:165-178 | the capped cycle counts are c <= 3, q <= 24, y <= 3, with remdays <= 365 inside the current sub-cycle, and they add back to the days. Day 365 is reached only in the last year of a 4-year cycle that is not a century's short last cycle |
| Rtc.SplitMonths | src/RTC.cpp:182-183 | the months loop stops at a month whose length exceeds the remaining days and accounts for every day |
| Rtc.CivilDate | src/RTC.cpp:180-192 | the years and the March-based day become a civil date from 1600 to 2400 whose day exists in its month, and whose day count from the Epoch is the one the cycles give |
| Rtc.LastDayIsLeap | src/RTC.cpp:165-178 | a March-based year that reaches day 365 ends in a leap February |
| Rtc.FromUnixTime | src/RTC.cpp:143-198 | fromUnixTime always succeeds with month 1..12, a day that exists in that month of that year (29 February only in leap years), hours < 24, minutes < 60, seconds < 60, and toUnixTime of its fields gives back t for every 32-bit t |
| Rtc.TwoDigits | src/RTC.cpp:26 | a value up to 99 splits into a tens and a units digit below 10 |
| Rtc.BCDRoundTripAt0 | src/RTC.cpp:21-27 | decodeBCD(encodeBCD(v)) == v for v <= 99 with units at bit 0 and tens at bit 4, when the tens mask holds v/10 |
| Rtc.BCDRoundTripAt8 | src/RTC.cpp:21-27 | the same round trip with units at bit 8 and tens at bit 12 |
| Rtc.BCDRoundTripAt16 | src/RTC.cpp:21-27 | the same round trip with units at bit 16 and tens at bit 20 |
| SysTick.CountsPerTick | src/Loop.cpp:19 | the counts per millisecond (AHB/8/1000) are at least 1 for a clock of at least 8 kHz |
| SysTick.MaxIdleCovers | src/Loop.cpp:20 | m_max_idle_time is the largest wait whose counts fit the 24-bit reload, and it is at least 31 ms on any 32-bit clock |
| SysTick.IdleChoice | src/Loop.cpp:46-53 | the loop idles only when the change counter did not move: one `wfi` for a 1 ms gap, `idleFor` for longer gaps, and another pass when the deadline has come |
| SysTick.SleepRequestExact | src/Loop.cpp:47-51 | a sleep request is the whole gap to the deadline, at least 2 ms and within the idle cap, so the clamp leaves it unchanged |
| SysTick.Clamp | src/Loop.cpp:58 | the clamped wait is the smaller of the request and the cap |
| SysTick.ReloadFits | src/Loop.cpp:69 | the reload value is the current count plus cpt*(idle-1) and stays within the 24-bit counter |
| SysTick.SleptAtMostIdle | src/Loop.cpp:88-95 | on waking the ticks advance by idle-1 if the counter reached zero and by the whole milliseconds elapsed otherwise, never more than the wait |
| SysTick.Elapsed | src/Loop.h:22-27 | `log()` returns 0 while no time was logged, else the milliseconds since the last call |
| Scheduler.AfterExec | src/Task.cpp:5-14 | after `exec` a repeating task is armed again with its stored interval from now, even if its callback cancelled it. A one-shot task stays disarmed unless its callback re-armed it, in which case that arming stands |
| Scheduler.Effect | src/Task.cpp:9-10 | what a callback does to its own task: cancel keeps repeat and interval, and a re-arm sets them |
| Scheduler.Bump | src/Loop.h:49-51 | the change counter moves by one, modulo 2^32 |
| Scheduler.Without | src/Task.cpp:43-71 | removing a task from the list leaves a list without it and no longer than before |
| Scheduler.WithoutAt | src/Task.cpp:51-66 | in a list without repetitions, removing the task at position k cuts out exactly that position and keeps the others in order |
| Scheduler.WithoutRemoved | src/Task.cpp:19-20 | removing a task again, even after it was appended, gives the same list (`run` drops the old position) |
| Scheduler.RemovedMembers | src/Task.cpp:51-66 | cancel keeps exactly the other tasks |
| Scheduler.WithoutKeeps | src/Task.cpp:51-66 | a task other than the cancelled one stays in the list |
| Scheduler.DeadlineIsMinimum | src/Loop.cpp:32-41 | the pass's deadline is at most the idle cap and every pending due time, and equals the cap or one of them |
| Scheduler.ExtendTrace | src/Loop.cpp:34-44 | one more visit, to the successor captured before `exec`, extends a valid pass and lowers the deadline to that task's due time when it is pending and earlier |
| Scheduler.Task.constructor | src/Task.h:11-18 | a new task is disabled, one-shot, unlinked, due at 0 with interval 0, and has no callback |
| Scheduler.Task.Init | src/Task.h:44-47 | `init` stores callback and user data only |
| Scheduler.Task.Run | src/Task.cpp:16-41 | the list becomes the old list without the task plus the task at the tail. The task is armed at now+ms with interval ms and repeat = loop, and the change counter moves once, or twice when the task was armed |
| Scheduler.Task.Append | src/Task.cpp:22-36 | the timing fields are set and the task becomes the new tail |
| Scheduler.Task.Link | src/Task.cpp:26-34 | the pointer writes leave a linked list with the task at the tail (and the head when the list was empty) |
| Scheduler.Task.Exec | src/Task.cpp:5-14 | the arming is AfterExec of the old arming, and the list keeps the task (at the tail) exactly when it ends armed |
| Scheduler.Task.Resume | src/Task.cpp:9-13 | after the one-shot disarm: the callback's effect, then the repeat re-arm |
| Scheduler.Task.Call | src/Task.cpp:9-10 | the callback's effect on its own task's arming and on the list |
| Scheduler.Task.SetTimeout | src/Task.h:51-53 | `setTimeout(ms)` is `run(ms, false)` |
| Scheduler.Task.SetInterval | src/Task.h:55-57 | `setInterval(ms)` is `run(ms, true)` |
| Scheduler.Task.Cancel | src/Task.cpp:43-71 | the list loses only this task and the others keep their order. Head, tail and neighbours are repaired and the task's links are nulled. The change counter moves once, and cancelling a disarmed task changes nothing |
| Scheduler.Task.Detach | src/Task.cpp:51-66 | the armed branch of cancel unlinks the task and disarms it |
| Scheduler.Task.Retire | src/Task.cpp:63-66 | a task already unlinked is marked disarmed and the list invariant holds again |
| Scheduler.Task.Unlink | src/Task.cpp:51-64 | the pointer surgery leaves a linked list without position k, with head and tail at its ends |
| Scheduler.Loop.LinkedAt | src/Task.h:36-42 | in a linked list, each task's prev and next are its neighbours in list order |
| Scheduler.Loop.RemovedLinked | src/Task.cpp:51-61 | re-linking the neighbours of position k leaves a linked list without repetitions |
| Scheduler.Loop.AppendedLinked | src/Task.cpp:26-34 | linking a new task behind the tail leaves a linked list without repetitions |
| Scheduler.Loop.OnChange | src/Loop.h:49-51 | the change counter moves by one |
| Scheduler.Loop.constructor | src/Loop.cpp:9-16 | the loop starts with an empty list and all counters at zero |
| Scheduler.Loop.Init | src/Loop.cpp:18-20 | for an AHB clock of at least 8 kHz (below it the source divides by zero), `init` derives counts per tick and an idle cap of at least 31 ms whose counts fit the reload register |
| Scheduler.Loop.SetFirst | src/Loop.h:33-35 | the head setter stores what `first()` returns next |
| Scheduler.Loop.SetLast | src/Loop.h:41-43 | the tail setter stores what `last()` returns next |
| Scheduler.Loop.Tick | src/Loop.h:45-47 | `tick()` adds exactly one millisecond to `ms()` |
| Scheduler.Loop.Log | src/Loop.h:22-27 | `log()` returns the elapsed milliseconds (0 on the first call) and records now |
| Scheduler.Loop.IdleFor | src/Loop.cpp:57-104 | the request is clamped and the reload fits the 24-bit counter. `ms()` advances by what SleptAtMostIdle gives, never decreases, and moves by no more than the request |
| Scheduler.Loop.Pass | src/Loop.cpp:31-44 | the pass walks the list from the head, following the successor read before each `exec`, and every visit executes its task exactly when it is armed and due. Each visit starts from the arming the earlier visits left, and every task ends with the arming its last visit left. With callbacks acting on their own task only, a task the pass never executed keeps its arming. A pass that reached the end executed every task armed and due when it began. Its deadline is at most ms() + max idle and no later than the due time of any task left in the list |
| Scheduler.Loop.Walk | src/Loop.cpp:34-44 | the inner loop keeps the pass invariant (InPass) from the head to the task where it stops, with at most `fuel` visits, and stops early only when the budget is used up |
| Scheduler.Loop.Advance | src/Loop.cpp:35-43 | one visit moves the pass invariant from the task to the successor it read, with the visit appended to the trace |
| Scheduler.Loop.Iteration | src/Loop.cpp:30-53 | one turn of `run`: a pass, then a wait only if the change counter did not move. A wait follows only a pass that executed every task that was due. A `wfi` happens only when every task in the list is due at least 1 ms later. A sleep lasts 2..max idle ms and ends no later than the due time of any task in the list. Without a sleep `ms()` is unchanged, and a task the pass did not execute keeps its arming |
| Scheduler.Loop.Wait | src/Loop.cpp:46-53 | after a finished pass whose change counter did not move: a sleep of exactly deadline - ms() (between 2 and max idle) via idleFor, or a single `wfi` when that is 1; the clock moves only in a sleep, and never past the deadline when the SysTick readings are consistent |
| Scheduler.Loop.VisitTask | src/Loop.cpp:35-43 | one visit: the successor is the task's `next` read before `exec`. The visit records the task's arming before and after, and it executes exactly when the task is armed and due. A still-armed task lowers the deadline to its due time. Every task settled so far stays due no earlier than the deadline. With callbacks acting on their own task only, every other task keeps its arming |
| Scheduler.Loop.ExecIfDue | src/Loop.cpp:36-42 | the task is executed exactly when it is armed and due, and its arming becomes AfterExec of the old one. The list loses the task, or has it at the tail when it ends armed. The deadline drops to the task's due time when it is still armed and earlier. With callbacks acting on their own task only, every other task keeps its arming |
| Scheduler.Resplit | src/Loop.cpp:35-43 | after a visit the list is still the settled part followed by the part ahead, and the part ahead begins with the captured successor. The visited task is settled, dropped (cancelled) or moved behind the rest (re-armed), and no task ahead is lost |
| Scheduler.WithoutFront | src/Task.cpp:51-66 | cancelling the first task of the part ahead cuts out exactly that task |
| Scheduler.UnranKeeps | src/Loop.cpp:36-38 | a task that no visit of a pass executed ends the pass with the arming it began with |
| Scheduler.RanExtend | src/Loop.cpp:37-38 | one more visit executed `t` exactly when it did so itself or an earlier visit did |
| Scheduler.TiedExtend | src/Loop.cpp:35-43 | a visit that starts from the arming the earlier visits left its task with keeps the whole trace consistent |
| Scheduler.DeadlineAtMostCap | src/Loop.cpp:32-41 | the deadline of a pass never exceeds ms() + max idle |
| Buttons.React | src/Button.cpp:39-49 | low while pressed arms the release, high while released starts a press, and every other input is ignored |
| Buttons.Button.constructor | src/Button.h:20-27 | a new button is released, with 100 ms debounce, 5000 ms long press and three distinct unarmed timers |
| Buttons.Button.Init | src/Button.cpp:6-13 | `init` stores the owner's callback and binds the three timers to the press, release and long-press handlers |
| Buttons.Button.SetTimings | src/Button.h:38-41 | both durations are overwritten and nothing else |
| Buttons.Button.StateTests | src/Button.h:43-57 | isPressed is the negation of isReleased, and exactly one of short-pressed, long-pressed and released holds |
| Buttons.Button.Update | src/Button.cpp:39-49 | high from RELEASE enters PRESS, cancels the release timer, arms the press timer at 0 and the long-press timer at the long-press time. Low while pressed only arms the release timer with the debounce. Anything else, including a bounce back high, changes nothing |
| Buttons.Button.ArmPress | src/Button.cpp:46-47 | the press timer is armed at once and the long-press timer after the long-press time, and the release timer is untouched |
| Buttons.Button.HandleExti | src/Button.cpp:31-33 | the pin level is fed to update unchanged |
| Buttons.Button.HandleExtiInverted | src/Button.cpp:35-37 | the negated pin level is fed to update |
| Buttons.Button.OnPress | src/Button.cpp:15-17 | the current state is reported |
| Buttons.Button.OnLongPress | src/Button.cpp:19-22 | the state becomes LONGPRESS and is reported |
| Buttons.Button.OnRelease | src/Button.cpp:24-29 | the button is released, the long-press timer cancelled, and LONGRELEASE reported after a long press, RELEASE otherwise |
| I2C.I2CSlave.constructor | src/I2CSlave.cpp:45-49 | counters, direction and both 32-byte buffers start at zero |
| I2C.I2CSlave.SetCallback | src/I2CSlave.h:31-35 | the register callbacks are installed |
| I2C.I2CSlave.Start | src/I2CSlave.cpp:52-55 | START only records the direction; counters and buffers survive a repeated START |
| I2C.I2CSlave.Receive | src/I2CSlave.cpp:71-74 | a byte is stored and counted while fewer than 32 are held, and dropped after |
| I2C.I2CSlave.Stop | src/I2CSlave.cpp:57-69 | exactly five received bytes make one write of register rx[0] with the little-endian value of rx[1..5]. Both counters and both buffers are then cleared |
| I2C.I2CSlave.Transmit | src/I2CSlave.cpp:76-84 | the first byte of a read after exactly one received byte stages the read callback's result little-endian in tx[0..4]. Bytes are sent in order, bytes 4..31 are 0x00, and only past 32 is the 0xFF preset of line 113 sent |
| Analog.SumBound | src/AnalogMon.cpp:88-89 | ten 16-bit samples add up without exceeding ten times 0xFFFF |
| Analog.Mean | src/AnalogMon.cpp:90-91 | the truncated mean of 16-bit samples fits in 16 bits |
| Analog.Average | src/AnalogMon.cpp:81-96 | each channel's result is the sum of its ten samples divided once, in the last round |
| Analog.ToVoltageScale | src/AnalogMon.cpp:117-119 | full scale 4095 gives vref*rdiv/1000, and the conversion is monotone in the raw value |
| Analog.ToTemperatureCalibrated | src/AnalogMon.cpp:121-123 | the two-point interpolation passes exactly through both calibration points |
| Analog.CDivExact | src/AnalogMon.cpp:122 | truncating division of an exact multiple is exact for either sign |
| Analog.BatPct | src/AnalogMon.cpp:125-127 | the battery percentage (in thousandths) lies in [0, 100000] |
| Analog.BatPctShape | src/AnalogMon.cpp:125-127 | it is 0 at or below v_min, 100000 at or above v_max, and monotone in between |
| Analog.AnalogMon.constructor | src/AnalogMon.h:38-48 | no reading, not ignoring DCIN, guard time 0 |
| Analog.AnalogMon.Read | src/AnalogMon.cpp:72-115 | vbat, cpu_temp, bat_temp_raw and bat_temp are converted from the averages with vrefint = 3300*VREFINT_CAL/avg(VREF). DCIN voltage and presence are published only if the key was never seen high, the ignore flag is clear and now is past the guard time |
| Analog.AnalogMon.GetDcin | src/AnalogMon.h:81-83 | 0 while DCIN is absent, the published value otherwise |
| Analog.AnalogMon.GetBatPct | src/AnalogMon.cpp:125-127 | the battery percentage in thousandths lies in [0, 100000] |
| Analog.AnalogMon.Thresholds | src/AnalogMon.h:61-75 | DCIN good implies present and at least DCIN_MIN_VOLTAGE, and a present DCIN below that minimum is not good |
| Analog.AnalogMon.IgnoreDcinVoltage | src/AnalogMon.h:89-92 | the ignore flag becomes the argument and the guard moves to now + 1000 ms either way, so nothing is published before it |
| PmicApp.MasksDisjoint | src/App.h:15-34 | every flag is a single bit and two flags share a bit only if they are the same flag |
| PmicApp.Word | src/App.h:15-34 | the state word uses only bits 0..11 |
| PmicApp.WordBits | src/App.h:72-74 | `is(flag)`, the test (m_state & flag) != 0, holds exactly when the flag is in the state |
| PmicApp.WordInjective | src/App.h:15-34 | two states with the same word are the same state |
| PmicApp.FromWord | src/App.h:72-74 | decoding a word gives the set of flags whose bits are set |
| PmicApp.FromWordOfWord | src/App.h:15-34 | decoding the word of a state gives the state back |
| PmicApp.WithFlag | src/App.cpp:26-30 | setting a bit to v makes the flag v, leaves every other flag unchanged, and changes the state exactly when the old value differed |
| PmicApp.TimeoutForChrgFail | src/App.cpp:287-297 | the cooldown is at most 30 min and is 0 exactly for NONE and NO_BAT |
| PmicApp.ChargingAllowed | src/App.cpp:317-332 | in priority order: NO_BAT without battery; NO_DCIN without DCIN; BAD_DCIN when DCIN is bad and the count is at least 5, else NO_DCIN; LOW_TEMP; HIGH_TEMP; otherwise NONE |
| PmicApp.PowerOnAllowed | src/App.cpp:334-344 | NONE whenever DCIN is good. Otherwise BAT_IS_LOW at or below v_shutdown, then the low and high temperature reasons. NONE exactly when DCIN is good or the battery is above v_shutdown within the temperature band |
| PmicApp.PowerOnAllowedIgnoresPower | src/App.cpp:334-344 | the power-on check does not depend on the POWER_ON and USER_POWER_OFF flags |
| PmicApp.ChargingAllowedIgnoresOutputs | src/App.cpp:317-332 | the charging check does not depend on the charge and power flags |
| PmicApp.Cooldowns | src/App.cpp:287-303 | with DCIN good, charging is disabled exactly while a recorded failure is younger than its cooldown: 5 s for NO_DCIN, 30 min for the temperature reasons and BAD_DCIN, never for NONE and NO_BAT |
| PmicApp.AutoPowerOnNeverDisabled | src/App.cpp:305-315 | with m_last_pwron_fail at NONE, the only value the code ever writes (line 390), automatic power-on is never disabled |
| PmicApp.LowAfter | src/App.cpp:107-120 | a low flag is set at or below min and, once set, stays until the temperature exceeds min + t_hysteresis |
| PmicApp.HighAfter | src/App.cpp:112-125 | a high flag is set at or above max and, once set, stays until the temperature drops below max - t_hysteresis |
| PmicApp.BandsExclusive | src/App.cpp:104-126 | when the bands do not overlap, a low and a high flag are never set together |
| PmicApp.NextTimeout | src/App.cpp:231-251 | the next poll is 200 ms while charging, 500 ms with charge enabled, 1000 ms with DCIN good or freshly plugged, 30 s otherwise. There is none (deep sleep) exactly when power is off, DCIN is absent and both wake pins are low |
| PmicApp.RegValue | src/App.cpp:414-435 | STATUS and IRQ_STATUS return the state word, BAT_PCT is capped at 99000 while charging, RTC_TIME returns the clock, and unknown or write-only registers return 0xFFFFFFFF |
| PmicApp.SignedRegisters | src/App.cpp:424-429 | signed readings survive the uint32 register and the driver's `(s32)` cast |
| PmicApp.App.constructor | src/App.h:52-64 | a fresh App has state 0, failure NONE at time 0, both counters 0 and power-on failure NONE |
| PmicApp.App.SetStateBit | src/App.cpp:24-38 | the bit becomes the value and every other bit is kept. The result is true exactly when the old value differed, and only then is the IRQ line raised and the 10 ms pulse armed |
| PmicApp.App.UpdatePresence | src/App.cpp:148-170 | DCIN present, DCIN good and battery present follow the monitor. A fresh plug records the time, and after BAD_DCIN it downgrades the failure to NO_DCIN and resets both counters |
| PmicApp.App.CheckBatteryTemp | src/App.cpp:104-126 | the two flags follow LowAfter and HighAfter, testing clears before sets, and no other flag changes |
| PmicApp.App.SetIf | src/App.cpp:107-125 | one guarded setStateBit of CheckBatteryTemp |
| PmicApp.App.UpdateCharging | src/App.cpp:175-197 | charge enable turns on only from off with reason NONE and no cooldown. It turns off only from on with a reason, which is recorded with the time. A failure within MIN_CHARGE_TIME bumps the failure count (and the DCIN count for NO_DCIN); a later one resets both |
| PmicApp.App.UpdateChargerOutputs | src/App.cpp:199-206 | the charger pin mirrors charge enable, and BAT_CHARGING is the charger status and charge enable |
| PmicApp.App.PowerOn | src/App.cpp:346-358 | POWER_ON is set and USER_POWER_OFF cleared exactly when the power-on check passes, and the monitor is re-armed at once either way |
| PmicApp.App.PowerOff | src/App.cpp:360-368 | POWER_ON cleared, USER_POWER_OFF set to the argument, VCC off, buzzer silenced, monitor and buzzer tasks re-armed at once |
| PmicApp.App.AutoPower | src/App.cpp:208-218 | power comes on automatically unless the user switched it off, and goes off (not as the user) when it is on and the check fails |
| PmicApp.App.ScheduleNext | src/App.cpp:231-252 | the monitor is re-armed after NextTimeout, or both monitor and watchdog are cancelled for deep sleep |
| PmicApp.App.AllowDeepSleep | src/App.cpp:255-263 | true cancels the monitor and the watchdog, false arms both at once |
| PmicApp.App.UpdateFlags | src/App.cpp:148-173 | presence flags follow the monitor and all four temperature flags follow their hysteresis. A low and a high flag never hold together, and no other flag changes |
| PmicApp.App.UpdateCharger | src/App.cpp:175-206 | charge enable implies the charging check passed, and BAT_CHARGING is the charger status and charge enable |
| PmicApp.App.Evaluate | src/App.cpp:148-218 | after the decisions, the presence flags follow the monitor and charge enable implies the charging check passes on the final state. BAT_CHARGING implies charge enable, and POWER_ON implies the power-on check passes |
| PmicApp.App.MonitorTask | src/App.cpp:145-253 | after a fresh reading and the decisions, DCIN good implies DCIN present, BAT_CHARGING implies charge enable, POWER_ON implies the power-on check, and the next poll follows NextTimeout |
| PmicApp.App.WatchdogTask | src/App.cpp:136-139 | the watchdog task is re-armed 5 s before the watchdog period |
| PmicApp.App.IrqPulseTask | src/App.cpp:141-143 | the pulse task drops the IRQ line |
| PmicApp.App.BuzzerTask | src/App.cpp:128-134 | a non-zero frequency plays with the least valid prescaler; zero stops the buzzer |
| PmicApp.App.OnInputChange | src/App.cpp:370-380 | any input change re-arms the monitor at once |
| PmicApp.App.OnPwrKey | src/App.cpp:382-400 | press ignores DCIN for a second, and release or long release stops ignoring it. Release clears USER_POWER_OFF, long press powers off as the user, PWR_KEY_PRESSED tracks press and long press, and the monitor is re-armed |
| PmicApp.App.KeyFlags | src/App.cpp:389-397 | the flag part of onPwrKey: release, long press and the key flag, with no other flag changed |
| PmicApp.App.ReadReg | src/App.cpp:414-435 | the result is the register map's value. Reading IRQ_STATUS raises the IRQ line and cancels the pulse; other registers leave both alone |
| PmicApp.App.WriteReg | src/App.cpp:437-467 | POWER_OFF 0 powers on, 1 powers off as the user, 2 powers off and re-checks after 2000 ms. RTC_TIME sets the clock to the date whose Unix time is the value, PLAY_BUZZER splits the value into frequency and volume, and everything else changes nothing |
| PmicApp.App.WritePowerOff | src/App.cpp:439-453 | the three POWER_OFF commands; other values change nothing |
| PmicApp.App.WriteRtcTime | src/App.cpp:455-459 | the clock is set to a valid calendar date (month 1..12, a day that exists in that month) whose Unix time is the written value |
| PmicApp.App.WritePlayBuzzer | src/App.cpp:461-465 | frequency is bits 8..23 and volume bits 0..7 of the value, and the buzzer task is re-armed |
| HostDriver.DriverMatchesFirmware | linux/stm32f0-pmic.c:8-33 | the driver's status bits equal the firmware's flags; its register numbers equal the model's, which are taken from the driver |
| HostDriver.PmicRead | linux/stm32f0-pmic.c:44-52 | the read is 0 unless exactly four bytes arrived, else the value whose little-endian bytes they are |
| HostDriver.ReadReturnsStaged | linux/stm32f0-pmic.c:44-52 | a complete read returns the value the firmware staged |
| HostDriver.FailedReadIsZero | linux/stm32f0-pmic.c:51 | a failed read looks like a state with no flag set |
| HostDriver.Micro | linux/stm32f0-pmic.c:89 | `(s32) value * 1000` stays in the signed 32-bit range |
| HostDriver.MicroExact | linux/stm32f0-pmic.c:88-152 | for readings up to 2147483 mV in magnitude the conversion to µV is exact |
| HostDriver.ScaledTruncates | linux/stm32f0-pmic.c:154-160 | the driver's divisions truncate toward zero |
| HostDriver.ChargerGetProperty | linux/stm32f0-pmic.c:77-102 | the charger answers ONLINE, PRESENT, VOLTAGE_NOW and TEMP with a number and every other property with -EINVAL |
| HostDriver.BatteryGetProperty | linux/stm32f0-pmic.c:104-172 | the battery answers its listed properties and ONLINE, with TECHNOLOGY Li-ion, and -EINVAL for every other property |
| HostDriver.StatusReadsWord | linux/stm32f0-pmic.c:117 | a complete STATUS read gives the firmware's state word |
| HostDriver.HasEither | linux/stm32f0-pmic.c:133-135 | testing against two bits at once is testing either |
| HostDriver.StatusOfWord | linux/stm32f0-pmic.c:116-128 | status decoded from the word is DISCHARGING without DCIN good, NOT_CHARGING without charge enable, then CHARGING or FULL by the charging flag |
| HostDriver.HealthOfWord | linux/stm32f0-pmic.c:130-140 | health decoded from the word is OVERHEAT if either high-temperature flag is set, else COLD if either low-temperature flag is set, else GOOD |
| HostDriver.PresenceMirrorsFlags | linux/stm32f0-pmic.c:80-114 | charger online/present are DCIN good/present, battery online is not DCIN good, and battery present is battery present |
| HostDriver.StatusMirrorsFlags | linux/stm32f0-pmic.c:116-128 | the battery status served is the one the firmware's flags give; CHARGING exactly with DCIN good, charge enable and charging, FULL without charging |
| HostDriver.HealthMirrorsFlags | linux/stm32f0-pmic.c:130-140 | the battery health served is the one the flags give, GOOD exactly when no temperature flag is set |
| HostDriver.CapacityInPercent | linux/stm32f0-pmic.c:154-156 | capacity is the firmware's thousandths divided by 1000, in 0..100, and at most 99 while charging |
| HostDriver.ReadingsInKernelUnits | linux/stm32f0-pmic.c:88-160 | voltages arrive as mV*1000 µV, temperatures as m°C/100 tenths of a degree, and the design limits are v_max and v_min in µV |

## Left out

- Hardware bring-up through libopencm3: App::initHw and the wiring in App::run, AnalogMon::init/switchFormAdcToExti and the DMA wait in read(), I2CSlave::init and irqHandler's status-flag decoding (only the 0xFF preset is kept), RTC::init/setDateTime/readTime/time/lock/unlock/clearAlarm, Buzzer::init and the buzzer's timer register writes, Loop::init's SysTick writes and Gpio::setAllAnalog. ADC samples, pin levels and SysTick readings are parameters; GPIO outputs are recorded fields.
- RTC::setAlarm (src/RTC.cpp:85-122): it only programs an alarm register; its seconds field is encoded with the minutes' tens shift and mask (line 112), which is not modelled.
- Interrupt masking and sleep instructions (cpsid/cpsie, dsb/isb, wfi) and interrupt-versus-foreground concurrency: the model is single-threaded; only the nesting counter and the tick arithmetic are kept.
- The idle hook and deep-sleep entry (src/App.cpp:402-412): it calls Loop::suspend and Loop::setIdleCallback, which the shown Loop does not define, and writes a backup register.
- The watchdog reset (iwdg_reset) and the backup-register copy of the state; WatchdogTask models only its re-arm.
- Logging: LOGD, printf, getEnumName, the periodic info print (src/App.cpp:220-229), UART set-up, putchar and the fault handlers.
- src/FreeRTOSConfig.h: it configures an RTOS the firmware does not use.
- src/Config.h and src/ConfigDef.h as code: `d2int` multiplies doubles at compile time; the model uses the resulting integers.
- The declaration-only headers (src/Pinout.h, src/Exti.h, src/RTC.h, src/I2CSlave.h, src/Buzzer.h, src/Debug.h), and the Exti helpers handleIrqRange, getIrq and isSharedIrqUsed, which are not shown; the NVIC enable/disable of Exti::set/remove is therefore not modelled.
- Kernel plumbing of the driver: power_supply registration, probe/remove, the mutex and the module tables (line 278 names an undefined `pmic_dt_ids`).
- Callbacks are delegates by identity; what a callback does to the scheduler is modelled only as its effect on its own task (untouched, cancelled or re-armed). The firmware's callbacks also arm and cancel other tasks: allowDeepSleep cancels the monitor and watchdog tasks (src/App.cpp:257-258), setStateBit arms the IRQ pulse (src/App.cpp:33), and powerOff arms the monitor and buzzer tasks (src/App.cpp:366-367). So the "other tasks keep their arming" clauses of Scheduler.Loop.Pass, Scheduler.Loop.VisitTask, Scheduler.Loop.ExecIfDue, Scheduler.Loop.Iteration and Scheduler.UnranKeeps hold only under this abstraction. A callback that cancels the successor a pass captured nulls its links, so the source's pass ends early there. That is harmless: the cancel moves the change counter, so no wait follows and the next pass starts again from the head.
- Scheduler.Loop.Pass: the pass takes a visit budget (fuel), because two tasks that re-arm themselves with 0 ms keep the source's pass going for ever; a pass that runs out of budget stops with the cursor where it was.
- Scheduler.Loop.Iteration: `run` is an endless loop; one turn of it is modelled.
- The int64 tick and due-time counters are unbounded integers: their overflow, hundreds of millions of years away, is not modelled.
- Rtc.DecodeBCD: the result is kept as the 32-bit value; its conversion to `int` is not modelled (values are below 100).
- App timers (monitor, watchdog, buzzer, IRQ pulse) are modelled as due times, not as scheduler list operations.
- src/App.h is older than src/App.cpp and lacks members App.cpp uses (the IRQ-pulse, buzzer and watchdog tasks, the buzzer fields, readReg/writeReg); the model takes its state from App.cpp.
- The register numbers are not defined in the shown firmware; they are taken from the driver (linux/stm32f0-pmic.c:21-33), with PLAY_BUZZER as 13, the first free number after RTC_TIME.
- PmicApp.App.UpdateFlags: states only what its callers need of the presence and temperature steps, not the failure bookkeeping of a re-plug, which UpdatePresence states.
- PmicApp.App.UpdateCharger: states only the invariants callers need, not the failure bookkeeping, which UpdateCharging states.
- PmicApp.App.Evaluate: states the invariants after the decisions rather than each step's bookkeeping, which the step methods state.
- PmicApp.App.MonitorTask: takes the ADC samples, the charger status and the wake-pin levels as inputs; its `iwdg_reset` (line 252) is left out with the watchdog.
- Analog.ToVoltage: computes on unbounded integers; the source's `raw * vref` is a 32-bit int product, which stays in range for 12-bit readings and reference voltages below 524 V, so its overflow is not modelled.
- Analog.BatPct: computes on unbounded integers; the source's `(vbat - v_min) * 100 * 1000` is a 32-bit int product, which overflows only for battery voltages above about 24.9 V (v_min is 3400 mV), and that overflow is not modelled.
- Analog.AnalogMon.Read: requires a nonzero VREF average and two different temperature calibration words. The source divides by both without checking; in C a division by zero is undefined, so the model does not say what `read` does then. The 32-bit overflow of the conversions is left out as for ToVoltage.
- Utils.Idec, Utils.PowerLoop, Utils.Iexp, Utils.InlineIexp: computed on unbounded integers. In C the divisor and `(v - idec(v, n) * div) * 10` are 32-bit ints: `div * 10` overflows for n >= 10 and the scaled remainder can overflow at n = 9, which is undefined behaviour, so the contracts match the source only for n <= 8 (Utils.IntermediatesFitInt). The header's default argument n = 3, which every caller uses, is not modelled; n is always passed.
- Scheduler.Loop.Init: requires an AHB clock of at least 8 kHz; below it `m_counts_per_tick` is 0 and `0xFFFFFF / m_counts_per_tick` (src/Loop.cpp:20) divides by zero, which the source does not guard. SysTick.CountsPerTick carries the same requires.
- Gpio.Id2Pin: requires id < 32, since `1 << id` on a 32-bit int is undefined above; the callers only pass 0..15.
- Rtc.ToUnixTime: requires month 1..12, since `month_yday[month - 1]` is out of bounds otherwise.
- HostDriver.MicroExact: exact only for readings up to 2147483 mV in magnitude; beyond that the 32-bit product wraps and the model says only that it stays in range.
- HostDriver.PresenceMirrorsFlags: like the other `*MirrorsFlags` lemmas and CapacityInPercent and ReadingsInKernelUnits, assumes every read is complete (four bytes); a failed read gives 0, as FailedReadIsZero states.
- Utils.CriticalSection.Exit: models the 32-bit wrap of an unbalanced exit instead of forbidding it.

## Findings

| source | as written | input that shows it | evidently intended | confidence | as-written member | corrected member |
|---|---|---|---|---|---|---|
| src/Exti.cpp:50-70 | `remove` clears the slot (lines 57-59) before calling `disable` (line 69), and `disable` then finds no owner (lines 23-24) and returns without masking the request | `set(A, pin 5)` then `remove(A, pin 5)`: the request of EXTI line 5 stays unmasked | `remove` masks the request of the slot it frees | not executed; high | Exti.Registry.Remove, Exti.RemoveKeepsRequest | Exti.Registry.RemoveCorrected, Exti.RemoveCorrectedMasksRequest |
| src/utils.h:17-22 | the header's `iexp` returns the digit with the sign of v | `iexp(-1500)` gives -5 | the digit of abs(v), as the sign-corrected `iexp` of src/utils.cpp:24-29 returns | not executed; medium | Utils.InlineIexp, Utils.InlineIexpOfNegative | Utils.Iexp |
