/**
 * `rmc_to_systime`: the decision that disciplines the system clock from a
 * decoded RMC record.  The PPS pulse time, `micros()`, `gettimeofday` and
 * `mktime` are inputs; the `settimeofday` or `adjtime` call the firmware makes
 * is the output, together with the new synchronisation state.
 */
module ClockDiscipline {
  import opened CTypes
  import opened NmeaTypes

  /** The `SYNC_STATE_*` values of the system status. */
  const SYNC_NONE: int := 0
  const SYNC_GNSS: int := 1
  const SYNC_PPS: int := 2

  /** The fixed local-time offset (JST, UTC+9) added to the `mktime` result. */
  const TIME_ZONE_OFFSET: int := 9 * 3600
  const IRQ_LATENCY_US: int := 5
  const ADJTIME_LATENCY_US: int := 10
  const USEC_PER_SEC: int := 1000000
  /** Offsets at least this large are corrected by a jump rather than a slew. */
  const JUMP_THRESHOLD_US: int := 500000
  /** Whole-second gaps at least this large are not measured; they force a jump. */
  const COARSE_GUARD_SEC: int := 2

  /** The `struct tm` fields handed to `mktime`: year since 1900, month from 0. */
  datatype CalendarTime = CalendarTime(year: int, month: int, day: int, hour: int, minute: int, second: int)

  function CalendarOf(rmc: RmcData): CalendarTime {
    CalendarTime(rmc.dateYear - 1900, rmc.dateMonth - 1, rmc.dateDay,
                 rmc.timeHour, rmc.timeMinute, rmc.timeSecond)
  }

  /** The clock call the decision makes, if any. */
  datatype ClockAction =
    | NoAction
      /** `settimeofday` to the given seconds and microseconds */
    | SetTime(sec: int, usec: int)
      /** `adjtime` by the given number of microseconds */
    | Slew(usec: int)

  /**
   * The microseconds elapsed since the last PPS edge, measured with the
   * wrapping 32-bit `micros()` counter: 0 when no pulse is recorded or the
   * pulse is a second or more old, otherwise the age plus the interrupt
   * latency.
   */
  function PpsPhase(nowUs: u32, ppsTimestamp: u32): (phase: int)
    ensures phase == 0 || IRQ_LATENCY_US <= phase < USEC_PER_SEC + IRQ_LATENCY_US
    ensures ppsTimestamp == 0 ==> phase == 0
  {
    if ppsTimestamp != 0 then
      var age := SubU32(nowUs, ppsTimestamp);
      if age >= USEC_PER_SEC then 0 else age + IRQ_LATENCY_US
    else 0
  }

  /**
   * A pulse taken `age` microseconds before `nowUs` is measured correctly even
   * when the 32-bit counter wrapped in between.
   */
  lemma PpsPhaseMeasuresAge(ppsTimestamp: u32, age: int, nowUs: u32)
    requires ppsTimestamp != 0 && 0 <= age
    requires nowUs == (ppsTimestamp + age) % TWO_32
    ensures age < USEC_PER_SEC ==> PpsPhase(nowUs, ppsTimestamp) == age + IRQ_LATENCY_US
    ensures USEC_PER_SEC <= age < TWO_32 ==> PpsPhase(nowUs, ppsTimestamp) == 0
  {
    if age < TWO_32 {
      if ppsTimestamp + age < TWO_32 {
        assert nowUs == ppsTimestamp + age;
      } else {
        assert nowUs == ppsTimestamp + age - TWO_32;
      }
      assert SubU32(nowUs, ppsTimestamp) == age;
    }
  }

  /**
   * The latency correction is added after the one-second cutoff, so a pulse
   * 999,999 microseconds old yields a microsecond field of 1,000,004.
   */
  lemma PhaseCanExceedOneSecond()
    ensures PpsPhase(1000000, 1) == USEC_PER_SEC + IRQ_LATENCY_US - 1
  {
    assert SubU32(1000000, 1) == 999999;
  }

  /**
   * The offset of the GNSS time from the system clock, in microseconds, or
   * one full second when the whole seconds differ by two or more.
   */
  function TimeDelta(sec: int, usec: int, nowSec: int, nowUsec: int): (delta: int)
    ensures Abs(sec - nowSec) >= COARSE_GUARD_SEC ==> delta == USEC_PER_SEC
    ensures Abs(sec - nowSec) < COARSE_GUARD_SEC ==>
      delta == (sec * USEC_PER_SEC + usec) - (nowSec * USEC_PER_SEC + nowUsec)
  {
    if Abs(sec - nowSec) >= COARSE_GUARD_SEC then USEC_PER_SEC
    else (sec - nowSec) * USEC_PER_SEC + (usec - nowUsec)
  }

  /**
   * `rmc_to_systime` for the record `rmc`, where `epoch` is what `mktime`
   * returned for `CalendarOf(rmc)`, `nowUs` is `micros()` and
   * (`nowSec`, `nowUsec`) is the system clock: the clock call made and the new
   * synchronisation state.
   */
  function Discipline(rmc: RmcData, epoch: int, nowUs: u32, ppsTimestamp: u32,
                      nowSec: int, nowUsec: int, syncState: int): (out: (ClockAction, int))
    ensures rmc.dataValid == 0 || epoch == -1 ==> out == (NoAction, syncState)
    ensures rmc.dataValid != 0 && epoch != -1 ==>
      var sec := epoch + TIME_ZONE_OFFSET;
      var phase := PpsPhase(nowUs, ppsTimestamp);
      && out.1 == (if phase > 0 then SYNC_PPS else SYNC_GNSS)
      && (out.0.SetTime? <==>
            Abs(sec - nowSec) >= COARSE_GUARD_SEC
            || Abs((sec * USEC_PER_SEC + phase) - (nowSec * USEC_PER_SEC + nowUsec)) >= JUMP_THRESHOLD_US)
      && (out.0.SetTime? ==> out.0 == SetTime(sec, phase))
      && (out.0.Slew? ==>
            && out.0.usec - ADJTIME_LATENCY_US == (sec * USEC_PER_SEC + phase) - (nowSec * USEC_PER_SEC + nowUsec)
            && Abs(out.0.usec - ADJTIME_LATENCY_US) < JUMP_THRESHOLD_US)
      && out.0 != NoAction
  {
    if rmc.dataValid == 0 then (NoAction, syncState)
    else if epoch == -1 then (NoAction, syncState)
    else
      var sec := epoch + TIME_ZONE_OFFSET;
      var phase := PpsPhase(nowUs, ppsTimestamp);
      var delta := TimeDelta(sec, phase, nowSec, nowUsec);
      var action := if Abs(delta) >= JUMP_THRESHOLD_US then SetTime(sec, phase)
                    else Slew(delta + ADJTIME_LATENCY_US);
      (action, if phase > 0 then SYNC_PPS else SYNC_GNSS)
  }

  /**
   * The synchronisation state only ever moves to GNSS or PPS: once it has
   * left NONE it never returns there.
   */
  lemma DisciplineNeverReturnsToNone(rmc: RmcData, epoch: int, nowUs: u32, ppsTimestamp: u32,
                                     nowSec: int, nowUsec: int, syncState: int)
    ensures var s := Discipline(rmc, epoch, nowUs, ppsTimestamp, nowSec, nowUsec, syncState).1;
      s == syncState || s == SYNC_GNSS || s == SYNC_PPS
    ensures syncState != SYNC_NONE ==>
      Discipline(rmc, epoch, nowUs, ppsTimestamp, nowSec, nowUsec, syncState).1 != SYNC_NONE
  {
  }

  /**
   * After the clock call, the system clock reads the GNSS time: a jump sets
   * it exactly, and a slew moves it by the measured offset (plus the fixed
   * `adjtime` latency allowance).
   */
  lemma DisciplineReachesGnssTime(rmc: RmcData, epoch: int, nowUs: u32, ppsTimestamp: u32,
                                  nowSec: int, nowUsec: int, syncState: int)
    requires rmc.dataValid != 0 && epoch != -1
    ensures var action := Discipline(rmc, epoch, nowUs, ppsTimestamp, nowSec, nowUsec, syncState).0;
      var target := (epoch + TIME_ZONE_OFFSET) * USEC_PER_SEC + PpsPhase(nowUs, ppsTimestamp);
      match action
      case SetTime(sec, usec) => sec * USEC_PER_SEC + usec == target
      case Slew(usec) => nowSec * USEC_PER_SEC + nowUsec + usec - ADJTIME_LATENCY_US == target
      case NoAction => false
  {
  }
}
