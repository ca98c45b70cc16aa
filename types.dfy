/**
 * The schedule record `crontab_t` of gcrond.h. Each field is the set of bit
 * positions set in the C bitmask; the widths are those of the C fields.
 * The `next` pointer of the C record is replaced by the position of the
 * record in a sequence.
 */
module Types {
  import opened Options

  const MinuteWidth: nat := 64
  const HourWidth: nat := 32
  const DayOfMonthWidth: nat := 32
  const MonthWidth: nat := 16
  const DayOfWeekWidth: nat := 8

  datatype CronTab = CronTab(
    minute: set<nat>,
    hour: set<nat>,
    dayofmonth: set<nat>,
    month: set<nat>,
    dayofweek: set<nat>,
    exec: Option<string>)

  /**
   * Bit `b` lies in the w low bits. The comprehension of `Bits` needs the
   * bound `b < w` written out to be finite, and this term to have a trigger.
   */
  predicate LowBit(b: nat, w: nat)
  {
    b < w
  }

  /** The bit positions 0 .. w-1: the mask with all w bits set. */
  function Bits(w: nat): (r: set<nat>)
    ensures forall b: nat :: b in r <==> b < w
  {
    set b: nat | b < w && LowBit(b, w)
  }

  /** The bits of `s` that survive assignment to a `w`-bit unsigned field. */
  function Narrow(s: set<nat>, w: nat): (r: set<nat>)
    ensures r == s * Bits(w)
  {
    set b | b in s && b < w
  }

  /** Every field fits into the width of its C field. */
  predicate FitsWidths(c: CronTab)
  {
    c.minute <= Bits(MinuteWidth) && c.hour <= Bits(HourWidth) &&
    c.dayofmonth <= Bits(DayOfMonthWidth) && c.month <= Bits(MonthWidth) &&
    c.dayofweek <= Bits(DayOfWeekWidth)
  }

  /** A schedule: fits the widths and every field has at least one bit set. */
  predicate IsSchedule(c: CronTab)
  {
    FitsWidths(c) && c.minute != {} && c.hour != {} && c.dayofmonth != {} &&
    c.month != {} && c.dayofweek != {}
  }

  /** The all-zero record `calloc` and `memset` produce. */
  const Zero: CronTab := CronTab({}, {}, {}, {}, {}, None)
}
