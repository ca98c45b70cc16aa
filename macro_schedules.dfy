/**
 * When the records of the `intervals` table of rdcron.c are due, as decided
 * by the matcher of crontab.c: the macros mean what their names say.
 */
module MacroSchedules {
  import opened Types
  import opened RdcronSpec
  import opened Crontab

  /** "@yearly" and "@annually": midnight of the first of January. */
  lemma YearlyDue(t: Tm)
    ensures ShouldRun(Intervals[0].1, TmToMask(t)) <==> t.min == 0 && t.hour == 0 && t.mday == 1 && t.mon == 0
    ensures ShouldRun(Intervals[1].1, TmToMask(t)) <==> t.min == 0 && t.hour == 0 && t.mday == 1 && t.mon == 0
  {
    ShouldRunAt(Intervals[0].1, t);
    ShouldRunAt(Intervals[1].1, t);
  }

  /** "@monthly": midnight of the first of every month. */
  lemma MonthlyDue(t: Tm)
    ensures ShouldRun(Intervals[2].1, TmToMask(t)) <==> t.min == 0 && t.hour == 0 && t.mday == 1
  {
    ShouldRunAt(Intervals[2].1, t);
  }

  /** "@weekly": midnight of every Sunday. */
  lemma WeeklyDue(t: Tm)
    ensures ShouldRun(Intervals[3].1, TmToMask(t)) <==> t.min == 0 && t.hour == 0 && t.wday == 0
  {
    ShouldRunAt(Intervals[3].1, t);
  }

  /** "@daily": every midnight. */
  lemma DailyDue(t: Tm)
    ensures ShouldRun(Intervals[4].1, TmToMask(t)) <==> t.min == 0 && t.hour == 0
  {
    ShouldRunAt(Intervals[4].1, t);
  }

  /** "@hourly": the start of every hour. */
  lemma HourlyDue(t: Tm)
    ensures ShouldRun(Intervals[5].1, TmToMask(t)) <==> t.min == 0
  {
    ShouldRunAt(Intervals[5].1, t);
  }

  /** The 32 hour bits of "@hourly" act as the hours 0 .. 23. */
  lemma HourlyHoursInDomain(t: Tm)
    ensures InDomain(Intervals[5].1).hour == Bits(24)
    ensures ShouldRun(Intervals[5].1, TmToMask(t)) <==> ShouldRun(InDomain(Intervals[5].1), TmToMask(t))
  {
    OutOfDomainIrrelevant(Intervals[5].1, t);
  }
}
