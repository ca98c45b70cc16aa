/**
 * The matcher of crontab.c: a broken-down local time becomes an instant
 * mask with one bit per field, and an entry is due at that instant when each
 * of its five fields shares a bit with the mask. `runjob` launches an
 * entry's command; the launch itself (fork and exec) is a given outcome.
 */
module Crontab {
  import opened Options
  import opened Types

  /** The fields of `struct tm` that the daemon reads. */
  datatype TmFields = TmFields(sec: int, min: int, hour: int, mday: int, mon: int, wday: int)

  /** The ranges `localtime_r` guarantees (tm_sec 60 is a leap second). */
  predicate ValidTm(t: TmFields)
  {
    0 <= t.sec <= 60 && 0 <= t.min <= 59 && 0 <= t.hour <= 23 &&
    1 <= t.mday <= 31 && 0 <= t.mon <= 11 && 0 <= t.wday <= 6
  }

  type Tm = t: TmFields | ValidTm(t) witness TmFields(0, 0, 0, 1, 0, 0)

  /**
   * `cron_tm_to_mask`: the record is zeroed (so `exec` is NULL) and each field
   * gets the single bit of its time component; the day of the month counts from 0.
   */
  function TmToMask(t: Tm): CronTab
  {
    CronTab({t.min}, {t.hour}, {(t.mday - 1) as nat}, {t.mon}, {t.wday}, None)
  }

  /** The mask of a time has exactly the bit of each time component, and no command. */
  lemma TmToMaskBits(t: Tm)
    ensures var r := TmToMask(t);
            (forall b :: b in r.minute <==> b == t.min) &&
            (forall b :: b in r.hour <==> b == t.hour) &&
            (forall b :: b in r.dayofmonth <==> b == t.mday - 1) &&
            (forall b :: b in r.month <==> b == t.mon) &&
            (forall b :: b in r.dayofweek <==> b == t.wday) &&
            r.exec.None? && IsSchedule(r)
  {
  }

  /** `cron_should_run`: every field of the entry shares a bit with the mask. */
  predicate ShouldRun(t: CronTab, mask: CronTab)
  {
    t.minute * mask.minute != {} && t.hour * mask.hour != {} &&
    t.dayofmonth * mask.dayofmonth != {} && t.month * mask.month != {} &&
    t.dayofweek * mask.dayofweek != {}
  }

  /** An entry is due at `t`: the bit of each time component is set in its field. */
  predicate DueAt(e: CronTab, t: Tm)
  {
    t.min in e.minute && t.hour in e.hour && t.mday - 1 in e.dayofmonth &&
    t.mon in e.month && t.wday in e.dayofweek
  }

  /** A field shares a bit with a one-bit field exactly when it holds that bit. */
  lemma MeetsSingleton(s: set<nat>, m: set<nat>, b: nat)
    requires forall x :: x in m <==> x == b
    ensures s * m != {} <==> b in s
  {
    if b in s {
      assert b in s * m;
    }
  }

  /** Against the mask of a time, `cron_should_run` tests exactly the five bits of that time. */
  lemma {:induction false} ShouldRunAt(e: CronTab, t: Tm)
    ensures ShouldRun(e, TmToMask(t)) <==> DueAt(e, t)
  {
    var m := TmToMask(t);
    TmToMaskBits(t);
    MeetsSingleton(e.minute, m.minute, t.min);
    MeetsSingleton(e.hour, m.hour, t.hour);
    MeetsSingleton(e.dayofmonth, m.dayofmonth, t.mday - 1);
    MeetsSingleton(e.month, m.month, t.mon);
    MeetsSingleton(e.dayofweek, m.dayofweek, t.wday);
  }

  /**
   * Day of month and day of week are separate conjuncts: an entry whose day of
   * the month misses, or whose day of the week misses, is not due, whatever
   * the other one says.
   */
  lemma DaysBothRequired(e: CronTab, t: Tm)
    requires t.mday - 1 !in e.dayofmonth || t.wday !in e.dayofweek
    ensures !ShouldRun(e, TmToMask(t))
  {
    ShouldRunAt(e, t);
  }

  /** The bits a time can select: minutes 0..59, hours 0..23, days 0..30, months 0..11, weekdays 0..6. */
  function InDomain(e: CronTab): CronTab
  {
    CronTab(e.minute * Bits(60), e.hour * Bits(24), e.dayofmonth * Bits(31),
            e.month * Bits(12), e.dayofweek * Bits(7), e.exec)
  }

  /** Every field holds only bits a time can select. */
  predicate InTimeDomains(d: CronTab)
  {
    d.minute <= Bits(60) && d.hour <= Bits(24) && d.dayofmonth <= Bits(31) &&
    d.month <= Bits(12) && d.dayofweek <= Bits(7)
  }

  /**
   * `InDomain(e)` is the largest entry inside the time domains that `e`
   * covers: it is one, and it covers every other one, with the same command.
   */
  lemma InDomainGreatest(e: CronTab, d: CronTab)
    ensures Covers(e, InDomain(e)) && InTimeDomains(InDomain(e)) && InDomain(e).exec == e.exec
    ensures Covers(e, d) && InTimeDomains(d) ==> Covers(InDomain(e), d)
  {
  }

  /** Bits outside the domain of a field never change whether an entry is due at a time. */
  lemma {:induction false} OutOfDomainIrrelevant(e: CronTab, t: Tm)
    ensures ShouldRun(e, TmToMask(t)) <==> ShouldRun(InDomain(e), TmToMask(t))
  {
    ShouldRunAt(e, t);
    ShouldRunAt(InDomain(e), t);
    var d := InDomain(e);
    assert t.min in e.minute <==> t.min in d.minute;
    assert t.hour in e.hour <==> t.hour in d.hour;
    assert t.mday - 1 in e.dayofmonth <==> t.mday - 1 in d.dayofmonth;
    assert t.mon in e.month <==> t.mon in d.month;
    assert t.wday in e.dayofweek <==> t.wday in d.dayofweek;
  }

  /** `e` has every bit of `d` in each field. */
  predicate Covers(e: CronTab, d: CronTab)
  {
    d.minute <= e.minute && d.hour <= e.hour && d.dayofmonth <= e.dayofmonth &&
    d.month <= e.month && d.dayofweek <= e.dayofweek
  }

  /** Adding bits to an entry never makes a due entry not due. */
  lemma {:induction false} ShouldRunMonotone(d: CronTab, e: CronTab, mask: CronTab)
    requires Covers(e, d) && ShouldRun(d, mask)
    ensures ShouldRun(e, mask)
  {
    assert d.minute * mask.minute <= e.minute * mask.minute;
    assert d.hour * mask.hour <= e.hour * mask.hour;
    assert d.dayofmonth * mask.dayofmonth <= e.dayofmonth * mask.dayofmonth;
    assert d.month * mask.month <= e.month * mask.month;
    assert d.dayofweek * mask.dayofweek <= e.dayofweek * mask.dayofweek;
  }

  /**
   * `runjob`: an entry without a command launches nothing and returns 0;
   * otherwise `fork` either fails (-1, nothing launched) or the parent returns
   * 0 with the command handed to the shell. `forked` is the outcome of `fork`.
   */
  method RunJob(tab: CronTab, forked: bool) returns (ret: int, launched: Option<string>)
    ensures tab.exec.None? ==> ret == 0 && launched == None
    ensures tab.exec.Some? && !forked ==> ret == -1 && launched == None
    ensures tab.exec.Some? && forked ==> ret == 0 && launched == tab.exec
  {
    if tab.exec.None? {
      return 0, None;
    }
    if !forked {
      return -1, None;
    }
    return 0, Some(tab.exec.value);
  }
}
