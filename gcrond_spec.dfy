/**
 * The scheduler of gcrond.c as functions: the sleep length, the first due
 * minute of the two-hour window, the jobs due at an instant, one interruptible
 * sleep, and one iteration of the main loop. The clock is a function from
 * seconds since the epoch to a broken-down local time; signals are flags that
 * the environment raises between steps and while the daemon sleeps.
 */
module GcrondSpec {
  import opened Options
  import opened CType
  import opened Types
  import opened Crontab
  import opened Cronscan

  /** The number of minutes `calc_timeout` looks ahead. */
  const Window: nat := 120

  /** `timeout_minutes`: seconds until 30 seconds into the `minutes`-th minute after `t`'s. */
  function TimeoutMinutes(minutes: int, t: Tm): int
  {
    minutes * 60 + 30 - t.sec
  }

  /** The jobs, by position, that `cron_should_run` selects against `mask`, in list order. */
  function Due(jobs: seq<CronTab>, mask: CronTab): seq<nat>
  {
    if jobs == [] then []
    else Due(jobs[..|jobs| - 1], mask) + (if ShouldRun(jobs[|jobs| - 1], mask) then [|jobs| - 1] else [])
  }

  /** Some job is due against `mask`. */
  predicate AnyDue(jobs: seq<CronTab>, mask: CronTab)
  {
    exists k :: 0 <= k < |jobs| && ShouldRun(jobs[k], mask)
  }

  /** The mask of the instant `m` minutes after `now`. */
  function MaskAt(clock: int -> Tm, now: int, m: int): CronTab
  {
    TmToMask(clock(now + m * 60))
  }

  /** The first offset from `from` on at which some job is due, or the window's end. */
  function FirstDue(jobs: seq<CronTab>, clock: int -> Tm, now: int, from: nat): (r: nat)
    requires from <= Window
    ensures from <= r <= Window
    decreases Window - from
  {
    if from == Window then Window
    else if AnyDue(jobs, MaskAt(clock, now, from)) then from
    else FirstDue(jobs, clock, now, from + 1)
  }

  /** The minute count `calc_timeout` passes to `timeout_minutes`: offset 0 becomes 1. */
  function WaitMinutes(jobs: seq<CronTab>, clock: int -> Tm, now: int): nat
  {
    var m := FirstDue(jobs, clock, now, 0);
    if m != 0 then m else 1
  }

  /** The result of `calc_timeout`. */
  function CalcTimeoutSpec(jobs: seq<CronTab>, clock: int -> Tm, now: int): int
  {
    TimeoutMinutes(WaitMinutes(jobs, clock, now), clock(now))
  }

  /** The outcome of one `nanosleep` call. */
  datatype Outcome =
    | Completed                  // returned 0
    | Interrupted(remaining: int) // -1 with EINTR, the unslept time written back
    | Failed                     // -1 with another errno

  /** One `nanosleep` call with the signals delivered while it ran. */
  datatype Wake = Wake(outcome: Outcome, term: bool, hup: bool)

  /** The flags the signal handler sets: SIGINT and SIGTERM clear `run`, SIGHUP sets `rescan`. */
  datatype Flags = Flags(run: bool, rescan: bool)

  function Signal(f: Flags, term: bool, hup: bool): Flags
  {
    Flags(f.run && !term, f.rescan || hup)
  }

  /**
   * The handler only ever clears `run` and sets `rescan`, so several signals
   * act as one: the flags after two deliveries are those after the combined one.
   */
  lemma SignalsCombine(f: Flags, term1: bool, hup1: bool, term2: bool, hup2: bool)
    ensures Signal(Signal(f, term1, hup1), term2, hup2) == Signal(f, term1 || term2, hup1 || hup2)
    ensures Signal(f, term1, hup1).run ==> f.run
    ensures f.rescan ==> Signal(f, term1, hup1).rescan
  {
  }

  /** What the daemon does that can be observed. */
  datatype Event =
    | Spawn(cmd: string) // `runjob` forked a shell for the command
    | Slept(seconds: int) // one `nanosleep` call for that many seconds
    | SleepError          // `perror("nanosleep")`
    | ConfigError         // the message of `read_config`

  /** What a sleep leaves: the flags, its events, and the number of `nanosleep` calls. */
  datatype SleepResult = SleepResult(flags: Flags, events: seq<Event>, calls: nat)

  /** The wake of the i-th call: past the given wakes every call completes. */
  function WakeAt(wakes: seq<Wake>, i: nat): Wake
  {
    if i < |wakes| then wakes[i] else Wake(Completed, false, false)
  }

  /** The loop goes on after a wake only when the call was interrupted and `run` is set with no rescan. */
  predicate Resumes(w: Wake, g: Flags)
  {
    w.outcome.Interrupted? && g.run && !g.rescan
  }

  /**
   * The sleep loop of `main`: each call sleeps for what is left; the loop stops
   * when a call completes, when `run` is cleared or `rescan` set, or when a call
   * fails for a reason other than a signal.
   */
  function SleepSpec(f: Flags, stime: int, wakes: seq<Wake>): (r: SleepResult)
    ensures r.calls >= 1 && |r.events| >= 1 && r.events[0] == Slept(stime)
    decreases |wakes|
  {
    var w := WakeAt(wakes, 0);
    var g := Signal(f, w.term, w.hup);
    if Resumes(w, g) && wakes != [] then
      var rest := SleepSpec(g, w.outcome.remaining, wakes[1..]);
      SleepResult(rest.flags, [Slept(stime)] + rest.events, rest.calls + 1)
    else if w.outcome.Failed? && g.run && !g.rescan then
      SleepResult(g, [Slept(stime), SleepError], 1)
    else
      SleepResult(g, [Slept(stime)], 1)
  }

  /** The spawn events of the commands launched. */
  function Spawns(cmds: seq<string>): (r: seq<Event>)
    ensures |r| == |cmds| && forall i :: 0 <= i < |cmds| ==> r[i] == Spawn(cmds[i])
  {
    if cmds == [] then [] else [Spawn(cmds[0])] + Spawns(cmds[1..])
  }

  /** The commands `runjob` launches for the jobs at positions `called`; `forked(k)` is the outcome of `fork` for job k. */
  function Launches(jobs: seq<CronTab>, called: seq<nat>, forked: nat -> bool): seq<string>
    decreases |called|
  {
    if called == [] then []
    else
      var k := called[0];
      (if k < |jobs| && jobs[k].exec.Some? && forked(k) then [jobs[k].exec.value] else []) +
      Launches(jobs, called[1..], forked)
  }

  /** The global state of gcrond.c: the job list, the two flags, the last timeout and the trace. */
  datatype DaemonState = DaemonState(jobs: seq<CronTab>, run: bool, rescan: bool,
                                     timeout: int, trace: seq<Event>)

  /** What the environment supplies to one iteration of the main loop. */
  datatype Env = Env(
    term: bool, hup: bool,            // signals before the loop test
    now: int,                         // the clock reading of the iteration
    dir: Directory,                   // the configuration directory, when it is read
    files: map<string, seq<CString>>, // its files as logical lines
    forked: nat -> bool,              // the outcome of `fork` for each job
    wakes: seq<Wake>)                 // the `nanosleep` calls

  /** The state `main` starts in: no jobs, `run` and `rescan` both 1. */
  const Initial: DaemonState := DaemonState([], true, true, 0, [])

  /** The part of an iteration before the sleep: reload, or run the due jobs. */
  function WorkSpec(s: DaemonState, clock: int -> Tm, env: Env): DaemonState
  {
    if s.rescan then
      var (list, ret) := ScanSpec(env.dir, env.files, []);
      s.(jobs := list, rescan := false, timeout := TimeoutMinutes(1, clock(env.now)),
         trace := s.trace + (if ret != 0 then [ConfigError] else []))
    else
      var called := Due(s.jobs, TmToMask(clock(env.now)));
      s.(timeout := CalcTimeoutSpec(s.jobs, clock, env.now),
         trace := s.trace + Spawns(Launches(s.jobs, called, env.forked)))
  }

  /** One iteration of `while (run)`: the work, then the sleep with the timeout it set. */
  function StepSpec(s: DaemonState, clock: int -> Tm, env: Env): DaemonState
  {
    var w := WorkSpec(s, clock, env);
    var r := SleepSpec(Flags(w.run, w.rescan), w.timeout, env.wakes);
    w.(run := r.flags.run, rescan := r.flags.rescan, trace := w.trace + r.events)
  }

  /** The signals that arrive between two iterations. */
  function Between(s: DaemonState, env: Env): DaemonState
  {
    var f := Signal(Flags(s.run, s.rescan), env.term, env.hup);
    s.(run := f.run, rescan := f.rescan)
  }

  /** The main loop over a finite script of environments: it stops as soon as `run` is 0. */
  function LoopSpec(s: DaemonState, clock: int -> Tm, script: seq<Env>): DaemonState
    decreases |script|
  {
    if script == [] then s
    else
      var b := Between(s, script[0]);
      if !b.run then b else LoopSpec(StepSpec(b, clock, script[0]), clock, script[1..])
  }

  // ---- timeout_minutes ----

  /** With tm_sec in 0..59 the sleep lasts between 60m-29 and 60m+30 seconds. */
  lemma TimeoutBounds(m: int, t: Tm)
    requires t.sec <= 59
    ensures 60 * m - 29 <= TimeoutMinutes(m, t) <= 60 * m + 30
  {
  }

  /**
   * When the clock's seconds are those of `now` within its minute, the daemon
   * wakes exactly 30 seconds into the m-th minute after the minute of `now`.
   */
  lemma TimeoutLandsMidMinute(m: int, now: int, t: Tm)
    requires t.sec == now % 60
    ensures (now + TimeoutMinutes(m, t)) / 60 == now / 60 + m
    ensures (now + TimeoutMinutes(m, t)) % 60 == 30
  {
    var q := now / 60;
    assert now == 60 * q + t.sec;
    assert now + TimeoutMinutes(m, t) == 60 * (q + m) + 30;
  }

  // ---- calc_timeout ----

  /** FirstDue finds the least due offset from `from` on, and skips none. */
  lemma {:induction false} FirstDueLeast(jobs: seq<CronTab>, clock: int -> Tm, now: int, from: nat)
    requires from <= Window
    ensures FirstDue(jobs, clock, now, from) < Window ==>
              AnyDue(jobs, MaskAt(clock, now, FirstDue(jobs, clock, now, from)))
    ensures forall j :: from <= j < FirstDue(jobs, clock, now, from) ==> !AnyDue(jobs, MaskAt(clock, now, j))
    decreases Window - from
  {
    if from < Window && !AnyDue(jobs, MaskAt(clock, now, from)) {
      FirstDueLeast(jobs, clock, now, from + 1);
    }
  }

  /** The offset with no due job before it, that has one or ends the window, is FirstDue. */
  lemma {:induction false} FirstDueIs(jobs: seq<CronTab>, clock: int -> Tm, now: int, from: nat, m: nat)
    requires from <= m <= Window
    requires forall j :: from <= j < m ==> !AnyDue(jobs, MaskAt(clock, now, j))
    requires m < Window ==> AnyDue(jobs, MaskAt(clock, now, m))
    ensures FirstDue(jobs, clock, now, from) == m
    decreases m - from
  {
    if from < m {
      FirstDueIs(jobs, clock, now, from + 1, m);
    }
  }

  /** The minute count is always in 1..120. */
  lemma WaitBounds(jobs: seq<CronTab>, clock: int -> Tm, now: int)
    ensures 1 <= WaitMinutes(jobs, clock, now) <= Window
  {
  }

  /** A job due in the current minute gives a count of 1. */
  lemma WaitDueNow(jobs: seq<CronTab>, clock: int -> Tm, now: int)
    requires AnyDue(jobs, MaskAt(clock, now, 0))
    ensures WaitMinutes(jobs, clock, now) == 1
  {
  }

  /**
   * Otherwise the count is the least k in 1..119 at which a job is due, and
   * 120 when there is none; no minute strictly inside the sleep has a due job.
   */
  lemma WaitLeast(jobs: seq<CronTab>, clock: int -> Tm, now: int)
    ensures forall j :: 0 < j < WaitMinutes(jobs, clock, now) ==> !AnyDue(jobs, MaskAt(clock, now, j))
    ensures !AnyDue(jobs, MaskAt(clock, now, 0)) && WaitMinutes(jobs, clock, now) < Window ==>
              AnyDue(jobs, MaskAt(clock, now, WaitMinutes(jobs, clock, now)))
    ensures (forall j :: 0 <= j < Window ==> !AnyDue(jobs, MaskAt(clock, now, j))) ==>
              WaitMinutes(jobs, clock, now) == Window
  {
    FirstDueLeast(jobs, clock, now, 0);
  }

  /** With no jobs the daemon sleeps for the whole window. */
  lemma WaitNoJobs(clock: int -> Tm, now: int)
    ensures WaitMinutes([], clock, now) == Window
  {
    WaitLeast([], clock, now);
  }

  // ---- runjobs ----

  /** `runjobs` calls `runjob` for exactly the due jobs, each once, in list order. */
  lemma {:induction false} DueExact(jobs: seq<CronTab>, mask: CronTab)
    ensures forall k: nat :: k in Due(jobs, mask) <==> k < |jobs| && ShouldRun(jobs[k], mask)
    ensures forall a, b :: 0 <= a < b < |Due(jobs, mask)| ==> Due(jobs, mask)[a] < Due(jobs, mask)[b]
  {
    if jobs != [] {
      var front := jobs[..|jobs| - 1];
      DueExact(front, mask);
      assert forall k: nat :: k < |front| ==> jobs[k] == front[k];
      var d := Due(front, mask);
      assert forall i :: 0 <= i < |d| ==> d[i] in d && d[i] < |front|;
    }
  }

  /** A launched command is the command of a called job whose fork succeeded. */
  lemma {:induction false} LaunchesFrom(jobs: seq<CronTab>, called: seq<nat>, forked: nat -> bool, c: string)
    ensures c in Launches(jobs, called, forked) <==>
              exists i :: 0 <= i < |called| && called[i] < |jobs| && forked(called[i]) &&
                          jobs[called[i]].exec == Some(c)
    decreases |called|
  {
    if called != [] {
      LaunchesFrom(jobs, called[1..], forked, c);
      assert forall i :: 0 < i < |called| ==> called[i] == called[1..][i - 1];
    }
  }

  // ---- the sleep ----

  /**
   * The events of a sleep are its calls, each a `Slept`, then `SleepError`
   * exactly when the last call failed with `run` set and no rescan.
   */
  lemma {:induction false} SleepEvents(f: Flags, stime: int, wakes: seq<Wake>)
    ensures var r := SleepSpec(f, stime, wakes);
            var last := WakeAt(wakes, r.calls - 1);
            var failed := last.outcome.Failed? && r.flags.run && !r.flags.rescan;
            |r.events| == r.calls + (if failed then 1 else 0) &&
            (forall i :: 0 <= i < r.calls ==> r.events[i].Slept?) &&
            (failed ==> r.events[r.calls] == SleepError)
    decreases |wakes|
  {
    var w := WakeAt(wakes, 0);
    var g := Signal(f, w.term, w.hup);
    if Resumes(w, g) && wakes != [] {
      SleepEvents(g, w.outcome.remaining, wakes[1..]);
      var rest := SleepSpec(g, w.outcome.remaining, wakes[1..]);
      assert WakeAt(wakes, rest.calls) == WakeAt(wakes[1..], rest.calls - 1);
      assert forall i :: 0 < i <= rest.calls ==> ([Slept(stime)] + rest.events)[i] == rest.events[i - 1];
    }
  }

  /** Every call after the first sleeps for what was left when the call before it was interrupted. */
  lemma {:induction false} SleepResumes(f: Flags, stime: int, wakes: seq<Wake>, i: nat)
    requires 0 < i < SleepSpec(f, stime, wakes).calls
    ensures i <= |wakes| && wakes[i - 1].outcome.Interrupted?
    ensures i < |SleepSpec(f, stime, wakes).events|
    ensures SleepSpec(f, stime, wakes).events[i] == Slept(wakes[i - 1].outcome.remaining)
    decreases |wakes|
  {
    var w := WakeAt(wakes, 0);
    var g := Signal(f, w.term, w.hup);
    var rest := SleepSpec(g, w.outcome.remaining, wakes[1..]);
    SleepEvents(g, w.outcome.remaining, wakes[1..]);
    if i > 1 {
      SleepResumes(g, w.outcome.remaining, wakes[1..], i - 1);
    }
  }

  /** A call that was interrupted and brought none of SIGINT, SIGTERM or SIGHUP. */
  predicate Quiet(w: Wake)
  {
    w.outcome.Interrupted? && !w.term && !w.hup
  }

  /**
   * Starting with `run` set and no rescan, the sleep goes on only past calls
   * that were interrupted with no SIGINT, SIGTERM or SIGHUP, and it ends at a
   * call that completed, failed, or brought one of those signals.
   */
  lemma {:induction false} SleepEndsWhen(f: Flags, stime: int, wakes: seq<Wake>)
    requires f.run && !f.rescan
    ensures var r := SleepSpec(f, stime, wakes);
            r.calls - 1 <= |wakes| && forall i :: 0 <= i < r.calls - 1 ==> Quiet(wakes[i])
    ensures var r := SleepSpec(f, stime, wakes);
            !Quiet(WakeAt(wakes, r.calls - 1))
    ensures var r := SleepSpec(f, stime, wakes);
            r.flags == Flags(!WakeAt(wakes, r.calls - 1).term, WakeAt(wakes, r.calls - 1).hup)
    decreases |wakes|
  {
    var w := WakeAt(wakes, 0);
    var g := Signal(f, w.term, w.hup);
    if Resumes(w, g) && wakes != [] {
      SleepEndsWhen(g, w.outcome.remaining, wakes[1..]);
      var rest := SleepSpec(g, w.outcome.remaining, wakes[1..]);
      var v := wakes[1..];
      assert WakeAt(wakes, rest.calls) == WakeAt(v, rest.calls - 1);
      forall i | 0 <= i < rest.calls
        ensures Quiet(wakes[i])
      {
        if i > 0 {
          assert wakes[i] == v[i - 1];
        }
      }
    }
  }

  /** Signals are sticky across a sleep: `run` is never set again, `rescan` never cleared. */
  lemma {:induction false} SleepFlagsSticky(f: Flags, stime: int, wakes: seq<Wake>)
    ensures SleepSpec(f, stime, wakes).flags.run ==> f.run
    ensures f.rescan ==> SleepSpec(f, stime, wakes).flags.rescan
    decreases |wakes|
  {
    var w := WakeAt(wakes, 0);
    var g := Signal(f, w.term, w.hup);
    if Resumes(w, g) && wakes != [] {
      SleepFlagsSticky(g, w.outcome.remaining, wakes[1..]);
    }
  }

  /** The sleep itself launches nothing. */
  lemma {:induction false} NoSpawnInSleep(f: Flags, stime: int, wakes: seq<Wake>)
    ensures forall e :: e in SleepSpec(f, stime, wakes).events ==> !e.Spawn?
    decreases |wakes|
  {
    var w := WakeAt(wakes, 0);
    var g := Signal(f, w.term, w.hup);
    if Resumes(w, g) && wakes != [] {
      NoSpawnInSleep(g, w.outcome.remaining, wakes[1..]);
    }
  }

  // ---- the main loop ----

  /**
   * A rescan iteration empties the list and reloads it, clears `rescan`,
   * sleeps for `timeout_minutes(1)` and launches nothing.
   */
  lemma RescanIteration(s: DaemonState, clock: int -> Tm, env: Env)
    requires s.rescan
    ensures var w := WorkSpec(s, clock, env);
            w.jobs == ScanSpec(env.dir, env.files, []).0 && !w.rescan && w.run == s.run &&
            w.timeout == TimeoutMinutes(1, clock(env.now)) &&
            w.trace == s.trace + (if ScanSpec(env.dir, env.files, []).1 != 0 then [ConfigError] else [])
    ensures var t := StepSpec(s, clock, env);
            t.trace == WorkSpec(s, clock, env).trace + SleepSpec(Flags(s.run, false), t.timeout, env.wakes).events
    ensures forall e :: e in StepSpec(s, clock, env).trace[|s.trace|..] ==> !e.Spawn?
  {
    var w := WorkSpec(s, clock, env);
    var sl := SleepSpec(Flags(w.run, w.rescan), w.timeout, env.wakes);
    NoSpawnInSleep(Flags(w.run, w.rescan), w.timeout, env.wakes);
    var t := StepSpec(s, clock, env);
    assert t.trace == w.trace + sl.events;
    assert t.trace[|s.trace|..] == (if ScanSpec(env.dir, env.files, []).1 != 0 then [ConfigError] else []) + sl.events;
  }

  /**
   * An iteration without rescan keeps the list, launches the commands of the
   * due jobs whose fork succeeds, in list order, and sleeps for `calc_timeout`.
   */
  lemma RunIteration(s: DaemonState, clock: int -> Tm, env: Env)
    requires !s.rescan
    ensures var w := WorkSpec(s, clock, env);
            w.jobs == s.jobs && w.run == s.run && !w.rescan &&
            w.timeout == CalcTimeoutSpec(s.jobs, clock, env.now) &&
            w.trace == s.trace + Spawns(Launches(s.jobs, Due(s.jobs, TmToMask(clock(env.now))), env.forked))
    ensures StepSpec(s, clock, env).jobs == s.jobs
  {
  }

  /** The first iteration reloads the configuration and runs nothing. */
  lemma FirstIterationReloads(clock: int -> Tm, env: Env)
    requires !env.term
    ensures Between(Initial, env).run && Between(Initial, env).rescan
    ensures LoopSpec(Initial, clock, [env]).jobs == ScanSpec(env.dir, env.files, []).0
    ensures forall e :: e in LoopSpec(Initial, clock, [env]).trace ==> !e.Spawn?
  {
    var b := Between(Initial, env);
    RescanIteration(b, clock, env);
    assert LoopSpec(Initial, clock, [env]) == LoopSpec(StepSpec(b, clock, env), clock, []);
  }

  /** Once `run` is 0 the loop ends: the list and the trace stay as they are. */
  lemma StoppedStaysStopped(s: DaemonState, clock: int -> Tm, script: seq<Env>)
    requires !s.run
    ensures var r := LoopSpec(s, clock, script);
            !r.run && r.jobs == s.jobs && r.trace == s.trace
  {
  }

  /**
   * At each test of `run` the loop ends exactly when the signals before the
   * test have cleared it; otherwise it performs one iteration and goes on.
   */
  lemma {:induction false} LoopEndsOnlyWhenStopped(s: DaemonState, clock: int -> Tm, script: seq<Env>)
    requires |script| > 0
    ensures !Between(s, script[0]).run ==> LoopSpec(s, clock, script) == Between(s, script[0])
    ensures Between(s, script[0]).run ==>
              LoopSpec(s, clock, script) ==
                LoopSpec(StepSpec(Between(s, script[0]), clock, script[0]), clock, script[1..])
  {
  }
}
