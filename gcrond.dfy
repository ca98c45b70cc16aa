/**
 * The loops of gcrond.c: `calc_timeout`, `runjobs`, the sleep loop of `main`,
 * and the daemon whose globals `jobs`, `run` and `rescan` the main loop
 * updates. Each method computes the value of its function in GcrondSpec.
 */
module Gcrond {
  import opened Options
  import opened CType
  import opened Types
  import opened Crontab
  import opened Cronscan
  import opened GcrondSpec

  /** `calc_timeout`: the first offset in the window with a due job, then `timeout_minutes`. */
  method CalcTimeout(jobs: seq<CronTab>, clock: int -> Tm, now: int) returns (timeout: int)
    ensures timeout == CalcTimeoutSpec(jobs, clock, now)
  {
    var minutes: nat := 0;
    label scan: while minutes < Window
      invariant minutes <= Window
      invariant forall j :: 0 <= j < minutes ==> !AnyDue(jobs, MaskAt(clock, now, j))
    {
      var future := now + minutes * 60;
      var mask := TmToMask(clock(future));
      var k := 0;
      while k < |jobs|
        invariant k <= |jobs|
        invariant forall j :: 0 <= j < k ==> !ShouldRun(jobs[j], mask)
      {
        if ShouldRun(jobs[k], mask) {
          assert AnyDue(jobs, mask);
          break scan;
        }
        k := k + 1;
      }
      assert !AnyDue(jobs, mask);
      minutes := minutes + 1;
    }
    FirstDueIs(jobs, clock, now, 0, minutes);
    timeout := TimeoutMinutes(if minutes != 0 then minutes else 1, clock(now));
  }

  /**
   * `runjobs`: `runjob` is called for every job due at `t`, in list order;
   * `forked(k)` is the outcome of `fork` for job k.
   */
  method RunJobs(jobs: seq<CronTab>, t: Tm, forked: nat -> bool)
    returns (called: seq<nat>, launched: seq<string>)
    ensures called == Due(jobs, TmToMask(t))
    ensures launched == Launches(jobs, called, forked)
  {
    var mask := TmToMask(t);
    called, launched := [], [];
    var k := 0;
    while k < |jobs|
      invariant k <= |jobs|
      invariant called == Due(jobs[..k], mask)
      invariant launched == Launches(jobs, called, forked)
    {
      assert jobs[..k + 1][..k] == jobs[..k];
      if ShouldRun(jobs[k], mask) {
        var ret, cmd := RunJob(jobs[k], forked(k));
        LaunchesSnoc(jobs, called, forked, k);
        called := called + [k];
        if cmd.Some? {
          launched := launched + [cmd.value];
        }
      }
      k := k + 1;
    }
    assert jobs[..k] == jobs;
  }

  /** Calling one more job extends the launches by its command, if it has one and its fork succeeds. */
  lemma {:induction false} LaunchesSnoc(jobs: seq<CronTab>, called: seq<nat>, forked: nat -> bool, k: nat)
    ensures Launches(jobs, called + [k], forked) ==
              Launches(jobs, called, forked) +
              (if k < |jobs| && jobs[k].exec.Some? && forked(k) then [jobs[k].exec.value] else [])
    decreases |called|
  {
    if called == [] {
      assert [k][1..] == [];
    } else {
      assert (called + [k])[1..] == called[1..] + [k];
      LaunchesSnoc(jobs, called[1..], forked, k);
    }
  }

  /**
   * The sleep loop of `main`: `nanosleep` is called again with the remaining
   * time while it is interrupted, `run` is set and `rescan` is not.
   */
  method Sleep(f0: Flags, timeout: int, wakes: seq<Wake>) returns (r: SleepResult)
    ensures r == SleepSpec(f0, timeout, wakes)
  {
    var f := f0;
    var stime := timeout;
    var events: seq<Event> := [];
    var calls: nat := 0;
    while true
      invariant calls <= |wakes|
      invariant var rest := SleepSpec(f, stime, wakes[calls..]);
                SleepSpec(f0, timeout, wakes) ==
                SleepResult(rest.flags, events + rest.events, calls + rest.calls)
      decreases |wakes| - calls
    {
      var w := WakeAt(wakes, calls);
      assert w == WakeAt(wakes[calls..], 0);
      events := events + [Slept(stime)];
      f := Signal(f, w.term, w.hup);
      if Resumes(w, f) && calls < |wakes| {
        assert wakes[calls..][1..] == wakes[calls + 1..];
        stime := w.outcome.remaining;
        calls := calls + 1;
        continue;
      }
      if w.outcome.Failed? && f.run && !f.rescan {
        events := events + [SleepError];
      }
      return SleepResult(f, events, calls + 1);
    }
  }

  /** The globals of gcrond.c and the trace of what the daemon did. */
  class Daemon {
    var jobs: seq<CronTab>
    var run: bool
    var rescan: bool
    var timeout: int
    var trace: seq<Event>
    const clock: int -> Tm

    function State(): DaemonState
      reads this
    {
      DaemonState(jobs, run, rescan, timeout, trace)
    }

    /** The static initialisers: no jobs, `run` = 1, `rescan` = 1. */
    constructor (clock: int -> Tm)
      ensures State() == Initial && this.clock == clock
    {
      jobs := [];
      run := true;
      rescan := true;
      timeout := 0;
      trace := [];
      this.clock := clock;
    }

    /** `cleanup_config`: pops and frees the first node until the list is empty. */
    method CleanupConfig()
      modifies this
      ensures State() == old(State()).(jobs := [])
    {
      while jobs != []
        invariant State() == old(State()).(jobs := jobs)
        decreases |jobs|
      {
        jobs := jobs[1..];
      }
    }

    /** `read_config`: `cronscan` into `jobs`; a nonzero result is reported and otherwise ignored. */
    method ReadConfig(dir: Directory, files: map<string, seq<CString>>)
      modifies this
      ensures var (list, ret) := ScanSpec(dir, files, old(jobs));
              State() == old(State()).(jobs := list,
                                       trace := old(trace) + (if ret != 0 then [ConfigError] else []))
    {
      var list, ret := CronScan(dir, files, jobs);
      jobs := list;
      if ret != 0 {
        trace := trace + [ConfigError];
      }
    }

    /** The body of `while (run)`: reload or run the due jobs, then sleep. */
    method Step(env: Env)
      modifies this
      ensures State() == StepSpec(old(State()), clock, env)
    {
      if rescan {
        CleanupConfig();
        ReadConfig(env.dir, env.files);
        timeout := TimeoutMinutes(1, clock(env.now));
        rescan := false;
      } else {
        var called, launched := RunJobs(jobs, clock(env.now), env.forked);
        trace := trace + Spawns(launched);
        timeout := CalcTimeout(jobs, clock, env.now);
      }
      var r := Sleep(Flags(run, rescan), timeout, env.wakes);
      run, rescan := r.flags.run, r.flags.rescan;
      trace := trace + r.events;
    }

    /**
     * `while (run)` over a finite script: before each test of `run` the
     * environment may deliver SIGINT, SIGTERM or SIGHUP.
     */
    method Loop(script: seq<Env>)
      modifies this
      ensures State() == LoopSpec(old(State()), clock, script)
    {
      var k := 0;
      while k < |script|
        invariant k <= |script|
        invariant LoopSpec(State(), clock, script[k..]) == LoopSpec(old(State()), clock, script)
      {
        var env := script[k];
        assert script[k..][1..] == script[k + 1..];
        run := run && !env.term;
        rescan := rescan || env.hup;
        if !run {
          return;
        }
        Step(env);
        k := k + 1;
      }
    }
  }
}
