# A verified model of a small cron daemon

The daemon reads a directory of crontab files. It compiles each logical line
into a record of five bitmask fields plus a command, and joins the files'
entries into one job list. It then loops: it wakes 30 seconds into each
minute that has a due job, launches the due jobs' commands through the shell,
and reloads the directory on SIGHUP. SIGINT and SIGTERM stop it.

The model follows the C sources file by file.

- `types.dfy`, `ctype.dfy` and `options.dfy` hold the shared types:
  - the record `crontab_t` has each bitmask as the set of its bit positions, with the field widths of the C record (64, 32, 32, 16 and 8 bits);
  - C strings and the `isalpha`, `isdigit` and `isspace` classes;
  - `Option`.
- `rdcron_spec.dfy` (module `RdcronSpec`) states what the parser of `rdcron.c` accepts and what it builds, as functions:
  - the mnemonic and macro tables;
  - `readnum`;
  - one item and one field of `readfield`;
  - `cron_interval` and `cron_fields`;
  - a whole line with its command;
  - the list for one file.
- `rdcron.dfy` (module `Rdcron`) keeps the cursor-advancing loops of `rdcron.c` as methods. Each method is proved to return exactly the value of its function in `RdcronSpec`.
- `rdcron_props.dfy` and `rdcron_lines.dfy` prove the acceptance and bit-placement rules of the parser, and the properties of the per-file list.
- `crontab.dfy` (module `Crontab`) models `cron_tm_to_mask`, `cron_should_run` and `runjob`.
- `macro_schedules.dfy` says when each macro of the table is due.
- `cronscan.dfy` (module `Cronscan`) has `cronscan` as a method over a directory listing, proved against `ScanSpec`.
- `gcrond_spec.dfy` (module `GcrondSpec`) states the scheduler as functions:
  - `timeout_minutes` and `calc_timeout`;
  - the jobs `runjobs` selects;
  - the interruptible sleep;
  - one iteration of the main loop, and the loop.
- `gcrond.dfy` (module `Gcrond`) has the loops as methods, and the globals `jobs`, `run` and `rescan` as the fields of class `Daemon`. Its methods are proved against those functions.

Each method's contract ties its result, or its new state, to a function of
its inputs. Those functions carry the properties below.

## Model

| member | source | states |
|---|---|---|
| `Types.Narrow` | gcrond.h:28-37 | assigning a 64-bit mask to a field of width w keeps exactly the bits of the mask below w (the intersection with the w low bits) |
| `Types.Bits` | gcrond.h:32-36 | the mask of a w-bit field with every bit set holds exactly the bit positions 0 .. w-1 |
| `CType.SpanEnd` | rdcron.c:110-111 | the `isalpha`, `isdigit` and `isspace` scans stop inside the line, after characters of the class only, on a character outside the class or the terminator |
| `CType.SpanEndUnique` | rdcron.c:131-135 | a run of a class is ended by exactly one position: any end with the class before it and a non-member at it is the scan's end |
| `CType.SpanEndRun` | rdcron.c:204-205 | every character the scan passes belongs to the class |
| `RdcronSpec.TablesInDomain` | rdcron.c:9-34 | weekday mnemonics stand for 0..6 and month mnemonics for 1..12 |
| `RdcronSpec.IntervalsAreSchedules` | rdcron.c:36-95 | every macro row is a schedule: each field non-empty and within its C width, and no command yet |
| `RdcronSpec.LookupMnemonic` | rdcron.c:113-117 | the scan returns a number only if the table pairs the word with it; it fails only if no name of the table is the word |
| `RdcronSpec.ReadNumSpec` | rdcron.c:103-154 | on success the cursor advances and stays in the line; with a table inside [minval, maxval] the number lies in [minval, maxval] |
| `RdcronSpec.DecVal` | rdcron.c:131-135 | the digits accumulated left to right, `value * 10 + digit`; its properties are `DecValPrefix` and `ReadNumDecimal` |
| `RdcronSpec.Guarded` | rdcron.c:131-133 | the `value > INT_MAX / 10` test fails before every digit of the run; `ReadNumDecimal` shows that with maxval <= INT_MAX / 10 it never decides whether a number is accepted |
| `RdcronSpec.RangeSpec` | rdcron.c:162-182 | a range that parses has minval <= lo <= hi <= maxval, and the cursor advances |
| `RdcronSpec.StepSpec` | rdcron.c:184-190 | a step is in [1, maxval + 1] and the cursor does not move back |
| `RdcronSpec.StepBitsRange` | rdcron.c:192-195 | a non-empty range sets the bit of its low end, and no bit outside [lo - minval, hi - minval] |
| `RdcronSpec.StepBits` | rdcron.c:192-195 | the bits `value - minval` for value = lo, lo + step, ... up to hi; its properties are `StepBitsRange` and `StepBitsMembers` |
| `RdcronSpec.ItemSpec` | rdcron.c:162-195 | an item that parses moves the cursor forward, within the line |
| `RdcronSpec.ItemInDomain` | rdcron.c:162-195 | an item that parses sets at least one bit, and only bits below maxval - minval + 1 |
| `RdcronSpec.FieldSpec` | rdcron.c:156-212 | a field that parses leaves the cursor past its start, at the end of the line or after whitespace, on a character that is not whitespace |
| `RdcronSpec.AfterItem` | rdcron.c:197-207 | after an item, the rest of the field leaves the cursor at a field end, as in `FieldSpec` |
| `RdcronSpec.FieldAfterItem` | rdcron.c:161-200 | a field is its first item followed by what comes after that item |
| `RdcronSpec.FieldStep` | rdcron.c:161-207 | one pass of the `goto next` loop: a failing item fails the field; otherwise the outcome is decided by the character after the item |
| `RdcronSpec.AfterItemStep` | rdcron.c:197-207 | the bits read so far OR-ed with the rest of the field give the outcome after the item |
| `RdcronSpec.OrInto` | rdcron.c:193 | OR-ing bits into a field's outcome, failure staying failure; its properties are `OrIntoNothing` and `OrIntoTwice` |
| `RdcronSpec.OrIntoNothing` | rdcron.c:160 | OR-ing into the zeroed field mask adds nothing |
| `RdcronSpec.OrIntoTwice` | rdcron.c:192-199 | OR-ing two batches of bits one after the other is OR-ing their union |
| `RdcronSpec.CommaContinues` | rdcron.c:197-200 | after a comma the field goes on at the next item, with the bits read so far |
| `RdcronSpec.FieldInDomain` | rdcron.c:156-212 | a field that parses sets at least one bit, and only bits of its domain |
| `RdcronSpec.AfterItemInDomain` | rdcron.c:197-207 | continuing after an in-domain item keeps the field non-empty and in the domain |
| `RdcronSpec.LookupInterval` | rdcron.c:225-230 | the scan returns a record only if the table pairs the word with it; it fails only if no macro is the word |
| `RdcronSpec.IntervalSpec` | rdcron.c:216-240 | on success the cursor is past `@` and at least one letter, on a whitespace character of the line |
| `RdcronSpec.IntervalEntry` | rdcron.c:216-236 | a macro line gives a row of the table whose macro is the line's word, and that row is a schedule without a command |
| `RdcronSpec.FieldsSpec` | rdcron.c:242-268 | a five-field line leaves the cursor at a field end |
| `RdcronSpec.Store` | rdcron.c:249-265 | storing into the C fields keeps each field within its width; values that fit are stored unchanged; `exec` stays NULL |
| `RdcronSpec.StoreSchedule` | rdcron.c:249-265 | non-empty fields within their domains are stored unchanged and form a schedule |
| `RdcronSpec.FieldsEntry` | rdcron.c:242-268 | the five fields lie in [0,60), [0,24), [0,31), [0,12) and [0,7), and the record is a schedule without a command |
| `RdcronSpec.CommandAfter` | rdcron.c:322-325 | skipping the whitespace after the schedule's end j passes only whitespace, and what remains is a suffix of the line that does not start with whitespace and, when not empty, follows whitespace |
| `RdcronSpec.ParsedEntry` | rdcron.c:311-325 | a line parses exactly when its schedule does; it is then that schedule, and its command is the rest of the line from the first non-whitespace character at or after the schedule's end e0, with only whitespace between e0 and it |
| `RdcronSpec.Schedule` | rdcron.c:311-315 | a line starting with `@` is read by `cron_interval`, any other by `cron_fields`; its properties are `IntervalEntry`, `IntervalExact` and `FieldsEntry` |
| `RdcronSpec.ParseLine` | rdcron.c:311-325 | the schedule with the rest of the line as its command, or nothing; its properties are `ParsedEntry`, `BadLineDropped`, `BareMacroRejected` and `DailyWithCommand` |
| `RdcronSpec.CompiledSnoc` | rdcron.c:293-334 | one more line appends its entry, if any, after the entries of the lines before it |
| `RdcronSpec.LineEntries` | rdcron.c:311-320 | the entry of one line, none when it does not parse; its properties are `CollectDropped` and `BadLineDropped` |
| `RdcronSpec.Compiled` | rdcron.c:293-334 | the entries of the lines that parse, in line order; its properties are `CompiledSnoc`, `CompiledIsCollect`, `CompiledAppend` and `CompiledFromLines` |
| `RdcronSpec.FileEntries` | rdcron.c:293-337 | the list `rdcron` returns, `Compiled` reversed by the prepends; its properties are `FileEntriesPrepend` and `FileEntriesReversed`, and `Rdcron.RdCron` computes it |
| `RdcronSpec.Reverse` | rdcron.c:332-333 | reversal keeps the length |
| `RdcronSpec.ReverseSnoc` | rdcron.c:332-333 | prepending puts the newest entry first |
| `Rdcron.SkipSpace` | rdcron.c:204-205 | the cursor ends after the whole whitespace run |
| `Rdcron.SpanSkip` | rdcron.c:131-135 | skipping characters of a class does not change where the run of that class ends |
| `Rdcron.ReadNum` | rdcron.c:103-154 | returns exactly `ReadNumSpec` |
| `Rdcron.FindMnemonic` | rdcron.c:113-122 | returns exactly `LookupMnemonic` |
| `Rdcron.ReadDecimal` | rdcron.c:128-143 | the digit run is read; the result fails when the overflow guard fires before a digit or the value is outside [minval, maxval], and otherwise gives the value and the cursor after the run |
| `Rdcron.ReadRange` | rdcron.c:162-182 | returns exactly `RangeSpec` |
| `Rdcron.ReadStep` | rdcron.c:184-190 | returns exactly `StepSpec` |
| `Rdcron.ReadItem` | rdcron.c:162-195 | ORs exactly the bits of `ItemSpec` into the accumulator |
| `Rdcron.ReadField` | rdcron.c:156-212 | returns exactly `FieldSpec` |
| `Rdcron.ReadItems` | rdcron.c:161-207 | the `goto next` loop returns the bits so far OR-ed with `FieldSpec` from the current item |
| `Rdcron.CronInterval` | rdcron.c:216-240 | returns exactly `IntervalSpec` |
| `Rdcron.CronFields` | rdcron.c:242-268 | returns exactly `FieldsSpec` |
| `Rdcron.ReadLine` | rdcron.c:311-325 | returns exactly `ParseLine` |
| `Rdcron.RdCron` | rdcron.c:293-337 | returns the entries of the lines that parse, in reverse line order (`FileEntries`) |
| `RdcronProps.DecValPrefix` | rdcron.c:131-135 | the value of a prefix of a digit string is non-negative and at most the value of the whole string |
| `RdcronProps.ReadNumDecimal` | rdcron.c:128-143 | without a table and with maxval <= INT_MAX / 10: success only on a digit, reading the whole digit run, and only with a value in [minval, maxval] |
| `RdcronProps.NameMatchesExact` | rdcron.c:114-115 | the `strncmp` and terminator test holds exactly when the word equals the name |
| `RdcronProps.LookupExact` | rdcron.c:113-124 | in a table of distinct names, a word reads as v exactly when the table pairs it with v |
| `RdcronProps.WeekdayNamesDistinct` | rdcron.c:9-18 | the weekday names are distinct |
| `RdcronProps.WeekdayWordRejected` | rdcron.c:109-122 | `MONDAY` is not a weekday |
| `RdcronProps.WeekdayLowerRejected` | rdcron.c:109-122 | the match is case-sensitive: `mon` is not a weekday |
| `RdcronProps.MnemonicRead` | rdcron.c:109-125 | an alphabetic run equal to a table name reads as that name's number, with the cursor after the run |
| `RdcronProps.SundayIsZero` | rdcron.c:16 | `SUN` is 0 |
| `RdcronProps.MondayIsOne` | rdcron.c:10 | `MON` is 1 |
| `RdcronProps.SingleValueRange` | rdcron.c:176-178 | a single number `a` is the range [a, a]; without a step it sets only its own bit |
| `RdcronProps.InvertedRangeFails` | rdcron.c:180-181 | `a-b` with b < a fails the item and the whole field |
| `RdcronProps.MonSunRejected` | rdcron.c:161-182 | `MON-SUN` is an inverted range and the weekday field fails |
| `RdcronProps.StepBitsMembers` | rdcron.c:192-195 | bit b is set exactly when lo - minval <= b <= hi - minval and b is a whole number of steps above lo - minval |
| `RdcronProps.WholeRangeBits` | rdcron.c:162-195 | with step 1 the whole domain sets every bit below maxval - minval + 1 |
| `RdcronProps.StepDecimal` | rdcron.c:184-190 | after `/` the step is a decimal in [1, maxval + 1], and without `/` it is 1 |
| `RdcronProps.ItemMembers` | rdcron.c:162-195 | the bits of an item are the step-th values from the range's low end up to its high end, placed at their offsets from minval |
| `RdcronProps.StarIsWholeDomain` | rdcron.c:162-165 | `*` without a step sets every bit of the domain |
| `RdcronProps.StarStep` | rdcron.c:162-195 | `*/n` sets exactly the bits of the domain that are multiples of n |
| `RdcronProps.FieldUnion` | rdcron.c:160-200 | items separated by a comma are OR-ed into one mask |
| `RdcronProps.FieldAfterLastItem` | rdcron.c:202-207 | after the last item, the field succeeds exactly at the end of the line or at whitespace, and skips that whitespace |
| `RdcronProps.FieldHoldsFirstItem` | rdcron.c:161-200 | a field that parses begins with an item that parses, and holds all its bits |
| `RdcronLines.MacroMatchesExact` | rdcron.c:226-228 | the length test plus `strncmp` hold exactly when the word equals the macro |
| `RdcronLines.IntervalNamesDistinct` | rdcron.c:36-95 | the six macro names are distinct |
| `RdcronLines.LookupIntervalExact` | rdcron.c:225-235 | a word that is a macro of a distinct table gives that macro's record |
| `RdcronLines.IntervalExact` | rdcron.c:220-236 | a macro line is accepted exactly when its word, `@` included, is one of the six macros and whitespace follows; the record is that macro's row |
| `RdcronLines.BareMacroRejected` | rdcron.c:222-223 | `@daily` at the end of the line is rejected, and the line is dropped |
| `RdcronLines.DailyWithCommand` | rdcron.c:311-325 | `@daily x` is the daily row with command `x` |
| `RdcronLines.CompiledIsCollect` | rdcron.c:293-334 | the line loop is the per-line entries joined in line order |
| `RdcronLines.CollectAppend` | rdcron.c:293-334 | joining per-line entries distributes over concatenation of lines |
| `RdcronLines.CompiledAppend` | rdcron.c:293-334 | the entries of two runs of lines are those of the first run followed by those of the second |
| `RdcronLines.BadLineDropped` | rdcron.c:317-320 | a line that does not parse is dropped and the lines after it are still parsed |
| `RdcronLines.CollectDropped` | rdcron.c:317-320 | a line that contributes nothing leaves the joined entries unchanged |
| `RdcronLines.CollectFrom` | rdcron.c:293-334 | every joined entry comes from some line, and every line's entries are joined |
| `RdcronLines.CompiledFromLines` | rdcron.c:311-333 | every entry is the parse of some line, and every line that parses contributes its entry |
| `RdcronLines.ReverseAppend` | rdcron.c:332-333 | reversing a concatenation reverses the order of its parts |
| `RdcronLines.ReverseIndex` | rdcron.c:332-333 | the k-th element of the reversal is the k-th from the end |
| `RdcronLines.FileEntriesPrepend` | rdcron.c:332-333 | a file's last line contributes its entry at the head of the list |
| `RdcronLines.FileEntriesReversed` | rdcron.c:332-333 | the list has one entry per parsed line, in reverse line order |
| `Crontab.TmToMaskBits` | crontab.c:4-12 | (an unfolding of `TmToMask`) the mask of a time has exactly the bits tm_min, tm_hour, tm_mday-1, tm_mon and tm_wday, and no command |
| `Crontab.TmToMask` | crontab.c:4-12 | the zeroed record with one bit per time component; its properties are `TmToMaskBits` and `ShouldRunAt` |
| `Crontab.ShouldRun` | crontab.c:14-32 | the five field-wise intersections are non-empty; its meaning at a time is `ShouldRunAt`, with `DaysBothRequired`, `OutOfDomainIrrelevant` and `ShouldRunMonotone` |
| `Crontab.MeetsSingleton` | crontab.c:16-29 | a field meets a one-bit field exactly when it holds that bit |
| `Crontab.ShouldRunAt` | crontab.c:4-32 | against a time's mask, an entry is due exactly when the five bits of that time are set in its fields |
| `Crontab.DaysBothRequired` | crontab.c:22-29 | a day of the month or a day of the week that misses makes the entry not due, whatever the other one says |
| `Crontab.InDomain` | crontab.c:7-11 | each field restricted to the bits a time can select; its property is `InDomainGreatest` |
| `Crontab.InDomainGreatest` | crontab.c:7-11 | restricting each field to the bits a time can select gives the largest entry inside the time domains that the entry covers, with the same command |
| `Crontab.OutOfDomainIrrelevant` | crontab.c:4-32 | bits outside a field's domain never change whether an entry is due at a time |
| `Crontab.ShouldRunMonotone` | crontab.c:14-32 | adding bits to an entry never turns due into not due |
| `Crontab.RunJob` | crontab.c:42-61 | no command: returns 0 and launches nothing; failed fork: -1 and nothing; otherwise 0 with the command launched |
| `MacroSchedules.YearlyDue` | rdcron.c:40-57 | `@yearly` and `@annually` are due exactly at 00:00 on 1 January |
| `MacroSchedules.MonthlyDue` | rdcron.c:58-66 | `@monthly` is due exactly at 00:00 on the first of a month |
| `MacroSchedules.WeeklyDue` | rdcron.c:67-75 | `@weekly` is due exactly at 00:00 on a Sunday |
| `MacroSchedules.DailyDue` | rdcron.c:76-84 | `@daily` is due exactly at 00:00 |
| `MacroSchedules.HourlyDue` | rdcron.c:85-93 | `@hourly` is due exactly at minute 0 |
| `MacroSchedules.HourlyHoursInDomain` | rdcron.c:89 | the all-ones hour mask of `@hourly` behaves like hours 0..23 |
| `Cronscan.GatheredSnoc` | cronscan.c:36-51 | one more name appends its file's entries, unless it is `.` or `..` |
| `Cronscan.Gathered` | cronscan.c:24-52 | the files' lists joined in directory order; its properties are `GatheredSnoc`, `GatheredAppend`, `DotsSkipped` and `EmptyFileNoChange` |
| `Cronscan.ScanSpec` | cronscan.c:4-56 | the list and return value of `cronscan`; `CronScan` computes it |
| `Cronscan.CronScan` | cronscan.c:4-56 | returns exactly `ScanSpec`: -1 with the list untouched when the directory cannot be opened or its descriptor obtained; otherwise the joined lists, the list untouched when no file has an entry, and -1 when `readdir` failed |
| `Cronscan.DotsSkipped` | cronscan.c:36-37 | a `.` or `..` anywhere among the names contributes nothing to the joined list |
| `Cronscan.GatheredAppend` | cronscan.c:24-52 | the list for two runs of names is the first run's list followed by the second's |
| `Cronscan.EmptyFileNoChange` | cronscan.c:39-41 | a file with no entries leaves the list unchanged |
| `GcrondSpec.FirstDue` | gcrond.c:43-53 | the first due offset lies between the starting offset and 120 |
| `GcrondSpec.TimeoutMinutes` | gcrond.c:27-34 | seconds to 30 seconds into the m-th minute; its properties are `TimeoutBounds` and `TimeoutLandsMidMinute` |
| `GcrondSpec.CalcTimeoutSpec` | gcrond.c:36-56 | `timeout_minutes` of the first due offset, 0 replaced by 1; its properties are `WaitBounds`, `WaitDueNow`, `WaitLeast` and `WaitNoJobs` |
| `GcrondSpec.WaitMinutes` | gcrond.c:43-55 | the first due offset with 0 replaced by 1; its properties are `WaitBounds`, `WaitDueNow`, `WaitLeast` and `WaitNoJobs` |
| `GcrondSpec.Due` | gcrond.c:58-71 | the positions of the jobs due against a mask; its property is `DueExact` |
| `GcrondSpec.Launches` | crontab.c:46-58 | the commands `runjob` launches for the called jobs: those with a command whose fork succeeded, in call order; its properties are `LaunchesFrom` and `Gcrond.LaunchesSnoc` |
| `GcrondSpec.Signal` | gcrond.c:77-84 | the handler clears `run` on SIGINT or SIGTERM and sets `rescan` on SIGHUP; its property is `SignalsCombine` |
| `GcrondSpec.SignalsCombine` | gcrond.c:77-84 | two deliveries act as one combined delivery; the handler never sets `run` and never clears `rescan` |
| `GcrondSpec.Between` | gcrond.c:105 | the handler's effect on the flags for the signals that arrive before the test of `run`; its properties are `FirstIterationReloads` and `LoopEndsOnlyWhenStopped` |
| `GcrondSpec.WorkSpec` | gcrond.c:106-114 | a reload when `rescan` is set, otherwise the due jobs run and `calc_timeout`; its properties are `RescanIteration` and `RunIteration` |
| `GcrondSpec.StepSpec` | gcrond.c:105-125 | the work of an iteration, then the sleep with its timeout; its properties are `RescanIteration`, `RunIteration`, `SleepEndsWhen` and `SleepFlagsSticky` |
| `GcrondSpec.LoopSpec` | gcrond.c:105-125 | the iterations of `while (run)` over a script; its properties are `FirstIterationReloads`, `StoppedStaysStopped` and `LoopEndsOnlyWhenStopped` |
| `GcrondSpec.SleepSpec` | gcrond.c:116-124 | a sleep makes at least one call, and its first call sleeps for the whole timeout |
| `GcrondSpec.Spawns` | crontab.c:58 | one spawn event per launched command, in order |
| `GcrondSpec.TimeoutBounds` | gcrond.c:27-34 | with tm_sec in 0..59 the timeout for m minutes lies in [60m - 29, 60m + 30] |
| `GcrondSpec.TimeoutLandsMidMinute` | gcrond.c:27-34 | now plus the timeout is exactly 30 seconds into the m-th minute after now's minute |
| `GcrondSpec.FirstDueLeast` | gcrond.c:43-53 | a first due offset short of 120 has a due job, and no offset before it does |
| `GcrondSpec.FirstDueIs` | gcrond.c:43-53 | an offset with no due job before it, that has a due job or is 120, is the first due offset |
| `GcrondSpec.WaitBounds` | gcrond.c:55 | the minute count is in 1..120 |
| `GcrondSpec.WaitDueNow` | gcrond.c:55 | a job due in the current minute gives a count of 1 |
| `GcrondSpec.WaitLeast` | gcrond.c:43-55 | no minute strictly inside the sleep has a due job; otherwise the count is the least due offset, and 120 when nothing is due in the window |
| `GcrondSpec.WaitNoJobs` | gcrond.c:43-55 | with no jobs the count is 120 |
| `GcrondSpec.DueExact` | gcrond.c:58-71 | `runjobs` selects exactly the due jobs, each once, in list order |
| `GcrondSpec.LaunchesFrom` | gcrond.c:67-70 | a command is launched exactly when a selected job has it and its fork succeeded |
| `GcrondSpec.SleepEvents` | gcrond.c:119-124 | a sleep's events are its calls, then a `nanosleep` error exactly when the last call failed with `run` set and no rescan |
| `GcrondSpec.SleepResumes` | gcrond.c:119 | each later call sleeps for the time the previous interrupted call left |
| `GcrondSpec.SleepEndsWhen` | gcrond.c:119-124 | starting with `run` set and no rescan, the sleep goes on only past quiet interruptions, and ends at a call that completed, failed or brought a signal; the flags then record that call's signals |
| `GcrondSpec.SleepFlagsSticky` | gcrond.c:119 | a sleep never sets `run` again and never clears `rescan` |
| `GcrondSpec.NoSpawnInSleep` | gcrond.c:116-124 | the sleep launches nothing |
| `GcrondSpec.RescanIteration` | gcrond.c:106-110 | a rescan iteration replaces the list by the reloaded one, clears `rescan`, sleeps for `timeout_minutes(1)` and launches nothing |
| `GcrondSpec.RunIteration` | gcrond.c:111-114 | (an unfolding of `WorkSpec` and `StepSpec`) an iteration without rescan keeps the list, launches the due jobs' commands in list order and sleeps for `calc_timeout` |
| `GcrondSpec.FirstIterationReloads` | gcrond.c:105-110 | starting from `run` = 1 and `rescan` = 1 (gcrond.c:5-6), the first iteration reloads the configuration and runs nothing |
| `GcrondSpec.StoppedStaysStopped` | gcrond.c:105 | (an unfolding of `LoopSpec`) once `run` is 0 the loop does nothing more |
| `GcrondSpec.LoopEndsOnlyWhenStopped` | gcrond.c:105 | at each test of `run` the loop ends exactly when the signals before it cleared `run`; otherwise it performs one iteration and goes on with the rest of the script |
| `Gcrond.CalcTimeout` | gcrond.c:36-56 | returns exactly `CalcTimeoutSpec` |
| `Gcrond.RunJobs` | gcrond.c:58-71 | calls `runjob` for exactly the `Due` jobs and launches exactly `Launches` of them |
| `Gcrond.LaunchesSnoc` | gcrond.c:67-70 | selecting one more job extends the launched commands by its command, if it has one and its fork succeeds |
| `Gcrond.Sleep` | gcrond.c:116-124 | returns exactly `SleepSpec` |
| `Gcrond.Daemon.constructor` | gcrond.c:4-6 | starts with no jobs, `run` = 1 and `rescan` = 1 |
| `Gcrond.Daemon.CleanupConfig` | gcrond.c:16-25 | empties the list and changes nothing else |
| `Gcrond.Daemon.ReadConfig` | gcrond.c:8-14 | sets the list to `cronscan`'s result, and records the message when it returns nonzero |
| `Gcrond.Daemon.Step` | gcrond.c:105-125 | the new state is `StepSpec` of the old one |
| `Gcrond.Daemon.Loop` | gcrond.c:105-125 | the new state is `LoopSpec` of the old one over the script |

## Left out

- gcrond.c:55 replaces only offset 0 by 1; with no job due in the 120-minute window, `calc_timeout` passes 120 to `timeout_minutes`, and the model follows that.
- `Gcrond.Daemon.Loop`: the environment is a finite script. The loop runs at most one iteration per script element, so a loop that would run forever is seen only through its finite prefixes.
- `Gcrond.Sleep`: past the given wakes every `nanosleep` call completes. A sleep interrupted forever is not modelled.
- Real time: `time` and `localtime_r` are one function `clock` from seconds to a broken-down time with the ranges `localtime_r` guarantees, read at the single instant `now` of each iteration. The C code reads `time(NULL)` separately in `timeout_minutes`, `calc_timeout` and `runjobs`. DST and time zones are not modelled.
- Signals: the handler, `sigaction` and the `waitpid` reaping loop (gcrond.c:73-103) are asynchronous. Signals appear as flag changes: between iterations, and with each `nanosleep` call. The lost-SIGHUP race during a reload is a concurrency effect and is not modelled.
- `fork` and `execl` (crontab.c:49-60) are a given outcome per job. A launch is recorded in the trace; the child process is not modelled.
- File and directory I/O:
  - `openat`, `fdopen`, `fparseln` and `fclose` are left out. A file is given as its logical lines, already stripped of comments and joined at continuations, and a file that cannot be opened is given as no lines.
  - `opendir`, `dirfd` and `readdir` are left out. The directory is given as its outcome: a listing, or a failure to open it or to get its descriptor.
- rdline.c is not part of this model: `rdcron` does not call it.
- Allocation failures of `calloc` and `strdup` (rdcron.c:305-309, 326-330), `free` and `delcron` are not modelled; allocation always succeeds.
- Linked lists are sequences: `next` pointers, the `tail` pointer walk (as a position in the sequence) and the nodes' addresses are not modelled, so neither is aliasing between lists.
- Diagnostics: the `fprintf` and `perror` texts and the line numbers are not modelled. Only the message of `read_config` and the `nanosleep` error appear, as events.
- Bytes: lines are sequences of `char`, while `rdcron.c` reads bytes. In the C locale a byte above 127 belongs to none of the `isalpha`, `isdigit` and `isspace` classes, and in the model such a character belongs to none of them either, so the parser treats it the same.
- C signed overflow: digits are accumulated over unbounded integers with the same guard (rdcron.c:132). The last digit after a value of exactly INT_MAX / 10 can overflow `int` in C, which is undefined behaviour; the model does not claim any wrap-around there. The parser's domains make any such value out of range.
