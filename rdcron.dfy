/**
 * The scanner of rdcron.c: cursor-advancing loops over one logical line, and
 * the per-line loop that prepends each parsed entry to the file's list. Each
 * method returns exactly the value of its counterpart in RdcronSpec.
 */
module Rdcron {
  import opened Options
  import opened CType
  import opened Types
  import opened RdcronSpec

  /** All characters of s[i..e] belong to class `k`. */
  lemma SpanSkip(s: string, i: nat, e: nat, k: Class)
    requires i <= e <= |s|
    requires forall j :: i <= j < e ==> In(s[j], k)
    ensures SpanEnd(s, i, k) == SpanEnd(s, e, k)
    decreases e - i
  {
    if i < e {
      SpanSkip(s, i + 1, e, k);
    }
  }

  /** The loop `while (isspace(*line)) ++line;`: the cursor after the whitespace run at i0. */
  method SkipSpace(s: CString, i0: nat) returns (i: nat)
    requires i0 <= |s|
    ensures i == SpanEnd(s, i0, Space)
  {
    i := i0;
    while IsSpace(At(s, i))
      invariant i0 <= i <= |s|
      invariant forall j :: i0 <= j < i ==> In(s[j], Space)
      decreases |s| - i
    {
      i := i + 1;
    }
    SpanEndUnique(s, i0, i, Space);
  }

  /** `readnum`: a mnemonic looked up in `mnemonic`, or a decimal in [minval, maxval]. */
  method ReadNum(s: CString, i0: nat, minval: int, maxval: int, mnemonic: Option<Mnemonics>)
    returns (r: Option<(int, nat)>)
    requires i0 <= |s|
    ensures r == ReadNumSpec(s, i0, minval, maxval, mnemonic)
  {
    if IsAlpha(At(s, i0)) && mnemonic.Some? {
      var i: nat := i0;
      while IsAlpha(At(s, i))
        invariant i0 <= i <= |s|
        invariant forall j :: i0 <= j < i ==> In(s[j], Alpha)
        decreases |s| - i
      {
        i := i + 1;
      }
      SpanEndUnique(s, i0, i, Alpha);
      var v := FindMnemonic(mnemonic.value, s[i0..i]);
      if v.None? {
        return None;
      }
      return Some((v.value, i));
    }
    if !IsDigit(At(s, i0)) {
      return None;
    }
    r := ReadDecimal(s, i0, minval, maxval);
  }

  /** The scan of a mnemonic table for the alphabetic run `word`. */
  method FindMnemonic(tab: Mnemonics, word: string) returns (v: Option<int>)
    ensures v == LookupMnemonic(tab, word)
  {
    var ev := 0;
    while ev < |tab| && !NameMatches(word, tab[ev].0)
      invariant ev <= |tab|
      invariant LookupMnemonic(tab[ev..], word) == LookupMnemonic(tab, word)
    {
      assert tab[ev..][1..] == tab[ev + 1..];
      ev := ev + 1;
    }
    if ev == |tab| {
      return None;
    }
    return Some(tab[ev].1);
  }

  /** The decimal branch of `readnum`: digits accumulated under the overflow guard, then the range test. */
  method ReadDecimal(s: CString, i0: nat, minval: int, maxval: int) returns (r: Option<(int, nat)>)
    requires i0 <= |s| && IsDigit(At(s, i0))
    ensures var e := SpanEnd(s, i0, Digit);
            var v := DecVal(s[i0..e]);
            r == if !Guarded(s, i0, e) || v > maxval || v < minval then None else Some((v, e))
  {
    var value := 0;
    var i: nat := i0;
    while IsDigit(At(s, i))
      invariant i0 <= i <= |s|
      invariant forall j :: i0 <= j < i ==> In(s[j], Digit)
      invariant value == DecVal(s[i0..i])
      invariant forall k :: i0 <= k < i ==> DecVal(s[i0..k]) <= IntMax / 10
      decreases |s| - i
    {
      if value > IntMax / 10 {
        // the guard fires before the digit at i, which lies inside the run
        SpanSkip(s, i0, i, Digit);
        assert !Guarded(s, i0, SpanEnd(s, i0, Digit));
        return None;
      }
      assert s[i0..i + 1][..i - i0] == s[i0..i];
      value := value * 10 + DigitValue(s[i]);
      i := i + 1;
    }
    SpanEndUnique(s, i0, i, Digit);
    if value > maxval {
      return None;
    }
    if value < minval {
      return None;
    }
    return Some((value, i));
  }

  /** The first part of an item of `readfield`: `*`, `n` or `a-b` (no wraparound). */
  method ReadRange(s: CString, i0: nat, minval: int, maxval: int, mnemonic: Option<Mnemonics>)
    returns (r: Option<(int, int, nat)>)
    requires i0 <= |s| && ValidDomain(minval, maxval, mnemonic)
    ensures r == RangeSpec(s, i0, minval, maxval, mnemonic)
  {
    var i := i0;
    var value, endvalue;
    if At(s, i) == '*' {
      i := i + 1;
      value, endvalue := minval, maxval;
    } else {
      var n := ReadNum(s, i, minval, maxval, mnemonic);
      if n.None? {
        return None;
      }
      value, i := n.value.0, n.value.1;
      if At(s, i) == '-' {
        var m := ReadNum(s, i + 1, minval, maxval, mnemonic);
        if m.None? {
          return None;
        }
        endvalue, i := m.value.0, m.value.1;
      } else {
        endvalue := value;
      }
      if endvalue < value {
        return None;
      }
    }
    return Some((value, endvalue, i));
  }

  /** The optional `/step` of an item of `readfield`; without one the step is 1. */
  method ReadStep(s: CString, i: nat, maxval: int) returns (r: Option<(int, nat)>)
    requires i <= |s| && 0 <= maxval
    ensures r == StepSpec(s, i, maxval)
  {
    if At(s, i) == '/' {
      r := ReadNum(s, i + 1, 1, maxval + 1, None);
    } else {
      r := Some((1, i));
    }
  }

  /**
   * One item of `readfield`: its range and step are read, and the bits of
   * the range's values, from its low end upwards by the step, are OR-ed into `out`.
   */
  method ReadItem(s: CString, i0: nat, minval: int, maxval: int, mnemonic: Option<Mnemonics>,
                  out0: set<nat>)
    returns (r: Option<(set<nat>, nat)>)
    requires i0 <= |s| && ValidDomain(minval, maxval, mnemonic)
    ensures r == OrInto(out0, ItemSpec(s, i0, minval, maxval, mnemonic))
  {
    var range := ReadRange(s, i0, minval, maxval, mnemonic);
    if range.None? {
      return None;
    }
    var value, endvalue := range.value.0, range.value.1;
    var steps := ReadStep(s, range.value.2, maxval);
    if steps.None? {
      return None;
    }
    var step := steps.value.0;

    ghost var bits := StepBits(value, endvalue, step, minval);
    var out := out0;
    while value <= endvalue
      invariant minval <= value
      invariant out + StepBits(value, endvalue, step, minval) == out0 + bits
      decreases endvalue - value
    {
      out := out + {(value - minval) as nat};
      value := value + step;
    }
    assert StepBits(value, endvalue, step, minval) == {};
    assert out == out0 + bits;
    assert ItemSpec(s, i0, minval, maxval, mnemonic) == Some((bits, steps.value.1));
    return Some((out, steps.value.1));
  }

  /**
   * `readfield`: items `*`, `n` or `a-b`, each with an optional `/step`,
   * separated by commas; the bits of all items are OR-ed into one mask.
   */
  method ReadField(s: CString, i0: nat, minval: int, maxval: int, mnemonic: Option<Mnemonics>)
    returns (r: Option<(set<nat>, nat)>)
    requires i0 <= |s| && ValidDomain(minval, maxval, mnemonic)
    ensures r == FieldSpec(s, i0, minval, maxval, mnemonic)
  {
    OrIntoNothing(FieldSpec(s, i0, minval, maxval, mnemonic));
    r := ReadItems(s, i0, minval, maxval, mnemonic, {}, FieldSpec(s, i0, minval, maxval, mnemonic));
  }

  /** The loop of `readfield` from item i0 on, with the bits `out0` of the items before it. */
  method ReadItems(s: CString, i0: nat, minval: int, maxval: int, mnemonic: Option<Mnemonics>,
                   out0: set<nat>, ghost want: Option<(set<nat>, nat)>)
    returns (r: Option<(set<nat>, nat)>)
    requires i0 <= |s| && ValidDomain(minval, maxval, mnemonic)
    requires OrInto(out0, FieldSpec(s, i0, minval, maxval, mnemonic)) == want
    ensures r == want
  {
    var out := out0;
    var i: nat := i0;
    while true
      invariant i <= |s|
      invariant OrInto(out, FieldSpec(s, i, minval, maxval, mnemonic)) == want
      decreases |s| - i
    {
      ghost var item := i;
      ghost var before := out;
      ghost var it := ItemSpec(s, item, minval, maxval, mnemonic);
      FieldStep(s, item, minval, maxval, mnemonic, before, want);
      var next := ReadItem(s, i, minval, maxval, mnemonic, out);
      if next.None? {
        assert it.None?;
        return None;
      }
      out, i := next.value.0, next.value.1;
      assert out == before + it.value.0 && i == it.value.1;
      assert AfterItemOutcome(s, minval, maxval, mnemonic, out, i, want);
      if At(s, i) == ',' {
        CommaContinues(s, minval, maxval, mnemonic, out, i, want);
        i := i + 1;
        continue;
      }
      if At(s, i) != '\0' && !IsSpace(At(s, i)) {
        return None;
      }
      i := SkipSpace(s, i);
      return Some((out, i));
    }
  }

  /** `cron_interval`: a macro line; the cursor is left after the macro word. */
  method CronInterval(s: CString) returns (r: Option<(CronTab, nat)>)
    requires At(s, 0) == '@'
    ensures r == IntervalSpec(s)
  {
    var j: nat := 1;
    while IsAlpha(At(s, j))
      invariant 1 <= j <= |s|
      invariant forall k :: 1 <= k < j ==> In(s[k], Alpha)
      decreases |s| - j
    {
      j := j + 1;
    }
    SpanEndUnique(s, 1, j, Alpha);
    if j == 1 || !IsSpace(At(s, j)) {
      return None;
    }

    var i := 0;
    while i < |Intervals|
      invariant i <= |Intervals|
      invariant LookupInterval(Intervals[i..], s[..j]) == LookupInterval(Intervals, s[..j])
    {
      assert Intervals[i..][1..] == Intervals[i + 1..];
      if |Intervals[i].0| != j {
        i := i + 1;
        continue;
      }
      if Intervals[i].0[..j] == s[..j] {
        break;
      }
      i := i + 1;
    }
    if i == |Intervals| {
      return None;
    }
    return Some((Intervals[i].1, j));
  }

  /** `cron_fields`: the five fields in order; the first that fails ends the line. */
  method CronFields(s: CString) returns (r: Option<(CronTab, nat)>)
    ensures r == FieldsSpec(s)
  {
    TablesInDomain();
    var minute := ReadField(s, 0, 0, 59, None);
    if minute.None? {
      return None;
    }
    var hour := ReadField(s, minute.value.1, 0, 23, None);
    if hour.None? {
      return None;
    }
    var dayofmonth := ReadField(s, hour.value.1, 1, 31, None);
    if dayofmonth.None? {
      return None;
    }
    var month := ReadField(s, dayofmonth.value.1, 1, 12, Some(Month));
    if month.None? {
      return None;
    }
    var dayofweek := ReadField(s, month.value.1, 0, 6, Some(Weekday));
    if dayofweek.None? {
      return None;
    }
    var cron := Zero;
    cron := cron.(minute := Narrow(minute.value.0, MinuteWidth));
    cron := cron.(hour := Narrow(hour.value.0, HourWidth));
    cron := cron.(dayofmonth := Narrow(dayofmonth.value.0, DayOfMonthWidth));
    cron := cron.(month := Narrow(month.value.0, MonthWidth));
    cron := cron.(dayofweek := Narrow(dayofweek.value.0, DayOfWeekWidth));
    return Some((cron, dayofweek.value.1));
  }

  /**
   * The body of the per-line loop of `rdcron`: a macro line or a five-field
   * line, then the whitespace before the command, which is the rest of the line.
   */
  method ReadLine(line: CString) returns (e: Option<CronTab>)
    ensures e == ParseLine(line)
  {
    var ptr;
    if At(line, 0) == '@' {
      ptr := CronInterval(line);
    } else {
      ptr := CronFields(line);
    }
    if ptr.None? {
      return None;
    }
    var p := SkipSpace(line, ptr.value.1);
    return Some(ptr.value.0.(exec := Some(line[p..])));
  }

  /**
   * The per-line loop of `rdcron` over the logical lines of one file: a line
   * that does not parse is dropped, every other one is prepended to the list.
   */
  method RdCron(lines: seq<CString>) returns (list: seq<CronTab>)
    ensures list == FileEntries(lines)
  {
    list := [];
    var n := 0;
    while n < |lines|
      invariant n <= |lines|
      invariant list == Reverse(Compiled(lines[..n]))
    {
      var e := ReadLine(lines[n]);
      CompiledSnoc(lines, n);
      assert LineEntries(lines[n]) == if e.Some? then [e.value] else [];
      n := n + 1;
      if e.None? {
        assert Compiled(lines[..n - 1]) + [] == Compiled(lines[..n - 1]);
      } else {
        ReverseSnoc(Compiled(lines[..n - 1]), e.value);
        list := [e.value] + list;
      }
    }
    assert lines[..n] == lines;
  }
}
