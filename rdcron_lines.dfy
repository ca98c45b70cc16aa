/**
 * What rdcron.c makes of whole lines and files: the `@` macros, the command
 * after the schedule, lines that are dropped, and the order of the list.
 */
module RdcronLines {
  import opened Options
  import opened CType
  import opened Types
  import opened RdcronSpec

  // ---- macros ----

  /** The macro test succeeds exactly on the macro itself. */
  lemma MacroMatchesExact(word: string, macro: CString)
    ensures MacroMatches(word, macro) <==> word == macro
  {
    if MacroMatches(word, macro) {
      assert macro[..|word|] == macro;
    }
  }

  /** No two macros of a table have the same name. */
  predicate DistinctMacros(tab: seq<(CString, CronTab)>)
  {
    forall j, k :: 0 <= j < k < |tab| ==> tab[j].0 != tab[k].0
  }

  lemma IntervalNamesDistinct()
    ensures DistinctMacros(Intervals)
  {
    forall j, k | 0 <= j < k < |Intervals| ensures Intervals[j].0 != Intervals[k].0 {
      assert Intervals[j].0[1] != Intervals[k].0[1] || |Intervals[j].0| != |Intervals[k].0|;
    }
  }

  /** In a table without repeated names, the scan finds the record of the entry named by the word. */
  lemma {:induction false} LookupIntervalExact(tab: seq<(CString, CronTab)>, word: string, k: nat)
    requires DistinctMacros(tab) && k < |tab| && tab[k].0 == word
    ensures LookupInterval(tab, word) == Some(tab[k].1)
    decreases |tab|
  {
    MacroMatchesExact(word, tab[0].0);
    if k > 0 {
      assert DistinctMacros(tab[1..]) by {
        forall a, b | 0 <= a < b < |tab[1..]| ensures tab[1..][a].0 != tab[1..][b].0 {
          assert tab[1..][a] == tab[a + 1] && tab[1..][b] == tab[b + 1];
        }
      }
      assert tab[1..][k - 1] == tab[k];
      LookupIntervalExact(tab[1..], word, k - 1);
    }
  }

  /**
   * A macro line is accepted exactly when its word, '@' included, is one of
   * the six macros and a whitespace character follows it; the record is then
   * that macro's row of the table.
   */
  lemma IntervalExact(s: CString)
    requires At(s, 0) == '@'
    ensures var j := SpanEnd(s, 1, Alpha);
            IntervalSpec(s).Some? <==>
              IsSpace(At(s, j)) && exists k :: 0 <= k < |Intervals| && Intervals[k].0 == s[..j]
    ensures var j := SpanEnd(s, 1, Alpha);
            forall k :: 0 <= k < |Intervals| && Intervals[k].0 == s[..j] && IsSpace(At(s, j)) ==>
              IntervalSpec(s) == Some((Intervals[k].1, j))
  {
    var j := SpanEnd(s, 1, Alpha);
    IntervalNamesDistinct();
    forall k | 0 <= k < |Intervals| && Intervals[k].0 == s[..j] && IsSpace(At(s, j))
      ensures IntervalSpec(s) == Some((Intervals[k].1, j))
    {
      assert |Intervals[k].0| > 1;
      LookupIntervalExact(Intervals, s[..j], k);
    }
  }

  /** "@daily" at the end of the line has no whitespace after it and is rejected. */
  lemma BareMacroRejected()
    ensures IntervalSpec("@daily") == None
    ensures ParseLine("@daily") == None
  {
    SpanEndUnique("@daily", 1, 6, Alpha);
  }

  /** "@daily x" is the daily schedule with the command "x". */
  lemma DailyWithCommand()
    ensures ParseLine("@daily x") == Some(Intervals[4].1.(exec := Some("x")))
  {
    var s := "@daily x";
    SpanEndUnique(s, 1, 6, Alpha);
    assert s[..6] == Intervals[4].0;
    IntervalExact(s);
    SpanEndUnique(s, 6, 7, Space);
    assert s[7..] == "x";
  }

  // ---- files ----

  /** The entries `f` gives each line, joined in line order; `Compiled` is this with `LineEntries`. */
  function Collect<T>(f: CString -> seq<T>, lines: seq<CString>): seq<T>
  {
    if lines == [] then [] else Collect(f, lines[..|lines| - 1]) + f(lines[|lines| - 1])
  }

  lemma {:induction false} CompiledIsCollect(lines: seq<CString>)
    ensures Compiled(lines) == Collect(LineEntries, lines)
    decreases |lines|
  {
    if lines != [] {
      CompiledIsCollect(lines[..|lines| - 1]);
    }
  }

  lemma {:induction false} CollectAppend<T>(f: CString -> seq<T>, a: seq<CString>, b: seq<CString>)
    ensures Collect(f, a + b) == Collect(f, a) + Collect(f, b)
    decreases |b|
  {
    if b == [] {
      assert a + b == a;
    } else {
      var b' := b[..|b| - 1];
      assert (a + b)[..|a + b| - 1] == a + b';
      assert (a + b)[|a + b| - 1] == b[|b| - 1];
      CollectAppend(f, a, b');
    }
  }

  /** The entries of two runs of lines are those of the first run, then those of the second. */
  lemma CompiledAppend(a: seq<CString>, b: seq<CString>)
    ensures Compiled(a + b) == Compiled(a) + Compiled(b)
  {
    CompiledIsCollect(a + b);
    CompiledIsCollect(a);
    CompiledIsCollect(b);
    CollectAppend(LineEntries, a, b);
  }

  /** A line that fails to parse is dropped, and the lines after it are still parsed. */
  lemma BadLineDropped(a: seq<CString>, line: CString, b: seq<CString>)
    requires ParseLine(line).None?
    ensures Compiled(a + [line] + b) == Compiled(a + b)
  {
    CompiledIsCollect(a + [line] + b);
    CompiledIsCollect(a + b);
    CollectDropped(LineEntries, a, line, b);
  }

  lemma CollectDropped<T>(f: CString -> seq<T>, a: seq<CString>, line: CString, b: seq<CString>)
    requires f(line) == []
    ensures Collect(f, a + [line] + b) == Collect(f, a + b)
  {
    CollectAppend(f, a + [line], b);
    CollectAppend(f, a, b);
    assert (a + [line])[..|a|] == a;
  }

  lemma {:induction false} CollectFrom<T>(f: CString -> seq<T>, lines: seq<CString>)
    ensures forall e :: e in Collect(f, lines) ==> exists k :: 0 <= k < |lines| && e in f(lines[k])
    ensures forall k, e :: 0 <= k < |lines| && e in f(lines[k]) ==> e in Collect(f, lines)
    decreases |lines|
  {
    if lines != [] {
      var front := lines[..|lines| - 1];
      CollectFrom(f, front);
      forall e | e in Collect(f, lines)
        ensures exists k :: 0 <= k < |lines| && e in f(lines[k])
      {
        if e in Collect(f, front) {
          var k :| 0 <= k < |front| && e in f(front[k]);
          assert lines[k] == front[k];
        } else {
          assert e in f(lines[|lines| - 1]);
        }
      }
      forall k, e | 0 <= k < |lines| && e in f(lines[k])
        ensures e in Collect(f, lines)
      {
        if k < |front| {
          assert lines[k] == front[k];
        }
      }
    }
  }

  /** Every entry comes from a line that parses to it, and every line that parses contributes its entry. */
  lemma CompiledFromLines(lines: seq<CString>)
    ensures forall e :: e in Compiled(lines) ==> exists k :: 0 <= k < |lines| && ParseLine(lines[k]) == Some(e)
    ensures forall k :: 0 <= k < |lines| && ParseLine(lines[k]).Some? ==> ParseLine(lines[k]).value in Compiled(lines)
  {
    CompiledIsCollect(lines);
    CollectFrom(LineEntries, lines);
    forall e | e in Compiled(lines)
      ensures exists k :: 0 <= k < |lines| && ParseLine(lines[k]) == Some(e)
    {
      var k :| 0 <= k < |lines| && e in LineEntries(lines[k]);
    }
    forall k | 0 <= k < |lines| && ParseLine(lines[k]).Some?
      ensures ParseLine(lines[k]).value in Compiled(lines)
    {
      assert ParseLine(lines[k]).value in LineEntries(lines[k]);
    }
  }

  lemma {:induction false} ReverseAppend<T>(a: seq<T>, b: seq<T>)
    ensures Reverse(a + b) == Reverse(b) + Reverse(a)
    decreases |b|
  {
    if b == [] {
      assert a + b == a;
    } else {
      var b' := b[..|b| - 1];
      assert (a + b)[..|a + b| - 1] == a + b';
      assert (a + b)[|a + b| - 1] == b[|b| - 1];
      ReverseAppend(a, b');
    }
  }

  lemma {:induction false} ReverseIndex<T>(s: seq<T>, k: nat)
    requires k < |s|
    ensures Reverse(s)[k] == s[|s| - 1 - k]
    decreases |s|
  {
    if k > 0 {
      ReverseIndex(s[..|s| - 1], k - 1);
    }
  }

  /** Each list node is prepended: the entry of a later line comes before those of earlier lines. */
  lemma FileEntriesPrepend(lines: seq<CString>, line: CString)
    ensures FileEntries(lines + [line]) == LineEntries(line) + FileEntries(lines)
  {
    CompiledSnoc(lines + [line], |lines|);
    assert (lines + [line])[..|lines| + 1] == lines + [line];
    assert (lines + [line])[..|lines|] == lines;
    ReverseAppend(Compiled(lines), LineEntries(line));
    assert Reverse(LineEntries(line)) == LineEntries(line);
  }

  /** The list is in reverse line order: its k-th node is the k-th entry counted from the last line. */
  lemma FileEntriesReversed(lines: seq<CString>, k: nat)
    requires k < |Compiled(lines)|
    ensures |FileEntries(lines)| == |Compiled(lines)|
    ensures FileEntries(lines)[k] == Compiled(lines)[|Compiled(lines)| - 1 - k]
  {
    ReverseIndex(Compiled(lines), k);
  }
}
