/**
 * What the parser of rdcron.c accepts and builds, stated over the functions
 * of RdcronSpec: numbers and mnemonics, ranges and steps, the bits of an
 * item, a field, a macro line and the list of a whole file.
 */
module RdcronProps {
  import opened Options
  import opened CType
  import opened Types
  import opened RdcronSpec

  // ---- arithmetic used by the step rule ----

  lemma MulAtLeast(q: int, step: int)
    requires q >= 1 && step >= 1
    ensures q * step >= step
  {
    var k := q - 1;
    assert q * step == k * step + step;
    assert k * step >= 0;
  }

  /** The Euclidean remainder is fixed by any quotient-remainder split. */
  lemma DivModUnique(x: int, step: int, q: int, r: int)
    requires step >= 1 && 0 <= r < step && x == q * step + r
    ensures x % step == r
  {
    var q0, r0 := x / step, x % step;
    assert x == q0 * step + r0 && 0 <= r0 < step;
    assert (q0 - q) * step == r - r0;
    if q0 > q {
      MulAtLeast(q0 - q, step);
    } else if q0 < q {
      MulAtLeast(q - q0, step);
    }
  }

  lemma ModShift(x: int, step: int)
    requires step >= 1
    ensures (x - step) % step == x % step
  {
    var q, r := x / step, x % step;
    assert x - step == (q - 1) * step + r;
    DivModUnique(x - step, step, q - 1, r);
  }

  // ---- readnum ----

  /** A digit string's value is at least that of each of its prefixes. */
  lemma {:induction false} DecValPrefix(ds: string, k: nat)
    requires k <= |ds| && forall j :: 0 <= j < |ds| ==> IsDigit(ds[j])
    ensures 0 <= DecVal(ds[..k]) <= DecVal(ds)
    decreases |ds|
  {
    if k == |ds| {
      assert ds[..k] == ds;
    }
    if ds != [] {
      var front := ds[..|ds| - 1];
      assert forall j :: 0 <= j < |front| ==> IsDigit(front[j]) by {
        forall j | 0 <= j < |front| ensures IsDigit(front[j]) { assert front[j] == ds[j]; }
      }
      DecValPrefix(front, |front|);
      assert front[..|front|] == front;
      assert DecVal(ds) == DecVal(front) * 10 + DigitValue(ds[|ds| - 1]);
      assert 0 <= DigitValue(ds[|ds| - 1]);
      if k < |ds| {
        assert ds[..k] == front[..k];
        DecValPrefix(front, k);
      }
    }
  }

  /**
   * Within the domains the parser uses (maxval at most INT_MAX / 10), the
   * overflow guard never decides anything: without a table, `readnum` reads
   * exactly the digit run at the cursor and accepts its value when it lies in
   * [minval, maxval].
   */
  lemma ReadNumDecimal(s: CString, i: nat, minval: int, maxval: int)
    requires i <= |s| && maxval <= IntMax / 10
    ensures var e := SpanEnd(s, i, Digit);
            var v := DecVal(s[i..e]);
            ReadNumSpec(s, i, minval, maxval, None) ==
              if IsDigit(At(s, i)) && minval <= v <= maxval then Some((v, e)) else None
  {
    var e := SpanEnd(s, i, Digit);
    var ds := s[i..e];
    SpanEndRun(s, i, Digit);
    assert forall j :: 0 <= j < |ds| ==> IsDigit(ds[j]) by {
      forall j | 0 <= j < |ds| ensures IsDigit(ds[j]) { assert ds[j] == s[i + j]; assert In(s[i + j], Digit); }
    }
    if IsDigit(At(s, i)) && DecVal(ds) <= maxval {
      forall k | i <= k < e ensures DecVal(s[i..k]) <= IntMax / 10 {
        assert s[i..k] == ds[..k - i];
        DecValPrefix(ds, k - i);
      }
    }
  }

  /** A mnemonic test succeeds exactly on the name itself: same letters, same length. */
  lemma NameMatchesExact(word: string, name: CString)
    ensures NameMatches(word, name) <==> word == name
  {
    if NameMatches(word, name) {
      assert |word| == |name|;
      assert name[..|word|] == name;
    }
  }

  /** No two entries of the table have the same name. */
  predicate DistinctNames(tab: Mnemonics)
  {
    forall j, k :: 0 <= j < k < |tab| ==> tab[j].0 != tab[k].0
  }

  /** In a table without repeated names, a word stands for v exactly when the table pairs it with v. */
  lemma {:induction false} LookupExact(tab: Mnemonics, word: string, v: int)
    requires DistinctNames(tab)
    ensures LookupMnemonic(tab, word) == Some(v) <==> exists k :: 0 <= k < |tab| && tab[k] == (word, v)
    decreases |tab|
  {
    if tab != [] {
      NameMatchesExact(word, tab[0].0);
      assert DistinctNames(tab[1..]) by {
        forall j, k | 0 <= j < k < |tab[1..]| ensures tab[1..][j].0 != tab[1..][k].0 {
          assert tab[1..][j] == tab[j + 1] && tab[1..][k] == tab[k + 1];
        }
      }
      LookupExact(tab[1..], word, v);
      if exists k :: 0 <= k < |tab| && tab[k] == (word, v) {
        var k :| 0 <= k < |tab| && tab[k] == (word, v);
        if k > 0 {
          assert tab[1..][k - 1] == (word, v);
        }
      }
    }
  }

  /** The weekday names are pairwise different. */
  lemma WeekdayNamesDistinct()
    ensures DistinctNames(Weekday)
  {
    forall j, k | 0 <= j < k < |Weekday| ensures Weekday[j].0 != Weekday[k].0 {
      assert Weekday[j].0[0] != Weekday[k].0[0] || Weekday[j].0[1] != Weekday[k].0[1];
    }
  }

  /** A weekday is spelled by its three letters only: the whole word "MONDAY" is rejected. */
  lemma WeekdayWordRejected()
    ensures ValidDomain(0, 6, Some(Weekday)) && ReadNumSpec(MondayWord, 0, 0, 6, Some(Weekday)) == None
  {
    TablesInDomain();
    SpanEndUnique(MondayWord, 0, 6, Alpha);
    assert MondayWord[0..6] == MondayWord;
  }

  /** Weekday names are upper case: "mon" is rejected. */
  lemma WeekdayLowerRejected()
    ensures ValidDomain(0, 6, Some(Weekday)) && ReadNumSpec(LowerMon, 0, 0, 6, Some(Weekday)) == None
  {
    TablesInDomain();
    SpanEndUnique(LowerMon, 0, 3, Alpha);
    assert LowerMon[0..3] == LowerMon;
  }

  const MondayWord: CString := "MONDAY"
  const LowerMon: CString := "mon"

  /** A word of the table is read as its number, the cursor left after the word. */
  lemma {:induction false} MnemonicRead(s: CString, i: nat, minval: int, maxval: int, tab: Mnemonics, k: nat)
    requires i <= |s| && k < |tab| && DistinctNames(tab) && IsAlpha(At(s, i))
    requires s[i..SpanEnd(s, i, Alpha)] == tab[k].0
    ensures ReadNumSpec(s, i, minval, maxval, Some(tab)) == Some((tab[k].1, SpanEnd(s, i, Alpha)))
  {
    LookupExact(tab, tab[k].0, tab[k].1);
  }

  /** "SUN" is weekday 0. */
  lemma SundayIsZero()
    ensures ReadNumSpec("SUN", 0, 0, 6, Some(Weekday)) == Some((0, 3))
  {
    WeekdayNamesDistinct();
    SpanEndUnique("SUN", 0, 3, Alpha);
    assert "SUN"[0..3] == Weekday[6].0;
    MnemonicRead("SUN", 0, 0, 6, Weekday, 6);
  }

  /** "MON" is weekday 1. */
  lemma MondayIsOne()
    ensures ReadNumSpec("MON", 0, 0, 6, Some(Weekday)) == Some((1, 3))
  {
    WeekdayNamesDistinct();
    SpanEndUnique("MON", 0, 3, Alpha);
    assert "MON"[0..3] == Weekday[0].0;
    MnemonicRead("MON", 0, 0, 6, Weekday, 0);
  }

  // ---- ranges ----

  /** A single number `a` is the range [a, a]. */
  lemma SingleValueRange(s: CString, i: nat, minval: int, maxval: int, mnemonic: Option<Mnemonics>,
                         v: int, j: nat)
    requires i <= |s| && ValidDomain(minval, maxval, mnemonic)
    requires ReadNumSpec(s, i, minval, maxval, mnemonic) == Some((v, j)) && At(s, j) != '-'
    ensures RangeSpec(s, i, minval, maxval, mnemonic) == Some((v, v, j))
    ensures At(s, j) != '/' ==> ItemSpec(s, i, minval, maxval, mnemonic) == Some(({(v - minval) as nat}, j))
  {
    assert StepBits(v + 1, v, 1, minval) == {};
    assert StepBits(v, v, 1, minval) == {(v - minval) as nat};
  }

  /** An item `a-b` with b < a is rejected, and with it the whole field: there is no wrap-around. */
  lemma InvertedRangeFails(s: CString, i: nat, minval: int, maxval: int, mnemonic: Option<Mnemonics>,
                           lo: int, j: nat, hi: int, k: nat)
    requires i <= |s| && ValidDomain(minval, maxval, mnemonic)
    requires ReadNumSpec(s, i, minval, maxval, mnemonic) == Some((lo, j)) && At(s, j) == '-'
    requires ReadNumSpec(s, j + 1, minval, maxval, mnemonic) == Some((hi, k)) && hi < lo
    ensures RangeSpec(s, i, minval, maxval, mnemonic) == None
    ensures ItemSpec(s, i, minval, maxval, mnemonic) == None
    ensures FieldSpec(s, i, minval, maxval, mnemonic) == None
  {
  }

  /** "MON-SUN" is the inverted range 1-0 and fails the weekday field. */
  lemma MonSunRejected()
    ensures FieldSpec("MON-SUN", 0, 0, 6, Some(Weekday)) == None
  {
    var s := "MON-SUN";
    WeekdayNamesDistinct();
    TablesInDomain();
    SpanEndUnique(s, 0, 3, Alpha);
    assert s[0..3] == Weekday[0].0;
    MnemonicRead(s, 0, 0, 6, Weekday, 0);
    SpanEndUnique(s, 4, 7, Alpha);
    assert s[4..7] == Weekday[6].0;
    MnemonicRead(s, 4, 0, 6, Weekday, 6);
    InvertedRangeFails(s, 0, 0, 6, Some(Weekday), 1, 3, 0, 7);
  }

  // ---- steps ----

  /** The bits of a stepped range: the offsets from `lo` that are multiples of the step, up to `hi`. */
  lemma {:induction false} StepBitsMembers(lo: int, hi: int, step: int, minval: int, b: nat)
    requires minval <= lo && 1 <= step
    ensures b in StepBits(lo, hi, step, minval) <==>
            lo - minval <= b <= hi - minval && (b + minval - lo) % step == 0
    decreases hi - lo
  {
    if lo <= hi {
      var x := b + minval - lo;
      StepBitsMembers(lo + step, hi, step, minval, b);
      ModShift(x, step);
      if 0 <= x < step {
        DivModUnique(x, step, 0, x);
      }
    }
  }

  /** With step 1, the whole domain [minval, maxval] sets every one of its bits. */
  lemma WholeRangeBits(minval: int, maxval: int)
    requires minval <= maxval
    ensures StepBits(minval, maxval, 1, minval) == Bits(maxval - minval + 1)
  {
    forall b: nat ensures b in StepBits(minval, maxval, 1, minval) <==> b in Bits(maxval - minval + 1) {
      StepBitsMembers(minval, maxval, 1, minval, b);
      DivModUnique(b, 1, b, 0);
    }
  }

  /** A step is a decimal in [1, maxval + 1] after a '/', and 1 when there is no '/'. */
  lemma StepDecimal(s: CString, k: nat, maxval: int)
    requires k <= |s| && 0 <= maxval < 64
    ensures At(s, k) != '/' ==> StepSpec(s, k, maxval) == Some((1, k))
    ensures At(s, k) == '/' ==>
              var e := SpanEnd(s, k + 1, Digit);
              var v := DecVal(s[k + 1..e]);
              StepSpec(s, k, maxval) ==
                if IsDigit(At(s, k + 1)) && 1 <= v <= maxval + 1 then Some((v, e)) else None
  {
    if At(s, k) == '/' {
      ReadNumDecimal(s, k + 1, 1, maxval + 1);
    }
  }

  /**
   * The bits of an item: from the low end of its range, every step-th value
   * up to the high end, each placed at its offset from minval.
   */
  lemma ItemMembers(s: CString, i: nat, minval: int, maxval: int, mnemonic: Option<Mnemonics>, b: nat)
    requires i <= |s| && ValidDomain(minval, maxval, mnemonic)
    requires ItemSpec(s, i, minval, maxval, mnemonic).Some?
    ensures var (lo, hi, k) := RangeSpec(s, i, minval, maxval, mnemonic).value;
            var step := StepSpec(s, k, maxval).value.0;
            b in ItemSpec(s, i, minval, maxval, mnemonic).value.0 <==>
              lo - minval <= b <= hi - minval && (b + minval - lo) % step == 0
  {
    var (lo, hi, k) := RangeSpec(s, i, minval, maxval, mnemonic).value;
    StepBitsMembers(lo, hi, StepSpec(s, k, maxval).value.0, minval, b);
  }

  /** `*` without a step sets every bit of the domain. */
  lemma StarIsWholeDomain(s: CString, i: nat, minval: int, maxval: int, mnemonic: Option<Mnemonics>)
    requires i <= |s| && ValidDomain(minval, maxval, mnemonic)
    requires At(s, i) == '*' && At(s, i + 1) != '/'
    ensures ItemSpec(s, i, minval, maxval, mnemonic) == Some((Bits(maxval - minval + 1), i + 1))
  {
    WholeRangeBits(minval, maxval);
  }

  /** A star with a step n sets the bits of the domain that are multiples of n. */
  lemma StarStep(s: CString, i: nat, minval: int, maxval: int, mnemonic: Option<Mnemonics>, b: nat)
    requires i <= |s| && ValidDomain(minval, maxval, mnemonic)
    requires At(s, i) == '*' && StepSpec(s, i + 1, maxval).Some?
    ensures var (step, j) := StepSpec(s, i + 1, maxval).value;
            ItemSpec(s, i, minval, maxval, mnemonic).Some? &&
            ItemSpec(s, i, minval, maxval, mnemonic).value.1 == j &&
            (b in ItemSpec(s, i, minval, maxval, mnemonic).value.0 <==> b <= maxval - minval && b % step == 0)
  {
    ItemMembers(s, i, minval, maxval, mnemonic, b);
  }

  // ---- fields ----

  /** Items separated by a comma are OR-ed into one mask. */
  lemma FieldUnion(s: CString, i: nat, minval: int, maxval: int, mnemonic: Option<Mnemonics>,
                   bits: set<nat>, j: nat, rest: set<nat>, k: nat)
    requires i <= |s| && ValidDomain(minval, maxval, mnemonic)
    requires ItemSpec(s, i, minval, maxval, mnemonic) == Some((bits, j)) && At(s, j) == ','
    requires FieldSpec(s, j + 1, minval, maxval, mnemonic) == Some((rest, k))
    ensures FieldSpec(s, i, minval, maxval, mnemonic) == Some((bits + rest, k))
  {
    FieldAfterItem(s, i, minval, maxval, mnemonic, bits, j);
  }

  /**
   * After its last item a field must end the line or be followed by
   * whitespace, which is skipped; any other character fails the field.
   */
  lemma FieldAfterLastItem(s: CString, i: nat, minval: int, maxval: int, mnemonic: Option<Mnemonics>,
                 bits: set<nat>, j: nat)
    requires i <= |s| && ValidDomain(minval, maxval, mnemonic)
    requires ItemSpec(s, i, minval, maxval, mnemonic) == Some((bits, j)) && At(s, j) != ','
    ensures FieldSpec(s, i, minval, maxval, mnemonic).Some? <==> j == |s| || IsSpace(s[j])
    ensures FieldSpec(s, i, minval, maxval, mnemonic).Some? ==>
              FieldSpec(s, i, minval, maxval, mnemonic) == Some((bits, SpanEnd(s, j, Space)))
  {
    FieldAfterItem(s, i, minval, maxval, mnemonic, bits, j);
  }

  /** A field that parses begins with an item that parses, and holds every bit of it. */
  lemma {:induction false} FieldHoldsFirstItem(s: CString, i: nat, minval: int, maxval: int,
                                               mnemonic: Option<Mnemonics>)
    requires i <= |s| && ValidDomain(minval, maxval, mnemonic)
    requires FieldSpec(s, i, minval, maxval, mnemonic).Some?
    ensures ItemSpec(s, i, minval, maxval, mnemonic).Some?
    ensures ItemSpec(s, i, minval, maxval, mnemonic).value.0 <= FieldSpec(s, i, minval, maxval, mnemonic).value.0
  {
    var (bits, j) := ItemSpec(s, i, minval, maxval, mnemonic).value;
    FieldAfterItem(s, i, minval, maxval, mnemonic, bits, j);
  }
}
