/**
 * What the date and time transducers write: every slot of a match is empty
 * (an optional segment left out) or a value one of the segment's fields
 * writes, and those values are short canonical strings (digits, `AM`, `PM`)
 * within the field's range.
 */
module FstValues {
  import opened Wrappers
  import opened Strings
  import opened FstTables
  import opened FstMatch
  import opened FstBuild
  import opened DateTimeText

  /** `v` is what field `f` writes for some spelling. */
  ghost predicate Writes(f: Field, v: string)
  {
    exists s :: ReadField(f, s) == Some(v)
  }

  lemma {:induction false} OutcomeVals(read: Reader, segs: seq<Seg>, cs: seq<Choice>)
    requires |cs| == |segs|
    ensures forall i :: 0 <= i < |cs| ==> OutcomeOf(read, segs, cs).vals[i] == ChoiceValue(read, cs[i])
  {
    if cs != [] {
      OutcomeVals(read, segs[1..], cs[1..]);
      var o := OutcomeOf(read, segs[1..], cs[1..]);
      forall i | 1 <= i < |cs| ensures OutcomeOf(read, segs, cs).vals[i] == ChoiceValue(read, cs[i]) {
        assert OutcomeOf(read, segs, cs).vals[i] == o.vals[i - 1];
        assert cs[1..][i - 1] == cs[i];
      }
    }
  }

  /** Each slot a match fills holds nothing (for an optional segment) or a value one of its fields writes. */
  lemma MatchValues(segs: seq<Seg>, kind: Kind, t: string)
    requires Match(segs, kind, ReadField, t).Some?
    ensures Slots(segs, Match(segs, kind, ReadField, t).value)
  {
    var vals := Match(segs, kind, ReadField, t).value;
    MatchSpec(segs, kind, ReadField, t);
    var cs: seq<Choice> :| IsSplit(segs, kind, ReadField, cs, t) && OutcomeOf(ReadField, segs, cs).vals == vals;
    OutcomeVals(ReadField, segs, cs);
    forall i | 0 <= i < |vals|
      ensures (segs[i].optional && vals[i] == "") || exists f :: f in segs[i].alts && Writes(f, vals[i])
    {
      assert Fits(segs[i], kind, ReadField, cs[i]);
      if cs[i].Present? {
        assert ReadField(cs[i].field, cs[i].surface) == Some(vals[i]);
      }
    }
  }

  /** Under an explicit format the `i`-th value is written by the field of the `i`-th letter. */
  lemma ExplicitValues(kind: Kind, format: string, t: string)
    requires Supported(kind, format) && Match(ExplicitSegs(kind, format), kind, ReadField, t).Some?
    ensures var vals := Match(ExplicitSegs(kind, format), kind, ReadField, t).value;
      |vals| == |format| && forall i :: 0 <= i < |vals| ==> Writes(FieldOf(kind, format[i]).value, vals[i])
  {
    var segs := ExplicitSegs(kind, format);
    MatchValues(segs, kind, t);
    var vals := Match(segs, kind, ReadField, t).value;
    forall i | 0 <= i < |vals| ensures Writes(FieldOf(kind, format[i]).value, vals[i]) {
      assert segs[i].alts == [FieldOf(kind, format[i]).value] && !segs[i].optional;
    }
  }

  /** The decimal numeral of a number from `lo` to `hi`. */
  ghost predicate IsWritten(v: string, lo: nat, hi: nat)
  {
    exists n: nat :: lo <= n <= hi && v == NatToString(n)
  }

  lemma NumberRange(s: string, lo: nat, n: nat, spell: nat -> seq<string>)
    requires lo <= n && FindValue(s, lo, n, spell).Some?
    ensures IsWritten(Number(FindValue(s, lo, n, spell)).value, lo, n)
  {
    var k := FindValue(s, lo, n, spell).value;
    assert lo <= k <= n && Number(FindValue(s, lo, n, spell)).value == NatToString(k);
  }

  /** The fields that write numbers, and their ranges: months 1-12, days 1-31, hours 0-24, minutes and seconds 0-59. */
  predicate Numeric(f: Field)
  {
    f in {Month, Day, Hour, Minute, Second}
  }

  function Lo(f: Field): nat
  {
    if f == Month || f == Day then 1 else 0
  }

  function Hi(f: Field): nat
  {
    match f
    case Month => 12
    case Day => 31
    case Hour => 24
    case _ => 59
  }

  lemma WritesCanonical(f: Field, v: string)
    requires Writes(f, v)
    ensures Canonical(v) && Trimmed(v)
  {
    var s :| ReadField(f, s) == Some(v);
    ReadFieldCanonical(f, s);
    CanonicalTrimmed(v);
  }

  lemma CanonicalTrimmed(v: string)
    requires Canonical(v)
    ensures Trimmed(v)
  {
    assert IsDigit(v[0]) || 'A' <= v[0] <= 'Z';
    assert IsDigit(v[|v| - 1]) || 'A' <= v[|v| - 1] <= 'Z';
  }

  lemma WritesRange(f: Field, v: string)
    requires Writes(f, v) && Numeric(f)
    ensures IsWritten(v, Lo(f), Hi(f))
  {
    var s :| ReadField(f, s) == Some(v);
    if f == Month {
      NumberRange(s, 1, 12, MonthSpellings);
    } else if f == Day {
      NumberRange(s, 1, 31, DaySpellings);
    } else if f == Hour {
      NumberRange(s, 0, 24, HourSpellings);
    } else if f == Minute {
      NumberRange(s, 0, 59, MinuteSpellings);
    } else {
      NumberRange(s, 0, 59, SecondSpellings);
    }
  }

  lemma WritesYear(f: Field, v: string)
    requires Writes(f, v) && (f == Year2 || f == Year4)
    ensures AllDigits(v)
  {
  }

  lemma WritesPeriod(v: string)
    requires Writes(Period, v)
    ensures v == "AM" || v == "PM"
  {
  }

  /** A value that is empty or a numeral in range, as the argument `DateStrWritten` and `TimeStrWritten` take. */
  lemma WrittenOf(v: string, lo: nat, hi: nat) returns (o: Option<nat>)
    requires v == "" || IsWritten(v, lo, hi)
    ensures Written(o) == v && (o.Some? ==> lo <= o.value <= hi)
  {
    if v == "" {
      o := None;
    } else {
      var n: nat :| lo <= n <= hi && v == NatToString(n);
      o := Some(n);
    }
  }

  /** A slot value: empty, or canonical with no surrounding whitespace. */
  predicate Clean(v: string)
  {
    v == "" || (Canonical(v) && Trimmed(v))
  }

  /** Each slot of a match, with its segment's fields listed explicitly. */
  ghost predicate Slots(segs: seq<Seg>, vals: seq<string>)
  {
    |vals| == |segs|
    && forall i :: 0 <= i < |vals| ==> (segs[i].optional && vals[i] == "") || exists f :: f in segs[i].alts && Writes(f, vals[i])
  }

  lemma DateSlots(v: seq<string>)
    requires Slots(DefaultDateSegs, v)
    ensures |v| == 3 && Clean(v[0]) && Clean(v[1]) && Clean(v[2])
    ensures AllDigits(v[0]) && (v[1] == "" || IsWritten(v[1], 1, 12)) && (v[2] == "" || IsWritten(v[2], 1, 31))
  {
    var segs := DefaultDateSegs;
    assert segs[0].alts == [Year2, Year4] && segs[1].alts == [Month] && segs[2].alts == [Day];
    YearSlot(segs, v);
    NumberSlot(segs, v, 1, Month);
    NumberSlot(segs, v, 2, Day);
  }

  lemma YearSlot(segs: seq<Seg>, v: seq<string>)
    requires Slots(segs, v) && 0 < |v| && segs[0].alts == [Year2, Year4]
    ensures Clean(v[0]) && AllDigits(v[0])
  {
    if v[0] != "" {
      var f :| f in segs[0].alts && Writes(f, v[0]);
      WritesYear(f, v[0]);
      WritesCanonical(f, v[0]);
    }
  }

  lemma TimeSlots(v: seq<string>)
    requires Slots(DefaultTimeSegs, v)
    ensures |v| == 5 && forall i :: 0 <= i < 5 ==> Clean(v[i])
    ensures v[0] in {"", "AM", "PM"} && v[4] in {"", "AM", "PM"}
    ensures (v[1] == "" || IsWritten(v[1], 0, 24)) && (v[2] == "" || IsWritten(v[2], 0, 59)) && (v[3] == "" || IsWritten(v[3], 0, 59))
  {
    var segs := DefaultTimeSegs;
    assert segs[0].alts == [Period] && segs[1].alts == [Hour] && segs[2].alts == [Minute];
    assert segs[3].alts == [Second] && segs[4].alts == [Period];
    PeriodSlot(segs, v, 0);
    NumberSlot(segs, v, 1, Hour);
    NumberSlot(segs, v, 2, Minute);
    NumberSlot(segs, v, 3, Second);
    PeriodSlot(segs, v, 4);
    assert Clean(v[0]) && Clean(v[1]) && Clean(v[2]) && Clean(v[3]) && Clean(v[4]);
    forall i | 0 <= i < 5 ensures Clean(v[i]) {
      assert i == 0 || i == 1 || i == 2 || i == 3 || i == 4;
    }
  }

  lemma PeriodSlot(segs: seq<Seg>, v: seq<string>, i: nat)
    requires Slots(segs, v) && i < |v| && segs[i].alts == [Period]
    ensures Clean(v[i]) && (v[i] == "" || v[i] == "AM" || v[i] == "PM")
  {
    SlotOf(segs, v, i, Period);
    if v[i] != "" {
      WritesPeriod(v[i]);
    }
  }

  lemma NumberSlot(segs: seq<Seg>, v: seq<string>, i: nat, f: Field)
    requires Slots(segs, v) && i < |v| && segs[i].alts == [f] && Numeric(f)
    ensures Clean(v[i]) && (v[i] == "" || IsWritten(v[i], Lo(f), Hi(f)))
  {
    SlotOf(segs, v, i, f);
    if v[i] != "" {
      WritesRange(f, v[i]);
    }
  }

  lemma SlotOf(segs: seq<Seg>, v: seq<string>, i: nat, f: Field)
    requires Slots(segs, v) && i < |v| && segs[i].alts == [f]
    ensures v[i] == "" || Writes(f, v[i])
    ensures Clean(v[i])
  {
    if v[i] != "" {
      WritesCanonical(f, v[i]);
    }
  }

  /** The default date transducer writes a digit-string year, a month of 1 to 12 and a day of 1 to 31, each possibly empty. */
  lemma DefaultDateValues(t: string)
    requires Match(DefaultDateSegs, DateText, ReadField, t).Some?
    ensures var v := Match(DefaultDateSegs, DateText, ReadField, t).value;
      |v| == 3 && Clean(v[0]) && Clean(v[1]) && Clean(v[2])
      && AllDigits(v[0]) && (v[1] == "" || IsWritten(v[1], 1, 12)) && (v[2] == "" || IsWritten(v[2], 1, 31))
  {
    MatchValues(DefaultDateSegs, DateText, t);
    DateSlots(Match(DefaultDateSegs, DateText, ReadField, t).value);
  }

  /** The default time transducer writes periods `AM`/`PM`, an hour of 0 to 24 and a minute and second of 0 to 59, each possibly empty. */
  lemma DefaultTimeValues(t: string)
    requires Match(DefaultTimeSegs, TimeText, ReadField, t).Some?
    ensures var v := Match(DefaultTimeSegs, TimeText, ReadField, t).value;
      |v| == 5 && (forall i :: 0 <= i < 5 ==> Clean(v[i]))
      && v[0] in {"", "AM", "PM"} && v[4] in {"", "AM", "PM"}
      && (v[1] == "" || IsWritten(v[1], 0, 24)) && (v[2] == "" || IsWritten(v[2], 0, 59)) && (v[3] == "" || IsWritten(v[3], 0, 59))
  {
    MatchValues(DefaultTimeSegs, TimeText, t);
    TimeSlots(Match(DefaultTimeSegs, TimeText, ReadField, t).value);
  }
}
