/**
 * `build_date_str` and `build_time_str`: the spoken form of the fields a date
 * or time transducer wrote. Each Python `ValueError` (a field `int()` refuses,
 * a month above 12, a minute above 59, a numeral of more than 16 digits) is an
 * `Err`, which the callers turn into the plain normaliser's output.
 */
module DateTimeText {
  import opened Wrappers
  import opened Strings
  import opened Numerals
  import opened NumeralReading
  import opened NumeralShape

  const Nian: string := "年"
  const Yue: string := "月"
  const Ri: string := "日"
  const Shangwu: string := "上午"
  const Xiawu: string := "下午"
  const Dian: string := "点"
  const Fen: string := "分"
  const Miao: string := "秒"
  const Zheng: string := "整"
  const LingFen: string := "零分"

  /** `integer_to_chinese` on one character succeeds exactly on a digit, with its `CN_DIGITS` entry. */
  lemma OneChar(c: char)
    ensures IntegerToChinese([c]).Ok? <==> IsDigit(c)
    ensures IsDigit(c) ==> IntegerToChinese([c]).value == [CnDigit(c)]
  {
    if IsDigit(c) {
      SingleDigitRendering(c);
    } else {
      assert !IsIntLiteral([c]);
    }
  }

  /** `"".join(integer_to_chinese(x) for x in s)`. */
  function SpellEach(s: string): (r: Result<string, string>)
    ensures r.Ok? <==> AllDigits(s)
    ensures r.Ok? ==> r.value == SpellDigits(s)
  {
    if s == [] then Ok("")
    else
      OneChar(s[0]);
      match IntegerToChinese([s[0]])
      case Err(_) => Err(s)
      case Ok(d) =>
        match SpellEach(s[1..])
        case Err(e) => Err(e)
        case Ok(rest) => Ok(d + rest)
  }

  /** `int(v) <= hi` holds, and `integer_to_chinese(v)` succeeds. */
  predicate Bounded(v: string, hi: int)
  {
    IsIntLiteral(v) && IntValue(v) <= hi && |Magnitude(v)| <= 16
  }

  /** A date field: `int(v) > hi` raises, otherwise the numeral followed by `unit`. */
  function DateField(v: string, hi: int, unit: string): (r: Result<string, string>)
    ensures r.Ok? <==> v == "" || Bounded(v, hi)
  {
    if v == "" then Ok("")
    else if !IsIntLiteral(v) || IntValue(v) > hi then Err(v)
    else
      match IntegerToChinese(v)
      case Ok(s) => Ok(s + unit)
      case Err(_) => Err(v)
  }

  /** `build_date_str`: the year digit by digit, then the month and the day numerals. */
  function BuildDateStr(year: string, month: string, day: string): (r: Result<string, string>)
    ensures r.Ok? <==> AllDigits(year) && (month == "" || Bounded(month, 12)) && (day == "" || Bounded(day, 31))
  {
    var y := if year == "" then Ok("") else (match SpellEach(year) case Ok(s) => Ok(s + Nian) case Err(e) => Err(e));
    var m := DateField(month, 12, Yue);
    var d := DateField(day, 31, Ri);
    if y.Err? then y else if m.Err? then m else if d.Err? then d
    else Ok(y.value + m.value + d.value)
  }

  /** The field a transducer writes for `n`, or nothing. */
  function Written(n: Option<nat>): string
  {
    if n.Some? then NatToString(n.value) else ""
  }

  /** `Written(n)` read by `int()`: a literal with value `n`, short enough for the renderer. */
  lemma WrittenNumber(n: nat)
    requires n < 100000000
    ensures IsIntLiteral(NatToString(n)) && IntValue(NatToString(n)) == n && |Magnitude(NatToString(n))| <= 16
    ensures IntegerToChinese(NatToString(n)) == Ok(CnNumber(n))
  {
    NatToStringSound(n);
    assert Pow10(8) == 100000000;
    NatToStringLength(n, 8);
    assert NatToString(n)[0] != '-';
    FixedAgreesBelowYi(NatToString(n));
  }

  /** The numeral of `n` read back, by the reading of `NumeralReading`, is `n`. */
  lemma CnNumberReads(n: nat)
    requires n < 100000000
    ensures NumeralValue(CnNumber(n)) == n
  {
    WrittenNumber(n);
    ReadBackFixed(NatToString(n));
  }

  /**
   * On fields a date transducer writes (a digit string year, a month of 1 to
   * 12, a day of 1 to 31, each possibly missing) the date reads year digits,
   * `年`, month numeral, `月`, day numeral, `日`, each part only when present.
   */
  lemma DateStrWritten(year: string, month: Option<nat>, day: Option<nat>)
    requires AllDigits(year)
    requires month.Some? ==> 1 <= month.value <= 12
    requires day.Some? ==> 1 <= day.value <= 31
    ensures BuildDateStr(year, Written(month), Written(day)) == Ok(DateReading(year, month, day))
  {
    if month.Some? { WrittenNumber(month.value); }
    if day.Some? { WrittenNumber(day.value); }
  }

  /** How a date with these fields is read: year digit by digit, then month and day numerals, each with its unit. */
  function DateReading(year: string, month: Option<nat>, day: Option<nat>): string
    requires AllDigits(year)
  {
    (if year == "" then "" else SpellDigits(year) + Nian)
    + (if month.Some? then CnNumber(month.value) + Yue else "")
    + (if day.Some? then CnNumber(day.value) + Ri else "")
  }

  /** A month above 12 or a day above 31 is refused whatever else is given. */
  lemma DateStrRange(year: string, month: nat, day: nat)
    requires month > 12 || day > 31
    ensures BuildDateStr(year, NatToString(month), NatToString(day)).Err?
  {
    NatToStringSound(month);
    NatToStringSound(day);
  }

  predicate EndsWith(s: string, t: string)
  {
    |t| <= |s| && s[|s| - |t|..] == t
  }

  /** The hour: the numeral followed by `点`, with no range check. */
  function HourPart(h: string): (r: Result<string, string>)
    ensures r.Ok? <==> h == "" || (IsIntLiteral(h) && |Magnitude(h)| <= 16)
  {
    if h == "" then Ok("")
    else
      match IntegerToChinese(h)
      case Ok(s) => Ok(s + Dian)
      case Err(_) => Err(h)
  }

  /** A minute or second: above 59 raises; zero says nothing; below 10 gets `零`. */
  predicate ClockOk(v: string)
  {
    IsIntLiteral(v) && IntValue(v) <= 59 && (IntValue(v) <= 0 || |Magnitude(v)| <= 16)
  }

  function ClockPart(v: string, unit: string, zero: string): (r: Result<string, string>)
    ensures r.Ok? <==> v == "" || ClockOk(v)
  {
    if v == "" then Ok("")
    else if !IsIntLiteral(v) || IntValue(v) > 59 then Err(v)
    else if IntValue(v) > 0 then
      match IntegerToChinese(v)
      case Ok(s) => Ok((if IntValue(v) < 10 then [Ling] else "") + s + unit)
      case Err(_) => Err(v)
    else Ok(zero)
  }

  /** `build_time_str`, which strips its four arguments first. */
  function BuildTimeStr(hour: string, minute: string, second: string, period: string): (r: Result<string, string>)
    ensures var h, m, s := Strip(hour), Strip(minute), Strip(second);
      r.Ok? <==> (h == "" || (IsIntLiteral(h) && |Magnitude(h)| <= 16)) && (m == "" || ClockOk(m)) && (s == "" || ClockOk(s))
    ensures r.Ok? ==> !EndsWith(r.value, Dian)
  {
    TimeWords(Strip(hour), Strip(minute), Strip(second), Strip(period))
  }

  /** The body of `build_time_str` on its stripped arguments. */
  function TimeWords(h: string, m: string, s: string, p: string): (r: Result<string, string>)
    ensures r.Ok? <==> (h == "" || (IsIntLiteral(h) && |Magnitude(h)| <= 16)) && (m == "" || ClockOk(m)) && (s == "" || ClockOk(s))
    ensures r.Ok? ==> !EndsWith(r.value, Dian)
  {
    var pw := PeriodWord(p);
    var hw := HourPart(h);
    // minute zero: `零分` only when the second, stripped of `0`s, is not empty
    var mw := ClockPart(m, Fen, if StripChar(s, '0') != "" then LingFen else "");
    var sw := ClockPart(s, Miao, "");
    if hw.Err? then hw else if mw.Err? then mw else if sw.Err? then sw
    else
      Ok(Closed(pw + hw.value + mw.value + sw.value))
  }

  function PeriodWord(p: string): string
  {
    if p == "AM" then Shangwu else if p == "PM" then Xiawu else ""
  }

  /** `整` after a trailing `点`. */
  function Closed(t: string): (r: string)
    ensures !EndsWith(r, Dian)
  {
    if EndsWith(t, Dian) then t + Zheng else t
  }

  /**
   * How a time with these fields is read: period word, hour numeral and `点`,
   * minute and second when nonzero, `零分` for a zero minute before a nonzero
   * second, and `整` when nothing follows `点`.
   */
  function TimeReading(hour: Option<nat>, minute: Option<nat>, second: Option<nat>, period: string): string
  {
    Closed(PeriodWord(period)
           + (if hour.Some? then CnNumber(hour.value) + Dian else "")
           + (if minute == Some(0) && second.Some? && second.value > 0 then LingFen else ClockWords(minute, Fen))
           + ClockWords(second, Miao))
  }

  /** The clock part for a written value `n`. */
  function ClockWords(n: Option<nat>, unit: string): string
  {
    if n.Some? && n.value > 0 then (if n.value < 10 then [Ling] else "") + CnNumber(n.value) + unit else ""
  }

  /**
   * On fields a time transducer writes (hour 0 to 24, minute and second 0 to
   * 59, period `AM`/`PM`, each possibly missing): the period word comes first,
   * then the hour numeral and `点`, the minute and the second when nonzero with
   * `零` below 10, `零分` when the minute is zero and the second is not, and `整`
   * when nothing follows `点`.
   */
  lemma TimeStrWritten(hour: Option<nat>, minute: Option<nat>, second: Option<nat>, period: string)
    requires hour.Some? ==> hour.value <= 24
    requires minute.Some? ==> minute.value <= 59
    requires second.Some? ==> second.value <= 59
    requires period in {"", "AM", "PM"}
    ensures BuildTimeStr(Written(hour), Written(minute), Written(second), period)
      == Ok(TimeReading(hour, minute, second, period))
  {
    var hs, ms, ss := Written(hour), Written(minute), Written(second);
    TrimmedWritten(hour);
    TrimmedWritten(minute);
    TrimmedWritten(second);
    assert Trimmed(period);
    var zero := if StripChar(ss, '0') != "" then LingFen else "";
    var hw := if hour.Some? then CnNumber(hour.value) + Dian else "";
    var mw := if minute == Some(0) then zero else ClockWords(minute, Fen);
    var sw := ClockWords(second, Miao);
    HourWritten(hour);
    ClockWritten(minute, Fen, zero);
    ClockWritten(second, Miao, "");
    TimeStrParts(hs, ms, ss, period, zero, hw, mw, sw);
    ZeroWritten(second);
    assert mw == (if minute == Some(0) && second.Some? && second.value > 0 then LingFen else ClockWords(minute, Fen));
  }

  lemma TimeStrParts(hour: string, minute: string, second: string, period: string, zero: string, hw: string, mw: string, sw: string)
    requires Trimmed(hour) && Trimmed(minute) && Trimmed(second) && Trimmed(period)
    requires zero == if StripChar(second, '0') != "" then LingFen else ""
    requires HourPart(hour) == Ok(hw)
    requires ClockPart(minute, Fen, zero) == Ok(mw)
    requires ClockPart(second, Miao, "") == Ok(sw)
    ensures BuildTimeStr(hour, minute, second, period) == Ok(Closed(PeriodWord(period) + hw + mw + sw))
  {
    StripTrimmed(hour);
    StripTrimmed(minute);
    StripTrimmed(second);
    StripTrimmed(period);
  }

  lemma StripTrimmed(w: string)
    requires Trimmed(w)
    ensures Strip(w) == w
  {
    StripAround("", w, "");
    assert "" + w + "" == w;
  }

  lemma ZeroWritten(second: Option<nat>)
    ensures StripChar(Written(second), '0') != "" <==> second.Some? && second.value > 0
  {
    if second.Some? {
      NatToStringSound(second.value);
      ZeroStrip(NatToString(second.value));
    } else {
      StripCharEmpty("", '0');
    }
  }

  lemma HourWritten(hour: Option<nat>)
    requires hour.Some? ==> hour.value <= 24
    ensures HourPart(Written(hour)) == Ok(if hour.Some? then CnNumber(hour.value) + Dian else "")
  {
    if hour.Some? { WrittenNumber(hour.value); }
  }

  lemma ClockWritten(n: Option<nat>, unit: string, zero: string)
    requires n.Some? ==> n.value <= 59
    ensures ClockPart(Written(n), unit, zero) == Ok(if n == Some(0) then zero else ClockWords(n, unit))
  {
    if n.Some? { WrittenNumber(n.value); }
  }

  lemma TrimmedWritten(n: Option<nat>)
    ensures Trimmed(Written(n))
  {
    if n.Some? {
      NatToStringSound(n.value);
    }
  }

  /** Stripping `0`s from a digit string leaves something exactly when its value is nonzero. */
  lemma ZeroStrip(s: string)
    requires AllDigits(s)
    ensures StripChar(s, '0') != "" <==> NatOf(s) > 0
  {
    StripCharEmpty(s, '0');
    if NatOf(s) == 0 {
      NatOfZeroDigits(s);
    } else if forall i :: 0 <= i < |s| ==> s[i] == '0' {
      NatOfZeros(s);
    }
  }
}
