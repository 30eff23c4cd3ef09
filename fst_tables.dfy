/**
 * The field tables of `DateFst` and `TimeFst`: which spellings each field
 * accepts and the canonical value it writes for them. A table is a function
 * from a number to its spellings; looking a spelling up returns the largest
 * number that has it, which is the entry a Python `dict` filled in increasing
 * order keeps.
 */
module FstTables {
  import opened Wrappers
  import opened Strings
  import opened Numerals
  import NumeralShape

  datatype Field = Month | Day | Year2 | Year4 | Hour | Minute | Second | Period

  /** The largest `k` in `lo..n` that spells `s`. */
  function FindValue(s: string, lo: nat, n: nat, spell: nat -> seq<string>): (r: Option<nat>)
    requires lo <= n
    ensures r.Some? ==> lo <= r.value <= n && s in spell(r.value)
    ensures r.Some? ==> forall k :: r.value < k <= n ==> s !in spell(k)
    ensures r.None? ==> forall k :: lo <= k <= n ==> s !in spell(k)
    decreases n
  {
    if s in spell(n) then Some(n)
    else if n == lo then None
    else FindValue(s, lo, n - 1, spell)
  }

  /** The tables spell numbers with `integer_to_chinese`; below 10^8 the corrected renderer writes the same. */
  lemma CnSpellingAsWritten(n: nat)
    requires n < 100000000
    ensures IntegerToChinese(NatToString(n)) == Ok(CnNumber(n))
  {
    NatToStringSound(n);
    assert Pow10(8) == 100000000;
    NatToStringLength(n, 8);
    var s := NatToString(n);
    assert s[0] != '-';
    assert IsIntLiteral(s);
    NumeralShape.FixedAgreesBelowYi(s);
  }

  const YueSuffix := "月"
  const RiSuffix := "日"
  const HaoSuffix := "号"
  const NianSuffix := "年"
  const DianSuffix := "点"
  const ShiSuffix := "时"
  const FenSuffix := "分"
  const MiaoSuffix := "秒"

  /** `number_to_month`: 1 to 12, zero padding only below 10. */
  function MonthSpellings(n: nat): seq<string>
  {
    [CnNumber(n) + YueSuffix, NatToString(n) + YueSuffix, NatToString(n)]
    + (if n < 10 then [Pad2(n)] else [])
  }

  /** `day_to_number` followed by the optional `日`/`号`. */
  function DaySpellings(n: nat): seq<string>
  {
    var base := [NatToString(n), CnNumber(n), Pad2(n)];
    base + [base[0] + RiSuffix, base[1] + RiSuffix, base[2] + RiSuffix]
    + [base[0] + HaoSuffix, base[1] + HaoSuffix, base[2] + HaoSuffix]
  }

  function HourSpellings(h: nat): seq<string>
  {
    var plain, padded, cn := NatToString(h), Pad2(h), CnNumber(h);
    [plain, plain + DianSuffix, plain + ShiSuffix,
     padded, padded + DianSuffix, padded + ShiSuffix,
     cn, cn + DianSuffix, cn + ShiSuffix]
  }

  /** `分` follows only the padded and Chinese forms. */
  function MinuteSpellings(m: nat): seq<string>
  {
    [NatToString(m), Pad2(m), Pad2(m) + FenSuffix, CnNumber(m), CnNumber(m) + FenSuffix]
  }

  /** `秒` follows only the padded form. */
  function SecondSpellings(s: nat): seq<string>
  {
    [NatToString(s), Pad2(s), Pad2(s) + MiaoSuffix, CnNumber(s)]
  }

  /** A year digit: an ASCII digit or one of `CN_DIGITS` (never `两`). */
  predicate IsYearDigit(c: char)
  {
    IsDigit(c) || c in CnDigits
  }

  function YearDigitValue(c: char): (d: char)
    requires IsYearDigit(c)
    ensures IsDigit(d)
  {
    if IsDigit(c) then c
    else
      var i :| 0 <= i < |CnDigits| && CnDigits[i] == c;
      DigitChar(i)
  }

  /** `digit_to_number.closure(len, len)` followed by the optional `年`. */
  function ReadYear(s: string, len: nat): (r: Option<string>)
    ensures r.Some? ==> |r.value| == len && AllDigits(r.value)
  {
    var body := if |s| > 0 && s[|s| - 1] == '年' then s[..|s| - 1] else s;
    if |body| == len && forall i :: 0 <= i < |body| ==> IsYearDigit(body[i])
    then Some(seq(|body|, i requires 0 <= i < |body| && IsYearDigit(body[i]) => YearDigitValue(body[i])))
    else None
  }

  predicate IsAm(s: string)
  {
    s == "上午"
    || (|s| == 2 && s[0] in "aA" && s[1] in "mM")
    || (|s| == 3 && s[0] in "aA" && s[1] in ". " && s[2] in "mM")
  }

  predicate IsPm(s: string)
  {
    s == "下午"
    || (|s| == 2 && s[0] in "pP" && s[1] in "mM")
    || (|s| == 3 && s[0] in "pP" && s[1] in ". " && s[2] in "mM")
  }

  function Number(r: Option<nat>): Option<string>
  {
    if r.Some? then Some(NatToString(r.value)) else None
  }

  /** What field `f` writes for the complete spelling `s`, if it accepts it. */
  function ReadField(f: Field, s: string): Option<string>
  {
    match f
    case Month => Number(FindValue(s, 1, 12, MonthSpellings))
    case Day => Number(FindValue(s, 1, 31, DaySpellings))
    case Year2 => ReadYear(s, 2)
    case Year4 => ReadYear(s, 4)
    case Hour => Number(FindValue(s, 0, 24, HourSpellings))
    case Minute => Number(FindValue(s, 0, 59, MinuteSpellings))
    case Second => Number(FindValue(s, 0, 59, SecondSpellings))
    case Period => if IsAm(s) then Some("AM") else if IsPm(s) then Some("PM") else None
  }

  /** A value a field writes: ASCII digits, or the upper-case letters of `AM`/`PM`. */
  predicate Canonical(v: string)
  {
    v != [] && forall i :: 0 <= i < |v| ==> IsDigit(v[i]) || 'A' <= v[i] <= 'Z'
  }

  /** Every value a table writes is canonical, so no separator the transducers insert occurs in one. */
  lemma ReadFieldCanonical(f: Field, s: string)
    requires ReadField(f, s).Some?
    ensures Canonical(ReadField(f, s).value)
  {
    match f
    case Period =>
    case Year2 =>
    case Year4 =>
    case _ =>
      var n :| ReadField(f, s).value == NatToString(n);
      NatToStringSound(n);
  }
}
