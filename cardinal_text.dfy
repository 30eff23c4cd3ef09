/**
 * `_cardinal_normalize`: one `CARDINAL` match read as a signed number with an
 * optional fraction, and the rewriting of a whole text match by match that
 * `cardinal_normalize` performs with `CARDINAL.sub`.
 */
module CardinalText {
  import opened Wrappers
  import opened Strings
  import opened Numerals
  import opened NumeralReading
  import opened NumeralShape
  import opened Scanners
  import opened DateTimeText

  /** The fraction without its trailing zeros. */
  function DropTrailingZeros(d: string): (r: string)
    ensures |r| <= |d| && r == d[..|r|] && (r == [] || r[|r| - 1] != '0')
    ensures forall i :: |r| <= i < |d| ==> d[i] == '0'
  {
    StripRightTail(d, '0');
    StripRight(d, Is('0'))
  }

  /** The source writes it `("1" + d).strip("0")[1:]`: the leading `1` stops the strip on the left. */
  lemma OneStrip(d: string)
    ensures |StripChar("1" + d, '0')| >= 1 && StripChar("1" + d, '0')[1..] == DropTrailingZeros(d)
  {
    var s := "1" + d;
    assert StripLeft(s, Is('0')) == s;
    OneStripRight(d);
  }

  lemma {:induction false} OneStripRight(d: string)
    ensures StripRight("1" + d, Is('0')) == "1" + StripRight(d, Is('0'))
    decreases |d|
  {
    var s := "1" + d;
    if d != [] && d[|d| - 1] == '0' {
      assert s[..|s| - 1] == "1" + d[..|d| - 1];
      OneStripRight(d[..|d| - 1]);
    } else if d == [] {
      assert s == "1";
    }
  }

  /**
   * The text of a match cut as `_cardinal_normalize` cuts it: the sign, the
   * integer part and the fraction (empty when absent); `None` when the text
   * holds more than one `.` (the `ValueError` of the unpacking).
   */
  function CardinalFields(run: string): Option<(bool, string, string)>
    requires run != []
  {
    var neg := run[0] == '-';
    var t := if neg then run[1..] else run;
    var parts := if '.' in t then Split(t, ".") else [t, ""];
    if |parts| != 2 then None else Some((neg, parts[0], parts[1]))
  }

  /** The reading of the cut match: `负`, the integer numeral, then `点` and the fraction digits. */
  function CardinalWords(neg: bool, ip: string, frac: string): (r: Result<string, string>)
  {
    var digits := ReplaceAll(ip, ",", "");
    match IntegerToChinese(digits)
    case Err(_) => Err(digits)
    case Ok(n) =>
      var head := (if neg then [Fu] else "") + n;
      var dec := DropTrailingZeros(frac);
      if dec == "" then Ok(head)
      else
        match SpellEach(dec)
        case Ok(ds) => Ok(head + Dian + ds)
        case Err(e) => Err(e)
  }

  /** `_cardinal_normalize` on one match (which is never empty). */
  function CardinalRun(run: string): (r: Result<string, string>)
    requires run != []
  {
    match CardinalFields(run)
    case None => Err(run)
    case Some((neg, ip, frac)) => CardinalWords(neg, ip, frac)
  }

  /** The text a cardinal is made of: an optional `-`, the integer part, an optional fraction. */
  function CardinalSource(neg: bool, ip: string, frac: Option<string>): string
  {
    (if neg then "-" else "") + ip + (if frac.Some? then "." + frac.value else "")
  }

  /** Cutting the text of a cardinal gives back its sign, integer part and fraction. */
  lemma CardinalCut(neg: bool, ip: string, frac: Option<string>)
    requires '.' !in ip && (frac.Some? ==> '.' !in frac.value)
    requires ip == [] || ip[0] != '-'
    requires CardinalSource(neg, ip, frac) != []
    ensures CardinalFields(CardinalSource(neg, ip, frac)) == Some((neg, ip, if frac.Some? then frac.value else ""))
  {
    var tail := if frac.Some? then "." + frac.value else "";
    var t := ip + tail;
    var sign := if neg then "-" else "";
    assert CardinalSource(neg, ip, frac) == sign + t by {
      assert CardinalSource(neg, ip, frac) == sign + ip + tail;
    }
    SignCut(neg, t);
    if frac.Some? {
      FractionCut(ip, frac.value);
    } else {
      assert t == ip;
    }
  }

  /** The leading `-`, when there is one, is the sign and the rest is the unsigned text. */
  lemma SignCut(neg: bool, t: string)
    requires (if neg then "-" else "") + t != [] && (t == [] || t[0] != '-')
    ensures var run := (if neg then "-" else "") + t;
      (run[0] == '-' <==> neg) && (if neg then run[1..] else run) == t
  {
  }

  /** A single `.` cuts the unsigned text into the integer part and the fraction. */
  lemma FractionCut(ip: string, f: string)
    requires '.' !in ip && '.' !in f
    ensures '.' in ip + ("." + f) && Split(ip + ("." + f), ".") == [ip, f]
  {
    var t := ip + ("." + f);
    assert t == Join([ip, f], ".");
    assert t[|ip|] == '.';
    SplitJoin([ip, f], ".", 0);
  }

  /**
   * A cardinal reads as `负` for the sign, the numeral of its integer part
   * with the commas removed, and, when the fraction has a digit other than
   * trailing zeros, `点` followed by those digits one by one. Either part
   * failing makes the whole match fail.
   */
  lemma CardinalParts(neg: bool, ip: string, frac: Option<string>)
    requires '.' !in ip && (frac.Some? ==> '.' !in frac.value)
    requires ip == [] || ip[0] != '-'
    requires CardinalSource(neg, ip, frac) != []
    ensures var r := CardinalRun(CardinalSource(neg, ip, frac));
      var n := IntegerToChinese(ReplaceAll(ip, ",", ""));
      var dec := if frac.Some? then DropTrailingZeros(frac.value) else "";
      && (r.Ok? <==> n.Ok? && AllDigits(dec))
      && (r.Ok? ==> r.value == (if neg then [Fu] else "") + n.value + (if dec == "" then "" else Dian + SpellDigits(dec)))
  {
    CardinalCut(neg, ip, frac);
    var fr := if frac.Some? then frac.value else "";
    assert CardinalRun(CardinalSource(neg, ip, frac)) == CardinalWords(neg, ip, fr);
    WordsParts(neg, ip, fr);
  }

  lemma WordsParts(neg: bool, ip: string, frac: string)
    ensures var r := CardinalWords(neg, ip, frac);
      var n := IntegerToChinese(ReplaceAll(ip, ",", ""));
      var dec := DropTrailingZeros(frac);
      && (r.Ok? <==> n.Ok? && AllDigits(dec))
      && (r.Ok? ==> r.value == (if neg then [Fu] else "") + n.value + (if dec == "" then "" else Dian + SpellDigits(dec)))
  {
  }

  /**
   * A match without fraction or commas reads as `负` for the sign and
   * `integer_to_chinese` of its digits, and that reads back as the integer,
   * the dangling `零` after `亿` included.
   */
  lemma CardinalInteger(run: string)
    requires IsIntLiteral(run) && |Magnitude(run)| <= 16
    ensures IntegerToChinese(Magnitude(run)).Ok?
    ensures CardinalRun(run) == Ok((if run[0] == '-' then [Fu] else "") + IntegerToChinese(Magnitude(run)).value)
    ensures NumeralValue(CardinalRun(run).value) == IntValue(run)
  {
    var neg := run[0] == '-';
    var ip := Magnitude(run);
    var sign := if neg then [Fu] else "";
    assert run == CardinalSource(neg, ip, None);
    assert '.' !in ip && (ip == [] || ip[0] != '-') by { assert forall i :: 0 <= i < |ip| ==> IsDigit(ip[i]); }
    CardinalParts(neg, ip, None);
    ReplaceAbsent(ip, ',', "");
    AsWrittenUnsignedReads(ip);
    var n := IntegerToChinese(ip).value;
    assert CardinalRun(run) == Ok(sign + n + "");
    assert sign + n + "" == sign + n;
    SignedReading(sign, n, neg);
  }

  /** As written, a cardinal whose integer part is a nonzero multiple of 10^8 is read with a dangling `零`. */
  lemma CardinalTrailingLing(run: string)
    requires IsIntLiteral(run) && 2 <= |Magnitude(run)| <= 16
    requires NatOf(Magnitude(run)) > 0 && NatOf(Magnitude(run)) % 100000000 == 0
    ensures CardinalRun(run).Ok? && EndsInLing(CardinalRun(run).value)
  {
    var ip := Magnitude(run);
    CardinalInteger(run);
    assert IsIntLiteral(ip) && Magnitude(ip) == ip;
    AsWrittenTrailingLing(ip);
    EndsInLingConcat(if run[0] == '-' then [Fu] else "", IntegerToChinese(ip).value);
  }

  /** `CARDINAL.sub` with `_cardinal_normalize`: every match rewritten, all else copied, any failure fails. */
  function Rewrite(ps: seq<Piece>): (r: Result<string, string>)
    requires forall i :: 0 <= i < |ps| && ps[i].Number? ==> ps[i].run != []
  {
    if ps == [] then Ok("")
    else
      var head := match ps[0] case Text(c) => Ok([c]) case Number(m) => CardinalRun(m);
      match head
      case Err(e) => Err(e)
      case Ok(h) =>
        match Rewrite(ps[1..])
        case Err(e) => Err(e)
        case Ok(rest) => Ok(h + rest)
  }

  /** The pieces of a text, each match being nonempty. */
  lemma PiecesNonempty(s: string)
    ensures forall i :: 0 <= i < |CardinalPieces(s)| && CardinalPieces(s)[i].Number? ==> CardinalPieces(s)[i].run != []
  {
    CardinalPiecesMatch(s);
  }

  /** A text without digits has no match, so rewriting gives it back unchanged. */
  lemma {:induction false} NoDigitsUnchanged(s: string)
    requires forall i :: 0 <= i < |s| ==> !IsDigit(s[i])
    ensures PiecesOk(s) && Rewrite(CardinalPieces(s)) == Ok(s)
    decreases |s|
  {
    if s != [] {
      CardinalStart(s);
      assert CardinalLen(s) == 0;
      NoDigitsUnchanged(s[1..]);
      assert CardinalPieces(s) == [Text(s[0])] + CardinalPieces(s[1..]);
      assert CardinalPieces(s)[1..] == CardinalPieces(s[1..]);
      assert [s[0]] + s[1..] == s;
    }
  }

  predicate PiecesOk(s: string)
  {
    forall i :: 0 <= i < |CardinalPieces(s)| && CardinalPieces(s)[i].Number? ==> CardinalPieces(s)[i].run != []
  }
}
