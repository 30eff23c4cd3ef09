/**
 * The form of the numerals the two renderers write: where they end, and where
 * they coincide. `AsWrittenTrailingLing` and `FixedNoTrailingLing` are the two
 * halves of the dangling `零` after `亿`.
 */
module NumeralShape {
  import opened Wrappers
  import opened Strings
  import opened Numerals
  import opened NumeralReading

  predicate EndsInLing(s: string) { |s| > 0 && s[|s| - 1] == Ling }

  lemma NonzeroDigitWord(d: char)
    requires IsDigit(d) && d != '0'
    ensures CnDigit(d) != Ling
  {
    assert CnDigit(d) == CnDigits[DigitValue(d)];
    assert 1 <= DigitValue(d) <= 9;
  }

  lemma I2c4Nonempty(n: string)
    requires |n| == 4 && AllDigits(n) && n != "0000"
    ensures I2c4(n) != "" && !EndsInLing(I2c4(n))
  {
    I2c4Pieces(n);
    var a, b, c, d := PieceQian(n), PieceBai(n), PieceShi(n), PieceOne(n);
    if n[3] != '0' {
      NonzeroDigitWord(n[3]);
      assert d[|d| - 1] == CnDigit(n[3]);
      assert I2c4(n)[|I2c4(n)| - 1] == d[|d| - 1];
    } else if n[2] != '0' {
      assert d == "" && c[|c| - 1] == Shi;
      assert I2c4(n) == a + b + c;
    } else if n[1] != '0' {
      assert c == "" && d == "" && I2c4(n) == a + b && b == [CnDigit(n[1]), Bai];
    } else {
      assert n[0] != '0' by { assert n != "0000" && n[1] == '0' && n[2] == '0' && n[3] == '0'; assert n == [n[0], '0', '0', '0']; }
      assert b == "" && c == "" && d == "" && I2c4(n) == a && a == [CnDigit(n[0]), Qian];
    }
  }

  /** A four-digit group never begins with `零`. */
  lemma I2c4NoLeadingLing(n: string)
    requires |n| == 4 && AllDigits(n)
    ensures I2c4(n) != "" ==> I2c4(n)[0] != Ling
  {
    I2c4Pieces(n);
    var a, b, c, d := PieceQian(n), PieceBai(n), PieceShi(n), PieceOne(n);
    if n[0] != '0' {
      NonzeroDigitWord(n[0]);
      assert I2c4(n)[0] == a[0] == CnDigit(n[0]);
    } else if n[1] != '0' {
      NonzeroDigitWord(n[1]);
      assert a == "" && I2c4(n)[0] == b[0] == CnDigit(n[1]);
    } else if n[2] != '0' {
      NonzeroDigitWord(n[2]);
      assert a == "" && b == "" && c == [CnDigit(n[2]), Shi];
      assert I2c4(n)[0] == c[0];
    } else if n[3] != '0' {
      NonzeroDigitWord(n[3]);
      assert a == "" && b == "" && c == "" && d == [CnDigit(n[3])];
      assert I2c4(n) == d;
    } else {
      assert a == "" && b == "" && c == "" && d == "";
    }
  }

  /** A four-digit group holds at most one `零`: the tens `零` needs a nonzero tens digit, the units `零` a zero one. */
  lemma I2c4OneLing(n: string)
    requires |n| == 4 && AllDigits(n)
    ensures multiset(I2c4(n))[Ling] <= 1
  {
    I2c4Pieces(n);
    CountFour(PieceQian(n), PieceBai(n), PieceShi(n), PieceOne(n), Ling);
    PieceLings(n);
  }

  lemma CountFour(a: string, b: string, c: string, d: string, x: char)
    ensures multiset(a + b + c + d)[x] == multiset(a)[x] + multiset(b)[x] + multiset(c)[x] + multiset(d)[x]
  {
    assert multiset(a + b + c + d) == multiset(a) + multiset(b) + multiset(c) + multiset(d);
  }

  lemma PieceLings(n: string)
    requires |n| == 4 && AllDigits(n)
    ensures multiset(PieceQian(n))[Ling] == 0 && multiset(PieceBai(n))[Ling] == 0
    ensures multiset(PieceShi(n))[Ling] == (if n[2] != '0' && n[1] == '0' && n[0] != '0' then 1 else 0)
    ensures multiset(PieceOne(n))[Ling] == (if n[3] != '0' && n[2] == '0' && !(n[0] == '0' && n[1] == '0') then 1 else 0)
  {
    WordLings(n[0], Qian, "");
    WordLings(n[1], Bai, "");
    WordLings(n[2], Shi, if n[1] == '0' && n[0] != '0' then [Ling] else "");
    if n[3] != '0' {
      var z := if n[2] == '0' && !(n[0] == '0' && n[1] == '0') then [Ling] else "";
      assert PieceOne(n) == z + [CnDigit(n[3])];
      NonzeroDigitWord(n[3]);
      assert multiset(z + [CnDigit(n[3])]) == multiset(z) + multiset{CnDigit(n[3])};
    }
  }

  /** The `零`s of `z + [digit word, unit]` for a nonzero digit are those of `z`. */
  lemma WordLings(c: char, unit: char, z: string)
    requires IsDigit(c) && unit != Ling && |z| <= 1 && (z != "" ==> z[0] == Ling)
    ensures c != '0' ==> multiset(z + [CnDigit(c), unit])[Ling] == |z|
  {
    if c != '0' {
      NonzeroDigitWord(c);
      assert multiset(z + [CnDigit(c), unit]) == multiset(z) + multiset{CnDigit(c), unit};
    }
  }

  lemma I2c8End(n: string)
    requires |n| == 8 && AllDigits(n)
    ensures I2c8(n) != "" ==> !EndsInLing(I2c8(n))
  {
    I2c8Parts(n);
    var w, l := WanPart(n), LowPart(n);
    if n[4..] != "0000" {
      I2c4Nonempty(n[4..]);
      var g := I2c4(n[4..]);
      assert l[|l| - 1] == g[|g| - 1];
      assert (w + l)[|w + l| - 1] == l[|l| - 1];
    } else if n[..4] != "0000" {
      assert l == "" && w + l == w && w[|w| - 1] == Wan;
    }
  }

  /** Eight digits are spelled as nothing exactly when their value is zero. */
  lemma I2c8Empty(n: string)
    requires |n| == 8 && AllDigits(n)
    ensures I2c8(n) == "" <==> NatOf(n) == 0
  {
    ReadGroup8(Init, n);
    if NatOf(n) == 0 {
      NatOfZeroDigits(n);
      assert n[..4] == "0000" && n[4..] == "0000";
      I2c8Parts(n);
    }
  }

  lemma {:induction false} ReplaceKeepsEnd(s: string, pat: string, rep: string)
    requires |pat| > 0 && |rep| > 0 && Ling !in pat && Ling !in rep
    ensures EndsInLing(ReplaceAll(s, pat, rep)) <==> EndsInLing(s)
    decreases |s|
  {
    if |s| < |pat| {
    } else if s[..|pat|] == pat {
      var rest := s[|pat|..];
      var r := ReplaceAll(rest, pat, rep);
      ReplaceKeepsEnd(rest, pat, rep);
      assert ReplaceAll(s, pat, rep) == rep + r;
      SplitAt(s, |pat|);
      if rest == [] {
        assert r == [] && rep + r == rep && s == pat;
        assert rep[|rep| - 1] in rep && pat[|pat| - 1] in pat;
      } else {
        ReplaceNonempty(rest, pat, rep);
        EndsInLingConcat(rep, r);
        EndsInLingConcat(pat, rest);
      }
    } else {
      var r := ReplaceAll(s[1..], pat, rep);
      ReplaceKeepsEnd(s[1..], pat, rep);
      assert ReplaceAll(s, pat, rep) == [s[0]] + r;
      SplitAt(s, 1);
      assert s[..1] == [s[0]];
      if s[1..] == [] {
        assert r == [];
      } else {
        ReplaceNonempty(s[1..], pat, rep);
        EndsInLingConcat([s[0]], r);
        EndsInLingConcat([s[0]], s[1..]);
      }
    }
  }

  lemma {:induction false} ReplaceNonempty(s: string, pat: string, rep: string)
    requires |pat| > 0 && |rep| > 0 && s != []
    ensures ReplaceAll(s, pat, rep) != []
  {
  }

  /** `_clean_normed_number` never adds or removes a final `零`. */
  lemma CleanKeepsEnd(s: string)
    ensures EndsInLing(Clean(s)) <==> EndsInLing(s)
  {
    var a := if |s| >= 2 && s[..2] == [CnDigits[1], Shi] then s[1..] else s;
    assert EndsInLing(a) <==> EndsInLing(s);
    var b := ReplaceAll(a, [Er], [Liang]);
    ReplaceKeepsEnd(a, [Er], [Liang]);
    var c := ReplaceAll(b, [Shi, Liang], [Shi, Er]);
    ReplaceKeepsEnd(b, [Shi, Liang], [Shi, Er]);
    var d := ReplaceAll(c, [Liang, Shi], [Er, Shi]);
    ReplaceKeepsEnd(c, [Liang, Shi], [Er, Shi]);
    if |d| > 0 && d[|d| - 1] == Liang {
      var e := d[..|d| - 1] + [Er];
      assert e[|e| - 1] == Er;
    }
  }

  lemma Split16(p: string)
    requires |p| == 16 && AllDigits(p)
    ensures NatOf(p) == NatOf(p[..8]) * 100000000 + NatOf(p[8..]) && NatOf(p[8..]) < 100000000
  {
    assert p[..8] + p[8..] == p;
    NatOfAppend(p[..8], p[8..]);
    NatOfBound(p[8..]);
    assert Pow10(8) == 100000000;
  }

  lemma PaddedSplit(digits: string)
    requires AllDigits(digits) && |digits| <= 16
    ensures var p := LastPadded(digits, 16);
      NatOf(digits) == NatOf(p[..8]) * 100000000 + NatOf(p[8..]) && NatOf(p[8..]) < 100000000
  {
    PaddedValue(digits);
    Split16(LastPadded(digits, 16));
  }

  /**
   * As written, a multiple of 10^8 is spelled with a final `零` (10^8 gives
   * `一亿零`).
   */
  lemma AsWrittenTrailingLing(num: string)
    requires IsIntLiteral(num) && 2 <= |Magnitude(num)| <= 16
    requires NatOf(Magnitude(num)) > 0 && NatOf(Magnitude(num)) % 100000000 == 0
    ensures IntegerToChinese(num).Ok? && EndsInLing(IntegerToChinese(num).value)
  {
    var digits := Magnitude(num);
    var p := LastPadded(digits, 16);
    PaddedSplit(digits);
    I2c8Empty(p[..8]);
    I2c8Empty(p[8..]);
    LowZero(NatOf(p[..8]), NatOf(p[8..]), NatOf(digits));
    NatOfZeroDigits(p[8..]);
    assert p[8] == p[8..][0];
    RenderIsBody(digits);
    var z := p[7] == '0' || p[8] == '0';
    var all := Spelled(p, z);
    assert I2c8(p[8..]) == "" && z;
    assert all == I2c8(p[..8]) + [Yi] + [Ling];
    CleanKeepsEnd(all);
  }

  /** The low part of a multiple of 10^8 written as `a * 10^8 + b`, with `b` below 10^8, is zero. */
  lemma LowZero(a: nat, b: nat, n: nat)
    requires b < 100000000 && n == a * 100000000 + b && n % 100000000 == 0
    ensures b == 0
  {
    assert n % 100000000 == b;
  }

  /** A magnitude of two or more digits, all zero, is spelled `零` alone (the sign is lost too). */
  lemma ZerosRenderLing(num: string)
    requires IsIntLiteral(num) && 2 <= |Magnitude(num)| <= 16 && NatOf(Magnitude(num)) == 0
    ensures IntegerToChinese(num) == Ok([Ling])
  {
    var digits := Magnitude(num);
    var p := LastPadded(digits, 16);
    PaddedSplit(digits);
    I2c8Empty(p[..8]);
    I2c8Empty(p[8..]);
    assert RenderDigits(digits) == [Ling];
  }

  lemma SpelledEnd(p: string, z: bool)
    requires |p| == 16 && AllDigits(p)
    requires I2c8(p[8..]) != "" || (I2c8(p[..8]) != "" && !z)
    ensures Spelled(p, z) != "" && !EndsInLing(Spelled(p, z))
  {
    var lower := I2c8(p[8..]);
    var all := Spelled(p, z);
    I2c8End(p[8..]);
    if lower != "" {
      assert all[|all| - 1] == lower[|lower| - 1];
    } else {
      assert all == I2c8(p[..8]) + [Yi];
    }
  }

  lemma CleanOrLingEnd(all: string)
    requires all != "" && !EndsInLing(all)
    ensures var r := if all != "" then Clean(all) else [Ling]; r != "" && !EndsInLing(r)
  {
    CleanKeepsEnd(all);
  }

  lemma BodyEnd(digits: string, z: bool)
    requires AllDigits(digits) && |digits| <= 16
    requires var p := LastPadded(digits, 16); I2c8(p[8..]) != "" || (I2c8(p[..8]) != "" && !z)
    ensures Body(digits, z) != "" && !EndsInLing(Body(digits, z))
  {
    SpelledEnd(LastPadded(digits, 16), z);
    CleanOrLingEnd(Spelled(LastPadded(digits, 16), z));
  }

  lemma FixedBodyEnd(digits: string)
    requires AllDigits(digits) && |digits| <= 16 && NatOf(digits) != 0
    ensures var p := LastPadded(digits, 16);
      var r := Body(digits, I2c8(p[8..]) != "" && (p[7] == '0' || p[8] == '0'));
      r != "" && !EndsInLing(r)
  {
    var p := LastPadded(digits, 16);
    var z := I2c8(p[8..]) != "" && (p[7] == '0' || p[8] == '0');
    SomeHalfNonzero(digits);
    BodyEnd(digits, z);
  }

  /** A nonzero number has something to spell in one of its two halves. */
  lemma SomeHalfNonzero(digits: string)
    requires AllDigits(digits) && |digits| <= 16 && NatOf(digits) != 0
    ensures var p := LastPadded(digits, 16); I2c8(p[8..]) != "" || I2c8(p[..8]) != ""
  {
    var p := LastPadded(digits, 16);
    PaddedSplit(digits);
    I2c8Empty(p[..8]);
    I2c8Empty(p[8..]);
  }

  /** The corrected renderer never ends a nonzero numeral with `零`. */
  lemma FixedNoTrailingLing(num: string)
    requires IsIntLiteral(num) && |Magnitude(num)| <= 16 && IntValue(num) != 0
    ensures IntegerToChineseFixed(num).Ok? && !EndsInLing(IntegerToChineseFixed(num).value)
  {
    var digits := Magnitude(num);
    var sign := if num[0] == '-' then [Fu] else "";
    assert NatOf(digits) != 0;
    var u := Unsigned(digits);
    assert IntegerToChineseFixed(num) == Ok(sign + u);
    assert u != [] && !EndsInLing(u) by {
      if |digits| == 1 {
        NatOfOne(digits);
        NonzeroDigitWord(digits[0]);
      } else {
        RenderIsBody(digits);
        FixedBodyEnd(digits);
      }
    }
    EndsInLingConcat(sign, u);
  }

  /** Only the last piece of a concatenation decides whether it ends in `零`. */
  lemma EndsInLingConcat(a: string, b: string)
    requires b != []
    ensures EndsInLing(a + b) <==> EndsInLing(b)
  {
    assert (a + b)[|a + b| - 1] == b[|b| - 1];
  }

  lemma BodyBelowYi(digits: string)
    requires AllDigits(digits) && |digits| <= 16 && NatOf(digits) < 100000000
    ensures Body(digits, true) == Body(digits, false)
  {
    UpperEmpty(digits);
    SpelledNoYi(LastPadded(digits, 16));
  }

  /** Below 10^8 the upper eight digits spell nothing. */
  lemma UpperEmpty(digits: string)
    requires AllDigits(digits) && |digits| <= 16 && NatOf(digits) < 100000000
    ensures I2c8(LastPadded(digits, 16)[..8]) == ""
  {
    var p := LastPadded(digits, 16);
    PaddedSplit(digits);
    assert NatOf(p[..8]) == 0;
    I2c8Empty(p[..8]);
  }

  /** With nothing in the upper eight digits, the `零` flag after `亿` is never written. */
  lemma SpelledNoYi(p: string)
    requires |p| == 16 && AllDigits(p) && I2c8(p[..8]) == ""
    ensures Spelled(p, true) == Spelled(p, false)
  {
    assert YiPart(p, true) == "" && YiPart(p, false) == "";
  }

  lemma RendersAgreeBelowYi(digits: string)
    requires AllDigits(digits) && |digits| <= 16 && NatOf(digits) < 100000000
    ensures RenderDigits(digits) == RenderDigitsFixed(digits)
  {
    RenderIsBody(digits);
    BodyBelowYi(digits);
  }

  /**
   * Below 10^8 the two renderers agree on non-negative numbers; the date and time
   * transducers only write such numbers.
   */
  lemma FixedAgreesBelowYi(num: string)
    requires IsIntLiteral(num) && num[0] != '-' && |num| <= 16 && NatOf(num) < 100000000
    ensures IntegerToChinese(num) == IntegerToChineseFixed(num)
  {
    assert Magnitude(num) == num;
    if |num| > 1 {
      RendersAgreeBelowYi(num);
      assert "" + RenderDigitsFixed(num) == RenderDigitsFixed(num);
    } else {
      assert "" + [CnDigit(num[0])] == [CnDigit(num[0])];
    }
  }
}
