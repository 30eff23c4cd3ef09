/**
 * The two regular expressions of `regex.py`, as scanners over ASCII digits:
 * `NUMBERS` (`\d+`, used with `findall`) and `CARDINAL`
 * (`-?\d+(?:,\d{3})*(?:\.\d+)?`, used with `sub`).
 */
module Scanners {
  import opened Strings

  /** Length of the run of digits at the start of `s`. */
  function DigitRunLen(s: string): (k: nat)
    ensures k <= |s| && AllDigits(s[..k]) && (k == |s| || !IsDigit(s[k]))
  {
    if s == [] || !IsDigit(s[0]) then 0
    else
      var k := 1 + DigitRunLen(s[1..]);
      assert s[..k] == [s[0]] + s[1..][..k - 1];
      k
  }

  lemma {:induction false} DigitRunAll(d: string)
    requires AllDigits(d)
    ensures DigitRunLen(d) == |d|
  {
    if d != [] {
      DigitRunAll(d[1..]);
    }
  }

  /** `NUMBERS.findall(s)`: the maximal runs of digits, left to right. */
  function Runs(s: string): (r: seq<string>)
    ensures forall i :: 0 <= i < |r| ==> |r[i]| > 0 && AllDigits(r[i])
    decreases |s|
  {
    if s == [] then []
    else if !IsDigit(s[0]) then Runs(s[1..])
    else
      var k := DigitRunLen(s);
      [s[..k]] + Runs(s[k..])
  }

  /** The digits of `s` in order, everything else dropped. */
  function DigitsOf(s: string): (d: string)
    ensures AllDigits(d)
  {
    if s == [] then "" else (if IsDigit(s[0]) then [s[0]] else "") + DigitsOf(s[1..])
  }

  lemma {:induction false} DigitsOfAppend(a: string, b: string)
    ensures DigitsOf(a + b) == DigitsOf(a) + DigitsOf(b)
  {
    if a == [] {
      assert a + b == b;
    } else {
      assert (a + b)[0] == a[0] && (a + b)[1..] == a[1..] + b;
      DigitsOfAppend(a[1..], b);
    }
  }

  lemma {:induction false} DigitsOfDigits(d: string)
    requires AllDigits(d)
    ensures DigitsOf(d) == d
  {
    if d != [] {
      DigitsOfDigits(d[1..]);
      assert d == [d[0]] + d[1..];
    }
  }

  /** No digit is lost, added or moved: the runs spell out exactly the digits of `s`. */
  lemma {:induction false} RunsKeepDigits(s: string)
    ensures Concat(Runs(s)) == DigitsOf(s)
    decreases |s|
  {
    if s != [] {
      if !IsDigit(s[0]) {
        RunsKeepDigits(s[1..]);
      } else {
        var k := DigitRunLen(s);
        RunsKeepDigits(s[k..]);
        assert s == s[..k] + s[k..];
        DigitsOfAppend(s[..k], s[k..]);
        DigitsOfDigits(s[..k]);
        assert Concat([s[..k]] + Runs(s[k..])) == s[..k] + Concat(Runs(s[k..]));
      }
    }
  }

  /** A run that is all of the text is found whole. */
  lemma RunsOfDigits(d: string)
    requires |d| > 0 && AllDigits(d)
    ensures Runs(d) == [d]
  {
    DigitRunAll(d);
    assert d[..|d|] == d && d[|d|..] == [];
  }

  /** A character that is not a digit separates the runs on either side of it. */
  lemma {:induction false} RunsSplit(a: string, c: char, b: string)
    requires !IsDigit(c)
    ensures Runs(a + [c] + b) == Runs(a) + Runs(b)
    decreases |a|
  {
    var s := a + [c] + b;
    if a == [] {
      assert s[0] == c && s[1..] == b;
    } else if !IsDigit(a[0]) {
      assert s[0] == a[0] && s[1..] == a[1..] + [c] + b;
      RunsSplit(a[1..], c, b);
    } else {
      var k := DigitRunLen(a);
      RunLenPrefix(a, [c] + b);
      assert s == a + ([c] + b);
      assert DigitRunLen(s) == k;
      assert s[..k] == a[..k];
      if k == |a| {
        assert s[k..] == [c] + b;
        assert a[k..] == [];
        assert Runs([c] + b) == Runs(b) by { assert ([c] + b)[1..] == b; }
      } else {
        assert s[k..] == a[k..] + [c] + b;
        RunsSplit(a[k..], c, b);
      }
    }
  }

  /** Appending text that starts with a non-digit does not change the run at the start. */
  lemma {:induction false} RunLenPrefix(a: string, b: string)
    requires b == [] || !IsDigit(b[0])
    ensures DigitRunLen(a + b) == DigitRunLen(a)
  {
    if a == [] {
      assert a + b == b;
    } else {
      assert (a + b)[0] == a[0] && (a + b)[1..] == a[1..] + b;
      if IsDigit(a[0]) {
        RunLenPrefix(a[1..], b);
      }
    }
  }

  // ---- CARDINAL ----

  /** True when `s` starts with `,` and three digits. */
  predicate StartsGroup(s: string)
  {
    |s| >= 4 && s[0] == ',' && IsDigit(s[1]) && IsDigit(s[2]) && IsDigit(s[3])
  }

  /** `(?:,\d{3})*`, taken as often as it matches. */
  function GroupsLen(s: string): (k: nat)
    ensures k <= |s| && k % 4 == 0
    ensures !StartsGroup(s[k..])
    decreases |s|
  {
    if StartsGroup(s) then 4 + GroupsLen(s[4..]) else 0
  }

  /** `(?:\.\d+)?`. */
  function DecimalLen(s: string): (k: nat)
    ensures k <= |s|
  {
    if |s| >= 2 && s[0] == '.' && IsDigit(s[1]) then 1 + DigitRunLen(s[1..]) else 0
  }

  /** `-?`, taken only when a digit follows, since a lone `-` cannot start a match. */
  function SignLen(s: string): nat
  {
    if |s| >= 2 && s[0] == '-' && IsDigit(s[1]) then 1 else 0
  }

  /** Where the leading digits of a match end. */
  function IntEnd(s: string): (k: nat)
    ensures SignLen(s) <= k <= |s|
  {
    SignLen(s) + DigitRunLen(s[SignLen(s)..])
  }

  /** Where the `,ddd` blocks of a match end. */
  function GroupEnd(s: string): (k: nat)
    ensures IntEnd(s) <= k <= |s|
  {
    IntEnd(s) + GroupsLen(s[IntEnd(s)..])
  }

  /** Length of the `CARDINAL` match at the start of `s`, or 0 when there is none. */
  function CardinalLen(s: string): (k: nat)
    ensures k <= |s|
  {
    if SignLen(s) == 0 && (s == [] || !IsDigit(s[0])) then 0
    else GroupEnd(s) + DecimalLen(s[GroupEnd(s)..])
  }

  /** A string made of `,ddd` blocks. */
  predicate IsGroups(g: string)
  {
    |g| % 4 == 0 && forall j :: 0 <= j < |g| ==> if j % 4 == 0 then g[j] == ',' else IsDigit(g[j])
  }

  lemma {:induction false} GroupsShape(s: string)
    ensures IsGroups(s[..GroupsLen(s)])
    decreases |s|
  {
    if StartsGroup(s) {
      GroupsShape(s[4..]);
      var g := s[..GroupsLen(s)];
      var g' := s[4..][..GroupsLen(s[4..])];
      assert g == s[..4] + g';
      forall j | 0 <= j < |g| ensures if j % 4 == 0 then g[j] == ',' else IsDigit(g[j]) {
        if j >= 4 { assert g[j] == g'[j - 4]; }
      }
    }
  }

  /**
   * The match, cut into the regular expression's parts: an optional `-`, the
   * leading digits, the `,ddd` blocks and the optional fraction. Each part is
   * as long as it can be, which is the match a backtracking engine returns for
   * this expression.
   */
  lemma CardinalShapeInt(s: string)
    requires CardinalLen(s) > 0
    ensures SignLen(s) == 1 ==> s[0] == '-'
    ensures IntEnd(s) > SignLen(s) && AllDigits(s[SignLen(s)..IntEnd(s)])
    ensures IntEnd(s) == |s| || !IsDigit(s[IntEnd(s)])
  {
    var sg := SignLen(s);
    SliceOfTail(s, sg, DigitRunLen(s[sg..]));
  }

  lemma CardinalShapeGroups(s: string)
    ensures IsGroups(s[IntEnd(s)..GroupEnd(s)]) && !StartsGroup(s[GroupEnd(s)..])
  {
    var e := IntEnd(s);
    GroupsShape(s[e..]);
    SliceOfTail(s, e, GroupsLen(s[e..]));
  }

  lemma SliceOfTail(s: string, i: nat, n: nat)
    requires i + n <= |s|
    ensures s[i..][..n] == s[i..i + n]
  {
  }

  lemma CardinalShapeFraction(s: string)
    requires CardinalLen(s) > 0
    ensures var g, k := GroupEnd(s), CardinalLen(s);
      (k == g && !(g + 1 < |s| && s[g] == '.' && IsDigit(s[g + 1])))
      || (k >= g + 2 && s[g] == '.' && AllDigits(s[g + 1..k]) && (k == |s| || !IsDigit(s[k])))
  {
    CardinalLenSplit(s);
    DecimalShape(s, GroupEnd(s));
  }

  lemma CardinalLenSplit(s: string)
    requires CardinalLen(s) > 0
    ensures CardinalLen(s) == GroupEnd(s) + DecimalLen(s[GroupEnd(s)..])
  {
  }

  /** The `(\.\d+)?` part of a match starting at `g`. */
  lemma DecimalShape(s: string, g: nat)
    requires g <= |s|
    ensures var k := g + DecimalLen(s[g..]);
      (k == g && !(g + 1 < |s| && s[g] == '.' && IsDigit(s[g + 1])))
      || (k >= g + 2 && s[g] == '.' && AllDigits(s[g + 1..k]) && (k == |s| || !IsDigit(s[k])))
  {
    var rest := s[g..];
    if |rest| >= 2 {
      assert rest[0] == s[g] && rest[1] == s[g + 1];
    }
    if DecimalLen(rest) > 0 {
      var r1 := rest[1..];
      var n := DigitRunLen(r1);
      assert r1[0] == s[g + 1] && n >= 1;
      assert r1[..n] == s[g + 1..g + 1 + n];
      assert g + 1 + n == |s| || s[g + 1 + n] == r1[n];
    }
  }

  /** A match starts exactly where a digit, or a `-` then a digit, does. */
  lemma CardinalStart(s: string)
    ensures CardinalLen(s) > 0 <==> (|s| > 0 && IsDigit(s[0])) || (|s| >= 2 && s[0] == '-' && IsDigit(s[1]))
  {
  }

  /** A piece of the text after `CARDINAL.sub` has scanned it. */
  datatype Piece = Text(c: char) | Number(run: string)

  /** `CARDINAL.sub`: leftmost matches, scanned from left to right without overlap. */
  function CardinalPieces(s: string): seq<Piece>
    decreases |s|
  {
    if s == [] then []
    else
      var k := CardinalLen(s);
      if k == 0 then [Text(s[0])] + CardinalPieces(s[1..])
      else [Number(s[..k])] + CardinalPieces(s[k..])
  }

  /** What the pieces say, with every match kept as it was. */
  function Unscan(ps: seq<Piece>): string
  {
    if ps == [] then ""
    else (match ps[0] case Text(c) => [c] case Number(m) => m) + Unscan(ps[1..])
  }

  /** Text outside the matches is kept, and the matches come out in order. */
  lemma {:induction false} CardinalPiecesCover(s: string)
    ensures Unscan(CardinalPieces(s)) == s
    decreases |s|
  {
    if s != [] {
      var k := CardinalLen(s);
      var j := if k == 0 then 1 else k;
      CardinalPiecesCover(s[j..]);
      CoverStep(s, k, j);
    }
  }

  /** One step of the scan: the piece taken off the front and the rest put back together. */
  lemma CoverStep(s: string, k: nat, j: nat)
    requires s != [] && k == CardinalLen(s) && j == (if k == 0 then 1 else k)
    requires Unscan(CardinalPieces(s[j..])) == s[j..]
    ensures Unscan(CardinalPieces(s)) == s
  {
    var rest := CardinalPieces(s[j..]);
    if k == 0 {
      assert CardinalPieces(s) == [Text(s[0])] + rest;
      UnscanCons(Text(s[0]), rest);
      assert [s[0]] + s[1..] == s;
    } else {
      assert CardinalPieces(s) == [Number(s[..k])] + rest;
      UnscanCons(Number(s[..k]), rest);
      SplitAt(s, k);
    }
  }

  lemma UnscanCons(p: Piece, ps: seq<Piece>)
    ensures Unscan([p] + ps) == (match p case Text(c) => [c] case Number(m) => m) + Unscan(ps)
  {
    assert ([p] + ps)[1..] == ps;
  }

  /** Every `Number` piece is a match, and no match starts inside a `Text` piece. */
  lemma {:induction false} CardinalPiecesMatch(s: string)
    ensures forall i :: 0 <= i < |CardinalPieces(s)| && CardinalPieces(s)[i].Number? ==>
      var m := CardinalPieces(s)[i].run; CardinalLen(m) == |m| > 0
    decreases |s|
  {
    if s != [] {
      var k := CardinalLen(s);
      if k == 0 {
        CardinalPiecesMatch(s[1..]);
      } else {
        CardinalPiecesMatch(s[k..]);
        CardinalPrefix(s);
      }
    }
  }

  /** The match read on its own is matched whole. */
  lemma CardinalPrefix(s: string)
    requires CardinalLen(s) > 0
    ensures CardinalLen(s[..CardinalLen(s)]) == CardinalLen(s)
  {
    var k := CardinalLen(s);
    var m := s[..k];
    var sg, ie, ge := SignLen(s), IntEnd(s), GroupEnd(s);
    CardinalShapeInt(s);
    assert m[0] == s[0] && (sg == 1 ==> m[1] == s[1]);
    assert SignLen(m) == sg;
    PrefixTail(s, m, sg);
    PrefixRun(s[sg..], m[sg..], ie - sg);
    assert IntEnd(m) == ie;
    PrefixTail(s, m, ie);
    PrefixGroups(s[ie..], m[ie..], ge - ie);
    assert GroupEnd(m) == ge;
    PrefixTail(s, m, ge);
    PrefixDecimal(s[ge..], k - ge);
  }

  /** The tail of a prefix from `i` is a prefix of the tail of the whole from `i`. */
  lemma PrefixTail(s: string, m: string, i: nat)
    requires |m| <= |s| && m == s[..|m|] && i <= |m|
    ensures m[i..] == s[i..][..|m| - i]
  {
  }

  lemma {:induction false} PrefixRun(s: string, t: string, d: nat)
    requires d == DigitRunLen(s) && d <= |t| <= |s| && t == s[..|t|]
    ensures DigitRunLen(t) == d
    decreases d
  {
    if d > 0 {
      assert t[1..] == s[1..][..|t| - 1];
      PrefixRun(s[1..], t[1..], d - 1);
    } else if t != [] {
      assert t[0] == s[0];
    }
  }

  lemma {:induction false} PrefixGroups(s: string, t: string, g: nat)
    requires g == GroupsLen(s) && g <= |t| <= |s| && t == s[..|t|]
    ensures GroupsLen(t) == g
    decreases g
  {
    if g > 0 {
      assert StartsGroup(s);
      assert t[..4] == s[..4];
      assert t[4..] == s[4..][..|t| - 4];
      PrefixGroups(s[4..], t[4..], g - 4);
    }
  }

  lemma PrefixDecimal(s: string, e: nat)
    requires e == DecimalLen(s)
    ensures DecimalLen(s[..e]) == e
  {
    if e > 0 {
      PrefixRun(s[1..], s[..e][1..], e - 1);
    }
  }
}
