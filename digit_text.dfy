/**
 * Reading digits one by one: `_phone_normalize`, `telephone_normalize` and
 * `nominal_normalize`. A telephone number is read in groups of three to five
 * digits; a nominal string (a code, a plate, an id) is read character by
 * character. Both read `一` as `幺`.
 */
module DigitText {
  import opened Strings
  import opened Numerals
  import opened Scanners

  const YiDigit: char := '一'
  const Yao: char := '幺'

  lemma CnDigitNotSpace(d: char)
    requires IsDigit(d)
    ensures !IsSpace(CnDigit(d)) && CnDigit(d) != Yao
  {
    assert CnDigits == ['零', '一', '二', '三', '四', '五', '六', '七', '八', '九'];
  }

  lemma SpellDigitsNoSpace(d: string)
    requires AllDigits(d)
    ensures forall i :: 0 <= i < |SpellDigits(d)| ==> !IsSpace(SpellDigits(d)[i])
  {
    forall i | 0 <= i < |d| ensures !IsSpace(SpellDigits(d)[i]) {
      CnDigitNotSpace(d[i]);
    }
  }

  lemma SpellDigitsAppend(a: string, b: string)
    requires AllDigits(a) && AllDigits(b)
    ensures AllDigits(a + b) && SpellDigits(a + b) == SpellDigits(a) + SpellDigits(b)
  {
    DigitsAppend(a, b);
    var x, y, z := SpellDigits(a), SpellDigits(b), SpellDigits(a + b);
    forall i | 0 <= i < |z| ensures z[i] == (x + y)[i] {
      if i < |a| {
        assert (a + b)[i] == a[i];
      } else {
        assert (a + b)[i] == b[i - |a|];
      }
    }
    assert z == x + y;
  }

  // ---------------------------------------------------------------------------
  // _phone_normalize
  // ---------------------------------------------------------------------------

  /**
   * `_phone_normalize`: up to five digits are read straight through; a length that
   * is a multiple of four is read in fours; otherwise a group of five (length 1 mod 4),
   * two groups of three (2 mod 4) or one group of three (3 mod 4) is split off the
   * front and the rest is read the same way.
   */
  function Phone(d: string): string
    requires AllDigits(d)
    decreases |d|
  {
    if |d| <= 5 then SpellDigits(d)
    else if |d| % 4 == 0 then Join(seq(|d| / 4, i requires 0 <= i < |d| / 4 => Phone(d[4 * i..4 * i + 4])), " ")
    else if |d| % 4 == 1 then SpellDigits(d[..5]) + " " + Phone(d[5..])
    else if |d| % 4 == 2 then SpellDigits(d[..3]) + " " + SpellDigits(d[3..6]) + " " + Phone(d[6..])
    else SpellDigits(d[..3]) + " " + Phone(d[3..])
  }

  /** The digit groups `Phone` reads, in order: an independent description of its grouping. */
  function PhoneGroups(d: string): (gs: seq<string>)
    requires AllDigits(d)
    ensures |gs| >= 1 && forall i :: 0 <= i < |gs| ==> AllDigits(gs[i])
    decreases |d|
  {
    if |d| <= 5 then [d]
    else if |d| % 4 == 0 then seq(|d| / 4, i requires 0 <= i < |d| / 4 => d[4 * i..4 * i + 4])
    else if |d| % 4 == 1 then [d[..5]] + PhoneGroups(d[5..])
    else if |d| % 4 == 2 then [d[..3], d[3..6]] + PhoneGroups(d[6..])
    else [d[..3]] + PhoneGroups(d[3..])
  }

  function SpellAll(gs: seq<string>): (r: seq<string>)
    requires forall i :: 0 <= i < |gs| ==> AllDigits(gs[i])
    ensures |r| == |gs| && forall i :: 0 <= i < |gs| ==> r[i] == SpellDigits(gs[i])
  {
    seq(|gs|, i requires 0 <= i < |gs| => SpellDigits(gs[i]))
  }

  lemma {:induction false} FoursCover(d: string, n: nat)
    requires |d| == 4 * n
    ensures Concat(seq(n, i requires 0 <= i < n => d[4 * i..4 * i + 4])) == d
  {
    var cs := seq(n, i requires 0 <= i < n => d[4 * i..4 * i + 4]);
    if n > 0 {
      var rest := seq(n - 1, i requires 0 <= i < n - 1 => d[4..][4 * i..4 * i + 4]);
      forall i | 0 <= i < n - 1 ensures cs[1..][i] == rest[i] {
        assert d[4..][4 * i..4 * i + 4] == d[4 * (i + 1)..4 * (i + 1) + 4];
      }
      assert cs[1..] == rest;
      FoursCover(d[4..], n - 1);
      assert d == d[..4] + d[4..];
    }
  }

  /** Reading the groups back to back gives the digits that were read. */
  lemma {:induction false} PhoneGroupsCover(d: string)
    requires AllDigits(d)
    ensures Concat(PhoneGroups(d)) == d
    decreases |d|
  {
    var gs := PhoneGroups(d);
    if |d| <= 5 {
      assert d + "" == d;
    } else if |d| % 4 == 0 {
      FoursCover(d, |d| / 4);
    } else if |d| % 4 == 1 {
      PhoneGroupsCover(d[5..]);
      ConcatAppend([d[..5]], PhoneGroups(d[5..]));
      assert Concat([d[..5]]) == d[..5] + "";
      assert d == d[..5] + d[5..];
    } else if |d| % 4 == 2 {
      PhoneGroupsCover(d[6..]);
      ConcatAppend([d[..3], d[3..6]], PhoneGroups(d[6..]));
      assert [d[..3], d[3..6]][1..] == [d[3..6]];
      assert Concat([d[..3], d[3..6]]) == d[..3] + (d[3..6] + "");
      assert d == d[..3] + d[3..6] + d[6..];
    } else {
      PhoneGroupsCover(d[3..]);
      ConcatAppend([d[..3]], PhoneGroups(d[3..]));
      assert Concat([d[..3]]) == d[..3] + "";
      assert d == d[..3] + d[3..];
    }
  }

  lemma JoinCons(a: string, rest: seq<string>, sep: string)
    requires |rest| >= 1
    ensures Join([a] + rest, sep) == a + sep + Join(rest, sep)
  {
    assert ([a] + rest)[1..] == rest;
  }

  lemma PhoneFours(d: string)
    requires AllDigits(d) && |d| > 5 && |d| % 4 == 0
    ensures Phone(d) == Join(SpellAll(PhoneGroups(d)), " ")
  {
    var n := |d| / 4;
    var qs := seq(n, i requires 0 <= i < n => Phone(d[4 * i..4 * i + 4]));
    var gs := seq(n, i requires 0 <= i < n => d[4 * i..4 * i + 4]);
    assert Phone(d) == Join(qs, " ");
    assert PhoneGroups(d) == gs;
    FoursSpelled(d, qs, gs);
  }

  lemma FoursSpelled(d: string, qs: seq<string>, gs: seq<string>)
    requires AllDigits(d) && |d| % 4 == 0 && |qs| == |gs| == |d| / 4
    requires forall i :: 0 <= i < |gs| ==> gs[i] == d[4 * i..4 * i + 4] && qs[i] == Phone(d[4 * i..4 * i + 4])
    ensures (forall i :: 0 <= i < |gs| ==> AllDigits(gs[i])) && qs == SpellAll(gs)
  {
    forall i | 0 <= i < |gs| ensures AllDigits(gs[i]) && qs[i] == SpellDigits(gs[i]) {
      FourGroup(d, i);
    }
    var ss := SpellAll(gs);
    assert forall i :: 0 <= i < |gs| ==> qs[i] == ss[i];
  }

  /** The `i`-th block of four is read digit by digit. */
  lemma FourGroup(d: string, i: nat)
    requires AllDigits(d) && 4 * i + 4 <= |d|
    ensures AllDigits(d[4 * i..4 * i + 4]) && Phone(d[4 * i..4 * i + 4]) == SpellDigits(d[4 * i..4 * i + 4])
  {
    var g := d[4 * i..4 * i + 4];
    assert |g| == 4;
  }

  /** Splitting `k` digits off the front: the reading is their spelling, a space, and the rest. */
  lemma PhoneFront(d: string, k: nat)
    requires AllDigits(d) && |d| > 5 && (|d| % 4 == 1 || |d| % 4 == 3)
    requires k == if |d| % 4 == 1 then 5 else 3
    ensures Phone(d) == SpellDigits(d[..k]) + " " + Phone(d[k..])
    ensures PhoneGroups(d) == [d[..k]] + PhoneGroups(d[k..])
  {
  }

  /** Two groups of three come off the front when the length is 2 mod 4. */
  lemma PhoneTwoThrees(d: string)
    requires AllDigits(d) && |d| > 5 && |d| % 4 == 2
    ensures Phone(d) == SpellDigits(d[..3]) + " " + (SpellDigits(d[3..6]) + " " + Phone(d[6..]))
    ensures PhoneGroups(d) == [d[..3]] + ([d[3..6]] + PhoneGroups(d[6..]))
  {
    ReadTwoThrees(d);
    SepAssoc(SpellDigits(d[..3]), SpellDigits(d[3..6]), Phone(d[6..]));
    GroupsTwoThrees(d);
  }

  /** The `2 mod 4` branch of `Phone`, as written. */
  lemma ReadTwoThrees(d: string)
    requires AllDigits(d) && |d| > 5 && |d| % 4 == 2
    ensures Phone(d) == SpellDigits(d[..3]) + " " + SpellDigits(d[3..6]) + " " + Phone(d[6..])
  {
  }

  lemma SepAssoc(x: string, y: string, z: string)
    ensures x + " " + y + " " + z == x + " " + (y + " " + z)
  {
  }

  lemma GroupsTwoThrees(d: string)
    requires AllDigits(d) && |d| > 5 && |d| % 4 == 2
    ensures PhoneGroups(d) == [d[..3]] + ([d[3..6]] + PhoneGroups(d[6..]))
  {
    var a, b, rest := d[..3], d[3..6], PhoneGroups(d[6..]);
    assert PhoneGroups(d) == [a, b] + rest;
    assert [a, b] + rest == [a] + ([b] + rest);
  }

  lemma SpellAllCons(g: string, gs: seq<string>)
    requires AllDigits(g) && forall i :: 0 <= i < |gs| ==> AllDigits(gs[i])
    ensures forall i :: 0 <= i < |[g] + gs| ==> AllDigits(([g] + gs)[i])
    ensures SpellAll([g] + gs) == [SpellDigits(g)] + SpellAll(gs)
  {
    assert forall i :: 0 <= i < |[g] + gs| ==> ([g] + gs)[i] == if i == 0 then g else gs[i - 1];
  }

  lemma ReadsFront(d: string, k: nat)
    requires AllDigits(d) && |d| > 5 && (|d| % 4 == 1 || |d| % 4 == 3)
    requires k == if |d| % 4 == 1 then 5 else 3
    requires Phone(d[k..]) == Join(SpellAll(PhoneGroups(d[k..])), " ")
    ensures Phone(d) == Join(SpellAll(PhoneGroups(d)), " ")
  {
    PhoneFront(d, k);
    SpellAllCons(d[..k], PhoneGroups(d[k..]));
    JoinCons(SpellDigits(d[..k]), SpellAll(PhoneGroups(d[k..])), " ");
  }

  lemma ReadsTwoThrees(d: string)
    requires AllDigits(d) && |d| > 5 && |d| % 4 == 2
    requires Phone(d[6..]) == Join(SpellAll(PhoneGroups(d[6..])), " ")
    ensures Phone(d) == Join(SpellAll(PhoneGroups(d)), " ")
  {
    PhoneTwoThrees(d);
    var tail := SpellAll(PhoneGroups(d[6..]));
    SpellAllCons(d[3..6], PhoneGroups(d[6..]));
    SpellAllCons(d[..3], [d[3..6]] + PhoneGroups(d[6..]));
    JoinCons(SpellDigits(d[3..6]), tail, " ");
    JoinCons(SpellDigits(d[..3]), [SpellDigits(d[3..6])] + tail, " ");
  }

  /** `Phone` reads each group digit by digit and puts one space between groups. */
  lemma {:induction false} PhoneReadsGroups(d: string)
    requires AllDigits(d)
    ensures Phone(d) == Join(SpellAll(PhoneGroups(d)), " ")
    decreases |d|
  {
    if |d| <= 5 {
      assert PhoneGroups(d) == [d];
    } else if |d| % 4 == 0 {
      PhoneFours(d);
    } else if |d| % 4 == 2 {
      PhoneReadsGroups(d[6..]);
      ReadsTwoThrees(d);
    } else {
      var k := if |d| % 4 == 1 then 5 else 3;
      PhoneReadsGroups(d[k..]);
      ReadsFront(d, k);
    }
  }

  /**
   * Up to five digits form one group; beyond that every group has three to five
   * digits, except that six digits leave an empty last group (so `Phone` ends in a
   * space that `telephone_normalize` strips).
   */
  lemma PhoneGroupSizes(d: string)
    requires AllDigits(d)
    ensures |d| <= 5 ==> PhoneGroups(d) == [d]
    ensures |d| == 6 ==> PhoneGroups(d) == [d[..3], d[3..], ""]
    ensures |d| > 6 ==> forall i :: 0 <= i < |PhoneGroups(d)| ==> 3 <= |PhoneGroups(d)[i]| <= 5
  {
    if |d| == 6 {
      PhoneTwoThrees(d);
      assert d[3..6] == d[3..] && d[6..] == "";
    } else if |d| > 6 {
      if |d| % 4 == 0 {
        FoursSizes(d);
      } else if |d| % 4 == 2 {
        SizesTwoThrees(d);
      } else {
        if |d| % 4 == 1 {
          SizesFive(d);
        } else {
          SizesThree(d);
        }
      }
    }
  }

  lemma SizesFive(d: string)
    requires AllDigits(d) && |d| > 6 && |d| % 4 == 1
    ensures forall i :: 0 <= i < |PhoneGroups(d)| ==> 3 <= |PhoneGroups(d)[i]| <= 5
  {
    var rest := d[5..];
    Rest(d, 5);
    PhoneFront(d, 5);
    FoursSizes(rest);
    SizesCons(d[..5], PhoneGroups(rest));
  }

  lemma SizesThree(d: string)
    requires AllDigits(d) && |d| > 6 && |d| % 4 == 3
    ensures forall i :: 0 <= i < |PhoneGroups(d)| ==> 3 <= |PhoneGroups(d)[i]| <= 5
  {
    Rest(d, 3);
    PhoneFront(d, 3);
    FoursSizes(d[3..]);
    SizesCons(d[..3], PhoneGroups(d[3..]));
  }

  /** What is left after the front group: digits, a positive multiple of four in length. */
  lemma Rest(d: string, k: nat)
    requires AllDigits(d) && k < |d| && (|d| - k) % 4 == 0
    ensures AllDigits(d[k..]) && |d[k..]| == |d| - k && |d[..k]| == k
  {
  }

  lemma SizesCons(g: string, rest: seq<string>)
    requires 3 <= |g| <= 5 && forall i :: 0 <= i < |rest| ==> 3 <= |rest[i]| <= 5
    ensures forall i :: 0 <= i < |[g] + rest| ==> 3 <= |([g] + rest)[i]| <= 5
  {
  }

  lemma SizesTwoThrees(d: string)
    requires AllDigits(d) && |d| > 6 && |d| % 4 == 2
    ensures forall i :: 0 <= i < |PhoneGroups(d)| ==> 3 <= |PhoneGroups(d)[i]| <= 5
  {
    Rest(d, 6);
    GroupsTwoThrees(d);
    var rest := PhoneGroups(d[6..]);
    FoursSizes(d[6..]);
    SizesCons(d[3..6], rest);
    SizesCons(d[..3], [d[3..6]] + rest);
  }

  /** A length that is a positive multiple of four is read in fours. */
  lemma FoursSizes(d: string)
    requires AllDigits(d) && |d| > 0 && |d| % 4 == 0
    ensures forall i :: 0 <= i < |PhoneGroups(d)| ==> |PhoneGroups(d)[i]| == 4
  {
  }

  /** A mobile number of eleven digits is read as 3-4-4. */
  lemma ElevenDigits(d: string)
    requires AllDigits(d) && |d| == 11
    ensures PhoneGroups(d) == [d[..3], d[3..7], d[7..]]
    ensures Phone(d) == SpellDigits(d[..3]) + " " + SpellDigits(d[3..7]) + " " + SpellDigits(d[7..])
  {
    ElevenGroups(d);
    PhoneReadsGroups(d);
    ThreeGroups(d[..3], d[3..7], d[7..]);
  }

  lemma ThreeGroups(a: string, b: string, c: string)
    requires AllDigits(a) && AllDigits(b) && AllDigits(c)
    ensures Join(SpellAll([a, b, c]), " ") == SpellDigits(a) + " " + SpellDigits(b) + " " + SpellDigits(c)
  {
    var x, y, z := SpellDigits(a), SpellDigits(b), SpellDigits(c);
    assert SpellAll([a, b, c]) == [x, y, z];
    JoinThree(x, y, z, " ");
  }

  lemma JoinThree(x: string, y: string, z: string, sep: string)
    ensures Join([x, y, z], sep) == x + sep + y + sep + z
  {
    JoinCons(y, [z], sep);
    JoinCons(x, [y, z], sep);
  }

  lemma ElevenGroups(d: string)
    requires AllDigits(d) && |d| == 11
    ensures PhoneGroups(d) == [d[..3], d[3..7], d[7..]]
  {
    var t := d[3..];
    EightDigits(t);
    assert t[..4] == d[3..7] && t[4..] == d[7..];
    PhoneFront(d, 3);
  }

  lemma EightDigits(t: string)
    requires AllDigits(t) && |t| == 8
    ensures PhoneGroups(t) == [t[..4], t[4..]]
  {
    var gs := seq(2, i requires 0 <= i < 2 => t[4 * i..4 * i + 4]);
    assert PhoneGroups(t) == gs;
    assert gs[0] == t[..4] && gs[1] == t[4..];
  }

  lemma {:induction false} ConcatSpelled(gs: seq<string>)
    requires forall i :: 0 <= i < |gs| ==> AllDigits(gs[i])
    ensures AllDigits(Concat(gs)) && Concat(SpellAll(gs)) == SpellDigits(Concat(gs))
  {
    if gs != [] {
      ConcatSpelled(gs[1..]);
      assert SpellAll(gs)[1..] == SpellAll(gs[1..]);
      SpellDigitsAppend(gs[0], Concat(gs[1..]));
    }
  }

  /** Dropping the separating spaces of a join leaves the parts back to back. */
  lemma {:induction false} DropSpaceJoin(xs: seq<string>)
    ensures DropSpace(Join(xs, " ")) == DropSpace(Concat(xs))
  {
    if |xs| >= 2 {
      DropSpaceJoin(xs[1..]);
      DropSpaceAppend(xs[0] + " ", Join(xs[1..], " "));
      DropSpaceAppend(xs[0], " ");
      DropSpaceAppend(xs[0], Concat(xs[1..]));
      assert DropSpace(" ") == "";
      assert DropSpace(xs[0]) + "" == DropSpace(xs[0]);
    } else if |xs| == 1 {
      assert xs[1..] == [];
      assert Concat(xs) == xs[0] + "";
      assert xs[0] + "" == xs[0];
    }
  }

  /** Apart from the spaces, `Phone` reads every digit in order. */
  lemma PhoneDigits(d: string)
    requires AllDigits(d)
    ensures DropSpace(Phone(d)) == SpellDigits(d)
  {
    var gs := PhoneGroups(d);
    PhoneReadsGroups(d);
    DropSpaceJoin(SpellAll(gs));
    ConcatSpelled(gs);
    PhoneGroupsCover(d);
    SpellDigitsNoSpace(d);
    DropSpaceNone(SpellDigits(d));
  }

  // ---------------------------------------------------------------------------
  // telephone_normalize
  // ---------------------------------------------------------------------------

  function PhoneParts(runs: seq<string>): (r: seq<string>)
    requires forall i :: 0 <= i < |runs| ==> AllDigits(runs[i])
    ensures |r| == |runs| && forall i :: 0 <= i < |runs| ==> r[i] == Strip(Phone(runs[i]))
  {
    seq(|runs|, i requires 0 <= i < |runs| => Strip(Phone(runs[i])))
  }

  /** `telephone_normalize`: each digit run read by `Phone` and stripped, joined by spaces, `一` read as `幺`. */
  function Telephone(text: string): string
  {
    ReplaceAll(Join(PhoneParts(Runs(text)), " "), [YiDigit], [Yao])
  }

  lemma {:induction false} PhonePartsDigits(runs: seq<string>)
    requires forall i :: 0 <= i < |runs| ==> AllDigits(runs[i])
    ensures AllDigits(Concat(runs))
    ensures DropSpace(Concat(PhoneParts(runs))) == SpellDigits(Concat(runs))
  {
    if runs != [] {
      PhonePartsDigits(runs[1..]);
      assert PhoneParts(runs)[1..] == PhoneParts(runs[1..]);
      DropSpaceAppend(Strip(Phone(runs[0])), Concat(PhoneParts(runs[1..])));
      DropSpaceStrip(Phone(runs[0]));
      PhoneDigits(runs[0]);
      SpellDigitsAppend(runs[0], Concat(runs[1..]));
    }
  }

  /**
   * Apart from spaces, the reading of a text is every digit of it in order, each
   * spelled as a Chinese digit with `幺` for one; nothing else of the text survives.
   */
  lemma TelephoneDigits(text: string)
    ensures DropSpace(Telephone(text)) == ReplaceChar(SpellDigits(DigitsOf(text)), YiDigit, Yao)
  {
    var runs := Runs(text);
    var joined := Join(PhoneParts(runs), " ");
    ReplaceAllChar(joined, YiDigit, Yao);
    DropSpaceReplace(joined, YiDigit, Yao);
    DropSpaceJoin(PhoneParts(runs));
    PhonePartsDigits(runs);
    RunsKeepDigits(text);
    SpellDigitsNoSpace(DigitsOf(text));
    DropSpaceNone(SpellDigits(DigitsOf(text)));
  }

  /** `一` never appears in a telephone reading. */
  lemma TelephoneNoYi(text: string)
    ensures forall i :: 0 <= i < |Telephone(text)| ==> Telephone(text)[i] != YiDigit
  {
    ReplaceAllChar(Join(PhoneParts(Runs(text)), " "), YiDigit, Yao);
  }

  /** A text with no digits reads as nothing. */
  lemma TelephoneNoDigits(text: string)
    requires forall i :: 0 <= i < |text| ==> !IsDigit(text[i])
    ensures Telephone(text) == ""
  {
    RunsKeepDigits(text);
    var runs := Runs(text);
    if runs != [] {
      assert |Concat(runs)| >= |runs[0]| > 0;
      DigitsOfNone(text);
    }
  }

  lemma {:induction false} DigitsOfNone(text: string)
    requires forall i :: 0 <= i < |text| ==> !IsDigit(text[i])
    ensures DigitsOf(text) == ""
  {
    if text != [] {
      DigitsOfAppend([text[0]], text[1..]);
      assert [text[0]] + text[1..] == text;
      DigitsOfNone(text[1..]);
      assert DigitsOf([text[0]]) == "" by {
        DigitsOfAppend([], [text[0]]);
        assert [] + [text[0]] == [text[0]];
      }
    }
  }

  // ---------------------------------------------------------------------------
  // nominal_normalize
  // ---------------------------------------------------------------------------

  /** `c in string.punctuation`: the 32 printable ASCII characters that are neither letters, digits nor space. */
  predicate IsPunctuation(c: char)
  {
    '!' <= c <= '/' || ':' <= c <= '@' || '[' <= c <= '`' || '{' <= c <= '~'
  }

  /** `c.lower()` is one of the 26 ASCII letters: the ASCII letters and the Kelvin sign. */
  predicate IsLetter(c: char)
  {
    'a' <= c <= 'z' || 'A' <= c <= 'Z' || c == '\U{212A}'
  }

  /** What the loop of `nominal_normalize` appends for one character. */
  function Spelled(c: char): string
  {
    if IsDigit(c) then [CnDigit(c)]
    else if IsLetter(c) then [' ', c, ' ']
    else if IsPunctuation(c) then " "
    else [c]
  }

  /** The string the loop has built after reading `text`. */
  function Expanded(text: string): string
  {
    if text == [] then "" else Expanded(text[..|text| - 1]) + Spelled(text[|text| - 1])
  }

  /**
   * `re.sub(r"\s+", " ", s)`: every run of whitespace becomes one space, and no
   * other character is touched.
   */
  function Collapse(s: string): (r: string)
    ensures forall i :: 0 <= i < |r| ==> IsSpace(r[i]) ==> r[i] == ' '
    ensures forall i :: 0 <= i < |r| - 1 ==> !(IsSpace(r[i]) && IsSpace(r[i + 1]))
    ensures s != [] ==> r != [] && (IsSpace(r[0]) <==> IsSpace(s[0]))
    ensures forall i :: 0 <= i < |r| ==> r[i] == ' ' || r[i] in s
    decreases |s|
  {
    if s == [] then ""
    else if IsSpace(s[0]) then
      var t := StripLeft(s[1..], IsSpace);
      var rest := Collapse(t);
      CollapseCons(' ', rest, s, t);
      [' '] + rest
    else
      var rest := Collapse(s[1..]);
      CollapseCons(s[0], rest, s, s[1..]);
      [s[0]] + rest
  }

  /** One step of `Collapse`: a character put in front of what the rest collapses to. */
  lemma CollapseCons(c: char, rest: string, s: string, t: string)
    requires s != [] && c == (if IsSpace(s[0]) then ' ' else s[0]) && |t| < |s| && t == s[|s| - |t|..]
    requires forall i :: 0 <= i < |rest| ==> IsSpace(rest[i]) ==> rest[i] == ' '
    requires forall i :: 0 <= i < |rest| - 1 ==> !(IsSpace(rest[i]) && IsSpace(rest[i + 1]))
    requires forall i :: 0 <= i < |rest| ==> rest[i] == ' ' || rest[i] in t
    requires IsSpace(s[0]) ==> rest == [] || !IsSpace(rest[0])
    ensures forall i :: 0 <= i < |[c] + rest| ==> IsSpace(([c] + rest)[i]) ==> ([c] + rest)[i] == ' '
    ensures forall i :: 0 <= i < |[c] + rest| - 1 ==> !(IsSpace(([c] + rest)[i]) && IsSpace(([c] + rest)[i + 1]))
    ensures IsSpace(([c] + rest)[0]) <==> IsSpace(s[0])
    ensures forall i :: 0 <= i < |[c] + rest| ==> ([c] + rest)[i] == ' ' || ([c] + rest)[i] in s
  {
    var r := [c] + rest;
    forall i | 0 <= i < |rest| && rest[i] != ' ' ensures rest[i] in s {
      var j :| 0 <= j < |t| && t[j] == rest[i];
      assert s[|s| - |t| + j] == rest[i];
    }
    forall i | 1 <= i < |r| ensures r[i] == rest[i - 1] {
    }
  }

  /** `nominal_normalize`, as a function of its input. */
  function NominalSpec(text: string): string
  {
    ReplaceAll(Collapse(Expanded(text)), [YiDigit], [Yao])
  }

  /** `nominal_normalize`: the character loop, the whitespace collapse and the `幺` rewrite. */
  method NominalNormalize(text: string) returns (r: string)
    ensures r == NominalSpec(text)
  {
    var result := "";
    for i := 0 to |text|
      invariant result == Expanded(text[..i])
    {
      var c := text[i];
      assert text[..i + 1][..i] == text[..i];
      if IsDigit(c) {
        result := result + [CnDigit(c)];
      } else if IsLetter(c) {
        result := result + [' ', c, ' '];
      } else if IsPunctuation(c) {
        result := result + " ";
      } else {
        result := result + [c];
      }
    }
    assert text[..|text|] == text;
    result := Collapse(result);
    r := ReplaceAll(result, [YiDigit], [Yao]);
  }

  /** Neither an ASCII digit nor punctuation: what the loop leaves of every character. */
  predicate Tame(c: char)
  {
    !IsDigit(c) && !IsPunctuation(c)
  }

  lemma CnDigitTame(d: char)
    requires IsDigit(d)
    ensures Tame(CnDigit(d))
  {
    assert CnDigits == ['零', '一', '二', '三', '四', '五', '六', '七', '八', '九'];
  }

  lemma SpelledTame(c: char)
    ensures forall j :: 0 <= j < |Spelled(c)| ==> Tame(Spelled(c)[j])
  {
    if IsDigit(c) {
      CnDigitTame(c);
    }
  }

  /** Every character the loop appends is neither an ASCII digit nor punctuation. */
  lemma {:induction false} ExpandedChars(text: string)
    ensures forall i :: 0 <= i < |Expanded(text)| ==> Tame(Expanded(text)[i])
  {
    if text != [] {
      var p, c := text[..|text| - 1], text[|text| - 1];
      ExpandedChars(p);
      SpelledTame(c);
      var e, x := Expanded(p), Spelled(c);
      assert Expanded(text) == e + x;
      forall i | 0 <= i < |e + x| ensures Tame((e + x)[i]) {
        if i >= |e| {
          assert (e + x)[i] == x[i - |e|];
        }
      }
    }
  }

  /**
   * The result holds no whitespace but single ASCII spaces, no two of them adjacent,
   * no `一`, no ASCII digit and no punctuation.
   */
  lemma NominalShape(text: string)
    ensures var r := NominalSpec(text);
      (forall i :: 0 <= i < |r| ==> IsSpace(r[i]) ==> r[i] == ' ')
      && (forall i :: 0 <= i < |r| - 1 ==> !(IsSpace(r[i]) && IsSpace(r[i + 1])))
      && (forall i :: 0 <= i < |r| ==> r[i] != YiDigit && Tame(r[i]))
  {
    var e := Expanded(text);
    var c := Collapse(e);
    ReplaceAllChar(c, YiDigit, Yao);
    ExpandedChars(text);
    var r := ReplaceChar(c, YiDigit, Yao);
    assert Tame(Yao) && !IsSpace(Yao) && !IsSpace(YiDigit);
    forall i | 0 <= i < |r| ensures Tame(r[i]) {
      if r[i] != Yao && r[i] != ' ' {
        assert r[i] == c[i] && c[i] in e;
      }
    }
  }

  /** What survives of one character once spaces are disregarded. */
  function Kept(c: char): string
  {
    if IsDigit(c) then [CnDigit(c)]
    else if IsLetter(c) then [c]
    else if IsPunctuation(c) || IsSpace(c) then ""
    else [c]
  }

  /** An independent reading of a nominal string: each character's `Kept`, in order. */
  function Reading(text: string): string
  {
    if text == [] then "" else Kept(text[0]) + Reading(text[1..])
  }

  lemma {:induction false} ReadingAppend(a: string, b: string)
    ensures Reading(a + b) == Reading(a) + Reading(b)
    decreases |a|
  {
    if a == [] {
      assert a + b == b;
    } else {
      assert (a + b)[0] == a[0] && (a + b)[1..] == a[1..] + b;
      ReadingAppend(a[1..], b);
    }
  }

  lemma SpelledKept(c: char)
    ensures DropSpace(Spelled(c)) == Kept(c)
  {
    if IsDigit(c) {
      CnDigitNotSpace(c);
      assert DropSpace([CnDigit(c)]) == [CnDigit(c)] + DropSpace([]);
    } else if IsLetter(c) {
      assert DropSpace([' ', c, ' ']) == DropSpace([c, ' ']);
      assert DropSpace([c, ' ']) == [c] + DropSpace([' ']);
    } else if !IsPunctuation(c) && !IsSpace(c) {
      assert DropSpace([c]) == [c] + DropSpace([]);
    }
  }

  lemma ReadingOne(c: char)
    ensures Reading([c]) == Kept(c)
  {
    assert [c][1..] == [];
    assert Kept(c) + "" == Kept(c);
  }

  lemma {:induction false} ExpandedReading(text: string)
    ensures DropSpace(Expanded(text)) == Reading(text)
  {
    if text != [] {
      var p, c := text[..|text| - 1], text[|text| - 1];
      assert Expanded(text) == Expanded(p) + Spelled(c);
      ExpandedReading(p);
      DropSpaceAppend(Expanded(p), Spelled(c));
      SpelledKept(c);
      SplitLast(text);
      ReadingAppend(p, [c]);
      ReadingOne(c);
    }
  }

  lemma {:induction false} CollapseContent(s: string)
    ensures DropSpace(Collapse(s)) == DropSpace(s)
    decreases |s|
  {
    if s != [] {
      if IsSpace(s[0]) {
        var t := StripLeft(s[1..], IsSpace);
        CollapseContent(t);
        DropSpaceLeft(s[1..]);
      } else {
        CollapseContent(s[1..]);
      }
    }
  }

  /**
   * Disregarding spaces, the result reads every digit as a Chinese digit (one as
   * `幺`), keeps every letter and every other character, and drops punctuation
   * and whitespace.
   */
  lemma NominalReading(text: string)
    ensures DropSpace(NominalSpec(text)) == ReplaceChar(Reading(text), YiDigit, Yao)
  {
    var c := Collapse(Expanded(text));
    ReplaceAllChar(c, YiDigit, Yao);
    DropSpaceReplace(c, YiDigit, Yao);
    CollapseContent(Expanded(text));
    ExpandedReading(text);
  }

  /** A letter is set off by spaces: a text that starts with one reads with a leading space. */
  lemma NominalLeadingLetter(text: string)
    requires |text| >= 1 && IsLetter(text[0])
    ensures |NominalSpec(text)| >= 2 && NominalSpec(text)[0] == ' ' && NominalSpec(text)[1] == text[0]
  {
    var e := Expanded(text);
    LetterExpanded(text);
    CollapseLeading(e);
    ReplaceAllChar(Collapse(e), YiDigit, Yao);
  }

  lemma LetterExpanded(text: string)
    requires |text| >= 1 && IsLetter(text[0])
    ensures Expanded(text) == [' ', text[0], ' '] + Expanded(text[1..])
  {
    var c := text[0];
    ExpandedPrefix([c], text[1..]);
    assert [c] + text[1..] == text;
    assert Expanded([c]) == Spelled(c) by {
      assert [c][..0] == [];
      assert "" + Spelled(c) == Spelled(c);
    }
  }

  lemma CollapseLeading(e: string)
    requires |e| >= 2 && e[0] == ' ' && !IsSpace(e[1])
    ensures |Collapse(e)| >= 2 && Collapse(e)[0] == ' ' && Collapse(e)[1] == e[1]
  {
    assert StripLeft(e[1..], IsSpace) == e[1..];
    assert Collapse(e) == [' '] + Collapse(e[1..]);
    assert Collapse(e[1..]) == [e[1]] + Collapse(e[2..]);
  }

  lemma ExpandedLast(t: string)
    requires t != []
    ensures Expanded(t) == Expanded(t[..|t| - 1]) + Spelled(t[|t| - 1])
  {
  }

  lemma {:induction false} ExpandedPrefix(a: string, b: string)
    ensures Expanded(a + b) == Expanded(a) + Expanded(b)
    decreases |b|
  {
    if b == [] {
      assert a + b == a;
    } else {
      var p, c := b[..|b| - 1], b[|b| - 1];
      DropLastAppend(a, b);
      ExpandedLast(a + b);
      ExpandedLast(b);
      ExpandedPrefix(a, p);
      Chain(Expanded(a + b), Expanded(a + p), Expanded(a), Expanded(p), Expanded(b), Spelled(c));
    }
  }

  lemma Chain(eab: string, eap: string, ea: string, ep: string, eb: string, z: string)
    requires eab == eap + z && eap == ea + ep && eb == ep + z
    ensures eab == ea + eb
  {
  }

  lemma DropLastAppend(a: string, b: string)
    requires b != []
    ensures (a + b)[..|a + b| - 1] == a + b[..|b| - 1] && (a + b)[|a + b| - 1] == b[|b| - 1]
  {
  }

  /** A string of digits reads as its Chinese digits with `幺` for one, with no space at all. */
  lemma NominalDigits(d: string)
    requires AllDigits(d)
    ensures NominalSpec(d) == ReplaceChar(SpellDigits(d), YiDigit, Yao)
  {
    ExpandedDigits(d);
    SpellDigitsNoSpace(d);
    CollapseNoSpace(SpellDigits(d));
    ReplaceAllChar(SpellDigits(d), YiDigit, Yao);
  }

  lemma {:induction false} ExpandedDigits(d: string)
    requires AllDigits(d)
    ensures Expanded(d) == SpellDigits(d)
  {
    if d != [] {
      var p := d[..|d| - 1];
      ExpandedDigits(p);
      SpellDigitsAppend(p, [d[|d| - 1]]);
      assert p + [d[|d| - 1]] == d;
    }
  }

  lemma {:induction false} CollapseNoSpace(s: string)
    requires forall i :: 0 <= i < |s| ==> !IsSpace(s[i])
    ensures Collapse(s) == s
  {
    if s != [] {
      CollapseNoSpace(s[1..]);
      assert [s[0]] + s[1..] == s;
    }
  }
}
