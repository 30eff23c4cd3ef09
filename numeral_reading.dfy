/**
 * A reader for Chinese numerals, independent of the renderer: a left-to-right
 * state machine in the usual way of reading `千百十`, `万` and `亿` sections.
 * Its use is the round trip `ReadBack`: reading what `IntegerToChineseFixed`
 * renders gives back the integer it was given.
 */
module NumeralReading {
  import opened Wrappers
  import opened Strings
  import opened Numerals

  /**
   * `hi` is the completed 亿 section, `mid` the completed 万 section, `grp` the
   * current group, `pend` a digit not yet multiplied by a unit.
   */
  datatype ReadState = ReadState(neg: bool, hi: nat, mid: nat, grp: nat, pend: Option<nat>)

  const Init := ReadState(false, 0, 0, 0, None)

  /** The value of a numeral digit; `两` reads as 2 like `二`. */
  function DigitWord(c: char): Option<nat>
  {
    if c == '零' then Some(0) else if c == '一' then Some(1)
    else if c == '二' || c == '两' then Some(2) else if c == '三' then Some(3)
    else if c == '四' then Some(4) else if c == '五' then Some(5)
    else if c == '六' then Some(6) else if c == '七' then Some(7)
    else if c == '八' then Some(8) else if c == '九' then Some(9)
    else None
  }

  function UnitWord(c: char): Option<nat>
  {
    if c == '十' then Some(10) else if c == '百' then Some(100)
    else if c == '千' then Some(1000) else None
  }

  function PendValue(st: ReadState): nat
  {
    if st.pend.Some? then st.pend.value else 0
  }

  /** One character of input; a unit word with no digit before it counts once (`十二`). */
  function Step(st: ReadState, c: char): ReadState
  {
    if c == Fu then st.(neg := true)
    else if DigitWord(c).Some? then st.(pend := DigitWord(c))
    else if UnitWord(c).Some? then
      st.(grp := st.grp + (if st.pend.Some? then st.pend.value else 1) * UnitWord(c).value, pend := None)
    else if c == Wan then st.(mid := st.grp + PendValue(st), grp := 0, pend := None)
    else if c == Yi then st.(hi := st.mid * 10000 + st.grp + PendValue(st), mid := 0, grp := 0, pend := None)
    else st
  }

  function Run(st: ReadState, s: string): ReadState
    decreases |s|
  {
    if s == [] then st else Run(Step(st, s[0]), s[1..])
  }

  function Total(st: ReadState): nat
  {
    st.hi * 100000000 + st.mid * 10000 + st.grp + PendValue(st)
  }

  /** The integer a numeral denotes. */
  function NumeralValue(s: string): int
  {
    var st := Run(Init, s);
    if st.neg then -(Total(st) as int) else Total(st)
  }

  lemma {:induction false} RunAppend(st: ReadState, a: string, b: string)
    ensures Run(st, a + b) == Run(Run(st, a), b)
    decreases |a|
  {
    if a != [] {
      assert (a + b)[0] == a[0] && (a + b)[1..] == a[1..] + b;
      RunAppend(Step(st, a[0]), a[1..], b);
    } else {
      assert a + b == b;
    }
  }

  // ---- reading the pieces the renderer emits ----

  lemma DigitWordOf(d: char)
    requires IsDigit(d)
    ensures DigitWord(CnDigit(d)) == Some(DigitValue(d))
    ensures UnitWord(CnDigit(d)).None? && CnDigit(d) != Fu && CnDigit(d) != Wan && CnDigit(d) != Yi
  {
    var v := DigitValue(d);
    assert CnDigit(d) == CnDigits[v];
    assert v == 0 || v == 1 || v == 2 || v == 3 || v == 4 || v == 5 || v == 6 || v == 7 || v == 8 || v == 9;
  }

  /** A digit word followed by a place word adds digit times place to the group. */
  lemma RunPair(st: ReadState, d: char, u: char)
    requires IsDigit(d) && UnitWord(u).Some?
    ensures Run(st, [CnDigit(d), u]) == st.(grp := st.grp + DigitValue(d) * UnitWord(u).value, pend := None)
  {
    DigitWordOf(d);
    var s := [CnDigit(d), u];
    assert s[0] == CnDigit(d) && s[1..] == [u];
    var s1 := Step(st, CnDigit(d));
    assert s1 == st.(pend := Some(DigitValue(d)));
    assert Run(st, s) == Run(s1, [u]);
    assert [u][1..] == [];
    assert Run(s1, [u]) == Step(s1, u);
  }

  lemma RunDigit(st: ReadState, d: char)
    requires IsDigit(d)
    ensures Run(st, [CnDigit(d)]) == st.(pend := Some(DigitValue(d)))
  {
    DigitWordOf(d);
    assert [CnDigit(d)][1..] == [];
  }

  /** An optional `零` then a digit word and an optional place word. */
  lemma {:induction false} RunDigitPiece(st: ReadState, z: bool, d: char, u: Option<char>)
    requires IsDigit(d) && PendValue(st) == 0
    requires u.Some? ==> UnitWord(u.value).Some?
    ensures var piece := (if z then [Ling] else "") + [CnDigit(d)] + (if u.Some? then [u.value] else "");
      var st' := Run(st, piece);
      st'.neg == st.neg && st'.hi == st.hi && st'.mid == st.mid
      && st'.grp + PendValue(st') == st.grp + DigitValue(d) * (if u.Some? then UnitWord(u.value).value else 1)
      && (u.Some? ==> PendValue(st') == 0)
  {
    var zs := if z then [Ling] else "";
    var rest := [CnDigit(d)] + (if u.Some? then [u.value] else "");
    assert (zs + [CnDigit(d)] + (if u.Some? then [u.value] else "")) == zs + rest;
    RunAppend(st, zs, rest);
    var s1 := Run(st, zs);
    if z {
      assert [Ling][1..] == [];
      assert s1 == st.(pend := Some(0));
    } else {
      assert s1 == st;
    }
    if u.Some? {
      assert rest == [CnDigit(d), u.value];
      RunPair(s1, d, u.value);
    } else {
      assert rest == [CnDigit(d)];
      RunDigit(s1, d);
    }
  }

  lemma {:induction false} NatOf4(n: string)
    requires |n| == 4 && AllDigits(n)
    ensures NatOf(n) == 1000 * DigitValue(n[0]) + 100 * DigitValue(n[1]) + 10 * DigitValue(n[2]) + DigitValue(n[3])
  {
    var n3, n2, n1 := n[..3], n[..2], n[..1];
    assert n[..|n| - 1] == n3 && n3[..|n3| - 1] == n2 && n2[..|n2| - 1] == n1 && n1[..|n1| - 1] == [];
    assert NatOf(n1) == DigitValue(n[0]);
    assert NatOf(n2) == NatOf(n1) * 10 + DigitValue(n[1]);
    assert NatOf(n3) == NatOf(n2) * 10 + DigitValue(n[2]);
    assert NatOf(n) == NatOf(n3) * 10 + DigitValue(n[3]);
  }

  /** A piece of a group that reads as `v` and leaves no digit pending. */
  predicate AddsToGroup(st: ReadState, piece: string, v: nat)
  {
    var st' := Run(st, piece);
    st'.neg == st.neg && st'.hi == st.hi && st'.mid == st.mid && st'.grp == st.grp + v && PendValue(st') == 0
  }

  lemma UnitPiece(st: ReadState, z: bool, d: char, u: char)
    requires IsDigit(d) && UnitWord(u).Some? && PendValue(st) == 0
    ensures AddsToGroup(st, if d != '0' then (if z then [Ling] else "") + [CnDigit(d), u] else "", DigitValue(d) * UnitWord(u).value)
  {
    if d != '0' {
      RunDigitPiece(st, z, d, Some(u));
      assert (if z then [Ling] else "") + [CnDigit(d)] + [u] == (if z then [Ling] else "") + [CnDigit(d), u];
    }
  }

  /** The four pieces `I2c4` concatenates for a full group of four digits. */
  function PieceQian(n: string): string
    requires |n| == 4 && AllDigits(n)
  {
    if n[0] != '0' then [CnDigit(n[0]), Qian] else ""
  }

  function PieceBai(n: string): string
    requires |n| == 4 && AllDigits(n)
  {
    if n[1] != '0' then [CnDigit(n[1]), Bai] else ""
  }

  function PieceShi(n: string): string
    requires |n| == 4 && AllDigits(n)
  {
    if n[2] != '0' then (if n[1] == '0' && n[0] != '0' then [Ling] else "") + [CnDigit(n[2]), Shi] else ""
  }

  function PieceOne(n: string): string
    requires |n| == 4 && AllDigits(n)
  {
    if n[3] != '0' then (if n[2] == '0' && !(n[0] == '0' && n[1] == '0') then [Ling] else "") + [CnDigit(n[3])] else ""
  }

  lemma I2c4Pieces(n: string)
    requires |n| == 4 && AllDigits(n)
    ensures I2c4(n) == PieceQian(n) + PieceBai(n) + PieceShi(n) + PieceOne(n)
  {
  }

  /** A four-digit group adds its value to the current group. */
  lemma {:induction false} ReadGroup4(st: ReadState, num: string)
    requires |num| == 4 && AllDigits(num) && PendValue(st) == 0
    ensures var st' := Run(st, I2c4(num));
      st'.neg == st.neg && st'.hi == st.hi && st'.mid == st.mid
      && st'.grp + PendValue(st') == st.grp + NatOf(num)
  {
    var n := num;
    var a, b, c, d := PieceQian(n), PieceBai(n), PieceShi(n), PieceOne(n);
    I2c4Pieces(n);
    QianAdds(st, n);
    var s1 := Run(st, a);
    BaiAdds(s1, n);
    AddsChain(st, a, b, 1000 * DigitValue(n[0]), 100 * DigitValue(n[1]));
    var s2 := Run(st, a + b);
    ShiAdds(s2, n);
    AddsChain(st, a + b, c, 1000 * DigitValue(n[0]) + 100 * DigitValue(n[1]), 10 * DigitValue(n[2]));
    var s3 := Run(st, a + b + c);
    OneAdds(s3, n);
    RunAppend(st, a + b + c, d);
    NatOf4(n);
  }

  lemma AddsChain(st: ReadState, a: string, b: string, va: nat, vb: nat)
    requires AddsToGroup(st, a, va) && AddsToGroup(Run(st, a), b, vb)
    ensures AddsToGroup(st, a + b, va + vb)
  {
    RunAppend(st, a, b);
  }

  lemma QianAdds(st: ReadState, n: string)
    requires |n| == 4 && AllDigits(n) && PendValue(st) == 0
    ensures AddsToGroup(st, PieceQian(n), 1000 * DigitValue(n[0]))
  {
    UnitPiece(st, false, n[0], Qian);
    assert ("" + [CnDigit(n[0]), Qian]) == [CnDigit(n[0]), Qian];
  }

  lemma BaiAdds(st: ReadState, n: string)
    requires |n| == 4 && AllDigits(n) && PendValue(st) == 0
    ensures AddsToGroup(st, PieceBai(n), 100 * DigitValue(n[1]))
  {
    UnitPiece(st, false, n[1], Bai);
    assert ("" + [CnDigit(n[1]), Bai]) == [CnDigit(n[1]), Bai];
  }

  lemma ShiAdds(st: ReadState, n: string)
    requires |n| == 4 && AllDigits(n) && PendValue(st) == 0
    ensures AddsToGroup(st, PieceShi(n), 10 * DigitValue(n[2]))
  {
    UnitPiece(st, n[1] == '0' && n[0] != '0', n[2], Shi);
  }

  lemma OneAdds(st: ReadState, n: string)
    requires |n| == 4 && AllDigits(n) && PendValue(st) == 0
    ensures var st' := Run(st, PieceOne(n));
      st'.neg == st.neg && st'.hi == st.hi && st'.mid == st.mid
      && st'.grp + PendValue(st') == st.grp + DigitValue(n[3])
  {
    if n[3] != '0' {
      var z2 := n[2] == '0' && !(n[0] == '0' && n[1] == '0');
      RunDigitPiece(st, z2, n[3], None);
      assert (if z2 then [Ling] else "") + [CnDigit(n[3])] + "" == PieceOne(n);
    }
  }

  /** The two parts `I2c8` concatenates for a full run of eight digits. */
  function WanPart(n: string): string
    requires |n| == 8 && AllDigits(n)
  {
    if n[..4] != "0000" then I2c4(n[..4]) + [Wan] else ""
  }

  function LowPart(n: string): string
    requires |n| == 8 && AllDigits(n)
  {
    var high, low := n[..4], n[4..];
    if low != "0000" then (if high != "0000" && (high[3] == '0' || low[0] == '0') then [Ling] else "") + I2c4(low) else ""
  }

  lemma I2c8Parts(n: string)
    requires |n| == 8 && AllDigits(n)
    ensures I2c8(n) == WanPart(n) + LowPart(n)
  {
  }

  lemma ReadWanPart(st: ReadState, n: string)
    requires |n| == 8 && AllDigits(n) && st.grp == 0 && PendValue(st) == 0
    ensures var st' := Run(st, WanPart(n));
      st'.neg == st.neg && st'.hi == st.hi && st'.grp == 0
      && PendValue(st') == 0 && st'.mid == (if n[..4] != "0000" then NatOf(n[..4]) else st.mid)
  {
    var high := n[..4];
    if high != "0000" {
      assert WanPart(n) == I2c4(high) + [Wan];
      ReadWanSection(st, high);
    }
  }

  /** A nonzero `万` section: its four digits and the `万` that moves them into the middle group. */
  lemma ReadWanSection(st: ReadState, high: string)
    requires |high| == 4 && AllDigits(high) && st.grp == 0 && PendValue(st) == 0
    ensures var st' := Run(st, I2c4(high) + [Wan]);
      st'.neg == st.neg && st'.hi == st.hi && st'.grp == 0 && PendValue(st') == 0 && st'.mid == NatOf(high)
  {
    RunAppend(st, I2c4(high), [Wan]);
    ReadGroup4(st, high);
    assert [Wan][1..] == [];
  }

  lemma ReadLowPart(st: ReadState, n: string)
    requires |n| == 8 && AllDigits(n) && st.grp == 0 && PendValue(st) == 0
    ensures var st' := Run(st, LowPart(n));
      st'.neg == st.neg && st'.hi == st.hi && st'.mid == st.mid && st'.grp + PendValue(st') == NatOf(n[4..])
  {
    var high, low := n[..4], n[4..];
    if low != "0000" {
      var z := if high != "0000" && (high[3] == '0' || low[0] == '0') then [Ling] else "";
      RunAppend(st, z, I2c4(low));
      if z != "" { assert z[1..] == []; }
      ReadGroup4(Run(st, z), low);
    } else {
      NatOfZeros(low);
    }
  }

  /** Eight digits: the `万` section and the group after it. */
  lemma {:induction false} ReadGroup8(st: ReadState, n: string)
    requires |n| == 8 && AllDigits(n) && st.grp == 0 && st.mid == 0 && PendValue(st) == 0
    ensures var st' := Run(st, I2c8(n));
      st'.neg == st.neg && st'.hi == st.hi && st'.mid * 10000 + st'.grp + PendValue(st') == NatOf(n)
  {
    assert n[..4] + n[4..] == n;
    NatOfAppend(n[..4], n[4..]);
    assert Pow10(4) == 10000;
    I2c8Parts(n);
    RunAppend(st, WanPart(n), LowPart(n));
    ReadWanPart(st, n);
    ReadLowPart(Run(st, WanPart(n)), n);
    if n[..4] == "0000" {
      NatOfZeros(n[..4]);
    }
  }

  /** The `亿` section with its optional `零`, and the whole sixteen-digit spelling before cleanup. */
  function YiPart(p: string, z: bool): string
    requires |p| == 16 && AllDigits(p)
  {
    var upper := I2c8(p[..8]);
    if upper != "" then upper + [Yi] + (if z then [Ling] else "") else ""
  }

  function Spelled(p: string, z: bool): string
    requires |p| == 16 && AllDigits(p)
  {
    YiPart(p, z) + I2c8(p[8..])
  }

  lemma ReadYi(upper: string, zs: string, v: nat)
    requires zs == [] || zs == [Ling]
    requires var st := Run(Init, upper); !st.neg && st.hi == 0 && st.mid * 10000 + st.grp + PendValue(st) == v
    ensures var st := Run(Init, upper + [Yi] + zs);
      !st.neg && st.hi == v && st.mid == 0 && st.grp == 0 && PendValue(st) == 0
  {
    assert upper + [Yi] + zs == upper + ([Yi] + zs);
    RunAppend(Init, upper, [Yi] + zs);
    var s0 := Run(Init, upper);
    assert ([Yi] + zs)[0] == Yi && ([Yi] + zs)[1..] == zs;
    var s1 := Step(s0, Yi);
    assert Run(s0, [Yi] + zs) == Run(s1, zs);
    if zs != [] {
      assert zs[0] == Ling && zs[1..] == [];
      assert Run(s1, zs) == Step(s1, Ling);
    }
  }

  lemma ReadYiPart(p: string, z: bool)
    requires |p| == 16 && AllDigits(p)
    ensures var st := Run(Init, YiPart(p, z));
      !st.neg && st.hi == NatOf(p[..8]) && st.mid == 0 && st.grp == 0 && PendValue(st) == 0
  {
    var upper := I2c8(p[..8]);
    ReadGroup8(Init, p[..8]);
    if upper != "" {
      ReadYi(upper, if z then [Ling] else "", NatOf(p[..8]));
    } else {
      assert Run(Init, upper) == Init;
    }
  }

  /** Sixteen digits read back to their value, whether or not the `零` after `亿` is written. */
  lemma {:induction false} ReadSixteen(p: string, z: bool)
    requires |p| == 16 && AllDigits(p)
    ensures !Run(Init, Spelled(p, z)).neg && Total(Run(Init, Spelled(p, z))) == NatOf(p)
  {
    assert p[..8] + p[8..] == p;
    NatOfAppend(p[..8], p[8..]);
    assert Pow10(8) == 100000000;
    RunAppend(Init, YiPart(p, z), I2c8(p[8..]));
    ReadYiPart(p, z);
    ReadGroup8(Run(Init, YiPart(p, z)), p[8..]);
  }

  // ---- the cleanup step does not change what is read ----

  /** `两` and `二` read alike. */
  function Canon(s: string): (r: string)
    ensures |r| == |s|
  {
    if s == [] then [] else [if s[0] == Liang then Er else s[0]] + Canon(s[1..])
  }

  lemma {:induction false} CanonAppend(a: string, b: string)
    ensures Canon(a + b) == Canon(a) + Canon(b)
  {
    if a != [] {
      assert (a + b)[0] == a[0] && (a + b)[1..] == a[1..] + b;
      CanonAppend(a[1..], b);
    } else {
      assert a + b == b;
    }
  }

  lemma {:induction false} RunCanon(st: ReadState, s: string)
    ensures Run(st, Canon(s)) == Run(st, s)
    decreases |s|
  {
    if s != [] {
      var c := if s[0] == Liang then Er else s[0];
      assert Step(st, c) == Step(st, s[0]);
      assert Canon(s)[0] == c && Canon(s)[1..] == Canon(s[1..]);
      RunCanon(Step(st, s[0]), s[1..]);
    }
  }

  lemma {:induction false} ReplaceCanon(s: string, pat: string, rep: string)
    requires |pat| > 0 && Canon(pat) == Canon(rep)
    ensures Canon(ReplaceAll(s, pat, rep)) == Canon(s)
    decreases |s|
  {
    if |s| < |pat| {
    } else if s[..|pat|] == pat {
      ReplaceCanon(s[|pat|..], pat, rep);
      CanonAppend(rep, ReplaceAll(s[|pat|..], pat, rep));
      CanonAppend(s[..|pat|], s[|pat|..]);
      assert s[..|pat|] + s[|pat|..] == s;
    } else {
      ReplaceCanon(s[1..], pat, rep);
      CanonAppend([s[0]], ReplaceAll(s[1..], pat, rep));
      CanonAppend([s[0]], s[1..]);
      assert [s[0]] + s[1..] == s;
    }
  }

  lemma SameReading(st: ReadState, s: string, t: string)
    requires Canon(s) == Canon(t)
    ensures Run(st, s) == Run(st, t)
  {
    RunCanon(st, s);
    RunCanon(st, t);
  }

  /** `_clean_normed_number` changes the spelling of a numeral, never what it reads as. */
  lemma {:induction false} CleanKeepsReading(s: string)
    ensures Run(Init, Clean(s)) == Run(Init, s)
  {
    var a := if |s| >= 2 && s[..2] == [CnDigits[1], Shi] then s[1..] else s;
    if |s| >= 2 && s[..2] == [CnDigits[1], Shi] {
      DropLeadingOne(s);
    }
    ReplacementsKeep(a);
    var d := ReplaceAll(ReplaceAll(ReplaceAll(a, [Er], [Liang]), [Shi, Liang], [Shi, Er]), [Liang, Shi], [Er, Shi]);
    LastLiang(d);
  }

  /** `一十…` and `十…` read the same. */
  lemma DropLeadingOne(s: string)
    requires |s| >= 2 && s[..2] == [CnDigits[1], Shi]
    ensures Run(Init, s[1..]) == Run(Init, s)
  {
    var a := s[1..];
    var one := Init.(pend := Some(1));
    assert s[0] == s[..2][0] == CnDigits[1] && a[0] == s[..2][1] == Shi;
    assert Step(Init, s[0]) == one;
    assert Step(one, Shi) == Step(Init, Shi);
    RunHead(Init, s);
    RunHead(one, a);
    RunHead(Init, a);
  }

  lemma RunHead(st: ReadState, s: string)
    requires s != []
    ensures Run(st, s) == Run(Step(st, s[0]), s[1..])
  {
  }

  /** Swapping `二` and `两` in the three places `_clean_normed_number` does keeps the reading. */
  lemma ReplacementsKeep(a: string)
    ensures Run(Init, ReplaceAll(ReplaceAll(ReplaceAll(a, [Er], [Liang]), [Shi, Liang], [Shi, Er]), [Liang, Shi], [Er, Shi])) == Run(Init, a)
  {
    assert Canon([Er]) == Canon([Liang]);
    assert Canon([Shi, Liang]) == Canon([Shi, Er]);
    assert Canon([Liang, Shi]) == Canon([Er, Shi]);
    var b := ReplaceAll(a, [Er], [Liang]);
    ReplaceCanon(a, [Er], [Liang]);
    var c := ReplaceAll(b, [Shi, Liang], [Shi, Er]);
    ReplaceCanon(b, [Shi, Liang], [Shi, Er]);
    var d := ReplaceAll(c, [Liang, Shi], [Er, Shi]);
    ReplaceCanon(c, [Liang, Shi], [Er, Shi]);
    SameReading(Init, a, d);
  }

  /** A final `两` read as `二`. */
  lemma LastLiang(d: string)
    ensures Run(Init, if |d| > 0 && d[|d| - 1] == Liang then d[..|d| - 1] + [Er] else d) == Run(Init, d)
  {
    if |d| > 0 && d[|d| - 1] == Liang {
      var e := d[..|d| - 1] + [Er];
      assert d == d[..|d| - 1] + [Liang];
      CanonAppend(d[..|d| - 1], [Er]);
      CanonAppend(d[..|d| - 1], [Liang]);
      SameReading(Init, d, e);
    }
  }

  // ---- the round trip ----

  lemma {:induction false} PaddedValue(digits: string)
    requires AllDigits(digits) && |digits| <= 16
    ensures NatOf(LastPadded(digits, 16)) == NatOf(digits)
  {
    var zs := seq(16 - |digits|, _ => '0');
    NatOfZeros(zs);
    NatOfAppend(zs, digits);
  }

  lemma NegatedRun(st: ReadState, s: string)
    ensures Run(st.(neg := true), s) == Run(st, s).(neg := true)
    decreases |s|
  {
    if s != [] {
      assert Step(st.(neg := true), s[0]) == Step(st, s[0]).(neg := true);
      NegatedRun(Step(st, s[0]), s[1..]);
    }
  }

  /** Reading `[负] + r`, or `r` alone, gives the value of `r` with that sign. */
  lemma SignedReading(sign: string, r: string, neg: bool)
    requires sign == (if neg then [Fu] else "") && !Run(Init, r).neg
    ensures NumeralValue(sign + r) == if neg then -(Total(Run(Init, r)) as int) else Total(Run(Init, r))
  {
    if neg {
      RunAppend(Init, sign, r);
      assert sign[1..] == [];
      NegatedRun(Init, r);
    } else {
      assert sign + r == r;
    }
  }

  /** What both renderers return for two to sixteen digits, given whether a `零` follows `亿`. */
  function Body(digits: string, z: bool): string
    requires AllDigits(digits) && |digits| <= 16
  {
    var all := Spelled(LastPadded(digits, 16), z);
    if all != "" then Clean(all) else [Ling]
  }

  lemma RenderIsBody(digits: string)
    requires AllDigits(digits) && |digits| <= 16
    ensures var p := LastPadded(digits, 16);
      RenderDigits(digits) == Body(digits, p[7] == '0' || p[8] == '0')
      && RenderDigitsFixed(digits) == Body(digits, I2c8(p[8..]) != "" && (p[7] == '0' || p[8] == '0'))
  {
  }

  lemma CleanOrLing(all: string)
    ensures var r := if all != "" then Clean(all) else [Ling];
      Run(Init, r).neg == Run(Init, all).neg && Total(Run(Init, r)) == Total(Run(Init, all))
  {
    if all != "" {
      CleanKeepsReading(all);
    } else {
      assert [Ling][1..] == [];
    }
  }

  lemma ReadBody(digits: string, z: bool)
    requires AllDigits(digits) && |digits| <= 16
    ensures !Run(Init, Body(digits, z)).neg && Total(Run(Init, Body(digits, z))) == NatOf(digits)
  {
    var p := LastPadded(digits, 16);
    ReadSixteen(p, z);
    PaddedValue(digits);
    CleanOrLing(Spelled(p, z));
  }

  /** Reading back what the corrected renderer writes gives the integer it was given. */
  lemma ReadBackFixed(num: string)
    requires IsIntLiteral(num) && |Magnitude(num)| <= 16
    ensures IntegerToChineseFixed(num).Ok?
    ensures NumeralValue(IntegerToChineseFixed(num).value) == IntValue(num)
  {
    var neg := num[0] == '-';
    var sign := if neg then [Fu] else "";
    var digits := Magnitude(num);
    var u := Unsigned(digits);
    assert IntegerToChineseFixed(num) == Ok(sign + u);
    UnsignedReads(digits);
    SignedReading(sign, u, neg);
  }

  /** The corrected renderer's magnitude reads back as the number it was given. */
  lemma UnsignedReads(digits: string)
    requires AllDigits(digits) && 1 <= |digits| <= 16
    ensures !Run(Init, Unsigned(digits)).neg && Total(Run(Init, Unsigned(digits))) == NatOf(digits)
  {
    if |digits| == 1 {
      OneDigitReads(digits);
    } else {
      ManyDigitsRead(digits);
    }
  }

  lemma OneDigitReads(digits: string)
    requires AllDigits(digits) && |digits| == 1
    ensures !Run(Init, Unsigned(digits)).neg && Total(Run(Init, Unsigned(digits))) == NatOf(digits)
  {
    assert Unsigned(digits) == [CnDigit(digits[0])];
    RunDigit(Init, digits[0]);
    NatOfOne(digits);
  }

  lemma ManyDigitsRead(digits: string)
    requires AllDigits(digits) && 2 <= |digits| <= 16
    ensures !Run(Init, Unsigned(digits)).neg && Total(Run(Init, Unsigned(digits))) == NatOf(digits)
  {
    var p := LastPadded(digits, 16);
    var z := I2c8(p[8..]) != "" && (p[7] == '0' || p[8] == '0');
    RenderIsBody(digits);
    assert Unsigned(digits) == Body(digits, z);
    ReadBody(digits, z);
  }

  /** What `integer_to_chinese` writes for an unsigned literal reads back as its value, a trailing `零` included. */
  lemma AsWrittenUnsignedReads(digits: string)
    requires AllDigits(digits) && 1 <= |digits| <= 16
    ensures IntegerToChinese(digits).Ok?
    ensures var r := IntegerToChinese(digits).value;
      !Run(Init, r).neg && Total(Run(Init, r)) == NatOf(digits)
  {
    assert IsIntLiteral(digits) && Magnitude(digits) == digits;
    if |digits| == 1 {
      assert IntegerToChinese(digits).value == Unsigned(digits);
      OneDigitReads(digits);
    } else {
      var p := LastPadded(digits, 16);
      RenderIsBody(digits);
      ReadBody(digits, p[7] == '0' || p[8] == '0');
    }
  }

  /**
   * Read back, what `integer_to_chinese` writes for two or more digits is the
   * magnitude: the sign is lost.
   */
  lemma ReadBackAsWritten(num: string)
    requires IsIntLiteral(num) && 2 <= |Magnitude(num)| <= 16
    ensures IntegerToChinese(num).Ok?
    ensures NumeralValue(IntegerToChinese(num).value) == NatOf(Magnitude(num))
  {
    var digits := Magnitude(num);
    var p := LastPadded(digits, 16);
    RenderIsBody(digits);
    ReadBody(digits, p[7] == '0' || p[8] == '0');
    SignedReading("", RenderDigits(digits), false);
  }

  /** `integer_to_chinese("-12")` writes a numeral that reads as 12. */
  lemma SignLostExample()
    ensures IntegerToChinese("-12").Ok? && IntValue("-12") == -12
    ensures NumeralValue(IntegerToChinese("-12").value) == 12
  {
    assert IsIntLiteral("-12") && Magnitude("-12") == "12" && "-12"[1..] == "12";
    assert "12"[..1] == "1" && "1"[..0] == "";
    ReadBackAsWritten("-12");
  }

  /** Distinct integers are never rendered alike by the corrected renderer. */
  lemma FixedInjective(a: string, b: string)
    requires IsIntLiteral(a) && |Magnitude(a)| <= 16
    requires IsIntLiteral(b) && |Magnitude(b)| <= 16
    requires IntegerToChineseFixed(a) == IntegerToChineseFixed(b)
    ensures IntValue(a) == IntValue(b)
  {
    ReadBackFixed(a);
    ReadBackFixed(b);
  }
}
