/** String helpers standing in for the Python `str` methods the normaliser relies on. */
module Strings {

  predicate IsDigit(c: char) { '0' <= c <= '9' }

  predicate AllDigits(s: string) { forall i :: 0 <= i < |s| ==> IsDigit(s[i]) }

  function DigitValue(c: char): nat
    requires IsDigit(c)
  {
    c as int - '0' as int
  }

  function DigitChar(d: nat): (c: char)
    requires d < 10
    ensures IsDigit(c) && DigitValue(c) == d
  {
    ('0' as int + d) as char
  }

  /** Python `int(s)` for a string of ASCII digits. */
  function NatOf(s: string): nat
    requires AllDigits(s)
  {
    if s == [] then 0 else NatOf(s[..|s| - 1]) * 10 + DigitValue(s[|s| - 1])
  }

  function Pow10(k: nat): (r: nat)
    ensures r >= 1
  {
    if k == 0 then 1 else 10 * Pow10(k - 1)
  }

  lemma NatOfOne(s: string)
    requires AllDigits(s) && |s| == 1
    ensures NatOf(s) == DigitValue(s[0])
  {
    assert s[..0] == [];
  }

  lemma SplitAt(s: string, k: nat)
    requires k <= |s|
    ensures s[..k] + s[k..] == s
  {
  }

  lemma SplitLast(s: string)
    requires s != []
    ensures s == s[..|s| - 1] + [s[|s| - 1]]
  {
  }

  lemma {:induction false} NatOfAppend(a: string, b: string)
    requires AllDigits(a) && AllDigits(b)
    ensures AllDigits(a + b) && NatOf(a + b) == NatOf(a) * Pow10(|b|) + NatOf(b)
  {
    DigitsAppend(a, b);
    if b == [] {
      assert a + b == a;
    } else {
      var b' := b[..|b| - 1];
      var d := DigitValue(b[|b| - 1]);
      assert (a + b)[..|a + b| - 1] == a + b';
      assert (a + b)[|a + b| - 1] == b[|b| - 1];
      NatOfAppend(a, b');
      assert NatOf(a + b) == NatOf(a + b') * 10 + d;
      assert NatOf(b) == NatOf(b') * 10 + d;
      ShiftDigit(NatOf(a), Pow10(|b'|), NatOf(b'), d);
    }
  }

  lemma DigitsAppend(a: string, b: string)
    requires AllDigits(a) && AllDigits(b)
    ensures AllDigits(a + b)
  {
    forall i | 0 <= i < |a + b| ensures IsDigit((a + b)[i]) {
      if i < |a| { assert (a + b)[i] == a[i]; } else { assert (a + b)[i] == b[i - |a|]; }
    }
  }

  /** Appending one digit to both a number and its low part. */
  lemma ShiftDigit(x: nat, p: nat, y: nat, d: nat)
    ensures (x * p + y) * 10 + d == x * (10 * p) + (y * 10 + d)
  {
  }

  lemma {:induction false} NatOfZeros(s: string)
    requires forall i :: 0 <= i < |s| ==> s[i] == '0'
    ensures AllDigits(s) && NatOf(s) == 0
  {
    if s != [] {
      NatOfZeros(s[..|s| - 1]);
    }
  }

  lemma {:induction false} NatOfZeroDigits(s: string)
    requires AllDigits(s) && NatOf(s) == 0
    ensures forall i :: 0 <= i < |s| ==> s[i] == '0'
  {
    if s != [] {
      NatOfZeroDigits(s[..|s| - 1]);
      assert forall i :: 0 <= i < |s| - 1 ==> s[i] == s[..|s| - 1][i];
    }
  }

  lemma {:induction false} NatOfBound(s: string)
    requires AllDigits(s)
    ensures NatOf(s) < Pow10(|s|)
  {
    if s != [] {
      NatOfBound(s[..|s| - 1]);
    }
  }

  /** Python `str(n)` for a natural number. */
  function NatToString(n: nat): string
  {
    if n < 10 then [DigitChar(n)] else NatToString(n / 10) + [DigitChar(n % 10)]
  }

  lemma {:induction false} NatToStringLength(n: nat, k: nat)
    requires k >= 1 && n < Pow10(k)
    ensures |NatToString(n)| <= k
  {
    if n >= 10 {
      assert k >= 2;
      NatToStringLength(n / 10, k - 1);
    }
  }

  /** Python `f"{n:02}"`. */
  function Pad2(n: nat): string
  {
    if n < 10 then "0" + NatToString(n) else NatToString(n)
  }

  lemma {:induction false} NatToStringSound(n: nat)
    ensures |NatToString(n)| >= 1 && AllDigits(NatToString(n))
    ensures NatOf(NatToString(n)) == n
    ensures n < 10 <==> |NatToString(n)| == 1
    ensures n >= 10 ==> NatToString(n)[0] != '0'
  {
    if n >= 10 {
      NatToStringSound(n / 10);
      var s := NatToString(n);
      assert s[..|s| - 1] == NatToString(n / 10);
    }
  }

  /** Python `s.replace(pat, rep)`: leftmost, non-overlapping occurrences. */
  function ReplaceAll(s: string, pat: string, rep: string): string
    requires |pat| > 0
    decreases |s|
  {
    if |s| < |pat| then s
    else if s[..|pat|] == pat then rep + ReplaceAll(s[|pat|..], pat, rep)
    else [s[0]] + ReplaceAll(s[1..], pat, rep)
  }

  /** A pattern of one character that does not occur is not replaced. */
  lemma {:induction false} ReplaceAbsent(s: string, c: char, rep: string)
    requires forall i :: 0 <= i < |s| ==> s[i] != c
    ensures ReplaceAll(s, [c], rep) == s
    decreases |s|
  {
    if |s| >= 1 {
      assert s[..1] != [c] by { assert s[..1][0] == s[0]; }
      ReplaceAbsent(s[1..], c, rep);
      assert [s[0]] + s[1..] == s;
    }
  }

  /** `"".join(parts)`. */
  function Concat(parts: seq<string>): string
  {
    if parts == [] then "" else parts[0] + Concat(parts[1..])
  }

  /** `sep.join(parts)`. */
  function Join(parts: seq<string>, sep: string): string
  {
    if parts == [] then ""
    else if |parts| == 1 then parts[0]
    else parts[0] + sep + Join(parts[1..], sep)
  }

  lemma {:induction false} ConcatAppend(a: seq<string>, b: seq<string>)
    ensures Concat(a + b) == Concat(a) + Concat(b)
  {
    if a != [] {
      assert (a + b)[0] == a[0] && (a + b)[1..] == a[1..] + b;
      ConcatAppend(a[1..], b);
      assert Concat(a + b) == a[0] + (Concat(a[1..]) + Concat(b));
    } else {
      assert a + b == b;
    }
  }

  /** Characters for which Python's `str.isspace()` holds (what `\s` and `strip()` use). */
  predicate IsSpace(c: char)
  {
    c == ' ' || c == '\t' || c == '\n' || c == '\r' || c == '\U{000B}' || c == '\U{000C}'
    || ('\U{001C}' <= c <= '\U{001F}') || c == '\U{0085}' || c == '\U{00A0}' || c == '\U{1680}'
    || ('\U{2000}' <= c <= '\U{200A}') || c == '\U{2028}' || c == '\U{2029}' || c == '\U{202F}'
    || c == '\U{205F}' || c == '\U{3000}'
  }

  function StripLeft(s: string, drop: char -> bool): (r: string)
    ensures |r| <= |s| && r == s[|s| - |r|..]
    ensures r == [] || !drop(r[0])
  {
    if s != [] && drop(s[0]) then StripLeft(s[1..], drop) else s
  }

  function StripRight(s: string, drop: char -> bool): (r: string)
    ensures |r| <= |s| && r == s[..|r|]
    ensures r == [] || !drop(r[|r| - 1])
  {
    if s != [] && drop(s[|s| - 1]) then StripRight(s[..|s| - 1], drop) else s
  }

  /** Python `s.strip()`. */
  function Strip(s: string): string
  {
    StripRight(StripLeft(s, IsSpace), IsSpace)
  }

  /** The test "is the character `c`". */
  function Is(c: char): char -> bool
  {
    x => x == c
  }

  /** Python `s.strip(chars)` for a one-character argument. */
  function StripChar(s: string, c: char): string
  {
    StripRight(StripLeft(s, Is(c)), Is(c))
  }

  lemma {:induction false} StripCharEmpty(s: string, c: char)
    ensures StripChar(s, c) == [] <==> forall i :: 0 <= i < |s| ==> s[i] == c
  {
    var l := StripLeft(s, Is(c));
    StripLeftEmpty(s, c);
    if l != [] {
      StripRightKeeps(l, c);
    }
  }

  lemma {:induction false} StripLeftEmpty(s: string, c: char)
    ensures StripLeft(s, Is(c)) == [] <==> forall i :: 0 <= i < |s| ==> s[i] == c
  {
    if s != [] && s[0] == c {
      StripLeftEmpty(s[1..], c);
      assert forall i :: 1 <= i < |s| ==> s[i] == s[1..][i - 1];
    }
  }

  lemma {:induction false} StripRightTail(s: string, c: char)
    ensures forall i :: |StripRight(s, Is(c))| <= i < |s| ==> s[i] == c
    decreases |s|
  {
    if s != [] && s[|s| - 1] == c {
      StripRightTail(s[..|s| - 1], c);
    }
  }

  lemma {:induction false} StripRightKeeps(s: string, c: char)
    requires s != [] && s[0] != c
    ensures StripRight(s, Is(c)) != []
    decreases |s|
  {
    if |s| > 1 && s[|s| - 1] == c {
      StripRightKeeps(s[..|s| - 1], c);
    }
  }

  predicate Contains(s: string, c: char) { exists i :: 0 <= i < |s| && s[i] == c }

  /** Python `s.split(sep)`: cut at every leftmost, non-overlapping occurrence of `sep`. */
  function Split(s: string, sep: string): (r: seq<string>)
    requires |sep| > 0
    ensures |r| >= 1
  {
    SplitFrom(s, sep, "")
  }

  /** The same scan, with `cur` already read into the first piece. */
  function SplitFrom(s: string, sep: string, cur: string): (r: seq<string>)
    requires |sep| > 0
    ensures |r| >= 1
    decreases |s|
  {
    if |sep| <= |s| && s[..|sep|] == sep then [cur] + SplitFrom(s[|sep|..], sep, "")
    else if s == [] then [cur]
    else SplitFrom(s[1..], sep, cur + [s[0]])
  }

  /** `sep[k]` occurs in `sep` only at `k`, and nowhere in `w`: a marker that locates `sep`. */
  predicate Marker(sep: string, k: nat, w: string)
  {
    k < |sep| && (forall i :: 0 <= i < |sep| && i != k ==> sep[i] != sep[k])
    && forall i :: 0 <= i < |w| ==> w[i] != sep[k]
  }

  lemma {:induction false} SplitFromWord(w: string, sep: string, k: nat, rest: string, cur: string)
    requires Marker(sep, k, w)
    ensures SplitFrom(w + sep + rest, sep, cur) == [cur + w] + SplitFrom(rest, sep, "")
    decreases |w|
  {
    var s := w + sep + rest;
    if w == [] {
      assert s == sep + rest && s[..|sep|] == sep && s[|sep|..] == rest;
      assert cur + w == cur;
    } else {
      assert !(|sep| <= |s| && s[..|sep|] == sep) by {
        if |sep| <= |s| {
          assert s[..|sep|][k] == s[k];
          if k < |w| { assert s[k] == w[k]; } else { assert s[k] == sep[k - |w|]; }
        }
      }
      assert s[1..] == w[1..] + sep + rest;
      SplitFromWord(w[1..], sep, k, rest, cur + [w[0]]);
      assert cur + [w[0]] + w[1..] == cur + w;
    }
  }

  lemma {:induction false} SplitFromLast(w: string, sep: string, k: nat, cur: string)
    requires Marker(sep, k, w)
    ensures SplitFrom(w, sep, cur) == [cur + w]
    decreases |w|
  {
    if w == [] {
      assert cur + w == cur;
    } else {
      assert !(|sep| <= |w| && w[..|sep|] == sep) by {
        if |sep| <= |w| { assert w[..|sep|][k] == w[k]; }
      }
      SplitFromLast(w[1..], sep, k, cur + [w[0]]);
      assert cur + [w[0]] + w[1..] == cur + w;
    }
  }

  /** Splitting undoes joining when a character of the separator occurs in no part. */
  lemma {:induction false} SplitJoin(ws: seq<string>, sep: string, k: nat)
    requires |sep| > 0 && |ws| > 0 && forall i :: 0 <= i < |ws| ==> Marker(sep, k, ws[i])
    ensures Split(Join(ws, sep), sep) == ws
  {
    SplitFromJoin(ws, sep, k, "");
    assert "" + ws[0] == ws[0];
    assert [ws[0]] + ws[1..] == ws;
  }

  lemma {:induction false} SplitFromJoin(ws: seq<string>, sep: string, k: nat, cur: string)
    requires |sep| > 0 && |ws| > 0 && forall i :: 0 <= i < |ws| ==> Marker(sep, k, ws[i])
    ensures SplitFrom(Join(ws, sep), sep, cur) == [cur + ws[0]] + ws[1..]
    decreases |ws|
  {
    if |ws| == 1 {
      SplitFromLast(ws[0], sep, k, cur);
    } else {
      SplitFromWord(ws[0], sep, k, Join(ws[1..], sep), cur);
      assert ws[0] + sep + Join(ws[1..], sep) == Join(ws, sep);
      SplitFromJoin(ws[1..], sep, k, "");
      assert "" + ws[1..][0] == ws[1];
      assert [ws[1..][0]] + ws[1..][1..] == ws[1..];
    }
  }

  /** No whitespace at either end. */
  predicate Trimmed(w: string)
  {
    w == [] || (!IsSpace(w[0]) && !IsSpace(w[|w| - 1]))
  }

  lemma StripAround(a: string, w: string, b: string)
    requires a in {"", " "} && b in {"", " "} && Trimmed(w)
    ensures Strip(a + w + b) == w
  {
    StripLeftAround(a, w, b);
    StripRightAround(w, b);
  }

  lemma StripLeftAround(a: string, w: string, b: string)
    requires a in {"", " "} && b in {"", " "} && Trimmed(w)
    ensures StripLeft(a + w + b, IsSpace) == if w == [] then [] else w + b
  {
    if a == " " {
      assert (a + w + b)[1..] == w + b;
    } else {
      assert a + w + b == w + b;
    }
    if w == [] && b == " " {
      assert (w + b)[1..] == [];
    }
  }

  lemma StripRightAround(w: string, b: string)
    requires b in {"", " "} && Trimmed(w)
    ensures StripRight(w + b, IsSpace) == w
  {
    if b == " " {
      assert (w + b)[..|w + b| - 1] == w;
    } else {
      assert w + b == w;
    }
  }

  /** The pieces `Join(ws, " " + [c] + " ")` falls into when cut at `c`. */
  function Padded(ws: seq<string>, lead: bool): (r: seq<string>)
    ensures |r| == |ws|
  {
    if ws == [] then []
    else [(if lead then " " else "") + ws[0] + (if |ws| > 1 then " " else "")] + Padded(ws[1..], true)
  }

  lemma {:induction false} JoinPadded(ws: seq<string>, c: char, lead: bool)
    requires |ws| > 0
    ensures (if lead then " " else "") + Join(ws, [' ', c, ' ']) == Join(Padded(ws, lead), [c])
    decreases |ws|
  {
    var l := if lead then " " else "";
    if |ws| > 1 {
      JoinPadded(ws[1..], c, true);
      var p := Padded(ws, lead);
      assert p[1..] == Padded(ws[1..], true);
      assert l + Join(ws, [' ', c, ' ']) == (l + ws[0] + " ") + [c] + (" " + Join(ws[1..], [' ', c, ' ']));
    }
  }

  /**
   * `Join(ws, " c ")` cut at `c`, each piece stripped, gives the parts back,
   * when no part contains `c` or starts or ends with whitespace.
   */
  lemma PaddedSplit(ws: seq<string>, c: char)
    requires |ws| > 0 && c != ' '
    requires forall i :: 0 <= i < |ws| ==> Trimmed(ws[i]) && forall j :: 0 <= j < |ws[i]| ==> ws[i][j] != c
    ensures |Split(Join(ws, [' ', c, ' ']), [c])| == |ws|
    ensures forall i :: 0 <= i < |ws| ==> Strip(Split(Join(ws, [' ', c, ' ']), [c])[i]) == ws[i]
  {
    JoinPadded(ws, c, false);
    assert "" + Join(ws, [' ', c, ' ']) == Join(ws, [' ', c, ' ']);
    var p := Padded(ws, false);
    forall i | 0 <= i < |ws| ensures Marker([c], 0, p[i]) && Strip(p[i]) == ws[i] {
      PaddedPiece(ws, c, i);
    }
    SplitJoin(p, [c], 0);
  }

  /** One padded piece: free of `c`, and stripping gives the item back. */
  lemma PaddedPiece(ws: seq<string>, c: char, i: nat)
    requires i < |ws| && c != ' '
    requires Trimmed(ws[i]) && forall j :: 0 <= j < |ws[i]| ==> ws[i][j] != c
    ensures Marker([c], 0, Padded(ws, false)[i]) && Strip(Padded(ws, false)[i]) == ws[i]
  {
    PaddedItem(ws, false, i);
    var a := if i > 0 then " " else "";
    var b := if i < |ws| - 1 then " " else "";
    var w := ws[i];
    var q := a + w + b;
    assert Padded(ws, false)[i] == q;
    StripAround(a, w, b);
    PadFree(a, w, b, c);
  }

  /** Padding with spaces adds no `c`. */
  lemma PadFree(a: string, w: string, b: string, c: char)
    requires a in {"", " "} && b in {"", " "} && c != ' '
    requires forall j :: 0 <= j < |w| ==> w[j] != c
    ensures forall j :: 0 <= j < |a + w + b| ==> (a + w + b)[j] != c
  {
    var q := a + w + b;
    forall j | 0 <= j < |q| ensures q[j] != c {
      if j < |a| {
        assert q[j] == a[j];
      } else if j < |a| + |w| {
        assert q[j] == w[j - |a|];
      } else {
        assert q[j] == b[j - |a| - |w|];
      }
    }
  }

  lemma {:induction false} PaddedItem(ws: seq<string>, lead: bool, i: nat)
    requires i < |ws|
    ensures Padded(ws, lead)[i] == (if i > 0 || lead then " " else "") + ws[i] + (if i < |ws| - 1 then " " else "")
    decreases i
  {
    if i > 0 {
      PaddedItem(ws[1..], true, i - 1);
    }
  }

  /** `s` with every `a` written as `b`. */
  function ReplaceChar(s: string, a: char, b: char): (r: string)
    ensures |r| == |s|
    ensures forall i :: 0 <= i < |s| ==> r[i] == if s[i] == a then b else s[i]
  {
    if s == [] then [] else [if s[0] == a then b else s[0]] + ReplaceChar(s[1..], a, b)
  }

  /** `s.replace(a, b)` for one-character strings rewrites character by character. */
  lemma {:induction false} ReplaceAllChar(s: string, a: char, b: char)
    ensures ReplaceAll(s, [a], [b]) == ReplaceChar(s, a, b)
    decreases |s|
  {
    if |s| >= 1 {
      assert s[..1] == [a] <==> s[0] == a by { assert s[..1][0] == s[0]; }
      ReplaceAllChar(s[1..], a, b);
    }
  }

  /** `s` without its whitespace. */
  function DropSpace(s: string): (r: string)
    ensures forall i :: 0 <= i < |r| ==> !IsSpace(r[i])
  {
    if s == [] then [] else (if IsSpace(s[0]) then [] else [s[0]]) + DropSpace(s[1..])
  }

  lemma {:induction false} DropSpaceAppend(a: string, b: string)
    ensures DropSpace(a + b) == DropSpace(a) + DropSpace(b)
    decreases |a|
  {
    if a == [] {
      assert a + b == b;
    } else {
      assert (a + b)[0] == a[0] && (a + b)[1..] == a[1..] + b;
      DropSpaceAppend(a[1..], b);
    }
  }

  lemma {:induction false} DropSpaceNone(s: string)
    requires forall i :: 0 <= i < |s| ==> !IsSpace(s[i])
    ensures DropSpace(s) == s
  {
    if s != [] {
      DropSpaceNone(s[1..]);
      assert [s[0]] + s[1..] == s;
    }
  }

  lemma {:induction false} DropSpaceLeft(s: string)
    ensures DropSpace(StripLeft(s, IsSpace)) == DropSpace(s)
  {
    if s != [] && IsSpace(s[0]) {
      DropSpaceLeft(s[1..]);
    }
  }

  lemma {:induction false} DropSpaceRight(s: string)
    ensures DropSpace(StripRight(s, IsSpace)) == DropSpace(s)
    decreases |s|
  {
    if s != [] && IsSpace(s[|s| - 1]) {
      var t := s[..|s| - 1];
      DropSpaceRight(t);
      assert s == t + [s[|s| - 1]];
      DropSpaceAppend(t, [s[|s| - 1]]);
    }
  }

  /** Stripping only removes whitespace. */
  lemma DropSpaceStrip(s: string)
    ensures DropSpace(Strip(s)) == DropSpace(s)
  {
    DropSpaceLeft(s);
    DropSpaceRight(StripLeft(s, IsSpace));
  }

  /** Removing the whitespace commutes with rewriting a character that is not whitespace. */
  lemma {:induction false} DropSpaceReplace(s: string, a: char, b: char)
    requires !IsSpace(a) && !IsSpace(b)
    ensures DropSpace(ReplaceChar(s, a, b)) == ReplaceChar(DropSpace(s), a, b)
  {
    if s != [] {
      DropSpaceReplace(s[1..], a, b);
      assert ReplaceChar(s, a, b)[1..] == ReplaceChar(s[1..], a, b);
      if !IsSpace(s[0]) {
        assert DropSpace(s) == [s[0]] + DropSpace(s[1..]);
      }
    }
  }
}
