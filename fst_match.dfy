/**
 * The matchers of `DateFst` and `TimeFst`: which ways a text splits into field
 * spellings and separators, and which of them `shortestpath` may return.
 *
 * A matcher is a list of segments. Each segment is one field (or a choice of
 * fields), possibly optional, followed by separators, and carries the weight
 * the transducer adds when the segment is present (scaled by 10 to stay in `nat`).
 * `IsSplit` is the relation "the text splits into these spellings and
 * separators"; `Parses` enumerates every split, and `Match` picks one of least
 * total weight. The transducer leaves the choice among equal weights open; the
 * model takes the first in its own enumeration order, and the lemmas only state
 * that the weight is least.
 */
module FstMatch {
  import opened Wrappers
  import opened Strings
  import opened FstTables

  datatype Kind = DateText | TimeText

  /** `_init_symbols_fst` of each class. */
  predicate IsSep(kind: Kind, c: char)
  {
    match kind
    case DateText => c in " -/.,\t"
    case TimeText => c in ":. "
  }

  /** What may follow a segment's field: nothing, one separator (`.ques`), or any number (`.star`). */
  datatype SepMode = NoSep | OptSep | AnySep

  /** What a field writes for a complete spelling; `ReadField` in use. */
  type Reader = (Field, string) -> Option<string>

  datatype Seg = Seg(alts: seq<Field>, optional: bool, mode: SepMode, weight: nat)

  predicate SepFits(kind: Kind, mode: SepMode, sep: string)
  {
    (forall i :: 0 <= i < |sep| ==> IsSep(kind, sep[i]))
    && match mode
       case NoSep => sep == []
       case OptSep => |sep| <= 1
       case AnySep => true
  }

  /** How one segment covers its part of the text. */
  datatype Choice = Absent | Present(field: Field, surface: string, sep: string)

  predicate Fits(seg: Seg, kind: Kind, read: Reader, c: Choice)
  {
    match c
    case Absent => seg.optional
    case Present(f, s, sep) => f in seg.alts && read(f, s).Some? && SepFits(kind, seg.mode, sep)
  }

  function Covered(c: Choice): string
  {
    match c
    case Absent => ""
    case Present(_, s, sep) => s + sep
  }

  function Text(cs: seq<Choice>): string
  {
    if cs == [] then "" else Covered(cs[0]) + Text(cs[1..])
  }

  /** The text splits into the spellings and separators `cs`, one per segment. */
  predicate IsSplit(segs: seq<Seg>, kind: Kind, read: Reader, cs: seq<Choice>, t: string)
  {
    |cs| == |segs| && (forall i :: 0 <= i < |cs| ==> Fits(segs[i], kind, read, cs[i])) && Text(cs) == t
  }

  /** The values the transducer writes, one slot per segment, and the path weight. */
  datatype Outcome = Outcome(vals: seq<string>, weight: nat)

  function ChoiceValue(read: Reader, c: Choice): string
  {
    match c
    case Absent => ""
    case Present(f, s, _) => if read(f, s).Some? then read(f, s).value else ""
  }

  function OutcomeOf(read: Reader, segs: seq<Seg>, cs: seq<Choice>): (o: Outcome)
    requires |cs| == |segs|
    ensures |o.vals| == |segs|
  {
    if cs == [] then Outcome([], 0)
    else
      var o := OutcomeOf(read, segs[1..], cs[1..]);
      Outcome([ChoiceValue(read, cs[0])] + o.vals, (if cs[0].Present? then segs[0].weight else 0) + o.weight)
  }

  // ---- enumeration of all splits ----

  function Prefixed(v: string, w: nat, os: seq<Outcome>): (r: seq<Outcome>)
    ensures |r| == |os|
    ensures forall i :: 0 <= i < |os| ==> r[i] == Outcome([v] + os[i].vals, w + os[i].weight)
  {
    seq(|os|, i requires 0 <= i < |os| => Outcome([v] + os[i].vals, w + os[i].weight))
  }

  function Parses(segs: seq<Seg>, kind: Kind, read: Reader, t: string): seq<Outcome>
    decreases |segs|, 3, 0
  {
    if segs == [] then (if t == [] then [Outcome([], 0)] else [])
    else
      (if segs[0].optional then Prefixed("", 0, Parses(segs[1..], kind, read, t)) else [])
      + Alts(segs, kind, read, t, 0)
  }

  /** The splits in which the first segment is present as its `a`-th or a later field. */
  function Alts(segs: seq<Seg>, kind: Kind, read: Reader, t: string, a: nat): seq<Outcome>
    requires segs != [] && a <= |segs[0].alts|
    decreases |segs|, 2, |segs[0].alts| - a
  {
    if a == |segs[0].alts| then []
    else Surfaces(segs, kind, read, t, segs[0].alts[a], 0) + Alts(segs, kind, read, t, a + 1)
  }

  /** ... spelled by `t[..k]` for this or a longer `k`. */
  function Surfaces(segs: seq<Seg>, kind: Kind, read: Reader, t: string, f: Field, k: nat): seq<Outcome>
    requires segs != [] && k <= |t| + 1
    decreases |segs|, 1, |t| + 1 - k
  {
    if k > |t| then []
    else
      (match read(f, t[..k])
       case Some(v) => Seps(segs, kind, read, t[k..], v, 0)
       case None => [])
      + Surfaces(segs, kind, read, t, f, k + 1)
  }

  /** ... followed by `rest[..j]` as separators, for this or a longer `j`. */
  function Seps(segs: seq<Seg>, kind: Kind, read: Reader, rest: string, v: string, j: nat): seq<Outcome>
    requires segs != [] && j <= |rest| + 1
    decreases |segs|, 0, |rest| + 1 - j
  {
    if j > |rest| then []
    else
      (if SepFits(kind, segs[0].mode, rest[..j]) then Prefixed(v, segs[0].weight, Parses(segs[1..], kind, read, rest[j..])) else [])
      + Seps(segs, kind, read, rest, v, j + 1)
  }

  // ---- every split is enumerated ----

  lemma {:induction false} SepsContains(segs: seq<Seg>, kind: Kind, read: Reader, rest: string, v: string, j0: nat, j: nat, o: Outcome)
    requires segs != [] && j0 <= j <= |rest|
    requires SepFits(kind, segs[0].mode, rest[..j]) && o in Parses(segs[1..], kind, read, rest[j..])
    ensures Outcome([v] + o.vals, segs[0].weight + o.weight) in Seps(segs, kind, read, rest, v, j0)
    decreases j - j0
  {
    if j0 < j {
      SepsContains(segs, kind, read, rest, v, j0 + 1, j, o);
    } else {
      var os := Parses(segs[1..], kind, read, rest[j..]);
      var i :| 0 <= i < |os| && os[i] == o;
      assert Prefixed(v, segs[0].weight, os)[i] == Outcome([v] + o.vals, segs[0].weight + o.weight);
    }
  }

  lemma {:induction false} SurfacesContains(segs: seq<Seg>, kind: Kind, read: Reader, t: string, f: Field, k0: nat, k: nat, v: string, x: Outcome)
    requires segs != [] && k0 <= k <= |t|
    requires read(f, t[..k]) == Some(v) && x in Seps(segs, kind, read, t[k..], v, 0)
    ensures x in Surfaces(segs, kind, read, t, f, k0)
    decreases k - k0
  {
    if k0 < k {
      SurfacesContains(segs, kind, read, t, f, k0 + 1, k, v, x);
    }
  }

  lemma {:induction false} AltsContains(segs: seq<Seg>, kind: Kind, read: Reader, t: string, a0: nat, a: nat, x: Outcome)
    requires segs != [] && a0 <= a < |segs[0].alts|
    requires x in Surfaces(segs, kind, read, t, segs[0].alts[a], 0)
    ensures x in Alts(segs, kind, read, t, a0)
    decreases a - a0
  {
    if a0 < a {
      AltsContains(segs, kind, read, t, a0 + 1, a, x);
    }
  }

  lemma SplitTail(segs: seq<Seg>, kind: Kind, read: Reader, cs: seq<Choice>, t: string)
    requires segs != [] && IsSplit(segs, kind, read, cs, t)
    ensures IsSplit(segs[1..], kind, read, cs[1..], Text(cs[1..])) && t == Covered(cs[0]) + Text(cs[1..])
  {
    forall i | 0 <= i < |cs| - 1 ensures Fits(segs[1..][i], kind, read, cs[1..][i]) {
      assert Fits(segs[i + 1], kind, read, cs[i + 1]);
    }
  }

  /** Completeness: every split of the text is among the parses. */
  lemma {:induction false} ParsesComplete(segs: seq<Seg>, kind: Kind, read: Reader, cs: seq<Choice>, t: string)
    requires IsSplit(segs, kind, read, cs, t)
    ensures OutcomeOf(read, segs, cs) in Parses(segs, kind, read, t)
    decreases |segs|
  {
    if segs != [] {
      SplitTail(segs, kind, read, cs, t);
      var rest := Text(cs[1..]);
      ParsesComplete(segs[1..], kind, read, cs[1..], rest);
      var o := OutcomeOf(read, segs[1..], cs[1..]);
      assert Fits(segs[0], kind, read, cs[0]);
      match cs[0]
      case Absent =>
        assert t == rest;
        var os := Parses(segs[1..], kind, read, t);
        var i :| 0 <= i < |os| && os[i] == o;
        assert Prefixed("", 0, os)[i] == OutcomeOf(read, segs, cs);
      case Present(f, s, sep) =>
        var a :| 0 <= a < |segs[0].alts| && segs[0].alts[a] == f;
        var v := read(f, s).value;
        var k := |s|;
        assert t == s + (sep + rest);
        assert t[..k] == s && t[k..] == sep + rest;
        assert t[k..][..|sep|] == sep && t[k..][|sep|..] == rest;
        SepsContains(segs, kind, read, t[k..], v, 0, |sep|, o);
        assert OutcomeOf(read, segs, cs) == Outcome([v] + o.vals, segs[0].weight + o.weight);
        SurfacesContains(segs, kind, read, t, f, 0, k, v, OutcomeOf(read, segs, cs));
        AltsContains(segs, kind, read, t, 0, a, OutcomeOf(read, segs, cs));
    }
  }

  // ---- every parse is a split ----

  lemma {:induction false} SepsSound(segs: seq<Seg>, kind: Kind, read: Reader, rest: string, v: string, j0: nat, x: Outcome)
    returns (j: nat, o: Outcome)
    requires segs != [] && j0 <= |rest| + 1 && x in Seps(segs, kind, read, rest, v, j0)
    ensures j0 <= j <= |rest| && SepFits(kind, segs[0].mode, rest[..j]) && o in Parses(segs[1..], kind, read, rest[j..])
    ensures x == Outcome([v] + o.vals, segs[0].weight + o.weight)
    decreases |rest| + 1 - j0
  {
    var here := if SepFits(kind, segs[0].mode, rest[..j0]) then Prefixed(v, segs[0].weight, Parses(segs[1..], kind, read, rest[j0..])) else [];
    if x in here {
      j := j0;
      var os := Parses(segs[1..], kind, read, rest[j0..]);
      var i :| 0 <= i < |here| && here[i] == x;
      o := os[i];
    } else {
      j, o := SepsSound(segs, kind, read, rest, v, j0 + 1, x);
    }
  }

  lemma {:induction false} SurfacesSound(segs: seq<Seg>, kind: Kind, read: Reader, t: string, f: Field, k0: nat, x: Outcome)
    returns (k: nat, v: string)
    requires segs != [] && k0 <= |t| + 1 && x in Surfaces(segs, kind, read, t, f, k0)
    ensures k0 <= k <= |t| && read(f, t[..k]) == Some(v) && x in Seps(segs, kind, read, t[k..], v, 0)
    decreases |t| + 1 - k0
  {
    var r := read(f, t[..k0]);
    if r.Some? && x in Seps(segs, kind, read, t[k0..], r.value, 0) {
      k, v := k0, r.value;
    } else {
      k, v := SurfacesSound(segs, kind, read, t, f, k0 + 1, x);
    }
  }

  lemma {:induction false} AltsSound(segs: seq<Seg>, kind: Kind, read: Reader, t: string, a0: nat, x: Outcome)
    returns (a: nat)
    requires segs != [] && a0 <= |segs[0].alts| && x in Alts(segs, kind, read, t, a0)
    ensures a0 <= a < |segs[0].alts| && x in Surfaces(segs, kind, read, t, segs[0].alts[a], 0)
    decreases |segs[0].alts| - a0
  {
    if x in Surfaces(segs, kind, read, t, segs[0].alts[a0], 0) {
      a := a0;
    } else {
      a := AltsSound(segs, kind, read, t, a0 + 1, x);
    }
  }

  lemma SplitCons(segs: seq<Seg>, kind: Kind, read: Reader, c: Choice, tail: seq<Choice>, rest: string)
    requires segs != [] && Fits(segs[0], kind, read, c) && IsSplit(segs[1..], kind, read, tail, rest)
    ensures IsSplit(segs, kind, read, [c] + tail, Covered(c) + rest)
    ensures OutcomeOf(read, segs, [c] + tail)
      == Outcome([ChoiceValue(read, c)] + OutcomeOf(read, segs[1..], tail).vals,
                 (if c.Present? then segs[0].weight else 0) + OutcomeOf(read, segs[1..], tail).weight)
  {
  }

  lemma WitnessPresent(segs: seq<Seg>, kind: Kind, read: Reader, t: string, x: Outcome) returns (c: Choice, k: nat, j: nat, o: Outcome)
    requires segs != [] && x in Alts(segs, kind, read, t, 0)
    ensures k + j <= |t| && Fits(segs[0], kind, read, c) && c.Present? && Covered(c) == t[..k + j]
    ensures o in Parses(segs[1..], kind, read, t[k + j..])
    ensures x == Outcome([ChoiceValue(read, c)] + o.vals, segs[0].weight + o.weight)
  {
    var a := AltsSound(segs, kind, read, t, 0, x);
    var f := segs[0].alts[a];
    var v;
    k, v := SurfacesSound(segs, kind, read, t, f, 0, x);
    j, o := SepsSound(segs, kind, read, t[k..], v, 0, x);
    c := Present(f, t[..k], t[k..][..j]);
    assert t[..k] + t[k..][..j] == t[..k + j];
    assert t[k..][j..] == t[k + j..];
  }

  lemma {:induction false} ParsesWitness(segs: seq<Seg>, kind: Kind, read: Reader, t: string, x: Outcome) returns (cs: seq<Choice>)
    requires x in Parses(segs, kind, read, t)
    ensures IsSplit(segs, kind, read, cs, t) && OutcomeOf(read, segs, cs) == x
    decreases |segs|
  {
    if segs == [] {
      cs := [];
    } else {
      var skip := if segs[0].optional then Prefixed("", 0, Parses(segs[1..], kind, read, t)) else [];
      if x in skip {
        var os := Parses(segs[1..], kind, read, t);
        var i :| 0 <= i < |skip| && skip[i] == x;
        var tail := ParsesWitness(segs[1..], kind, read, t, os[i]);
        SplitCons(segs, kind, read, Absent, tail, t);
        assert Covered(Absent) + t == t;
        cs := [Absent] + tail;
      } else {
        var c, k, j, o := WitnessPresent(segs, kind, read, t, x);
        var tail := ParsesWitness(segs[1..], kind, read, t[k + j..], o);
        SplitCons(segs, kind, read, c, tail, t[k + j..]);
        assert t[..k + j] + t[k + j..] == t;
        cs := [c] + tail;
      }
    }
  }

  /** Soundness: every parse comes from a split of the text. */
  lemma ParsesSound(segs: seq<Seg>, kind: Kind, read: Reader, t: string, x: Outcome)
    requires x in Parses(segs, kind, read, t)
    ensures exists cs :: IsSplit(segs, kind, read, cs, t) && OutcomeOf(read, segs, cs) == x
  {
    var cs := ParsesWitness(segs, kind, read, t, x);
  }

  // ---- shortest path ----

  /** The first outcome of least weight. */
  function Best(os: seq<Outcome>): (r: Option<Outcome>)
    ensures r.None? <==> os == []
    ensures r.Some? ==> r.value in os && forall o :: o in os ==> r.value.weight <= o.weight
  {
    if os == [] then None
    else
      match Best(os[1..])
      case None => Some(os[0])
      case Some(b) => if os[0].weight <= b.weight then Some(os[0]) else Some(b)
  }

  /** `shortestpath(accep(t) @ fst)`: the values of a least-weight full match, if any. */
  function Match(segs: seq<Seg>, kind: Kind, read: Reader, t: string): Option<seq<string>>
  {
    match Best(Parses(segs, kind, read, t))
    case None => None
    case Some(o) => Some(o.vals)
  }

  /**
   * What `Match` returns is written by a split of the text whose weight no
   * other split undercuts; and it fails only when the text has no split at all.
   */
  lemma MatchSpec(segs: seq<Seg>, kind: Kind, read: Reader, t: string)
    ensures Match(segs, kind, read, t).None? <==> forall cs :: !IsSplit(segs, kind, read, cs, t)
    ensures Match(segs, kind, read, t).Some? ==>
      exists cs :: IsSplit(segs, kind, read, cs, t) && OutcomeOf(read, segs, cs).vals == Match(segs, kind, read, t).value
        && forall cs' :: IsSplit(segs, kind, read, cs', t) ==> OutcomeOf(read, segs, cs).weight <= OutcomeOf(read, segs, cs').weight
  {
    var os := Parses(segs, kind, read, t);
    if os == [] {
      forall cs | IsSplit(segs, kind, read, cs, t) ensures false {
        ParsesComplete(segs, kind, read, cs, t);
      }
    } else {
      var b := Best(os).value;
      var cs := ParsesWitness(segs, kind, read, t, b);
      forall cs' | IsSplit(segs, kind, read, cs', t) ensures OutcomeOf(read, segs, cs).weight <= OutcomeOf(read, segs, cs').weight {
        ParsesComplete(segs, kind, read, cs', t);
      }
    }
  }
}
