/**
 * `DateFst.build_fst` / `TimeFst.build_fst` and the two default transducers,
 * as segment lists for the matcher of `FstMatch`.
 *
 * An explicit format such as `"Ymd"` becomes one mandatory segment per letter,
 * each followed by any number of separators; the default transducers are fixed
 * lists of optional segments with the weights of the source.
 */
module FstBuild {
  import opened Wrappers
  import opened Strings
  import opened FstTables
  import opened FstMatch

  /** The keys of `fst_list`: `m d y Y` for dates, `h M s I` for times. */
  function FieldOf(kind: Kind, c: char): (r: Option<Field>)
    ensures r.Some? ==> (kind.DateText? <==> r.value in {Month, Day, Year2, Year4})
  {
    match kind
    case DateText =>
      if c == 'm' then Some(Month) else if c == 'd' then Some(Day)
      else if c == 'y' then Some(Year2) else if c == 'Y' then Some(Year4) else None
    case TimeText =>
      if c == 'h' then Some(Hour) else if c == 'M' then Some(Minute)
      else if c == 's' then Some(Second) else if c == 'I' then Some(Period) else None
  }

  predicate Supported(kind: Kind, format: string)
  {
    forall i :: 0 <= i < |format| ==> FieldOf(kind, format[i]).Some?
  }

  /** The transducer an explicit format denotes: field, separators, field, separators, ... */
  function ExplicitSegs(kind: Kind, format: string): (segs: seq<Seg>)
    requires Supported(kind, format)
    ensures |segs| == |format|
  {
    seq(|format|, i requires 0 <= i < |format| => Seg([FieldOf(kind, format[i]).value], false, AnySep, 0))
  }

  /**
   * `build_fst`: rejects a format with a letter outside `fst_list` (the
   * `ValueError`, carrying the format), and otherwise concatenates one
   * segment per letter. The empty format is excluded, as in the source,
   * where `dformat[0]` fails on it and every caller tests the format first.
   */
  method BuildFst(kind: Kind, format: string) returns (r: Result<seq<Seg>, string>)
    requires |format| > 0
    ensures r.Err? <==> !Supported(kind, format)
    ensures r.Err? ==> r.error == format
    ensures r.Ok? ==> r.value == ExplicitSegs(kind, format)
  {
    for i := 0 to |format|
      invariant forall j :: 0 <= j < i ==> FieldOf(kind, format[j]).Some?
    {
      if FieldOf(kind, format[i]).None? {
        return Err(format);
      }
    }
    var segs := [Seg([FieldOf(kind, format[0]).value], false, AnySep, 0)];
    for i := 1 to |format|
      invariant |segs| == i
      invariant forall j :: 0 <= j < i ==> segs[j] == Seg([FieldOf(kind, format[j]).value], false, AnySep, 0)
    {
      segs := segs + [Seg([FieldOf(kind, format[i]).value], false, AnySep, 0)];
    }
    return Ok(segs);
  }

  /**
   * Under an explicit format every letter's field is present, in the order
   * of the format, and every split weighs nothing: any split is a shortest path.
   */
  lemma {:induction false} ExplicitSplitShape(kind: Kind, format: string, read: Reader, cs: seq<Choice>, t: string)
    requires Supported(kind, format) && IsSplit(ExplicitSegs(kind, format), kind, read, cs, t)
    ensures forall i :: 0 <= i < |cs| ==> cs[i].Present? && cs[i].field == FieldOf(kind, format[i]).value
    ensures OutcomeOf(read, ExplicitSegs(kind, format), cs).weight == 0
    decreases |format|
  {
    var segs := ExplicitSegs(kind, format);
    forall i | 0 <= i < |cs| ensures cs[i].Present? && cs[i].field == FieldOf(kind, format[i]).value {
      assert Fits(segs[i], kind, read, cs[i]);
    }
    if format != [] {
      var f' := format[1..];
      assert Supported(kind, f') by {
        forall i | 0 <= i < |f'| ensures FieldOf(kind, f'[i]).Some? { assert f'[i] == format[i + 1]; }
      }
      assert ExplicitSegs(kind, f') == segs[1..];
      SplitTail(segs, kind, read, cs, t);
      ExplicitSplitShape(kind, f', read, cs[1..], Text(cs[1..]));
    }
  }

  /** `DateFst._init_default_fst`: `(year sep?)? (month sep?)? day?`, weights 2, 0.9 and 1. */
  const DefaultDateSegs: seq<Seg> :=
    [Seg([Year2, Year4], true, OptSep, 20), Seg([Month], true, OptSep, 9), Seg([Day], true, NoSep, 10)]

  /** `TimeFst._init_default_fst`: `(period sep?)? (hour sep?)? (minute sep?)? (second sep?)? period?`, second weighing 1.1. */
  const DefaultTimeSegs: seq<Seg> :=
    [Seg([Period], true, OptSep, 0), Seg([Hour], true, OptSep, 0), Seg([Minute], true, OptSep, 0),
     Seg([Second], true, OptSep, 11), Seg([Period], true, NoSep, 0)]
}
