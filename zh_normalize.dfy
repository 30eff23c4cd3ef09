/**
 * The Chinese normalizer: `normalize` dispatches on `interpret-as` to the
 * date, time, telephone, nominal and cardinal readers; everything else, and
 * every reader that gives up, goes to the general-purpose normalizer of an
 * external package, which this model takes as a parameter.
 */
module ZhNormalize {
  import opened Wrappers
  import opened Strings
  import opened FstTables
  import opened FstMatch
  import opened FstBuild
  import opened FstValues
  import opened DateTimeText
  import opened Scanners
  import opened CardinalText
  import opened DigitText

  /** `zh_tn_model.normalize`: the general normalizer, also used for ordinals and e-mail addresses. */
  type Plain = string -> string

  // ---------------------------------------------------------------------------
  // dict(zip(list(format), items))
  // ---------------------------------------------------------------------------

  function Min(a: nat, b: nat): nat { if a < b then a else b }

  /** `dict(zip(keys, vals))`: pairs up to the shorter length, later keys overwriting earlier ones. */
  function Zip(keys: string, vals: seq<string>): map<char, string>
  {
    ZipFirst(keys, vals, Min(|keys|, |vals|))
  }

  /** The dictionary of the first `n` pairs. */
  function ZipFirst(keys: string, vals: seq<string>, n: nat): map<char, string>
    requires n <= |keys| && n <= |vals|
  {
    if n == 0 then map[] else ZipFirst(keys, vals, n - 1)[keys[n - 1] := vals[n - 1]]
  }

  /** `m.get(k, d)`; a missing key read with `get(k)` gives `None`, which every caller treats as `""`. */
  function Get(m: map<char, string>, k: char, d: string): string
  {
    if k in m then m[k] else d
  }

  /** A key of the first `n` pairs is one of their letters, and its value is the one paired with its last occurrence. */
  lemma {:induction false} ZipFirstGet(keys: string, vals: seq<string>, n: nat, k: char)
    requires n <= |keys| && n <= |vals|
    ensures k in ZipFirst(keys, vals, n) <==> exists i :: 0 <= i < n && keys[i] == k
    ensures k in ZipFirst(keys, vals, n) ==>
      exists i :: 0 <= i < n && keys[i] == k && ZipFirst(keys, vals, n)[k] == vals[i]
        && forall j :: i < j < n ==> keys[j] != k
  {
    if n > 0 {
      ZipFirstGet(keys, vals, n - 1, k);
    }
  }

  /** A key of the dictionary is a paired letter of the format, and its value is the one paired with its last occurrence. */
  lemma ZipGet(keys: string, vals: seq<string>, k: char)
    ensures k in Zip(keys, vals) <==> exists i :: 0 <= i < Min(|keys|, |vals|) && keys[i] == k
    ensures k in Zip(keys, vals) ==>
      exists i :: 0 <= i < Min(|keys|, |vals|) && keys[i] == k && Zip(keys, vals)[k] == vals[i]
        && forall j :: i < j < Min(|keys|, |vals|) ==> keys[j] != k
  {
    ZipFirstGet(keys, vals, Min(|keys|, |vals|), k);
  }

  /** A value looked up with default `""` is either that default or one paired with letter `k`. */
  lemma GetPaired(keys: string, vals: seq<string>, k: char, d: string)
    ensures Get(Zip(keys, vals), k, d) == d
      || exists i :: 0 <= i < |keys| && i < |vals| && keys[i] == k && Get(Zip(keys, vals), k, d) == vals[i]
  {
    ZipGet(keys, vals, k);
  }

  // ---------------------------------------------------------------------------
  // date_normalize_with_format / time_normalize_with_format
  // ---------------------------------------------------------------------------

  /** `pynutil.insert` between the fields of an explicit format. */
  function Separator(kind: Kind): string
  {
    match kind
    case DateText => "-"
    case TimeText => " : "
  }

  /** What `*_normalize_with_format` returns: `""` when the format is refused or the text does not match. */
  function WithFormat(kind: Kind, format: string, text: string): string
    requires |format| > 0
  {
    if !Supported(kind, format) then ""
    else
      match Match(ExplicitSegs(kind, format), kind, ReadField, text)
      case None => ""
      case Some(vals) => Join(vals, Separator(kind))
  }

  /** `date_normalize_with_format` and `time_normalize_with_format` (which differ only in the transducer class). */
  method NormalizeWithFormat(kind: Kind, text: string, format: string) returns (r: string)
    requires |format| > 0
    ensures r == WithFormat(kind, format, text)
  {
    var fst := BuildFst(kind, format);
    if fst.Err? {
      return "";
    }
    var best := Match(fst.value, kind, ReadField, text);
    if best.None? {
      return "";
    }
    r := Join(best.value, Separator(kind));
  }

  lemma ExplicitClean(kind: Kind, format: string, text: string)
    requires Supported(kind, format) && Match(ExplicitSegs(kind, format), kind, ReadField, text).Some?
    ensures var vals := Match(ExplicitSegs(kind, format), kind, ReadField, text).value;
      |vals| == |format| && forall i :: 0 <= i < |vals| ==> vals[i] != "" && Clean(vals[i])
  {
    ExplicitValues(kind, format, text);
    var vals := Match(ExplicitSegs(kind, format), kind, ReadField, text).value;
    forall i | 0 <= i < |vals| ensures vals[i] != "" && Clean(vals[i]) {
      WritesCanonical(FieldOf(kind, format[i]).value, vals[i]);
    }
  }

  /** The result is empty exactly when the format is refused or the text has no match under it. */
  lemma WithFormatEmpty(kind: Kind, format: string, text: string)
    requires |format| > 0
    ensures WithFormat(kind, format, text) == ""
      <==> !Supported(kind, format) || Match(ExplicitSegs(kind, format), kind, ReadField, text).None?
  {
    if Supported(kind, format) && Match(ExplicitSegs(kind, format), kind, ReadField, text).Some? {
      ExplicitClean(kind, format, text);
      var vals := Match(ExplicitSegs(kind, format), kind, ReadField, text).value;
      JoinHead(vals, Separator(kind));
    }
  }

  lemma JoinHead(ws: seq<string>, sep: string)
    requires |ws| > 0 && ws[0] != ""
    ensures Join(ws, sep) != ""
  {
  }

  /** Canonical values hold neither `-` nor `:`, so they mark the separators the transducers insert. */
  lemma CleanMarks(v: string, c: char)
    requires Clean(v) && (c == '-' || c == ':')
    ensures forall j :: 0 <= j < |v| ==> v[j] != c
  {
  }

  // ---------------------------------------------------------------------------
  // date_normalize
  // ---------------------------------------------------------------------------

  /** The default branch of `date_normalize`: the default transducer, its output cut at `-`. */
  function DefaultDate(text: string, plain: Plain): string
  {
    match Match(DefaultDateSegs, DateText, ReadField, text)
    case None => plain(text)
    case Some(vals) =>
      // the output `y - m - d` is never empty and always has three parts
      DefaultDateItems(text);
      DateOfItems(Split(Join(vals, " - "), "-"), text, plain)
  }

  /** `build_date_str` on the three stripped parts, the general normalizer when it refuses them. */
  function DateOfItems(items: seq<string>, text: string, plain: Plain): string
    requires |items| == 3
  {
    match BuildDateStr(Strip(items[0]), Strip(items[1]), Strip(items[2]))
    case Ok(s) => s
    case Err(_) => plain(text)
  }

  /** Cutting the default output at `-` gives three parts, which strip to the three values. */
  lemma DefaultDateItems(text: string)
    requires Match(DefaultDateSegs, DateText, ReadField, text).Some?
    ensures var vals := Match(DefaultDateSegs, DateText, ReadField, text).value;
      var items := Split(Join(vals, " - "), "-");
      |vals| == 3 && |items| == 3 && forall i :: 0 <= i < 3 ==> Strip(items[i]) == vals[i]
  {
    DefaultDateValues(text);
    DateItems(Match(DefaultDateSegs, DateText, ReadField, text).value);
  }

  lemma DateItems(vals: seq<string>)
    requires |vals| == 3 && Clean(vals[0]) && Clean(vals[1]) && Clean(vals[2])
    ensures var items := Split(Join(vals, " - "), "-");
      |items| == 3 && forall i :: 0 <= i < 3 ==> Strip(items[i]) == vals[i]
  {
    forall i | 0 <= i < 3 ensures Trimmed(vals[i]) && forall j :: 0 <= j < |vals[i]| ==> vals[i][j] != '-' {
      CleanMarks(vals[i], '-');
    }
    PaddedSplit(vals, '-');
  }

  /** `date_normalize`, as a function of the text, the format attribute and the general normalizer. */
  function DateSpec(text: string, format: string, plain: Plain): string
  {
    var result := if format != "" then WithFormat(DateText, format, text) else "";
    if result != "" then DateOfFormat(format, Split(result, "-"), text, plain)
    else DefaultDate(text, plain)
  }

  /** The explicit branch: the parts keyed by the format's letters, then `build_date_str`. */
  function DateOfFormat(format: string, items: seq<string>, text: string, plain: Plain): string
  {
    var m := Zip(format, items);
    match BuildDateStr(Get(m, 'Y', Get(m, 'y', "")), Get(m, 'm', ""), Get(m, 'd', ""))
    case Ok(s) => s
    case Err(_) => plain(text)
  }

  /** `date_normalize`. */
  method DateNormalize(text: string, format: string, plain: Plain) returns (r: string)
    ensures r == DateSpec(text, format, plain)
  {
    var result := "";
    if format != "" {
      result := NormalizeWithFormat(DateText, text, format);
    }
    if result != "" {
      var items := Split(result, "-");
      var m := Zip(format, items);
      var year := Get(m, 'Y', Get(m, 'y', ""));
      var built := BuildDateStr(year, Get(m, 'm', ""), Get(m, 'd', ""));
      if built.Ok? {
        return built.value;
      }
      return plain(text);
    }
    var best := Match(DefaultDateSegs, DateText, ReadField, text);
    if best.None? {
      return plain(text);
    }
    DefaultDateItems(text);
    var items := Split(Join(best.value, " - "), "-");
    var built := BuildDateStr(Strip(items[0]), Strip(items[1]), Strip(items[2]));
    if built.Ok? {
      return built.value;
    }
    r := plain(text);
  }

  /** Under an explicit format, cutting the output at `-` gives back the matched values. */
  lemma ExplicitDateItems(format: string, text: string)
    requires |format| > 0 && Supported(DateText, format)
    requires Match(ExplicitSegs(DateText, format), DateText, ReadField, text).Some?
    ensures var vals := Match(ExplicitSegs(DateText, format), DateText, ReadField, text).value;
      Split(Join(vals, "-"), "-") == vals
  {
    ExplicitClean(DateText, format, text);
    var vals := Match(ExplicitSegs(DateText, format), DateText, ReadField, text).value;
    forall i | 0 <= i < |vals| ensures Marker("-", 0, vals[i]) {
      CleanMarks(vals[i], '-');
    }
    SplitJoin(vals, "-", 0);
  }

  /** The value a date format letter looks up: empty, or what that letter's field writes. */
  lemma DateLookup(format: string, vals: seq<string>, k: char, f: Field)
    requires |vals| == |format| && Supported(DateText, format) && FieldOf(DateText, k) == Some(f)
    requires forall i :: 0 <= i < |vals| ==> Writes(FieldOf(DateText, format[i]).value, vals[i])
    ensures Get(Zip(format, vals), k, "") == "" || Writes(f, Get(Zip(format, vals), k, ""))
  {
    GetPaired(format, vals, k, "");
  }

  /** Values written by the fields of a format's letters are read as year digits, month and day numerals. */
  lemma FormatDateRead(format: string, vals: seq<string>, text: string, plain: Plain) returns (month: Option<nat>, day: Option<nat>)
    requires |vals| == |format| && Supported(DateText, format)
    requires forall i :: 0 <= i < |vals| ==> Writes(FieldOf(DateText, format[i]).value, vals[i])
    ensures var m := Zip(format, vals);
      var year := Get(m, 'Y', Get(m, 'y', ""));
      AllDigits(year) && Get(m, 'm', "") == Written(month) && Get(m, 'd', "") == Written(day)
      && (month.Some? ==> 1 <= month.value <= 12) && (day.Some? ==> 1 <= day.value <= 31)
      && DateOfFormat(format, vals, text, plain) == DateReading(year, month, day)
  {
    var m := Zip(format, vals);
    DateLookup(format, vals, 'y', Year2);
    DateLookup(format, vals, 'Y', Year4);
    DateLookup(format, vals, 'm', Month);
    DateLookup(format, vals, 'd', Day);
    var y2 := Get(m, 'y', "");
    var year := Get(m, 'Y', y2);
    assert AllDigits(year) by {
      if 'Y' in m {
        assert year == Get(m, 'Y', "");
        if year != "" { WritesYear(Year4, year); }
      } else if y2 != "" {
        WritesYear(Year2, y2);
      }
    }
    month, day := FieldsDateRead(year, Get(m, 'm', ""), Get(m, 'd', ""));
  }

  lemma FieldsDateRead(year: string, mv: string, dv: string) returns (month: Option<nat>, day: Option<nat>)
    requires AllDigits(year) && (mv == "" || Writes(Month, mv)) && (dv == "" || Writes(Day, dv))
    ensures mv == Written(month) && dv == Written(day)
    ensures (month.Some? ==> 1 <= month.value <= 12) && (day.Some? ==> 1 <= day.value <= 31)
    ensures BuildDateStr(year, mv, dv) == Ok(DateReading(year, month, day))
  {
    if mv != "" { WritesRange(Month, mv); }
    if dv != "" { WritesRange(Day, dv); }
    month := WrittenOf(mv, 1, 12);
    day := WrittenOf(dv, 1, 31);
    DateStrWritten(year, month, day);
  }

  /**
   * Under an explicit format that the text matches, the date is read from the
   * values of the letters: the year from the last `Y` (or, without one, the last
   * `y`) digit by digit, the month of the last `m` and the day of the last `d`
   * as numerals. The general normalizer is never called.
   */
  lemma DateExplicit(text: string, format: string, plain: Plain, vals: seq<string>) returns (month: Option<nat>, day: Option<nat>)
    requires format != "" && Supported(DateText, format)
    requires Match(ExplicitSegs(DateText, format), DateText, ReadField, text) == Some(vals)
    ensures var m := Zip(format, vals);
      var year := Get(m, 'Y', Get(m, 'y', ""));
      AllDigits(year) && Get(m, 'm', "") == Written(month) && Get(m, 'd', "") == Written(day)
      && (month.Some? ==> 1 <= month.value <= 12) && (day.Some? ==> 1 <= day.value <= 31)
      && DateSpec(text, format, plain) == DateReading(year, month, day)
  {
    WithFormatEmpty(DateText, format, text);
    ExplicitDateItems(format, text);
    ExplicitValues(DateText, format, text);
    assert DateSpec(text, format, plain) == DateOfFormat(format, vals, text, plain);
    month, day := FormatDateRead(format, vals, text, plain);
  }

  /** With no format, a refused format, or no match under it, the default transducer decides. */
  lemma DateFallback(text: string, format: string, plain: Plain)
    requires format == "" || !Supported(DateText, format)
      || Match(ExplicitSegs(DateText, format), DateText, ReadField, text).None?
    ensures DateSpec(text, format, plain) == DefaultDate(text, plain)
  {
    if format != "" {
      WithFormatEmpty(DateText, format, text);
    }
  }

  /** Three default slot values are read as year digits, month and day numerals. */
  lemma DefaultDateRead(vals: seq<string>, text: string, plain: Plain) returns (month: Option<nat>, day: Option<nat>)
    requires |vals| == 3 && Clean(vals[0]) && Clean(vals[1]) && Clean(vals[2])
    requires AllDigits(vals[0]) && (vals[1] == "" || IsWritten(vals[1], 1, 12)) && (vals[2] == "" || IsWritten(vals[2], 1, 31))
    ensures vals[1] == Written(month) && vals[2] == Written(day)
    ensures (month.Some? ==> 1 <= month.value <= 12) && (day.Some? ==> 1 <= day.value <= 31)
    ensures |Split(Join(vals, " - "), "-")| == 3
    ensures DateOfItems(Split(Join(vals, " - "), "-"), text, plain) == DateReading(vals[0], month, day)
  {
    DateItems(vals);
    month := WrittenOf(vals[1], 1, 12);
    day := WrittenOf(vals[2], 1, 31);
    DateStrWritten(vals[0], month, day);
  }

  /** When the default transducer finds no reading, the general normalizer is called. */
  lemma DefaultDateNone(text: string, plain: Plain)
    requires Match(DefaultDateSegs, DateText, ReadField, text).None?
    ensures DefaultDate(text, plain) == plain(text)
  {
  }

  /** A reading of the default transducer is read as year digits, month and day numerals. */
  lemma DefaultDateReads(text: string, plain: Plain, vals: seq<string>) returns (month: Option<nat>, day: Option<nat>)
    requires Match(DefaultDateSegs, DateText, ReadField, text) == Some(vals)
    ensures |vals| == 3 && AllDigits(vals[0]) && vals[1] == Written(month) && vals[2] == Written(day)
    ensures (month.Some? ==> 1 <= month.value <= 12) && (day.Some? ==> 1 <= day.value <= 31)
    ensures DefaultDate(text, plain) == DateReading(vals[0], month, day)
  {
    DefaultDateValues(text);
    DefaultDateItems(text);
    month, day := DefaultDateRead(vals, text, plain);
  }

  // ---------------------------------------------------------------------------
  // time_normalize
  // ---------------------------------------------------------------------------

  /** The default branch of `time_normalize`: the default transducer, its output cut at ` : `. */
  function DefaultTime(text: string, plain: Plain): string
  {
    match Match(DefaultTimeSegs, TimeText, ReadField, text)
    case None => plain(text)
    case Some(vals) =>
      // the output holds four ` : `, so it is never empty and has five parts
      DefaultTimeItems(text);
      TimeOfItems(Split(Join(vals, " : "), " : "), text, plain)
  }

  /** The five parts as leading period, hour, minute, second, trailing period; the leading period wins when present. */
  function TimeOfItems(items: seq<string>, text: string, plain: Plain): string
    requires |items| == 5
  {
    match BuildTimeStr(items[1], items[2], items[3], PeriodOf(items))
    case Ok(s) => s
    case Err(_) => plain(text)
  }

  /** `period_prefix or period_suffix`. */
  function PeriodOf(items: seq<string>): string
    requires |items| == 5
  {
    if items[0] != "" then items[0] else items[4]
  }

  /** Cutting the default output at ` : ` gives back the five values. */
  lemma DefaultTimeItems(text: string)
    requires Match(DefaultTimeSegs, TimeText, ReadField, text).Some?
    ensures var vals := Match(DefaultTimeSegs, TimeText, ReadField, text).value;
      |vals| == 5 && Split(Join(vals, " : "), " : ") == vals
  {
    DefaultTimeValues(text);
    TimeItems(Match(DefaultTimeSegs, TimeText, ReadField, text).value);
  }

  lemma TimeItems(vals: seq<string>)
    requires |vals| == 5 && forall i :: 0 <= i < 5 ==> Clean(vals[i])
    ensures Split(Join(vals, " : "), " : ") == vals
  {
    forall i | 0 <= i < 5 ensures Marker(" : ", 1, vals[i]) {
      CleanMarks(vals[i], ':');
    }
    SplitJoin(vals, " : ", 1);
  }

  /** `time_normalize`, as a function of the text, the format attribute and the general normalizer. */
  function TimeSpec(text: string, format: string, plain: Plain): string
  {
    var result := if format != "" then WithFormat(TimeText, format, text) else "";
    if result != "" then TimeOfFormat(format, Split(result, ":"), text, plain)
    else DefaultTime(text, plain)
  }

  /** The explicit branch: the parts keyed by the format's letters, then `build_time_str`. */
  function TimeOfFormat(format: string, items: seq<string>, text: string, plain: Plain): string
  {
    var m := Zip(format, items);
    match BuildTimeStr(Get(m, 'h', ""), Get(m, 'M', ""), Get(m, 's', ""), Get(m, 'I', ""))
    case Ok(s) => s
    case Err(_) => plain(text)
  }

  /** `time_normalize`. */
  method TimeNormalize(text: string, format: string, plain: Plain) returns (r: string)
    ensures r == TimeSpec(text, format, plain)
  {
    var result := "";
    if format != "" {
      result := NormalizeWithFormat(TimeText, text, format);
    }
    if result != "" {
      var items := Split(result, ":");
      var m := Zip(format, items);
      var built := BuildTimeStr(Get(m, 'h', ""), Get(m, 'M', ""), Get(m, 's', ""), Get(m, 'I', ""));
      if built.Ok? {
        return built.value;
      }
      return plain(text);
    }
    var best := Match(DefaultTimeSegs, TimeText, ReadField, text);
    if best.None? {
      return plain(text);
    }
    DefaultTimeItems(text);
    var items := Split(Join(best.value, " : "), " : ");
    var period := if items[0] != "" then items[0] else items[4];
    var built := BuildTimeStr(items[1], items[2], items[3], period);
    if built.Ok? {
      return built.value;
    }
    r := plain(text);
  }

  /** Under an explicit format, the pieces of the output cut at `:` strip to the matched values. */
  lemma ExplicitTimeItems(format: string, text: string)
    requires |format| > 0 && Supported(TimeText, format)
    requires Match(ExplicitSegs(TimeText, format), TimeText, ReadField, text).Some?
    ensures var vals := Match(ExplicitSegs(TimeText, format), TimeText, ReadField, text).value;
      var items := Split(Join(vals, " : "), ":");
      |items| == |vals| && forall i :: 0 <= i < |vals| ==> Strip(items[i]) == vals[i]
  {
    ExplicitClean(TimeText, format, text);
    var vals := Match(ExplicitSegs(TimeText, format), TimeText, ReadField, text).value;
    forall i | 0 <= i < |vals| ensures Trimmed(vals[i]) && forall j :: 0 <= j < |vals[i]| ==> vals[i][j] != ':' {
      CleanMarks(vals[i], ':');
    }
    PaddedSplit(vals, ':');
  }

  /** Looking a letter up among the cut pieces and among the values finds both at the same position, or neither. */
  lemma LookupAt(format: string, items: seq<string>, vals: seq<string>, k: char) returns (i: int)
    requires |items| == |vals|
    ensures (i == -1 && Get(Zip(format, items), k, "") == "" && Get(Zip(format, vals), k, "") == "")
      || (0 <= i < |vals| && Get(Zip(format, items), k, "") == items[i] && Get(Zip(format, vals), k, "") == vals[i])
  {
    var n := Min(|format|, |vals|);
    ZipFirstPair(format, items, vals, n, k);
    if k in ZipFirst(format, items, n) {
      i :| 0 <= i < n && ZipFirst(format, items, n)[k] == items[i] && ZipFirst(format, vals, n)[k] == vals[i];
    } else {
      i := -1;
    }
  }

  /** Looking a letter up among the cut pieces and stripping gives the value looked up among the values. */
  lemma StripLookup(format: string, items: seq<string>, vals: seq<string>, k: char)
    requires |items| == |vals| && forall i :: 0 <= i < |vals| ==> Strip(items[i]) == vals[i] && Strip(vals[i]) == vals[i]
    ensures Strip(Get(Zip(format, items), k, "")) == Get(Zip(format, vals), k, "")
    ensures Strip(Get(Zip(format, vals), k, "")) == Get(Zip(format, vals), k, "")
  {
    var i := LookupAt(format, items, vals, k);
    if i == -1 {
      StripTrimmed("");
    }
  }

  /** Two dictionaries zipped from the same keys hold the same keys, each paired with values at the same position. */
  lemma {:induction false} ZipFirstPair(keys: string, a: seq<string>, b: seq<string>, n: nat, k: char)
    requires n <= |keys| && n <= |a| && n <= |b|
    ensures (k in ZipFirst(keys, a, n)) == (k in ZipFirst(keys, b, n))
    ensures k in ZipFirst(keys, a, n) ==>
      exists i :: 0 <= i < n && ZipFirst(keys, a, n)[k] == a[i] && ZipFirst(keys, b, n)[k] == b[i]
  {
    if n > 0 {
      ZipFirstPair(keys, a, b, n - 1, k);
    }
  }

  /** `build_time_str` strips its arguments, so only their stripped forms matter. */
  lemma BuildTimeStripped(h: string, m: string, s: string, p: string, h': string, m': string, s': string, p': string)
    requires Strip(h) == Strip(h') && Strip(m) == Strip(m') && Strip(s) == Strip(s') && Strip(p) == Strip(p')
    ensures BuildTimeStr(h, m, s, p) == BuildTimeStr(h', m', s', p')
  {
  }

  /** The value a time format letter looks up: empty, or what that letter's field writes. */
  lemma TimeLookup(format: string, vals: seq<string>, k: char, f: Field)
    requires |vals| == |format| && Supported(TimeText, format) && FieldOf(TimeText, k) == Some(f)
    requires forall i :: 0 <= i < |vals| ==> Writes(FieldOf(TimeText, format[i]).value, vals[i])
    ensures Get(Zip(format, vals), k, "") == "" || Writes(f, Get(Zip(format, vals), k, ""))
  {
    GetPaired(format, vals, k, "");
  }

  lemma StripEmptyOrTrimmed(v: string)
    requires v == "" || Trimmed(v)
    ensures Strip(v) == v
  {
    if v != "" {
      StripTrimmed(v);
    }
  }

  /** Values written by the fields of a format's letters are read as hour, minute, second and period. */
  lemma FormatTimeRead(format: string, vals: seq<string>, text: string, plain: Plain) returns (hour: Option<nat>, minute: Option<nat>, second: Option<nat>)
    requires |vals| == |format| && Supported(TimeText, format)
    requires forall i :: 0 <= i < |vals| ==> Writes(FieldOf(TimeText, format[i]).value, vals[i])
    ensures var m := Zip(format, vals);
      Get(m, 'I', "") in {"", "AM", "PM"}
      && Get(m, 'h', "") == Written(hour) && Get(m, 'M', "") == Written(minute) && Get(m, 's', "") == Written(second)
      && (hour.Some? ==> hour.value <= 24) && (minute.Some? ==> minute.value <= 59) && (second.Some? ==> second.value <= 59)
      && TimeOfFormat(format, vals, text, plain) == TimeReading(hour, minute, second, Get(m, 'I', ""))
  {
    var m := Zip(format, vals);
    TimeLookup(format, vals, 'h', Hour);
    TimeLookup(format, vals, 'M', Minute);
    TimeLookup(format, vals, 's', Second);
    TimeLookup(format, vals, 'I', Period);
    var hv, mv, sv, pv := Get(m, 'h', ""), Get(m, 'M', ""), Get(m, 's', ""), Get(m, 'I', "");
    if hv != "" { WritesRange(Hour, hv); }
    if mv != "" { WritesRange(Minute, mv); }
    if sv != "" { WritesRange(Second, sv); }
    if pv != "" { WritesPeriod(pv); }
    hour := WrittenOf(hv, 0, 24);
    minute := WrittenOf(mv, 0, 59);
    second := WrittenOf(sv, 0, 59);
    TimeStrWritten(hour, minute, second, pv);
  }

  /** Cutting at `:` and stripping inside `build_time_str` reads the same values as the values themselves. */
  lemma TimeOfPieces(format: string, items: seq<string>, vals: seq<string>, text: string, plain: Plain)
    requires |items| == |vals| && forall i :: 0 <= i < |vals| ==> Strip(items[i]) == vals[i] && Strip(vals[i]) == vals[i]
    ensures TimeOfFormat(format, items, text, plain) == TimeOfFormat(format, vals, text, plain)
  {
    var m, mi := Zip(format, vals), Zip(format, items);
    StripLookup(format, items, vals, 'h');
    StripLookup(format, items, vals, 'M');
    StripLookup(format, items, vals, 's');
    StripLookup(format, items, vals, 'I');
    BuildTimeStripped(Get(mi, 'h', ""), Get(mi, 'M', ""), Get(mi, 's', ""), Get(mi, 'I', ""),
                      Get(m, 'h', ""), Get(m, 'M', ""), Get(m, 's', ""), Get(m, 'I', ""));
  }

  /**
   * Under an explicit format that the text matches, the time is read from the
   * values of the last `h`, `M`, `s` and `I`; the general normalizer is never called.
   */
  lemma TimeExplicit(text: string, format: string, plain: Plain, vals: seq<string>) returns (hour: Option<nat>, minute: Option<nat>, second: Option<nat>)
    requires format != "" && Supported(TimeText, format)
    requires Match(ExplicitSegs(TimeText, format), TimeText, ReadField, text) == Some(vals)
    ensures var m := Zip(format, vals);
      Get(m, 'I', "") in {"", "AM", "PM"}
      && Get(m, 'h', "") == Written(hour) && Get(m, 'M', "") == Written(minute) && Get(m, 's', "") == Written(second)
      && (hour.Some? ==> hour.value <= 24) && (minute.Some? ==> minute.value <= 59) && (second.Some? ==> second.value <= 59)
      && TimeSpec(text, format, plain) == TimeReading(hour, minute, second, Get(m, 'I', ""))
  {
    TimeExplicitPieces(text, format, plain, vals);
    hour, minute, second := FormatTimeRead(format, vals, text, plain);
  }

  /** Under an explicit format that the text matches, the time is what the values' own lookup gives. */
  lemma TimeExplicitPieces(text: string, format: string, plain: Plain, vals: seq<string>)
    requires format != "" && Supported(TimeText, format)
    requires Match(ExplicitSegs(TimeText, format), TimeText, ReadField, text) == Some(vals)
    ensures |vals| == |format| && forall i :: 0 <= i < |vals| ==> Writes(FieldOf(TimeText, format[i]).value, vals[i])
    ensures TimeSpec(text, format, plain) == TimeOfFormat(format, vals, text, plain)
  {
    ExplicitValues(TimeText, format, text);
    TimeExplicitResult(text, format, plain, vals);
    ExplicitTimeStrip(text, format, vals);
    TimeOfPieces(format, Split(Join(vals, " : "), ":"), vals, text, plain);
  }

  lemma TimeExplicitResult(text: string, format: string, plain: Plain, vals: seq<string>)
    requires format != "" && Supported(TimeText, format)
    requires Match(ExplicitSegs(TimeText, format), TimeText, ReadField, text) == Some(vals)
    ensures TimeSpec(text, format, plain) == TimeOfFormat(format, Split(Join(vals, " : "), ":"), text, plain)
  {
    WithFormatEmpty(TimeText, format, text);
    assert WithFormat(TimeText, format, text) == Join(vals, " : ");
  }

  lemma ExplicitTimeStrip(text: string, format: string, vals: seq<string>)
    requires format != "" && Supported(TimeText, format)
    requires Match(ExplicitSegs(TimeText, format), TimeText, ReadField, text) == Some(vals)
    ensures var items := Split(Join(vals, " : "), ":");
      |items| == |vals| && forall i :: 0 <= i < |vals| ==> Strip(items[i]) == vals[i] && Strip(vals[i]) == vals[i]
  {
    ExplicitTimeItems(format, text);
    ExplicitClean(TimeText, format, text);
    forall i | 0 <= i < |vals| ensures Strip(vals[i]) == vals[i] {
      StripEmptyOrTrimmed(vals[i]);
    }
  }

  /** With no format, a refused format, or no match under it, the default transducer decides. */
  lemma TimeFallback(text: string, format: string, plain: Plain)
    requires format == "" || !Supported(TimeText, format)
      || Match(ExplicitSegs(TimeText, format), TimeText, ReadField, text).None?
    ensures TimeSpec(text, format, plain) == DefaultTime(text, plain)
  {
    if format != "" {
      WithFormatEmpty(TimeText, format, text);
    }
  }

  /** Five default slot values are read as period, hour, minute and second. */
  lemma DefaultTimeRead(vals: seq<string>, text: string, plain: Plain) returns (hour: Option<nat>, minute: Option<nat>, second: Option<nat>)
    requires Match(DefaultTimeSegs, TimeText, ReadField, text) == Some(vals)
    ensures |vals| == 5
    ensures vals[1] == Written(hour) && vals[2] == Written(minute) && vals[3] == Written(second)
    ensures (hour.Some? ==> hour.value <= 24) && (minute.Some? ==> minute.value <= 59) && (second.Some? ==> second.value <= 59)
    ensures BuildTimeStr(vals[1], vals[2], vals[3], PeriodOf(vals)) == Ok(TimeReading(hour, minute, second, PeriodOf(vals)))
  {
    DefaultTimeValues(text);
    hour := WrittenOf(vals[1], 0, 24);
    minute := WrittenOf(vals[2], 0, 59);
    second := WrittenOf(vals[3], 0, 59);
    TimeStrWritten(hour, minute, second, PeriodOf(vals));
  }

  /** When the default transducer finds no reading, the general normalizer is called. */
  lemma DefaultTimeNone(text: string, plain: Plain)
    requires Match(DefaultTimeSegs, TimeText, ReadField, text).None?
    ensures DefaultTime(text, plain) == plain(text)
  {
  }

  /**
   * A reading of the default transducer is read with its hour, minute and
   * second, and with the leading period when present, the trailing one otherwise.
   */
  lemma DefaultTimeReads(text: string, plain: Plain, vals: seq<string>) returns (hour: Option<nat>, minute: Option<nat>, second: Option<nat>)
    requires Match(DefaultTimeSegs, TimeText, ReadField, text) == Some(vals)
    ensures |vals| == 5 && vals[1] == Written(hour) && vals[2] == Written(minute) && vals[3] == Written(second)
    ensures (hour.Some? ==> hour.value <= 24) && (minute.Some? ==> minute.value <= 59) && (second.Some? ==> second.value <= 59)
    ensures DefaultTime(text, plain) == TimeReading(hour, minute, second, PeriodOf(vals))
  {
    DefaultTimeOf(text, plain, vals);
    hour, minute, second := DefaultTimeRead(vals, text, plain);
  }

  lemma DefaultTimeOf(text: string, plain: Plain, vals: seq<string>)
    requires Match(DefaultTimeSegs, TimeText, ReadField, text) == Some(vals)
    ensures |vals| == 5 && DefaultTime(text, plain) == TimeOfItems(vals, text, plain)
  {
    DefaultTimeItems(text);
  }

  // ---------------------------------------------------------------------------
  // cardinal_normalize
  // ---------------------------------------------------------------------------

  /** `cardinal_normalize`: every `CARDINAL` match rewritten; if any match fails, the general normalizer on the whole text. */
  function CardinalSpec(text: string, plain: Plain): string
  {
    PiecesNonempty(text);
    match Rewrite(CardinalPieces(text))
    case Ok(s) => s
    case Err(_) => plain(text)
  }

  /** A text with no digit is returned as it is. */
  lemma CardinalNoDigits(text: string, plain: Plain)
    requires forall i :: 0 <= i < |text| ==> !IsDigit(text[i])
    ensures CardinalSpec(text, plain) == text
  {
    NoDigitsUnchanged(text);
  }

  // ---------------------------------------------------------------------------
  // normalize
  // ---------------------------------------------------------------------------

  /** `attrs.get("format")`, a missing attribute being as good as an empty one. */
  function FormatOf(attrs: map<string, string>): string
  {
    if "format" in attrs then attrs["format"] else ""
  }

  /** `normalize`: dispatch on `interpret-as`. */
  method Normalize(text: string, interpretAs: string, attrs: map<string, string>, plain: Plain) returns (r: string)
    ensures interpretAs == "date" ==> r == DateSpec(text, FormatOf(attrs), plain)
    ensures interpretAs == "time" ==> r == TimeSpec(text, FormatOf(attrs), plain)
    ensures interpretAs == "phone" ==> r == Telephone(text)
    ensures interpretAs == "nominal" ==> r == NominalSpec(text)
    ensures interpretAs == "cardinal" ==> r == CardinalSpec(text, plain)
    ensures interpretAs !in {"date", "time", "phone", "nominal", "cardinal"} ==> r == plain(text)
  {
    if interpretAs == "date" {
      r := DateNormalize(text, FormatOf(attrs), plain);
    } else if interpretAs == "time" {
      r := TimeNormalize(text, FormatOf(attrs), plain);
    } else if interpretAs == "phone" {
      r := Telephone(text);
    } else if interpretAs == "nominal" {
      r := NominalNormalize(text);
    } else if interpretAs == "cardinal" {
      r := CardinalSpec(text, plain);
    } else {
      // ordinal, email and anything else
      r := plain(text);
    }
  }
}
