# SsmlNormalizer in Dafny

This is a model of the core of SsmlNormalizer, a Python library that turns an
SSML document into a tree of elements and rewrites the text of that tree for
speech synthesis. It has three parts.

- **The document tree** (`ssml_parser/base/element.py`).
  - Containers (`speak`, `prosody`, `voice`, `lang`) hold ordered children.
  - Leaves (`_plain`, `say-as`, `sub`, `break`) hold text.
  - Two passes change the tree in place:
    - `normalize` rewrites leaf text with the normalizer of the inherited `xml:lang`;
    - `merge_children` fuses runs of adjacent text leaves.
  - The model is a Dafny class `SsmlTree.Element` with the same fields.
    - A ghost `model: Node` holds the value of the subtree.
    - The methods are proved against pure functions on `Node` (`NormalizeTree`, `MergeTree`).
    - The properties are lemmas about those functions: text is kept, no mergeable pair is left next to another, the child list never grows, and merging a second time changes nothing.
- **The tree builder** (`ssml_parser/base/parser.py`).
  - It walks an already parsed XML element (the datatype `XmlElement`).
  - It resolves `{uri}local` names against a stack of namespace frames.
  - It adds `_plain` leaves for leading and tail text.
  - The class `SsmlParsing.SsmlParser` keeps the tag registry and the frame stack.
  - Its recursive methods are proved against the pure walk `Build`/`BuildKids`. The walk also returns the frame stack the parser leaves behind.
- **The Chinese normalizer** (`ssml_parser/normalizer/zh/`).
  - The integer-to-Chinese numeral renderer (`Numerals`).
    - A reading of a numeral back into a number (`NumeralReading`) gives its round trip.
    - `NumeralShape` proves facts about the shape of the output.
  - The field spelling tables and the format matcher of the date and time transducers (`FstTables`, `FstMatch`, `FstBuild`, `FstValues`).
    - Matching is a relation: the text splits into field spellings and separators.
    - A chosen match is a split of minimum total weight.
  - The date and time string builders (`DateTimeText`).
  - The cardinal, telephone and nominal renderers (`CardinalText`, `DigitText`).
  - The two regular-expression scanners, written out by hand (`Scanners`).
  - The `normalize` dispatch and the date and time post-processing (`ZhNormalize`).

The general-purpose normalizer of the external `tn` package is a parameter, `plain: string -> string`. Every path that gives up falls back to it.

`Wrappers` and `Strings` hold the shared datatypes and string functions. Among them are Python's `split`, `join`, `strip` and `str.replace`.

The cardinal, date and time readers call `integer_to_chinese` as written (`IntegerToChinese`), lost sign and dangling `零` included. The cardinal reader passes it unsigned digits and writes `负` itself, so only the `零` after `亿` shows: 100000000 reads as `一亿零` (`CardinalText.CardinalTrailingLing`), and that numeral still reads back as 10^8 (`CardinalText.CardinalInteger`). The transducers pass the date and time builders only non-negative numbers below 10^8, and there the two renderers agree (`NumeralShape.FixedAgreesBelowYi`), so the readings of transducer fields are stated with `CnNumber`, the corrected numeral. The corrected renderer `IntegerToChineseFixed` is the intended side of the Findings below.

In the matchers, an absent optional segment weighs nothing and a present one adds its weight, so a least-weight match prefers fewer fields.

Several expectations in the repository's tests do not match the code. The model follows the code. Examples:
- `一十二点` for 12 o'clock, where `_clean_normed_number` drops the leading `一` of `一十`;
- `一千二百…` for 1,234, where `二` before `百` becomes `两`;
- phone groups `3 + 3 + 3 + 2` for eleven digits, where `_phone_normalize` groups them `3 + 4 + 4`;
- `A B C 幺二三` for `ABC123`, where the collapsed nominal reading keeps a leading space.

## Model

| member | source | states |
|---|---|---|
| `Numerals.IntegerToChinese` | ssml_parser/normalizer/zh/tools.py:27-57 | The renderer as written. It fails exactly when the input is not an optional `-` followed by ASCII digits, or when it has more than 16 digits. |
| `Numerals.IntegerToChineseFixed` | ssml_parser/normalizer/zh/tools.py:27-57 | The corrected renderer fails on exactly the same inputs. |
| `Numerals.SingleDigitRendering` | ssml_parser/normalizer/zh/tools.py:40-41 | One digit is looked up directly, with no cleanup: `2` gives `二`, never `两`. On this path the `负` of a negative input is kept. |
| `Numerals.SpellDigits` | ssml_parser/normalizer/zh/normalize.py:181 | Spelling digit by digit gives one numeral character per digit, in the same order. |
| `NumeralReading.ReadGroup4` | ssml_parser/normalizer/zh/tools.py:60-85 | Reading the words of a four-digit group adds exactly that group's value. |
| `NumeralReading.ReadGroup8` | ssml_parser/normalizer/zh/tools.py:88-107 | Reading the words of an eight-digit group, split at `万`, gives that group's value. |
| `NumeralReading.CleanKeepsReading` | ssml_parser/normalizer/zh/tools.py:110-123 | The cleanup never changes the value the numeral reads as. The cleanup drops a leading `一` of `一十`, turns `二` into `两`, and then turns `两` back into `二` after `十`, before `十` and at the end. |
| `NumeralReading.ReadBackFixed` | ssml_parser/normalizer/zh/tools.py:27-57 | Round trip: for every integer literal of at most 16 digits, the corrected numeral reads back as `int(num)`, sign included. |
| `NumeralReading.ReadBackAsWritten` | ssml_parser/normalizer/zh/tools.py:46-57 | As written, a literal of 2 to 16 digits reads back as its magnitude, whatever its sign. |
| `NumeralReading.SignLostExample` | ssml_parser/normalizer/zh/tools.py:37-48 | As written, `-12` is spelled as a numeral that reads as 12. |
| `NumeralReading.FixedInjective` | ssml_parser/normalizer/zh/tools.py:27-57 | Integers with the same corrected numeral are equal. |
| `NumeralShape.I2c4Nonempty` | ssml_parser/normalizer/zh/tools.py:60-85 | A group other than `0000` gives a non-empty word that does not end in `零`. |
| `NumeralShape.I2c4NoLeadingLing` | ssml_parser/normalizer/zh/tools.py:60-85 | A four-digit group never begins with `零`. |
| `NumeralShape.I2c4OneLing` | ssml_parser/normalizer/zh/tools.py:60-85 | A four-digit group holds at most one `零`. |
| `NumeralShape.I2c8Empty` | ssml_parser/normalizer/zh/tools.py:88-107 | An eight-digit group gives the empty word exactly when its value is zero. |
| `NumeralShape.ZerosRenderLing` | ssml_parser/normalizer/zh/tools.py:54-57 | A magnitude of two or more digits that are all zero renders as `零` alone. |
| `NumeralShape.AsWrittenTrailingLing` | ssml_parser/normalizer/zh/tools.py:49-53 | As written, every non-zero multiple of 10^8 ends in `零` (10^8 gives `一亿零`). |
| `NumeralShape.FixedNoTrailingLing` | ssml_parser/normalizer/zh/tools.py:49-53 | The corrected numeral of a non-zero integer never ends in `零`. |
| `NumeralShape.FixedAgreesBelowYi` | ssml_parser/normalizer/zh/tools.py:46-57 | Below 10^8, for non-negative literals, the renderer as written and the corrected one give the same result. |
| `Scanners.DigitRunLen` | ssml_parser/normalizer/zh/regex.py:6 | The run of digits at the front of a string is maximal: it is all digits, and the character after it is not a digit. |
| `Scanners.Runs` | ssml_parser/normalizer/zh/regex.py:6 | `NUMBERS.findall` yields non-empty runs of digits. |
| `Scanners.RunsKeepDigits` | ssml_parser/normalizer/zh/regex.py:6 | The runs, concatenated, are exactly the digits of the text, in order. |
| `Scanners.RunsSplit` | ssml_parser/normalizer/zh/regex.py:6 | A non-digit separates runs: the runs of `a + [c] + b` are the runs of `a` followed by those of `b`. |
| `Scanners.CardinalStart` | ssml_parser/normalizer/zh/regex.py:5 | A `CARDINAL` match starts at a position exactly when a digit, or a `-` followed by a digit, is there. |
| `Scanners.CardinalShapeInt` | ssml_parser/normalizer/zh/regex.py:5 | A match has an optional single `-` and then a maximal non-empty run of digits. |
| `Scanners.GroupsLen` | ssml_parser/normalizer/zh/regex.py:5 | The `(,\d{3})*` part takes a whole number of four-character groups, and no further group starts after it. |
| `Scanners.CardinalShapeGroups` | ssml_parser/normalizer/zh/regex.py:5 | Then come zero or more `,ddd` groups, as many as there are. |
| `Scanners.CardinalShapeFraction` | ssml_parser/normalizer/zh/regex.py:5 | The decimal part is taken only as `.` followed by at least one digit, and then all the digits that follow. A bare `.` is not consumed. |
| `Scanners.CardinalPrefix` | ssml_parser/normalizer/zh/regex.py:5 | The matched prefix, scanned on its own, is matched in full. |
| `Scanners.CardinalPiecesCover` | ssml_parser/normalizer/zh/regex.py:5 | `CARDINAL.sub`'s split of a text into matches and the text between them loses nothing: the pieces concatenate back to the text. |
| `Scanners.CardinalPiecesMatch` | ssml_parser/normalizer/zh/regex.py:5 | Every number piece of that split is one whole `CARDINAL` match. |
| `CardinalText.DropTrailingZeros` | ssml_parser/normalizer/zh/normalize.py:288 | `("1" + d).strip("0")[1:]` is the longest prefix of `d` that does not end in `0`; only zeros are dropped. |
| `CardinalText.CardinalCut` | ssml_parser/normalizer/zh/normalize.py:280-286 | A run is cut into its sign, integer part and decimal part, and they are exactly the parts it was built from. |
| `CardinalText.CardinalParts` | ssml_parser/normalizer/zh/normalize.py:275-292 | The reading is `负` when negative, then `integer_to_chinese` of the integer part with commas removed, then `点` and the decimal digits one by one when anything is left after trailing zeros are dropped. It fails exactly when that call fails or a decimal is not a digit. |
| `CardinalText.CardinalInteger` | ssml_parser/normalizer/zh/normalize.py:275-292 | A signed integer run reads as `负` for the sign and then `integer_to_chinese` of its digits. That reading reads back as the integer, even with a dangling `零` after `亿`. |
| `CardinalText.CardinalTrailingLing` | ssml_parser/normalizer/zh/normalize.py:275-292 | A cardinal whose integer part is a nonzero multiple of 10^8 is read ending in `零`: `100000000` gives `一亿零`. |
| `CardinalText.NoDigitsUnchanged` | ssml_parser/normalizer/zh/normalize.py:148 | A text with no digit has no match, and the rewriting returns it unchanged. |
| `ZhNormalize.CardinalNoDigits` | ssml_parser/normalizer/zh/normalize.py:143-150 | `cardinal_normalize` returns a text with no digit as it is. |
| `DigitText.PhoneGroupsCover` | ssml_parser/normalizer/zh/normalize.py:295-310 | The groups `_phone_normalize` reads, concatenated, are exactly the digit run. |
| `DigitText.PhoneReadsGroups` | ssml_parser/normalizer/zh/normalize.py:295-310 | `_phone_normalize` spells each group digit by digit and joins the groups with one space. |
| `DigitText.SpellAll` | ssml_parser/normalizer/zh/normalize.py:299-310 | Each group is spelled digit by digit, one spelling per group, in order. |
| `DigitText.PhoneGroupSizes` | ssml_parser/normalizer/zh/normalize.py:299-310 | Up to 5 digits make one group. 6 digits give `3 + 3` and a final empty group. Longer runs split into groups of 3 to 5. |
| `DigitText.ElevenDigits` | ssml_parser/normalizer/zh/normalize.py:299-310 | Eleven digits are grouped 3 + 4 + 4. |
| `DigitText.EightDigits` | ssml_parser/normalizer/zh/normalize.py:301-302 | Eight digits are grouped 4 + 4. |
| `DigitText.PhoneDigits` | ssml_parser/normalizer/zh/normalize.py:295-310 | Taking out the spaces gives the digit-by-digit spelling in the original order. |
| `DigitText.PhoneParts` | ssml_parser/normalizer/zh/normalize.py:116 | Each run is read by `_phone_normalize` and stripped. |
| `DigitText.TelephoneDigits` | ssml_parser/normalizer/zh/normalize.py:110-118 | Without spaces, `telephone_normalize` is the digit-by-digit spelling of the text's digits, with `一` read as `幺`. |
| `DigitText.TelephoneNoYi` | ssml_parser/normalizer/zh/normalize.py:117 | The telephone reading contains no `一`. |
| `DigitText.TelephoneNoDigits` | ssml_parser/normalizer/zh/normalize.py:115-118 | A text with no digit reads as the empty string. |
| `DigitText.Collapse` | ssml_parser/normalizer/zh/normalize.py:136 | After `re.sub(r"\s+", " ", …)` the only whitespace left is single spaces, and no other character is added. |
| `DigitText.NominalNormalize` | ssml_parser/normalizer/zh/normalize.py:122-138 | The character loop builds `NominalSpec(text)`: a digit gives its numeral, a letter gives `" c "`, punctuation gives a space, and anything else is copied. Then whitespace collapses and `一` becomes `幺`. |
| `DigitText.NominalShape` | ssml_parser/normalizer/zh/normalize.py:126-138 | The nominal reading has no two whitespace characters in a row, all its whitespace is single spaces, and it has no `一` and no ASCII digit or punctuation. |
| `DigitText.NominalReading` | ssml_parser/normalizer/zh/normalize.py:126-138 | Without spaces, the nominal reading is the per-character reading (digits spelled, punctuation dropped, everything else kept) with `一` as `幺`. |
| `DigitText.ExpandedReading` | ssml_parser/normalizer/zh/normalize.py:126-135 | With spaces disregarded, the string the character loop builds is the per-character reading. |
| `DigitText.NominalLeadingLetter` | ssml_parser/normalizer/zh/normalize.py:130-136 | A text starting with a letter gives a reading that starts with a space and then that letter: nothing is trimmed. |
| `DigitText.NominalDigits` | ssml_parser/normalizer/zh/normalize.py:128-137 | A string of digits reads as its digit-by-digit spelling with `一` as `幺`. |
| `FstTables.FindValue` | ssml_parser/normalizer/zh/fst.py:38-42 | A spelling maps to the largest value in range whose spellings include it, because a later dict entry overwrites an earlier one. It maps to nothing when no value in range has it. |
| `FstTables.CnSpellingAsWritten` | ssml_parser/normalizer/zh/fst.py:49 | The Chinese spellings in the tables, built with `integer_to_chinese` as written, are the corrected numerals for every number the tables use. |
| `FstTables.ReadYear` | ssml_parser/normalizer/zh/fst.py:59-67 | A year of 2 or 4 year digits, with an optional `年` after it, reads as exactly that many ASCII digits. Chinese digits are mapped to ASCII ones. |
| `FstTables.YearDigitValue` | ssml_parser/normalizer/zh/fst.py:59-63 | Each year digit, ASCII or Chinese, is written as an ASCII digit. |
| `FstTables.ReadFieldCanonical` | ssml_parser/normalizer/zh/fst.py:23-179 | Every field writes a non-empty string of ASCII digits and capital letters, so no value holds a `-`, `:` or space. |
| `FstValues.WritesRange` | ssml_parser/normalizer/zh/fst.py:23-160 | Months write 1–12, days 1–31, hours 0–24, and minutes and seconds 0–59. |
| `FstValues.WritesYear` | ssml_parser/normalizer/zh/fst.py:59-67 | The year fields write ASCII digits. |
| `FstValues.WritesPeriod` | ssml_parser/normalizer/zh/fst.py:162-170 | The period field writes `AM` or `PM`. |
| `FstMatch.ParsesComplete` | ssml_parser/normalizer/zh/fst.py:103-106 | Every split of the text into field spellings and separators is among the enumerated parses. |
| `FstMatch.ParsesSound` | ssml_parser/normalizer/zh/fst.py:103-106 | Every enumerated parse is such a split. |
| `FstMatch.Best` | ssml_parser/normalizer/zh/normalize.py:207 | `shortestpath`: the parse chosen is one of the parses, and no parse weighs less. |
| `FstMatch.MatchSpec` | ssml_parser/normalizer/zh/normalize.py:205-209 | There is no match exactly when the text has no split. Otherwise the values are those of a split of minimum total weight. |
| `FstValues.MatchValues` | ssml_parser/normalizer/zh/fst.py:80-106 | Each slot of a match is empty for an absent optional segment, or a value that one of its segment's fields writes. |
| `FstBuild.FieldOf` | ssml_parser/normalizer/zh/fst.py:14-19 | Format letters name date fields (`m d y Y`) for dates and time fields (`h M s I`) for times. |
| `FstBuild.BuildFst` | ssml_parser/normalizer/zh/fst.py:98-106 | The loop fails, carrying the format, exactly when some letter is unsupported. Otherwise it builds one mandatory segment per letter, each followed by any number of separators. |
| `FstBuild.ExplicitSplitShape` | ssml_parser/normalizer/zh/fst.py:103-106 | In an explicit-format split every field is present, in format order, and the split weighs nothing. |
| `FstValues.ExplicitValues` | ssml_parser/normalizer/zh/fst.py:103-106 | Under an explicit format the i-th value is written by the field of the i-th letter. |
| `FstValues.DefaultDateValues` | ssml_parser/normalizer/zh/fst.py:80-96 | The default date transducer fills 3 slots: a digit-string year, a month 1–12 and a day 1–31, each possibly empty. |
| `FstValues.DefaultTimeValues` | ssml_parser/normalizer/zh/fst.py:181-196 | The default time transducer fills 5 slots: `AM`/`PM`, an hour 0–24, a minute 0–59, a second 0–59, and `AM`/`PM`, each possibly empty. |
| `DateTimeText.OneChar` | ssml_parser/normalizer/zh/normalize.py:181 | `integer_to_chinese` of one character succeeds exactly on a digit, and gives its numeral. |
| `DateTimeText.SpellEach` | ssml_parser/normalizer/zh/normalize.py:181 | Spelling a year character by character succeeds exactly on all-digit strings, and gives the digit-by-digit spelling. |
| `DateTimeText.DateField` | ssml_parser/normalizer/zh/normalize.py:183-192 | A month or day field succeeds exactly when it is empty, or an integer literal of at most 16 digits no larger than its bound. |
| `DateTimeText.BuildDateStr` | ssml_parser/normalizer/zh/normalize.py:175-193 | `build_date_str` succeeds exactly when the year is digits, the month is empty or at most 12, and the day is empty or at most 31, a month or day having at most 16 digits. |
| `DateTimeText.DateStrWritten` | ssml_parser/normalizer/zh/normalize.py:175-193 | For a valid year, month and day, the reading is the year digit by digit + `年`, the month numeral + `月`, and the day numeral + `日`. Empty fields are skipped. |
| `DateTimeText.DateStrRange` | ssml_parser/normalizer/zh/normalize.py:184-190 | A month above 12 or a day above 31 is refused. |
| `DateTimeText.CnNumberReads` | ssml_parser/normalizer/zh/tools.py:27-57 | The numeral of every number below 10^8 reads back as that number. |
| `DateTimeText.HourPart` | ssml_parser/normalizer/zh/normalize.py:229-231 | The hour succeeds exactly when it is empty or an integer literal of at most 16 digits. |
| `DateTimeText.ClockPart` | ssml_parser/normalizer/zh/normalize.py:233-251 | A minute or second succeeds exactly when it is empty or an integer literal no larger than 59. A positive value must also have at most 16 digits. Zero and negative values give the zero word. |
| `DateTimeText.BuildTimeStr` | ssml_parser/normalizer/zh/normalize.py:213-255 | `build_time_str` succeeds exactly when its stripped hour, minute and second are acceptable. A result never ends in `点`. |
| `DateTimeText.TimeWords` | ssml_parser/normalizer/zh/normalize.py:222-255 | On stripped fields, the time reading succeeds exactly when the hour is empty or an integer literal of at most 16 digits and the minute and second are empty or acceptable clock values. A success never ends in `点`. |
| `DateTimeText.Closed` | ssml_parser/normalizer/zh/normalize.py:253-254 | Appending `整` after a trailing `点` leaves a reading that never ends in `点`. |
| `DateTimeText.TimeStrWritten` | ssml_parser/normalizer/zh/normalize.py:213-255 | For an in-range time, the reading is `上午`/`下午`, then the hour + `点`, then the minute and second, each with `零` before a value below 10. Minute 0 before a non-zero second gives `零分`. An hour alone gets `整`. |
| `DateTimeText.ZeroWritten` | ssml_parser/normalizer/zh/normalize.py:241 | `second.strip("0")` is non-empty exactly when a second is there and is non-zero. |
| `ZhNormalize.ZipGet` | ssml_parser/normalizer/zh/normalize.py:49 | `dict(zip(…))` holds a key exactly when it occurs among the first `min` letters, and its value is that of the last such occurrence. |
| `ZhNormalize.NormalizeWithFormat` | ssml_parser/normalizer/zh/normalize.py:196-210 | The explicit-format reader gives the match values joined by `-` or ` : `, or `""`. |
| `ZhNormalize.WithFormatEmpty` | ssml_parser/normalizer/zh/normalize.py:196-210 | The explicit-format reader gives `""` exactly when the format is unsupported or the text has no match. |
| `ZhNormalize.ExplicitClean` | ssml_parser/normalizer/zh/fst.py:103-106 | Each explicit-format value is non-empty and canonical, so splitting the joined string gives the values back. |
| `ZhNormalize.ExplicitDateItems` | ssml_parser/normalizer/zh/normalize.py:48 | Splitting the joined date values at `-` gives exactly the values. |
| `ZhNormalize.DefaultDateItems` | ssml_parser/normalizer/zh/normalize.py:63-64 | The default date result splits into exactly 3 items, and each item, stripped, is its slot's value. |
| `ZhNormalize.DateNormalize` | ssml_parser/normalizer/zh/normalize.py:41-71 | `date_normalize` computes `DateSpec`. |
| `ZhNormalize.DateExplicit` | ssml_parser/normalizer/zh/normalize.py:45-56 | When the format matches, the year (`Y` preferred over `y`) is digits, the month is 1–12 and the day is 1–31. The result is the date reading of the fields taken by letter position. |
| `ZhNormalize.DateFallback` | ssml_parser/normalizer/zh/normalize.py:45-71 | With no format, an unsupported one, or no match, the default transducer decides. |
| `ZhNormalize.DefaultDateReads` | ssml_parser/normalizer/zh/normalize.py:59-68 | When the default transducer matches, the result is the date reading of its three slots. |
| `ZhNormalize.DefaultDateNone` | ssml_parser/normalizer/zh/normalize.py:69-71 | When nothing matches, the result is the general normalizer's. |
| `ZhNormalize.ExplicitTimeItems` | ssml_parser/normalizer/zh/normalize.py:81 | Splitting the ` : `-joined values at `:` gives items that strip back to the values. |
| `ZhNormalize.DefaultTimeItems` | ssml_parser/normalizer/zh/normalize.py:97-99 | Splitting the default time result at ` : ` gives exactly its 5 slot values. |
| `ZhNormalize.TimeNormalize` | ssml_parser/normalizer/zh/normalize.py:74-107 | `time_normalize` computes `TimeSpec`. |
| `ZhNormalize.TimeExplicit` | ssml_parser/normalizer/zh/normalize.py:78-90 | When the format matches, the hour is 0–24, the minute and second are 0–59, and the period is `AM`, `PM` or absent. The result is their time reading. |
| `ZhNormalize.TimeFallback` | ssml_parser/normalizer/zh/normalize.py:78-107 | With no format, an unsupported one, or no match, the default transducer decides. |
| `ZhNormalize.DefaultTimeReads` | ssml_parser/normalizer/zh/normalize.py:93-104 | When the default transducer matches, the result is the time reading of its slots. A leading period wins over a trailing one. |
| `ZhNormalize.DefaultTimeNone` | ssml_parser/normalizer/zh/normalize.py:105-107 | When nothing matches, the result is the general normalizer's. |
| `ZhNormalize.Normalize` | ssml_parser/normalizer/zh/normalize.py:19-38 | Dispatch: `date`, `time`, `phone`, `nominal` and `cardinal` go to their readers. Anything else, `ordinal` and `email` included, goes to the general normalizer. |
| `SsmlTree.CanMergeByName` | ssml_parser/base/element.py:99-128 | Two tags can merge exactly when both names are among `_plain`, `say-as` and `sub`. Containers and `break` use the base `can_merge`, which is false. |
| `SsmlTree.TagNameInjective` | ssml_parser/base/element.py:76-125 | Each tag class has its own `__tagname__`. |
| `SsmlTree.Element.CanMergeWith` | ssml_parser/base/element.py:102-103 | A receiver merges with an element exactly when the receiver is a text leaf and the element's name is `_plain`, `say-as` or `sub`. |
| `SsmlTree.Merged` | ssml_parser/base/element.py:105-134 | A merge of two leaves is a `_plain` leaf holding the two texts in order. |
| `SsmlTree.Element.Merge` | ssml_parser/base/element.py:105-134 | The base merge returns the receiver unchanged, and a non-leaf argument is an error. `_plain` appends the text in place and returns itself. `say-as` and `sub` return a fresh `_plain` with the receiver's parent, empty attributes and the joined text, and leave the receiver as it was. |
| `SsmlTree.Element.GetAttrInPath` | ssml_parser/base/element.py:28-34 | The loop up the parent chain finds `AttrInPath(this, name)`. |
| `SsmlTree.AttrInPathNearest` | ssml_parser/base/element.py:28-34 | The value comes from the nearest self-or-ancestor that has the attribute, or is absent when no element on the path has it. |
| `SsmlTree.Element.Normalize` | ssml_parser/base/element.py:42-73 | A normalize pass leaves the tree shape and footprint alone and rewrites the texts as `NormalizeTree` says, under the language inherited from the parent chain. |
| `SsmlTree.Element.NormalizeText` | ssml_parser/base/element.py:70-137 | A leaf normalizes by its kind: `break` empties its text, `sub` takes `alias` when present, and the rest go through the normalizer of the inherited language when there is one. The model becomes `NormalizeTree` of the old one. |
| `SsmlTree.Element.NormalizeChildren` | ssml_parser/base/element.py:42-44 | A container normalizes each child in turn. Its own tag, attributes and child list stay the same, and its model becomes `NormalizeTree` of the old one. |
| `SsmlTree.Element.NormalizeKid` | ssml_parser/base/element.py:43-44 | One turn of the loop normalizes child `i` under the container's inherited language and leaves the other children's values alone. |
| `SsmlTree.NormalizeEach` | ssml_parser/base/element.py:42-44 | A container normalizes every child in order, under the same language. |
| `SsmlTree.NormalizeShape` | ssml_parser/base/element.py:42-137 | Normalizing changes only leaf texts: the tags, attributes and children stay as they were. |
| `SsmlTree.NormalizeSilent` | ssml_parser/base/element.py:95-96 | After normalizing, every `break` has empty text. |
| `SsmlTree.NormalizeWithout` | ssml_parser/base/element.py:70-137 | With no normalizers, only `break` (emptied) and `sub` (`alias` when present) change. All other leaves keep their text. |
| `SsmlTree.Element.MergeChildren` | ssml_parser/base/element.py:46-62 | `merge_children` leaves the container's value equal to `MergeTree` of the old value. |
| `SsmlTree.Element.MergeEachChild` | ssml_parser/base/element.py:47-49 | The first loop leaves every container child merged and the child list itself unchanged. |
| `SsmlTree.Element.MergeKid` | ssml_parser/base/element.py:47-49 | One turn of the first loop merges child `i`'s subtree and leaves the other children and their footprints alone. |
| `SsmlTree.Element.MergeAdjacent` | ssml_parser/base/element.py:51-62 | The accumulator loop replaces the children by `MergeList` of the old ones. An empty list stays empty. |
| `SsmlTree.Element.Absorb` | ssml_parser/base/element.py:56-57 | `current.merge(child)` makes the merged leaf the new current element, and every other element keeps its value. |
| `SsmlTree.MergeList` | ssml_parser/base/element.py:51-62 | Merging never lengthens a list, and it gives the empty list exactly for the empty list. |
| `SsmlTree.MergeRun` | ssml_parser/base/element.py:53-62 | The accumulator fold over the remaining children yields at least one node and at most one more than the remaining children, all well formed. |
| `SsmlTree.MergeTree` | ssml_parser/base/element.py:46-62 | Merging keeps a node's tag, kind and attributes. |
| `SsmlTree.MergeEach` | ssml_parser/base/element.py:47-49 | The first loop replaces each child by its merged subtree and keeps the number of children. |
| `SsmlTree.MergeListNoAdjacent` | ssml_parser/base/element.py:53-62 | After the fold, no two neighbours can merge. |
| `SsmlTree.MergeListText` | ssml_parser/base/element.py:53-62 | The fold keeps the concatenated text of the list. |
| `SsmlTree.MergeTreeText` | ssml_parser/base/element.py:46-62 | `merge_children` keeps the text of the whole subtree. |
| `SsmlTree.MergeEachText` | ssml_parser/base/element.py:47-49 | Merging each child keeps the concatenated text of the children. |
| `SsmlTree.MergeTreeCompact` | ssml_parser/base/element.py:46-62 | After `merge_children`, no container anywhere in the subtree has two mergeable neighbours. |
| `SsmlTree.CompactFixed` | ssml_parser/base/element.py:53-62 | A tree with no mergeable neighbours is left as it is. |
| `SsmlTree.MergeTreeIdempotent` | ssml_parser/base/element.py:46-62 | Merging a second time changes nothing. |
| `SsmlTree.Element.AppendChild` | ssml_parser/base/parser.py:70 | `children.append` adds the child at the end and adds its subtree to the container's. |
| `SsmlTree.Element.InitLeaf` | ssml_parser/base/element.py:66-68 | A new leaf has the given parent, attributes and text, and no children. |
| `SsmlTree.Element.InitContainer` | ssml_parser/base/element.py:38-40 | A new container has the given parent and attributes, and no children. |
| `SsmlParsing.RegisterSpec` | ssml_parser/base/parser.py:19-20 | Registering tags maps each tag's name to its tag and adds no other name. Every entry whose name no registered tag carries keeps its value. |
| `SsmlParsing.Registered` | ssml_parser/base/parser.py:18-20 | After `init`, every tag is registered under its name, and the registered names are exactly the eight tag names. |
| `SsmlParsing.SsmlParser.constructor` | ssml_parser/base/parser.py:12-16 | A new parser has no tags and one frame binding the XML namespace to `xml`. |
| `SsmlParsing.SsmlParser.Init` | ssml_parser/base/parser.py:18-20 | The registration loop leaves `tags` equal to `Register(old tags, all eight tags)`. |
| `SsmlParsing.SsmlParser.Parse` | ssml_parser/base/parser.py:25-30 | A default namespace is bound to the empty prefix in the outer frame. The result is the walk's result, and the frame stack is the one the walk leaves. |
| `SsmlParsing.ResolveInnermost` | ssml_parser/base/parser.py:99-104 | The frames are scanned innermost first, and the first binding of the URI wins. When no frame binds it, the result is absent. |
| `SsmlParsing.PrefixedPlain` | ssml_parser/base/parser.py:96-97 | A name without `}` is returned unchanged. |
| `SsmlParsing.PrefixedClark` | ssml_parser/base/parser.py:96-104 | `{uri}local` becomes `prefix:local`, or just `local` for the empty prefix. An unbound URI is an error. |
| `SsmlParsing.PrefixedMalformed` | ssml_parser/base/parser.py:98 | A name with two `}` fails to unpack, which is an error. |
| `SsmlParsing.XmlLangPrebound` | ssml_parser/base/parser.py:14-16 | With the initial frame, `{http://www.w3.org/XML/1998/namespace}lang` becomes `xml:lang`. |
| `SsmlParsing.DefaultNamespaceBare` | ssml_parser/base/parser.py:103 | A URI bound to the empty prefix, such as the default `xmlns` of `<speak>`, gives the bare local name. |
| `SsmlParsing.XmlnsSplit` | ssml_parser/base/parser.py:43-44 | An `xmlns:` attribute splits at `:` into at least two parts, so `split(':')[1]` exists. |
| `SsmlParsing.SsmlParser.PrefixedName` | ssml_parser/base/parser.py:81-104 | The reversed loop over the frames computes `Prefixed(name, namespaces)`. |
| `SsmlParsing.SsmlParser.FrameOfAttrib` | ssml_parser/base/parser.py:41-45 | The attribute loop collects a frame `FrameOf(attrib)` from the `xmlns:` attributes. |
| `SsmlParsing.SsmlParser.AttributesOf` | ssml_parser/base/parser.py:53-58 | The attribute loop computes `AttrsOf(attrib, namespaces)`, resolving `{uri}` names and failing as name resolution does. |
| `SsmlParsing.AttrsOfPlain` | ssml_parser/base/parser.py:53-58 | Attributes without `{` all succeed, and the attribute map has exactly their names. |
| `SsmlParsing.AttrsOfErr` | ssml_parser/base/parser.py:55-57 | The first attribute that fails decides the error. |
| `SsmlParsing.Build` | ssml_parser/base/parser.py:32-79 | The walk only pushes frames: the stack it leaves begins with the stack it was given. |
| `SsmlParsing.BuildUnsupported` | ssml_parser/base/parser.py:47-50 | A tag name that is not registered is the `Unsupported SSML tag` error. |
| `SsmlParsing.PlainTagSupported` | ssml_parser/base/parser.py:18-50 | A name without `{` is looked up as it is. After `init` it is supported exactly when it is one of the eight tag names. |
| `SsmlParsing.BuildLeafIgnoresChildren` | ssml_parser/base/parser.py:60-63 | A leaf tag is built from its own text only: its sub-elements do not matter. |
| `SsmlParsing.BuildLeafKeepsFrame` | ssml_parser/base/parser.py:46-63 | A leaf returns without popping the frame it pushed. |
| `SsmlParsing.ContainerFrameStays` | ssml_parser/base/parser.py:46-78 | A container with one leaf child leaves its own frame on the stack, because the container's pop removes the leaf's frame instead. |
| `SsmlParsing.BuildContainer` | ssml_parser/base/parser.py:65-77 | A container's children are a `_plain` leaf for non-empty leading text, then each child's subtree followed by a `_plain` for its non-empty tail. |
| `SsmlParsing.BuildKidsCount` | ssml_parser/base/parser.py:72-77 | Each child element gives one node, plus one more for a non-empty tail. |
| `SsmlParsing.BuildWellFormed` | ssml_parser/base/parser.py:60-79 | Every built tree is well formed: leaves carry leaf tags and containers carry container tags. |
| `SsmlParsing.SsmlParser.ParseElement` | ssml_parser/base/parser.py:32-79 | `_parse_element` agrees with the walk: the same error, or a valid fresh tree under `parent` whose value is the built one. The frame stack is left as the walk leaves it. |
| `SsmlParsing.SsmlParser.ParseContainer` | ssml_parser/base/parser.py:65-79 | A container fails exactly when one of its children fails. Otherwise it holds the leading text leaf and the built children, and the top frame of the stack the children's walk leaves is popped. |
| `SsmlParsing.SsmlParser.StartContainer` | ssml_parser/base/parser.py:65-70 | A new container starts with a `_plain` child for non-empty leading text, and nothing otherwise. |
| `SsmlParsing.SsmlParser.ParseChildren` | ssml_parser/base/parser.py:72-77 | The child loop appends the children the walk builds, in order, and stops at the first error with the walk's frame stack. |
| `SsmlParsing.SsmlParser.ParseChild` | ssml_parser/base/parser.py:73-77 | One turn of the loop appends the child's subtree and a `_plain` for its non-empty tail. |

## Left out

- pynini itself is not modelled: `string_map`, `closure`, `optimize`, composition, and the tie-breaking of `shortestpath` between paths of equal weight. Matching is a relation over splittings of the text. When several splits have the least weight, the model picks one by its own enumeration order, and no property depends on which one. Weights are scaled by 10: year 20, month 9, day 10, second 11.
- `pynini.FstOpError` from `shortestpath` on an empty composition is modelled as "no match".
- The general normalizer `zh_tn_model` of the external `tn` package, used by `plain_normalize`, `ordinal_normalize` and `email_normalize`, is a parameter: an arbitrary function on strings.
- `ET.fromstring` and the regular-expression scan of the raw `<speak>` tag are left out. The parsed element is the datatype `XmlElement`, with absent text and tail written as `""`. The `xmlns` found on `<speak>` is a parameter of `Parse`.
- lxml's `nsmap` is left out: the standard library element has none, so only `xmlns:` attributes feed a frame.
- The `Normalizer` base class is not part of this model. A normalizer is a function from text and attributes to text.
- The `normalizer/zh/__init__.py` forwarder is folded into the dispatch.
- The demo and print-only scripts and the `test()` helpers are left out.
- `isdigit`, `\d` and `int()` are restricted to ASCII digits. `int()`'s surrounding whitespace, `+` sign and underscores are not modelled. The callers never pass them.
- `FstBuild.BuildFst`: the empty format is excluded by its precondition. In the source, `dformat[0]` raises `IndexError` on an empty format, but every caller tests the format first.
- `SsmlTree.Element.Merge`: aliasing between the receiver and its argument is not modelled. The two may be the same object only in a call the source never makes.
- The `text` field of a container is unused and not given a meaning. The source gives containers no text.
- `SsmlParsing.SsmlParser.ParseElement`: on an error, only the error and the frame stack are specified. The partly built elements are garbage in the source too.

## Findings

| source | as written | input that shows it | evidently intended | confidence | as-written member | corrected member |
|---|---|---|---|---|---|---|
| ssml_parser/normalizer/zh/tools.py:37-48 | The `负` prefix built at lines 37-39 is overwritten by the assignment at line 48 for any input of two or more digits. | `integer_to_chinese("-12")` gives `十二`, which reads as 12. | `负十二`, which reads as -12. | not executed | `NumeralReading.SignLostExample` | `NumeralReading.ReadBackFixed` |
| ssml_parser/normalizer/zh/tools.py:49-53 | After `亿`, a `零` is appended whenever digit 7 or 8 of the padded string is `0`, even when nothing follows. | `integer_to_chinese("100000000")` gives `一亿零`. | `一亿`: no `零` when the lower eight digits are all zero. | not executed | `NumeralShape.AsWrittenTrailingLing` | `NumeralShape.FixedNoTrailingLing` |
