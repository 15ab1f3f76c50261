/** Markdown export: file names, dates and the document text
    (`generate_filename`, `sanitize_filename`, `format_date`,
    `generate_markdown`, `generate_highlight_markdown`).

    chrono's date parser and the float-to-percentage conversion are
    parameters: `parseDate` reads "%Y-%m-%d" and `percent` is
    `(progress * 100.0) as i32`. */
module Export {
  import opened Wrappers
  import opened Strings
  import opened Models

  // ---------------------------------------------------------------------
  // File names
  // ---------------------------------------------------------------------

  /** Rust `char::is_ascii_control`. */
  predicate IsAsciiControl(c: char) {
    c as int <= 0x1F || c as int == 0x7F
  }

  const ForbiddenChars: string := "/\\?*|\"<>"

  predicate IsForbidden(c: char) {
    c in ForbiddenChars
  }

  /** A character no sanitized name contains. */
  predicate IsUnsafe(c: char) {
    c == ':' || IsForbidden(c) || IsAsciiControl(c)
  }

  /** A name with no unsafe character. */
  predicate Safe(s: string) {
    forall i :: 0 <= i < |s| ==> !IsUnsafe(s[i])
  }

  /** Replacing each character by a string, in order; a Rust `replace` with
      a character pattern is one of these. */
  function FlatMap(f: char -> string, s: string): string {
    if |s| == 0 then [] else FlatMap(f, s[..|s| - 1]) + f(s[|s| - 1])
  }

  lemma {:induction false} FlatMapAppend(f: char -> string, a: string, b: string)
    ensures FlatMap(f, a + b) == FlatMap(f, a) + FlatMap(f, b)
    decreases |b|
  {
    if |b| > 0 {
      var b' := b[..|b| - 1];
      assert (a + b)[..|a + b| - 1] == a + b';
      assert (a + b)[|a + b| - 1] == b[|b| - 1];
      FlatMapAppend(f, a, b');
    } else {
      assert a + b == a;
    }
  }

  /** `.replace(':', " -")` */
  function ColonPass(c: char): string {
    if c == ':' then " -" else [c]
  }

  /** `.replace(['/', '\\', '?', '*', '|', '"', '<', '>'], "-")` */
  function ForbiddenPass(c: char): string {
    if IsForbidden(c) then "-" else [c]
  }

  /** `.replace(|c: char| c.is_ascii_control(), "")` */
  function ControlPass(c: char): string {
    if IsAsciiControl(c) then "" else [c]
  }

  /** What one character of the trimmed name turns into once all three
      replacements have run. */
  function SanitizeChar(c: char): string {
    if c == ':' then " -"
    else if IsForbidden(c) then "-"
    else if IsAsciiControl(c) then ""
    else [c]
  }

  lemma FlatMapOne(f: char -> string, c: char)
    ensures FlatMap(f, [c]) == f(c)
  {
    assert [c][..0] == [];
  }

  /** A character that every pass keeps passes all three unchanged. */
  lemma FlatMapKept(f: char -> string, s: string)
    requires forall i :: 0 <= i < |s| ==> f(s[i]) == [s[i]]
    requires |s| <= 2
    ensures FlatMap(f, s) == s
  {
    if |s| == 1 {
      FlatMapOne(f, s[0]);
    } else if |s| == 2 {
      FlatMapOne(f, s[0]);
      FlatMapOne(f, s[1]);
      FlatMapAppend(f, [s[0]], [s[1]]);
      assert s == [s[0]] + [s[1]];
    }
  }

  lemma ThreePassesOneChar(c: char)
    ensures FlatMap(ControlPass, FlatMap(ForbiddenPass, ColonPass(c))) == SanitizeChar(c)
  {
    if c == ':' {
      FlatMapKept(ForbiddenPass, " -");
      FlatMapKept(ControlPass, " -");
    } else if IsForbidden(c) {
      FlatMapOne(ForbiddenPass, c);
      FlatMapKept(ControlPass, "-");
    } else {
      FlatMapOne(ForbiddenPass, c);
      FlatMapOne(ControlPass, c);
    }
  }

  /** The three `replace` passes are one left-to-right character map. */
  lemma {:induction false} ThreePasses(s: string)
    ensures FlatMap(ControlPass, FlatMap(ForbiddenPass, FlatMap(ColonPass, s))) == FlatMap(SanitizeChar, s)
    decreases |s|
  {
    if |s| > 0 {
      var pre := s[..|s| - 1];
      var c := s[|s| - 1];
      ThreePasses(pre);
      FlatMapAppend(ForbiddenPass, FlatMap(ColonPass, pre), ColonPass(c));
      FlatMapAppend(ControlPass, FlatMap(ForbiddenPass, FlatMap(ColonPass, pre)),
                    FlatMap(ForbiddenPass, ColonPass(c)));
      ThreePassesOneChar(c);
    }
  }

  /** No unsafe character survives. */
  lemma {:induction false} SanitizedSafe(t: string)
    ensures Safe(FlatMap(SanitizeChar, t))
    decreases |t|
  {
    if |t| > 0 {
      SanitizedSafe(t[..|t| - 1]);
    }
  }

  /** A name without unsafe characters passes through unchanged. */
  lemma {:induction false} SanitizeKeepsSafe(t: string)
    requires Safe(t)
    ensures FlatMap(SanitizeChar, t) == t
    decreases |t|
  {
    if |t| > 0 {
      SanitizeKeepsSafe(t[..|t| - 1]);
      assert t == t[..|t| - 1] + [t[|t| - 1]];
    }
  }

  /** `sanitize_filename`: "Untitled" for a blank name, otherwise the trimmed
      name with every unsafe character replaced or dropped. */
  function SanitizeFilename(name: string): (r: string)
    ensures Trim(name) == [] ==> r == "Untitled"
    ensures Trim(name) != [] ==> r == FlatMap(SanitizeChar, Trim(name))
    ensures Safe(r)
  {
    var t := Trim(name);
    if t == [] then "Untitled"
    else
      ThreePasses(t);
      SanitizedSafe(t);
      FlatMap(ControlPass, FlatMap(ForbiddenPass, FlatMap(ColonPass, t)))
  }

  lemma {:induction false} AllControlVanishes(t: string)
    requires forall i :: 0 <= i < |t| ==> IsAsciiControl(t[i])
    ensures FlatMap(SanitizeChar, t) == []
    decreases |t|
  {
    if |t| > 0 {
      AllControlVanishes(t[..|t| - 1]);
    }
  }

  /** The blank test runs before the control characters are dropped, so a
      name made only of non-whitespace control characters becomes the
      empty string, not "Untitled". */
  lemma ControlOnlyNameIsEmpty(name: string)
    requires Trim(name) != []
    requires forall i :: 0 <= i < |Trim(name)| ==> IsAsciiControl(Trim(name)[i])
    ensures SanitizeFilename(name) == ""
  {
    AllControlVanishes(Trim(name));
  }

  lemma SafeAppend(a: string, b: string)
    requires Safe(a) && Safe(b)
    ensures Safe(a + b)
  {
    forall i | 0 <= i < |a + b| ensures !IsUnsafe((a + b)[i]) {
      if i >= |a| { assert (a + b)[i] == b[i - |a|]; }
    }
  }

  /** `generate_filename`: "title - author.md", each part sanitized. */
  function GenerateFilename(b: Book): (r: string)
    ensures r == SanitizeFilename(b.title) + " - " + SanitizeFilename(b.author) + ".md"
    ensures EndsWith(r, ".md")
    ensures Safe(r)
  {
    var t := SanitizeFilename(b.title);
    var a := SanitizeFilename(b.author);
    FilenameShape(t, a);
    t + " - " + a + ".md"
  }

  lemma FilenameShape(t: string, a: string)
    requires Safe(t) && Safe(a)
    ensures Safe(t + " - " + a + ".md")
    ensures EndsWith(t + " - " + a + ".md", ".md")
  {
    assert Safe(" - ") && Safe(".md");
    SafeAppend(t, " - ");
    SafeAppend(t + " - ", a);
    SafeAppend(t + " - " + a, ".md");
  }

  // ---------------------------------------------------------------------
  // Dates
  // ---------------------------------------------------------------------

  type Month = m: int | 1 <= m <= 12 witness 1
  type Day = d: int | 1 <= d <= 31 witness 1

  /** A date as chrono's `NaiveDate` holds it. */
  datatype Date = Date(year: int, month: Month, day: Day)

  const MonthNames: seq<string> := [
    "Janeiro", "Fevereiro", "Mar\U{E7}o", "Abril", "Maio", "Junho",
    "Julho", "Agosto", "Setembro", "Outubro", "Novembro", "Dezembro"
  ]

  /** A day or month zero-padded to two digits (Rust width-2 zero padding). */
  function TwoDigits(n: nat): string {
    ZeroPad(NatToString(n), 2)
  }

  /** chrono's `%Y`: four digits, zero-padded, for years 0 to 9999; outside
      that range a sign and at least four zero-padded digits. */
  function YearText(y: int): (r: string)
    ensures |r| >= 4
    ensures 0 <= y <= 9999 ==> |r| == 4 && AllDigits(r) && DecimalValue(r) == y
    ensures y < 0 ==> r[0] == '-' && AllDigits(r[1..]) && DecimalValue(r[1..]) == -y
    ensures y > 9999 ==> r[0] == '+' && AllDigits(r[1..]) && DecimalValue(r[1..]) == y
  {
    if 0 <= y <= 9999 then
      assert Pow10(2) == 100; assert Pow10(4) == 10000;
      Padded(y, 4);
      ZeroPad(NatToString(y), 4)
    else
      var n: nat := if y < 0 then -y else y;
      var sign := if y < 0 then "-" else "+";
      var digits := ZeroPad(NatToString(n), 4);
      PaddedAny(n, 4);
      var r := sign + digits;
      assert r[1..] == digits;
      r
  }

  /** `format_date`: text that does not parse is returned as it is. */
  function FormatDate(s: string, parseDate: string -> Option<Date>, f: DateFormat): (r: string)
    ensures parseDate(s).None? ==> r == s
    ensures parseDate(s).Some? && f == DdMmYyyy ==>
      var d := parseDate(s).value;
      r == TwoDigits(d.day) + "/" + TwoDigits(d.month) + "/" + YearText(d.year)
    ensures parseDate(s).Some? && f == Iso8601 ==>
      var d := parseDate(s).value;
      r == YearText(d.year) + "-" + TwoDigits(d.month) + "-" + TwoDigits(d.day)
    ensures parseDate(s).Some? && f == DdMonthYyyy ==>
      var d := parseDate(s).value;
      r == TwoDigits(d.day) + " " + MonthNames[d.month - 1] + " " + IntToString(d.year)
  {
    match parseDate(s)
    case None => s
    case Some(d) =>
      match f
      case DdMmYyyy => TwoDigits(d.day) + "/" + TwoDigits(d.month) + "/" + YearText(d.year)
      case DdMonthYyyy => TwoDigits(d.day) + " " + MonthNames[d.month - 1] + " " + IntToString(d.year)
      case Iso8601 => YearText(d.year) + "-" + TwoDigits(d.month) + "-" + TwoDigits(d.day)
  }

  predicate AllDigits(s: string) {
    forall i :: 0 <= i < |s| ==> IsDigit(s[i])
  }

  function Pow10(w: nat): nat {
    if w == 0 then 1 else 10 * Pow10(w - 1)
  }

  lemma {:induction false} NatToStringWidth(n: nat, w: nat)
    requires 1 <= w && n < Pow10(w)
    ensures |NatToString(n)| <= w
    decreases w
  {
    if n >= 10 {
      NatToStringWidth(n / 10, w - 1);
    }
  }

  lemma {:induction false} LeadingZeros(k: nat, s: string)
    requires AllDigits(s)
    ensures var t := seq(k, _ => '0') + s; AllDigits(t) && DecimalValue(t) == DecimalValue(s)
    decreases k + |s|
  {
    var z := seq(k, _ => '0');
    var t := z + s;
    assert AllDigits(t) by {
      forall i | 0 <= i < |t| ensures IsDigit(t[i]) {
        if i >= k { assert t[i] == s[i - k]; }
      }
    }
    if |s| > 0 {
      var pre := s[..|s| - 1];
      assert t[..|t| - 1] == z + pre;
      LeadingZeros(k, pre);
    } else if k > 0 {
      assert t == z;
      assert t[..|t| - 1] == seq(k - 1, _ => '0') + s;
      LeadingZeros(k - 1, s);
    }
  }

  /** `n` padded to at least `w` digits reads back as `n`. */
  lemma PaddedAny(n: nat, w: nat)
    ensures AllDigits(ZeroPad(NatToString(n), w))
    ensures DecimalValue(ZeroPad(NatToString(n), w)) == n
  {
    var s := NatToString(n);
    NatToStringValue(n);
    if |s| < w {
      LeadingZeros(w - |s|, s);
      assert ZeroPad(s, w) == seq(w - |s|, _ => '0') + s;
    } else {
      assert ZeroPad(s, w) == s;
    }
  }

  /** `n` padded to `w` digits, when it fits, is exactly `w` long. */
  lemma Padded(n: nat, w: nat)
    requires 1 <= w && n < Pow10(w)
    ensures |ZeroPad(NatToString(n), w)| == w
    ensures AllDigits(ZeroPad(NatToString(n), w))
    ensures DecimalValue(ZeroPad(NatToString(n), w)) == n
  {
    NatToStringWidth(n, w);
    PaddedAny(n, w);
  }

  /** A day or month prints as two digits that read back as it. */
  lemma TwoDigitsReadBack(n: nat)
    requires n < 100
    ensures |TwoDigits(n)| == 2 && AllDigits(TwoDigits(n)) && DecimalValue(TwoDigits(n)) == n
  {
    assert Pow10(2) == 100;
    Padded(n, 2);
  }

  /** The slices of `a + [x] + b + [y] + c`. */
  lemma FieldSlices(a: string, x: char, b: string, y: char, c: string)
    ensures var r := a + [x] + b + [y] + c;
      r[..|a|] == a && r[|a|] == x && r[|a| + 1..|a| + 1 + |b|] == b &&
      r[|a| + 1 + |b|] == y && r[|a| + 2 + |b|..] == c
  {
  }

  /** In "dd/mm/YYYY" the fields sit at fixed positions and read back as the
      parsed date, for a year of four digits. */
  lemma DayMonthYearReadsBack(s: string, parseDate: string -> Option<Date>)
    requires parseDate(s).Some? && 0 <= parseDate(s).value.year <= 9999
    ensures var d := parseDate(s).value;
      var r := FormatDate(s, parseDate, DdMmYyyy);
      |r| == 10 && r[2] == '/' && r[5] == '/' &&
      AllDigits(r[0..2]) && AllDigits(r[3..5]) && AllDigits(r[6..]) &&
      DecimalValue(r[0..2]) == d.day && DecimalValue(r[3..5]) == d.month &&
      DecimalValue(r[6..]) == d.year
  {
    var d := parseDate(s).value;
    TwoDigitsReadBack(d.day);
    TwoDigitsReadBack(d.month);
    FieldSlices(TwoDigits(d.day), '/', TwoDigits(d.month), '/', YearText(d.year));
  }

  /** The same for "YYYY-mm-dd". */
  lemma IsoReadsBack(s: string, parseDate: string -> Option<Date>)
    requires parseDate(s).Some? && 0 <= parseDate(s).value.year <= 9999
    ensures var d := parseDate(s).value;
      var r := FormatDate(s, parseDate, Iso8601);
      |r| == 10 && r[4] == '-' && r[7] == '-' &&
      AllDigits(r[0..4]) && AllDigits(r[5..7]) && AllDigits(r[8..]) &&
      DecimalValue(r[0..4]) == d.year && DecimalValue(r[5..7]) == d.month &&
      DecimalValue(r[8..]) == d.day
  {
    var d := parseDate(s).value;
    TwoDigitsReadBack(d.day);
    TwoDigitsReadBack(d.month);
    FieldSlices(YearText(d.year), '-', TwoDigits(d.month), '-', TwoDigits(d.day));
  }

  /** Three space-free words joined by single spaces split back apart. */
  lemma ThreeWords(a: string, b: string, c: string)
    requires ' ' !in a && ' ' !in b && ' ' !in c
    ensures Split(a + " " + b + " " + c, ' ') == [a, b, c]
  {
    assert a + " " + b + " " + c == a + [' '] + (b + [' '] + c);
    SplitConcat(a, ' ', b + [' '] + c);
    SplitConcat(b, ' ', c);
    SplitNoSep(c, ' ');
  }

  lemma DigitsHaveNoSpace(t: string)
    requires AllDigits(t)
    ensures ' ' !in t
  {
    assert forall i :: 0 <= i < |t| ==> t[i] != ' ';
  }

  /** The decimal form of an integer has no space and reads back as the
      integer, behind a minus sign when it is negative. */
  lemma IntToStringReadsBack(y: int)
    ensures ' ' !in IntToString(y)
    ensures y >= 0 ==> AllDigits(IntToString(y)) && DecimalValue(IntToString(y)) == y
    ensures y < 0 ==>
      |IntToString(y)| > 1 && IntToString(y)[0] == '-' &&
      AllDigits(IntToString(y)[1..]) && DecimalValue(IntToString(y)[1..]) == -y
  {
    var n: nat := if y >= 0 then y else -y;
    NatToStringValue(n);
    DigitsHaveNoSpace(NatToString(n));
    if y < 0 {
      assert IntToString(y)[1..] == NatToString(n);
    }
  }

  /** In "dd Month yyyy" the three words, split at the spaces, are the day,
      the Portuguese month name and the year, for every parsed date. */
  lemma DayMonthNameReadsBack(s: string, parseDate: string -> Option<Date>)
    requires parseDate(s).Some?
    ensures var d := parseDate(s).value;
      var words := Split(FormatDate(s, parseDate, DdMonthYyyy), ' ');
      |words| == 3 && AllDigits(words[0]) && DecimalValue(words[0]) == d.day &&
      words[1] == MonthNames[d.month - 1] && words[2] == IntToString(d.year)
  {
    var d := parseDate(s).value;
    TwoDigitsReadBack(d.day);
    DigitsHaveNoSpace(TwoDigits(d.day));
    IntToStringReadsBack(d.year);
    MonthNameHasNoSpace(d.month);
    assert FormatDate(s, parseDate, DdMonthYyyy) ==
      TwoDigits(d.day) + " " + MonthNames[d.month - 1] + " " + IntToString(d.year);
    ThreeWords(TwoDigits(d.day), MonthNames[d.month - 1], IntToString(d.year));
  }

  lemma MonthNameHasNoSpace(m: Month)
    ensures ' ' !in MonthNames[m - 1]
  {
  }

  // ---------------------------------------------------------------------
  // Metadata block
  // ---------------------------------------------------------------------

  datatype Field = AuthorField | IsbnField | PublisherField | ReadDateField | LanguageField | DescriptionField

  /** The fixed order of the metadata lines. */
  const FieldOrder: seq<Field> := [AuthorField, IsbnField, PublisherField, ReadDateField, LanguageField, DescriptionField]

  function Rank(f: Field): (k: nat)
    ensures k < |FieldOrder| && FieldOrder[k] == f
  {
    match f
    case AuthorField => 0
    case IsbnField => 1
    case PublisherField => 2
    case ReadDateField => 3
    case LanguageField => 4
    case DescriptionField => 5
  }

  /** The value a field shows, when its toggle is on and the book has it (a
      blank author counts as absent); the read date is formatted. */
  function FieldValue(f: Field, b: Book, c: ExportConfig, parseDate: string -> Option<Date>): Option<string> {
    match f
    case AuthorField => if c.metadata.author && b.author != "" then Some(b.author) else None
    case IsbnField => if c.metadata.isbn then b.isbn else None
    case PublisherField => if c.metadata.publisher then b.publisher else None
    case ReadDateField =>
      if c.metadata.date_last_read && b.date_last_read.Some? then
        Some(FormatDate(b.date_last_read.value, parseDate, c.date_format))
      else None
    case LanguageField => if c.metadata.language then b.language else None
    case DescriptionField => if c.metadata.description then b.description else None
  }

  datatype MetaEntry = MetaEntry(field: Field, value: string)

  /** The shown fields among the first `n` of the fixed order, for a given
      choice of what each field shows. */
  function EntriesUpTo(n: nat, value: Field -> Option<string>): seq<MetaEntry>
    requires n <= |FieldOrder|
  {
    if n == 0 then [] else EntriesUpTo(n - 1, value) + Shown(FieldOrder[n - 1], value)
  }

  /** The entry of one field, if it shows a value. */
  function Shown(f: Field, value: Field -> Option<string>): (r: seq<MetaEntry>)
    ensures value(f).None? ==> r == []
    ensures value(f).Some? ==> r == [MetaEntry(f, value(f).value)]
  {
    match value(f)
    case None => []
    case Some(v) => [MetaEntry(f, v)]
  }

  /** Every entry carries its field's value. */
  predicate Sound(r: seq<MetaEntry>, value: Field -> Option<string>) {
    forall i :: 0 <= i < |r| ==> value(r[i].field) == Some(r[i].value)
  }

  lemma {:induction false} EntriesSound(n: nat, value: Field -> Option<string>)
    requires n <= |FieldOrder|
    ensures Sound(EntriesUpTo(n, value), value)
  {
    if n > 0 {
      EntriesSound(n - 1, value);
      var pre := EntriesUpTo(n - 1, value);
      var f := FieldOrder[n - 1];
      var r := pre + Shown(f, value);
      assert EntriesUpTo(n, value) == r;
      forall i | 0 <= i < |r| ensures value(r[i].field) == Some(r[i].value) {
        if i < |pre| {
          assert r[i] == pre[i];
        } else {
          assert value(f).Some? && r[i] == MetaEntry(f, value(f).value);
        }
      }
    }
  }

  /** Entries come from the first `n` fields, in strictly increasing order. */
  predicate Ranked(r: seq<MetaEntry>, n: nat) {
    (forall i :: 0 <= i < |r| ==> Rank(r[i].field) < n) &&
    (forall i, j :: 0 <= i < j < |r| ==> Rank(r[i].field) < Rank(r[j].field))
  }

  lemma {:induction false} EntriesRanked(n: nat, value: Field -> Option<string>)
    requires n <= |FieldOrder|
    ensures Ranked(EntriesUpTo(n, value), n)
  {
    if n > 0 {
      EntriesRanked(n - 1, value);
      var pre := EntriesUpTo(n - 1, value);
      var f := FieldOrder[n - 1];
      assert Rank(f) == n - 1;
      var r := pre + Shown(f, value);
      assert EntriesUpTo(n, value) == r;
      forall i | 0 <= i < |r| ensures Rank(r[i].field) < n {
        if i < |pre| {
          assert r[i] == pre[i];
        } else {
          assert value(f).Some? && r[i] == MetaEntry(f, value(f).value);
        }
      }
      forall i, j | 0 <= i < j < |r| ensures Rank(r[i].field) < Rank(r[j].field) {
        if j < |pre| {
          assert r[i] == pre[i] && r[j] == pre[j];
        } else {
          assert r[i] == pre[i];
          assert value(f).Some? && r[j] == MetaEntry(f, value(f).value);
        }
      }
    }
  }

  /** Every field among the first `n` that shows a value has its entry. */
  lemma {:induction false} EntriesComplete(n: nat, value: Field -> Option<string>)
    requires n <= |FieldOrder|
    ensures var r := EntriesUpTo(n, value);
      forall f :: Rank(f) < n && value(f).Some? ==> MetaEntry(f, value(f).value) in r
  {
    if n > 0 {
      EntriesComplete(n - 1, value);
      var f := FieldOrder[n - 1];
      assert Rank(f) == n - 1;
      var pre := EntriesUpTo(n - 1, value);
      var r := pre + Shown(f, value);
      forall g | Rank(g) < n && value(g).Some? ensures MetaEntry(g, value(g).value) in r {
        if Rank(g) == n - 1 {
          assert g == f;
          assert r[|pre|] == MetaEntry(g, value(g).value);
        }
      }
    }
  }

  /** The metadata shown: exactly the fields whose toggle is on and whose
      value is present, each once, in the fixed order. */
  function MetadataEntries(b: Book, c: ExportConfig, parseDate: string -> Option<Date>): (r: seq<MetaEntry>)
    ensures forall i :: 0 <= i < |r| ==> FieldValue(r[i].field, b, c, parseDate) == Some(r[i].value)
    ensures forall i, j :: 0 <= i < j < |r| ==> Rank(r[i].field) < Rank(r[j].field)
    ensures forall f :: FieldValue(f, b, c, parseDate).Some? ==>
      MetaEntry(f, FieldValue(f, b, c, parseDate).value) in r
  {
    var value := f => FieldValue(f, b, c, parseDate);
    EntriesSound(|FieldOrder|, value);
    EntriesRanked(|FieldOrder|, value);
    EntriesComplete(|FieldOrder|, value);
    var r := EntriesUpTo(|FieldOrder|, value);
    assert forall f :: value(f) == FieldValue(f, b, c, parseDate);
    assert Sound(r, value);
    assert Ranked(r, |FieldOrder|);
    r
  }

  function Label(f: Field): string {
    match f
    case AuthorField => "**Autor**: "
    case IsbnField => "**ISBN**: "
    case PublisherField => "**Publisher**: "
    case ReadDateField => "**Data de Leitura**: "
    case LanguageField => "**Idioma**: "
    case DescriptionField => ""
  }

  /** A labelled line, or for the description a blank line then the text. */
  function EntryLines(e: MetaEntry): (r: seq<string>)
    ensures |r| > 0
  {
    if e.field == DescriptionField then ["", e.value] else [Label(e.field) + e.value]
  }

  /** No entry but possibly the last is the description. */
  predicate DescriptionLast(es: seq<MetaEntry>) {
    forall i :: 0 <= i < |es| - 1 ==> es[i].field != DescriptionField
  }

  /** The entries' lines in order: one labelled line per field, and a blank
      line then the text for a trailing description. */
  function MetadataLinesOf(es: seq<MetaEntry>): (r: seq<string>)
    ensures |r| == 0 <==> |es| == 0
    ensures DescriptionLast(es) ==>
      |r| == |es| + (if |es| > 0 && es[|es| - 1].field == DescriptionField then 1 else 0)
    ensures DescriptionLast(es) ==>
      forall i :: 0 <= i < |es| && es[i].field != DescriptionField ==> r[i] == Label(es[i].field) + es[i].value
    ensures DescriptionLast(es) && |es| > 0 && es[|es| - 1].field == DescriptionField ==>
      r[|r| - 2] == "" && r[|r| - 1] == es[|es| - 1].value
  {
    if |es| == 0 then [] else MetadataLinesOf(es[..|es| - 1]) + EntryLines(es[|es| - 1])
  }

  /** The metadata block: one labelled line per shown field, in the fixed
      order, and the description last as a blank line then its text. */
  function MetadataLines(b: Book, c: ExportConfig, parseDate: string -> Option<Date>): (r: seq<string>)
    ensures |r| == 0 <==> forall f :: FieldValue(f, b, c, parseDate).None?
    ensures var es := MetadataEntries(b, c, parseDate);
      var d := FieldValue(DescriptionField, b, c, parseDate);
      |r| == |es| + (if d.Some? then 1 else 0) &&
      (forall i :: 0 <= i < |es| && es[i].field != DescriptionField ==> r[i] == Label(es[i].field) + es[i].value) &&
      (d.Some? ==> r[|r| - 2] == "" && r[|r| - 1] == d.value)
  {
    var es := MetadataEntries(b, c, parseDate);
    assert |es| > 0 ==> FieldValue(es[0].field, b, c, parseDate).Some?;
    DescriptionOnlyLast(b, c, parseDate);
    MetadataLinesOf(es)
  }

  /** In the shown entries the description can only come last, and it comes
      last exactly when it is shown. */
  lemma DescriptionOnlyLast(b: Book, c: ExportConfig, parseDate: string -> Option<Date>)
    ensures var es := MetadataEntries(b, c, parseDate);
      var d := FieldValue(DescriptionField, b, c, parseDate);
      DescriptionLast(es) &&
      (d.Some? <==> |es| > 0 && es[|es| - 1].field == DescriptionField) &&
      (d.Some? ==> es[|es| - 1].value == d.value)
  {
    var es := MetadataEntries(b, c, parseDate);
    var d := FieldValue(DescriptionField, b, c, parseDate);
    forall i | 0 <= i < |es| - 1 ensures es[i].field != DescriptionField {
      assert Rank(es[i].field) < Rank(es[i + 1].field) < |FieldOrder|;
    }
    if d.Some? {
      assert MetaEntry(DescriptionField, d.value) in es;
      var k :| 0 <= k < |es| && es[k] == MetaEntry(DescriptionField, d.value);
      assert k == |es| - 1;
    }
  }

  /** A shown author appears in the document's metadata as "**Autor**: "
      and the name. */
  lemma AuthorLineShown(b: Book, c: ExportConfig, parseDate: string -> Option<Date>)
    requires c.metadata.author && b.author != ""
    ensures var r := MetadataLines(b, c, parseDate);
      |r| > 0 && r[0] == "**Autor**: " + b.author
  {
    var es := MetadataEntries(b, c, parseDate);
    assert FieldValue(AuthorField, b, c, parseDate) == Some(b.author);
    assert MetaEntry(AuthorField, b.author) in es;
    var k :| 0 <= k < |es| && es[k] == MetaEntry(AuthorField, b.author);
    assert 0 < k ==> Rank(es[0].field) < Rank(es[k].field);
    assert k == 0;
    var r := MetadataLines(b, c, parseDate);
    assert |r| >= |es|;
    assert r[0] == Label(es[0].field) + es[0].value;
  }

  // ---------------------------------------------------------------------
  // Highlight blocks
  // ---------------------------------------------------------------------

  const LocationSeparator := " \U{B7} "

  /** The chapter title, then the percentage, each when present. */
  function LocationParts(h: Highlight, percent: Progress -> int): (r: seq<string>)
    ensures |r| == (if h.chapter_title.Some? then 1 else 0) + (if h.chapter_progress.Some? then 1 else 0)
    ensures h.chapter_title.Some? ==> r[0] == h.chapter_title.value
    ensures h.chapter_progress.Some? ==> r[|r| - 1] == IntToString(percent(h.chapter_progress.value)) + "%"
  {
    (if h.chapter_title.Some? then [h.chapter_title.value] else [])
    + (if h.chapter_progress.Some? then [IntToString(percent(h.chapter_progress.value)) + "%"] else [])
  }

  /** The lines of one highlight: the quoted passage, and a location line
      between blank lines when there is any location. */
  function HighlightLines(h: Highlight, percent: Progress -> int): (r: seq<string>)
    ensures |r| >= 1 && r[0] == "> " + h.text
    ensures h.chapter_title.None? && h.chapter_progress.None? ==> |r| == 1
    ensures h.chapter_title.Some? || h.chapter_progress.Some? ==>
      |r| == 4 && r[1] == "" && r[3] == "" && r[2] == Join(LocationParts(h, percent), LocationSeparator)
  {
    var parts := LocationParts(h, percent);
    ["> " + h.text] + (if |parts| > 0 then ["", Join(parts, LocationSeparator), ""] else [])
  }

  /** `generate_highlight_markdown`. The quoted text is `text`, not the
      edited text. */
  function HighlightMarkdown(h: Highlight, percent: Progress -> int): (r: string)
    ensures StartsWith(r, "> " + h.text)
  {
    Join(HighlightLines(h, percent), "\n")
  }

  /** One rendered block per highlight, in order. */
  function Blocks(hs: seq<Highlight>, percent: Progress -> int): (r: seq<string>)
    ensures |r| == |hs|
    ensures forall i :: 0 <= i < |hs| ==> r[i] == HighlightMarkdown(hs[i], percent)
  {
    if |hs| == 0 then [] else Blocks(hs[..|hs| - 1], percent) + [HighlightMarkdown(hs[|hs| - 1], percent)]
  }

  /** The blocks' lines, spliced together. */
  function BlockLines(hs: seq<Highlight>, percent: Progress -> int): (r: seq<string>)
    ensures |hs| > 0 ==> |r| > 0
  {
    if |hs| == 0 then [] else BlockLines(hs[..|hs| - 1], percent) + HighlightLines(hs[|hs| - 1], percent)
  }

  // ---------------------------------------------------------------------
  // The document
  // ---------------------------------------------------------------------

  /** Title, blank line, and the metadata block followed by a blank line
      when it is not empty. */
  function HeadLines(title: string, m: seq<string>): (r: seq<string>)
    ensures |r| >= 2 && r[0] == "# " + title && r[1] == ""
    ensures |m| == 0 ==> |r| == 2
    ensures |m| > 0 ==> |r| == 3 + |m| && r[2..2 + |m|] == m && r[2 + |m|] == ""
  {
    ["# " + title, ""] + (if |m| > 0 then m + [""] else [])
  }

  /** The `lines` vector of `generate_markdown`, given the book's title,
      its metadata block and its highlights: no "---" section without
      highlights, otherwise "---", a blank line and one block per highlight
      in order. */
  function MarkdownLines(title: string, meta: seq<string>, hs: seq<Highlight>,
                         percent: Progress -> int): (r: seq<string>)
    ensures var head := HeadLines(title, meta);
      |r| >= |head| && r[..|head|] == head &&
      (|hs| == 0 ==> r == head) &&
      (|hs| > 0 ==>
        |r| == |head| + 2 + |hs| && r[|head|] == "---" && r[|head| + 1] == "" &&
        forall i :: 0 <= i < |hs| ==> r[|head| + 2 + i] == HighlightMarkdown(hs[i], percent))
  {
    var head := HeadLines(title, meta);
    if |hs| == 0 then head
    else head + ["---", ""] + Blocks(hs, percent)
  }

  /** `generate_markdown`: the lines joined with "\n". */
  function GenerateMarkdown(b: Book, c: ExportConfig, parseDate: string -> Option<Date>,
                            percent: Progress -> int): (r: string)
    ensures StartsWith(r, "# " + b.title)
  {
    var lines := MarkdownLines(b.title, MetadataLines(b, c, parseDate), b.highlights, percent);
    assert lines[0] == "# " + b.title;
    Join(lines, "\n")
  }

  /** The document line by line, with the highlight blocks spliced in. */
  function TextLines(title: string, meta: seq<string>, hs: seq<Highlight>,
                     percent: Progress -> int): seq<string>
  {
    var head := HeadLines(title, meta);
    if |hs| == 0 then head
    else head + ["---", ""] + BlockLines(hs, percent)
  }

  lemma {:induction false} JoinBlocks(hs: seq<Highlight>, percent: Progress -> int)
    requires |hs| > 0
    ensures Join(Blocks(hs, percent), "\n") == Join(BlockLines(hs, percent), "\n")
    decreases |hs|
  {
    var pre := hs[..|hs| - 1];
    var h := hs[|hs| - 1];
    if |pre| > 0 {
      JoinBlocks(pre, percent);
      JoinAppend(Blocks(pre, percent), [HighlightMarkdown(h, percent)], "\n");
      JoinAppend(BlockLines(pre, percent), HighlightLines(h, percent), "\n");
    } else {
      assert Blocks(hs, percent) == [HighlightMarkdown(h, percent)];
      assert BlockLines(hs, percent) == HighlightLines(h, percent);
    }
  }

  /** The markdown is its text lines joined with "\n"; when none of those
      lines contains a line break (no title, metadata value, passage or
      chapter title does), splitting the markdown on "\n" gives back exactly
      those lines. */
  lemma MarkdownLinesRoundTrip(b: Book, c: ExportConfig, parseDate: string -> Option<Date>,
                               percent: Progress -> int)
    ensures var lines := TextLines(b.title, MetadataLines(b, c, parseDate), b.highlights, percent);
      GenerateMarkdown(b, c, parseDate, percent) == Join(lines, "\n") &&
      ((forall i :: 0 <= i < |lines| ==> '\n' !in lines[i]) ==>
         Split(GenerateMarkdown(b, c, parseDate, percent), '\n') == lines)
  {
    var meta := MetadataLines(b, c, parseDate);
    TextLinesJoin(b.title, meta, b.highlights, percent);
    var lines := TextLines(b.title, meta, b.highlights, percent);
    if forall i :: 0 <= i < |lines| ==> '\n' !in lines[i] {
      SplitJoin(lines, '\n');
    }
  }

  lemma TextLinesJoin(title: string, meta: seq<string>, hs: seq<Highlight>, percent: Progress -> int)
    ensures Join(MarkdownLines(title, meta, hs, percent), "\n") == Join(TextLines(title, meta, hs, percent), "\n")
  {
    if |hs| > 0 {
      var p := HeadLines(title, meta) + ["---", ""];
      JoinAppend(p, Blocks(hs, percent), "\n");
      JoinAppend(p, BlockLines(hs, percent), "\n");
      JoinBlocks(hs, percent);
    }
  }
}
