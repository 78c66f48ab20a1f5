/**
  The CSV export (src/utils/csvExport.ts): the file content built from the events, and
  the name of the downloaded file. Read back by the importer of src/utils/csvParser.ts,
  the content gives back the events.
*/
module CsvExport {
  import opened Types
  import opened Strings
  import opened DateUtils
  import opened CsvParser
  import opened CsvEvents
  import opened Mismatches

  /** The column names of the first line. */
  const HEADER_FIELDS: seq<string> := ["Event Title", "Start Date", "End Date", "Category"]

  /** The hints of the second line. */
  const FORMAT_FIELDS: seq<string> :=
    ["Character limit of 30", "Format: MM/YY or MM/DD/YY", "Format: MM/YY or MM/DD/YY",
     "Category must match timeline settings"]

  const HEADER: string := Join(HEADER_FIELDS, ",")

  const FORMAT_INFO: string := Join(FORMAT_FIELDS, ",")

  /** The `events.map(...)` callback: the title in double quotes, both dates as "M/D/YYYY"
      and the category as it is. */
  function EventRow(e: Event): string
  {
    "\"" + e.title + "\"" + "," + FormatDateForCsv(e.startDate) + "," + FormatDateForCsv(e.endDate) + "," + e.category
  }

  /** An event whose end date was cleared exports "undefined/undefined/0" as its end
      date. */
  lemma ClearedEndDateRow(e: Event)
    requires e.endDate == ""
    ensures EventRow(e) ==
      "\"" + e.title + "\"" + "," + FormatDateForCsv(e.startDate) + "," + "undefined/undefined/0" + "," + e.category
  {
    FormatEmptyDate();
    EmptyEndDate(e);
  }

  lemma EmptyEndDate(e: Event)
    requires FormatDateForCsv(e.endDate) == "undefined/undefined/0"
    ensures EventRow(e) ==
      "\"" + e.title + "\"" + "," + FormatDateForCsv(e.startDate) + "," + "undefined/undefined/0" + "," + e.category
  {
  }

  /** One row per event, in input order. */
  function EventRows(events: seq<Event>): (rows: seq<string>)
    ensures |rows| == |events|
    ensures forall i :: 0 <= i < |events| ==> rows[i] == EventRow(events[i])
  {
    seq(|events|, i requires 0 <= i < |events| => EventRow(events[i]))
  }

  /** `csvContent`: the header line, the format line and the rows joined by newlines,
      with no newline after the last row. */
  function CsvContent(events: seq<Event>): string
  {
    HEADER + "\n" + FORMAT_INFO + "\n" + Join(EventRows(events), "\n")
  }

  /** The title part of the download name: lower-cased, with each run of whitespace as
      `-`. */
  function Slug(timelineTitle: string): string {
    ReplaceWhitespaceRuns(ToLower(timelineTitle), '-')
  }

  /** The download name: the slug of the title, `-`, the date and `.csv`. The date
      (today, in "YYYY-MM-DD" form) is a parameter. */
  function ExportFilename(timelineTitle: string, date: string): (name: string)
    ensures |name| >= 4 && name[|name| - 4..] == ".csv"
  {
    Slug(timelineTitle) + "-" + date + ".csv"
  }

  /** A title of words separated by spaces gives the lower-cased words joined by `-`. */
  lemma SlugOfWords(words: seq<string>)
    requires forall k :: 0 <= k < |words| ==> words[k] != [] && NoWhitespace(words[k])
    ensures Slug(Join(words, " ")) == Join(LowerAll(words), "-")
  {
    LowerSlugOfWords(words, '-');
  }

  /** The file name has no whitespace when the date has none. */
  lemma FilenameHasNoWhitespace(timelineTitle: string, date: string)
    requires NoWhitespace(date)
    ensures NoWhitespace(ExportFilename(timelineTitle, date))
  {
    ReplacedHasNoWhitespace(ToLower(timelineTitle), '-');
  }

  // ---------------------------------------------------------------------------
  // Reading an export back
  // ---------------------------------------------------------------------------

  /** Characters of the unquoted fields of an exported row: those of a date printed as
      "M/D/YYYY" and those of a normalised category id. */
  predicate PlainChar(c: char) {
    IsDigit(c) || c == '/' || IsLowerAlnum(c) || c == '_'
  }

  predicate PlainField(s: string) {
    forall i :: 0 <= i < |s| ==> PlainChar(s[i])
  }

  /** The characters `normalizeCategory` keeps: `a`-`z`, `0`-`9` and `_`. */
  predicate IdField(s: string) {
    forall i :: 0 <= i < |s| ==> IsLowerAlnum(s[i]) || s[i] == '_'
  }

  lemma IdIsPlain(s: string)
    requires IdField(s)
    ensures PlainField(s)
  {
  }

  /** An event the importer reads back unchanged (but for the title's trimming): a
      non-blank title of at most 55 characters without quotes, line breaks or the words
      "character limit", dates as `normalizeDate` produces them, and a non-empty category
      of `a`-`z`, `0`-`9` and `_` that is the normalisation of a category id. */
  predicate ReadableEvent(e: Event, valid: set<string>) {
    Trim(e.title) != [] && |e.title| <= MAX_TITLE_LENGTH &&
    '"' !in e.title && '\n' !in e.title && '\r' !in e.title &&
    !Contains(ToLower(e.title), "character limit") &&
    IsNormalizedDate(e.startDate) && IsNormalizedDate(e.endDate) &&
    e.category != [] && IdField(e.category) && e.category in valid
  }

  /** What the importer makes of an exported event. */
  function ReadBack(e: Event): EventData {
    EventData(Trim(e.title), e.startDate, e.endDate, e.category)
  }

  function ReadBackAll(events: seq<Event>): (r: seq<EventData>)
    ensures |r| == |events| && forall i :: 0 <= i < |events| ==> r[i] == ReadBack(events[i])
  {
    seq(|events|, i requires 0 <= i < |events| => ReadBack(events[i]))
  }

  lemma FormattedDatePlain(x: string)
    requires IsValidDateFormat(x)
    ensures PlainField(FormatDateForCsv(x)) && FormatDateForCsv(x) != []
  {
    FormatIsoDate(x);
    SlashJoinPlain(NatToString(IsoMonth(x)), NatToString(IsoDay(x)), NatToString(IsoYear(x)));
  }

  lemma SlashJoinPlain(m: string, d: string, y: string)
    requires AllDigits(m) && AllDigits(d) && AllDigits(y)
    ensures PlainField(m + "/" + d + "/" + y)
  {
  }

  lemma PlainTrim(s: string)
    requires PlainField(s)
    ensures Trim(s) == s
  {
    TrimNoop(s);
  }

  /** After a quoted title, a comma ends the first field. */
  lemma QuotedThenRest(title: string, rest: string)
    requires '"' !in title
    ensures ParseLine("\"" + title + "\"" + ("," + rest)) == [Trim(title)] + ParseLine(rest)
  {
    QuotedField(title, "," + rest);
    var s := "," + rest;
    assert s[0] == ',' && s[1..] == rest;
  }

  /** Three plain fields separated by commas parse as themselves. */
  lemma PlainRow(a: string, b: string, c: string)
    requires PlainField(a) && PlainField(b) && PlainField(c)
    ensures ParseLine(a + "," + b + "," + c) == [a, b, c]
  {
    PlainRowChars(a, b, c);
    LineWithoutQuotes(a + "," + b + "," + c);
    PlainRowSplit(a, b, c);
    PlainTrim(a);
    PlainTrim(b);
    PlainTrim(c);
    PlainTrimAll([a, b, c]);
  }

  lemma PlainRowChars(a: string, b: string, c: string)
    requires PlainField(a) && PlainField(b) && PlainField(c)
    ensures '"' !in a + "," + b + "," + c
  {
  }

  lemma PlainRowSplit(a: string, b: string, c: string)
    requires PlainField(a) && PlainField(b) && PlainField(c)
    ensures Split(a + "," + b + "," + c, ',') == [a, b, c]
  {
    Join3(a, b, c, ",");
    SplitUnique([a, b, c], ',');
  }

  lemma PlainTrimAll(parts: seq<string>)
    requires |parts| == 3 && Trim(parts[0]) == parts[0] && Trim(parts[1]) == parts[1] && Trim(parts[2]) == parts[2]
    ensures TrimAll(parts) == parts
  {
  }

  /** A quoted title followed by three unquoted plain fields parses as the trimmed title
      and the three fields. */
  lemma ParseExportedRow(title: string, a: string, b: string, c: string)
    requires '"' !in title
    requires PlainField(a) && PlainField(b) && PlainField(c)
    ensures ParseLine("\"" + title + "\"" + RowTail(a, b, c)) == [Trim(title), a, b, c]
  {
    QuotedThenRest(title, a + "," + b + "," + c);
    PlainRow(a, b, c);
  }

  /** Lower-casing a quoted text followed by text without capitals. */
  lemma LowerQuoted(title: string, tail: string)
    requires forall i :: 0 <= i < |tail| ==> !('A' <= tail[i] <= 'Z')
    ensures ToLower("\"" + title + "\"" + tail) == "\"" + ToLower(title) + "\"" + tail
  {
    ToLowerAppend("\"" + title, "\"" + tail);
    ToLowerAppend("\"", title);
    ToLowerAppend("\"", tail);
    CsvParser.LowerKeeps(tail);
  }

  /** A text that has `sub` neither in the quoted part nor after it, with no quote and a
      space in `sub`, does not contain `sub`. */
  lemma NotInQuotedLine(low: string, tail: string, sub: string)
    requires '"' !in sub && ' ' in sub && ' ' !in tail && !Contains(low, sub)
    ensures !Contains("\"" + low + "\"" + tail, sub)
  {
    var line := "\"" + low + "\"" + tail;
    if Contains(line, sub) {
      assert line == [] + ['"'] + (low + ['"'] + tail);
      ContainsAroundChar([], '"', low + ['"'] + tail, sub);
      ContainsAroundChar(low, '"', tail, sub);
      NotContainsWithoutChar(tail, sub, ' ');
      assert false;
    }
  }

  /** An exported row is kept by the line filter. */
  lemma ExportedRowIsDataLine(title: string, tail: string)
    requires !Contains(ToLower(title), "character limit")
    requires tail != [] && forall ch :: ch in tail ==> PlainChar(ch) || ch == ','
    ensures IsDataLine("\"" + title + "\"" + tail)
  {
    LimitNoteChars();
    QuotedRowAvoids(title, tail, "character limit");
  }

  /** A quoted title followed by plain fields needs no trimming, and lower-cased it holds
      a text with a space and no quote only if the lower-cased title does. */
  lemma QuotedRowAvoids(title: string, tail: string, note: string)
    requires '"' !in note && ' ' in note && !Contains(ToLower(title), note)
    requires tail != [] && forall ch :: ch in tail ==> PlainChar(ch) || ch == ','
    ensures var line := "\"" + title + "\"" + tail;
      Trim(line) == line && line != [] && !Contains(ToLower(line), note)
  {
    var line := "\"" + title + "\"" + tail;
    assert line[0] == '"' && line[|line| - 1] == tail[|tail| - 1];
    assert tail[|tail| - 1] in tail;
    TrimNoop(line);
    forall i | 0 <= i < |tail| ensures !('A' <= tail[i] <= 'Z') {
      assert tail[i] in tail;
    }
    assert ' ' !in tail;
    LowerQuoted(title, tail);
    NotInQuotedLine(ToLower(title), tail, note);
  }

  lemma LimitNoteChars()
    ensures '"' !in "character limit" && ' ' in "character limit"
  {
    assert "character limit"[9] == ' ';
  }

  /** The part of an exported row after the quoted title. */
  function RowTail(a: string, b: string, c: string): string {
    "," + (a + "," + b + "," + c)
  }

  lemma RowTailChars(a: string, b: string, c: string)
    requires PlainField(a) && PlainField(b) && PlainField(c)
    ensures RowTail(a, b, c) != [] && forall ch :: ch in RowTail(a, b, c) ==> PlainChar(ch) || ch == ','
  {
  }

  /** The fields of the import of an exported row. */
  lemma ExportedRowFields(e: Event)
    requires HasIsoDates(e) && '"' !in e.title && IdField(e.category)
    ensures ParseLine(EventRow(e)) ==
      [Trim(e.title), FormatDateForCsv(e.startDate), FormatDateForCsv(e.endDate), e.category]
  {
    var a, b, c := FormatDateForCsv(e.startDate), FormatDateForCsv(e.endDate), e.category;
    FormattedDatePlain(e.startDate);
    FormattedDatePlain(e.endDate);
    IdIsPlain(c);
    RowShape("\"" + e.title + "\"", a, b, c);
    ParseExportedRow(e.title, a, b, c);
  }

  lemma RowShape(q: string, a: string, b: string, c: string)
    ensures q + "," + a + "," + b + "," + c == q + RowTail(a, b, c)
  {
  }

  /** A row whose four fields pass every check is emitted. */
  lemma ClassifyAccepted(title: string, a: string, b: string, c: string, row: nat, valid: set<string>, start: string, end: string)
    requires Trim(title) != [] && |title| <= MAX_TITLE_LENGTH
    requires Trim(a) != [] && NormalizeDate(a) == Some(start) && IsValidDateFormat(start)
    requires Trim(b) != [] && NormalizeDate(b) == Some(end) && IsValidDateFormat(end)
    requires Trim(c) != [] && NormalizeCategory(c) in valid
    ensures ClassifyFields(title, a, b, c, row, valid) ==
      Emitted(EventData(Trim(title), start, end, NormalizeCategory(c)))
  {
  }

  /** A four-field row with a non-blank title goes through the field checks. */
  lemma ClassifyFour(title: string, a: string, b: string, c: string, row: nat, valid: set<string>)
    requires Trim(title) != []
    ensures ClassifyRow([title, a, b, c], row, valid) == ClassifyFields(title, a, b, c, row, valid)
  {
    var values := [title, a, b, c];
    assert !IsEmptyRow(values) by {
      assert Trim(values[0]) != [];
    }
    assert FieldOr(values, 0) == title && FieldOr(values, 1) == a;
    assert FieldOr(values, 2) == b && FieldOr(values, 3) == c;
  }

  /** The dates of an exported row read back as the event's dates. */
  lemma ExportedDatesReadBack(e: Event)
    requires IsNormalizedDate(e.startDate) && IsNormalizedDate(e.endDate)
    ensures NormalizeDate(FormatDateForCsv(e.startDate)) == Some(e.startDate)
    ensures NormalizeDate(FormatDateForCsv(e.endDate)) == Some(e.endDate)
  {
    FormatThenNormalize(e.startDate);
    FormatThenNormalize(e.endDate);
  }

  lemma ExportedCategory(category: string)
    requires category != [] && IdField(category)
    ensures Trim(category) != [] && NormalizeCategory(category) == category
  {
    PlainTrim(category);
    NormalizedIsFixed(category);
  }

  lemma FormattedDates(e: Event)
    requires HasIsoDates(e)
    ensures Trim(FormatDateForCsv(e.startDate)) != [] && Trim(FormatDateForCsv(e.endDate)) != []
  {
    FormattedDatePlain(e.startDate);
    FormattedDatePlain(e.endDate);
    PlainTrim(FormatDateForCsv(e.startDate));
    PlainTrim(FormatDateForCsv(e.endDate));
  }

  /** The classification of the fields of an exported row. */
  lemma ClassifyExported(e: Event, row: nat, valid: set<string>)
    requires ReadableEvent(e, valid)
    ensures ClassifyRow([Trim(e.title), FormatDateForCsv(e.startDate), FormatDateForCsv(e.endDate), e.category], row, valid)
      == Emitted(ReadBack(e))
  {
    TrimIdempotent(e.title);
    FormattedDates(e);
    ExportedDatesReadBack(e);
    ExportedCategory(e.category);
    ClassifyFour(Trim(e.title), FormatDateForCsv(e.startDate), FormatDateForCsv(e.endDate), e.category, row, valid);
    ClassifyAccepted(Trim(e.title), FormatDateForCsv(e.startDate), FormatDateForCsv(e.endDate), e.category,
                     row, valid, e.startDate, e.endDate);
  }

  /** An exported row is a data line. */
  lemma ExportedRowKept(e: Event, valid: set<string>)
    requires ReadableEvent(e, valid)
    ensures HasIsoDates(e) && IsDataLine(EventRow(e))
  {
    var a, b := FormatDateForCsv(e.startDate), FormatDateForCsv(e.endDate);
    FormattedDatePlain(e.startDate);
    FormattedDatePlain(e.endDate);
    IdIsPlain(e.category);
    RowShape("\"" + e.title + "\"", a, b, e.category);
    RowTailChars(a, b, e.category);
    ExportedRowIsDataLine(e.title, RowTail(a, b, e.category));
  }

  /** The importer reads an exported row back as the event (title trimmed). */
  lemma ExportedRowReadBack(e: Event, row: nat, valid: set<string>)
    requires ReadableEvent(e, valid)
    ensures HasIsoDates(e) && IsDataLine(EventRow(e))
    ensures ClassifyRow(ParseLine(EventRow(e)), row, valid) == Emitted(ReadBack(e))
  {
    ExportedRowKept(e, valid);
    ExportedRowFields(e);
    ClassifyExported(e, row, valid);
  }

  // ---------------------------------------------------------------------------
  // A quote inside a title
  // ---------------------------------------------------------------------------

  /** The title's quotes are not doubled: a quote inside the title closes the quoted
      field, the next quote opens a new one, and the rest of the line, commas included,
      ends up in the one field. */
  lemma QuoteInTitle(x: string, y: string, t: string)
    requires '"' !in x && '"' !in y && ',' !in y && y != [] && '"' !in t
    ensures ParseLine("\"" + x + "\"" + (y + ("\"" + t))) == [Trim(x + y + t)]
  {
    QuotedField(x, y + ("\"" + t));
    ScanPlain(y, "\"" + t, x);
    var q := "\"" + t;
    assert q[0] == '"' && q[1..] == t;
    ScanQuoted(t, [], x + y);
    assert t + [] == t && x + y + t == (x + y) + t;
  }

  lemma QuotedTitleShape(x: string, y: string, tail: string)
    ensures "\"" + (x + "\"" + y) + "\"" + tail == "\"" + x + "\"" + (y + ("\"" + tail))
  {
  }

  /** A row read as a single non-blank field is a row error for the missing start date
      and category. */
  lemma SingleFieldFails(f: string, row: nat, valid: set<string>)
    requires Trim(f) != []
    ensures ClassifyRow([f], row, valid) == Failed(Missing(row, ["start date", "category"], f))
  {
    var values := [f];
    assert !IsEmptyRow(values) by {
      assert Trim(values[0]) != [];
    }
    assert FieldOr(values, 0) == f && FieldOr(values, 1) == "" && FieldOr(values, 3) == "";
    assert Trim("") == [];
  }

  lemma TailNotBlank(x: string, y: string, t: string)
    requires t != [] && !IsWhitespace(t[0])
    ensures Trim(x + y + t) != []
  {
    var s := x + y + t;
    assert s[|x + y|] == t[0];
  }

  /** An exported event whose title holds a quote that is neither doubled nor last does
      not come back: its row is a row error. */
  lemma QuotedTitleIsLost(e: Event, x: string, y: string, row: nat, valid: set<string>)
    requires HasIsoDates(e) && IdField(e.category)
    requires e.title == x + "\"" + y && '"' !in x && '"' !in y && ',' !in y && y != []
    ensures ClassifyRow(ParseLine(EventRow(e)), row, valid).Failed?
  {
    var a, b := FormatDateForCsv(e.startDate), FormatDateForCsv(e.endDate);
    FormattedDatePlain(e.startDate);
    FormattedDatePlain(e.endDate);
    IdIsPlain(e.category);
    var t := RowTail(a, b, e.category);
    RowShape("\"" + e.title + "\"", a, b, e.category);
    RowTailChars(a, b, e.category);
    assert t[0] == ',';
    QuotedTitleShape(x, y, t);
    QuoteInTitle(x, y, t);
    TailNotBlank(x, y, t);
    SingleFieldFails(Trim(x + y + t), row, valid);
  }

  /** The parts of an export joined by newlines: the two header lines, then the rows, or
      one empty line when there are none. */
  function ExportLines(events: seq<Event>): (lines: seq<string>)
    ensures |lines| >= 3
  {
    [HEADER, FORMAT_INFO] + (if events == [] then [""] else EventRows(events))
  }

  lemma ContentIsJoin(events: seq<Event>)
    ensures CsvContent(events) == Join(ExportLines(events), "\n")
  {
    var rest := if events == [] then [""] else EventRows(events);
    JoinTwoMore(HEADER, FORMAT_INFO, rest, "\n");
    if events == [] {
      assert Join(rest, "\n") == "";
    }
  }

  lemma JoinTwoMore(h: string, f: string, rest: seq<string>, sep: string)
    requires |rest| >= 1
    ensures Join([h, f] + rest, sep) == h + sep + f + sep + Join(rest, sep)
  {
    var parts := [h, f] + rest;
    assert parts[1..] == [f] + rest;
    assert parts[1..][1..] == rest;
    JoinCons(parts, sep);
    JoinCons(parts[1..], sep);
  }

  /** Neither header line has a line break. */
  lemma HeaderLines()
    ensures '\n' !in HEADER && '\r' !in HEADER && '\n' !in FORMAT_INFO && '\r' !in FORMAT_INFO
  {
    HeaderFieldsUnbroken();
    FormatFieldsUnbroken();
    FieldsWithoutBreaks(HEADER_FIELDS);
    FieldsWithoutBreaks(FORMAT_FIELDS);
  }

  predicate Unbroken(s: string) {
    forall i :: 0 <= i < |s| ==> s[i] != '\n' && s[i] != '\r'
  }

  lemma FieldsWithoutBreaks(fields: seq<string>)
    requires forall k :: 0 <= k < |fields| ==> Unbroken(fields[k])
    ensures '\n' !in Join(fields, ",") && '\r' !in Join(fields, ",")
  {
    JoinWithoutChar(fields, ",", '\n');
    JoinWithoutChar(fields, ",", '\r');
  }

  lemma HeaderFieldsUnbroken()
    ensures forall k :: 0 <= k < |HEADER_FIELDS| ==> Unbroken(HEADER_FIELDS[k])
  {
  }

  lemma FormatFieldsUnbroken()
    ensures forall k :: 0 <= k < |FORMAT_FIELDS| ==> Unbroken(FORMAT_FIELDS[k])
  {
    FormatHintsUnbroken();
    assert Unbroken(FORMAT_FIELDS[3]);
  }

  lemma FormatHintsUnbroken()
    ensures Unbroken(FORMAT_FIELDS[0]) && Unbroken(FORMAT_FIELDS[1]) && Unbroken(FORMAT_FIELDS[2])
  {
  }

  lemma RowWithoutBreaks(e: Event, c: char)
    requires HasIsoDates(e) && c !in e.title && (c == '\n' || c == '\r') && IdField(e.category)
    ensures c !in EventRow(e)
  {
    var a, b := FormatDateForCsv(e.startDate), FormatDateForCsv(e.endDate);
    FormattedDatePlain(e.startDate);
    FormattedDatePlain(e.endDate);
    IdIsPlain(e.category);
    RowPartsWithout(e.title, a, b, e.category, c);
  }

  lemma RowPartsWithout(title: string, a: string, b: string, category: string, c: char)
    requires c !in title && (c == '\n' || c == '\r')
    requires PlainField(a) && PlainField(b) && PlainField(category)
    ensures c !in "\"" + title + "\"" + "," + a + "," + b + "," + category
  {
  }

  /** Two unbroken lines in front of unbroken lines give unbroken lines. */
  lemma PrefixedUnbroken(a: string, b: string, rest: seq<string>)
    requires '\n' !in a && '\r' !in a && '\n' !in b && '\r' !in b
    requires forall k :: 0 <= k < |rest| ==> '\n' !in rest[k] && '\r' !in rest[k]
    ensures forall k :: 0 <= k < |[a, b] + rest| ==> '\n' !in ([a, b] + rest)[k] && '\r' !in ([a, b] + rest)[k]
  {
    forall k | 0 <= k < |[a, b] + rest| ensures '\n' !in ([a, b] + rest)[k] && '\r' !in ([a, b] + rest)[k] {
      if k >= 2 {
        assert ([a, b] + rest)[k] == rest[k - 2];
      }
    }
  }

  lemma ExportLinesUnbroken(events: seq<Event>)
    requires AllIsoDates(events)
    requires forall i :: 0 <= i < |events| ==>
      '\n' !in events[i].title && '\r' !in events[i].title && IdField(events[i].category)
    ensures forall k :: 0 <= k < |ExportLines(events)| ==>
      '\n' !in ExportLines(events)[k] && '\r' !in ExportLines(events)[k]
  {
    var rest := if events == [] then [""] else EventRows(events);
    forall k | 0 <= k < |rest| ensures '\n' !in rest[k] && '\r' !in rest[k] {
      if events != [] {
        RowWithoutBreaks(events[k], '\n');
        RowWithoutBreaks(events[k], '\r');
      }
    }
    HeaderLines();
    PrefixedUnbroken(HEADER, FORMAT_INFO, rest);
  }

  /** The lines of an export: the two header lines, then one line per event; with no
      events the content ends in a newline and the third line is empty. */
  lemma ExportedLines(events: seq<Event>)
    requires AllIsoDates(events)
    requires forall i :: 0 <= i < |events| ==>
      '\n' !in events[i].title && '\r' !in events[i].title && IdField(events[i].category)
    ensures LinesOf(CsvContent(events)) == ExportLines(events)
  {
    var parts := ExportLines(events);
    ExportLinesUnbroken(events);
    ContentIsJoin(events);
    JoinWithoutChar(parts, "\n", '\r');
    LineEndingsWithoutCr(CsvContent(events));
    SplitUnique(parts, '\n');
  }

  /** The data lines of an export are its rows. */
  lemma ExportedDataLines(events: seq<Event>, valid: set<string>)
    requires forall i :: 0 <= i < |events| ==> ReadableEvent(events[i], valid)
    ensures AllIsoDates(events)
    ensures DataLinesOf(CsvContent(events)) == EventRows(events)
  {
    RowsKept(events, valid);
    ExportedLines(events);
    var lines := ExportLines(events);
    if events == [] {
      assert lines[2..] == [""];
      assert !IsDataLine("") by {
        assert Trim("") == "";
      }
    } else {
      assert lines[2..] == EventRows(events);
    }
  }

  /** Every row of an export is a data line. */
  lemma RowsKept(events: seq<Event>, valid: set<string>)
    requires forall i :: 0 <= i < |events| ==> ReadableEvent(events[i], valid)
    ensures AllIsoDates(events)
    ensures KeepDataLines(EventRows(events)) == EventRows(events)
  {
    forall i | 0 <= i < |events| ensures HasIsoDates(events[i]) && IsDataLine(EventRow(events[i])) {
      ExportedRowKept(events[i], valid);
    }
    KeepAllDataLines(EventRows(events));
  }

  /** When every row emits, the fold collects exactly those events and nothing else. */
  lemma {:induction false} AllEmitted(outs: seq<RowOutcome>, evs: seq<EventData>)
    requires |outs| == |evs| && forall i :: 0 <= i < |outs| ==> outs[i] == Emitted(evs[i])
    ensures EventsOf(outs) == evs && RowErrorsOf(outs) == [] && MismatchPairsOf(outs) == []
  {
    if outs != [] {
      var n := |outs| - 1;
      AllEmitted(outs[..n], evs[..n]);
      assert evs == evs[..n] + [evs[n]];
    }
  }

  /** Export followed by import: the importer returns the events (titles trimmed), the
      categories unchanged and no error. */
  lemma ExportThenImport(events: seq<Event>, categories: seq<CategoryConfig>)
    requires forall i :: 0 <= i < |events| ==> ReadableEvent(events[i], ValidCategories(categories))
    ensures AllIsoDates(events)
    ensures ParseCsvEventsOf(CsvContent(events), categories) == CsvParseResult(ReadBackAll(events), categories, [])
  {
    var valid := ValidCategories(categories);
    ExportedDataLines(events, valid);
    var outs := Outcomes(EventRows(events), valid);
    forall i | 0 <= i < |outs| ensures outs[i] == Emitted(ReadBackAll(events)[i]) {
      ExportedRowReadBack(events[i], i + 3, valid);
    }
    AllEmitted(outs, ReadBackAll(events));
    FoldEvents(outs);
    FoldErrors(outs);
    FoldMismatches(outs);
  }

  /** With no events the export reads back as nothing, without errors, whatever the
      categories. */
  lemma EmptyExportThenImport(categories: seq<CategoryConfig>)
    ensures ParseCsvEventsOf(CsvContent([]), categories) == CsvParseResult([], categories, [])
  {
    ExportThenImport([], categories);
  }
}
