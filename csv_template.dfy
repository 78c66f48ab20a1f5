/**
  The template offered for download (`getTemplateCSV` in src/utils/csvParser.ts): the
  two header lines, then two sample rows whose fields are all quoted and whose category
  is "test". Read back by `parseCSVEvents` against categories none of which is "test",
  it gives no event and a single mismatch message for rows 3 and 4.
*/
module CsvTemplate {
  import opened Types
  import opened Strings
  import opened DateUtils
  import opened CsvParser
  import opened CsvEvents
  import opened Mismatches
  import CsvExport

  const SAMPLE_CATEGORY: string := "test"

  /** The hints of the second line; the first names the title limit. */
  const TEMPLATE_HINTS: seq<string> :=
    ["Character limit of " + NatToString(MAX_TITLE_LENGTH), "Format: MM/DD/YYYY", "Format: MM/DD/YYYY",
     "Must match timeline categories"]

  function Quoted(s: string): string {
    "\"" + s + "\""
  }

  /** A row of four quoted fields. */
  function QuotedRow(a: string, b: string, c: string, d: string): string {
    Quoted(a) + "," + Quoted(b) + "," + Quoted(c) + "," + Quoted(d)
  }

  function SlashText(m: string, d: string, y: string): string {
    m + "/" + d + "/" + y
  }

  /** The lines of the template. Its first line is the export's header line. */
  function TemplateLines(): seq<string> {
    [CsvExport.HEADER, Join(TEMPLATE_HINTS, ","),
     QuotedRow("Sample Event 1", SlashText("1", "15", "2024"), SlashText("1", "20", "2024"), SAMPLE_CATEGORY),
     QuotedRow("Sample Event 2", SlashText("10", "14", "2024"), SlashText("10", "16", "2024"), SAMPLE_CATEGORY)]
  }

  /** `getTemplateCSV()`. */
  function TemplateCsv(): string {
    Join(TemplateLines(), "\n")
  }

  // ---------------------------------------------------------------------------
  // Reading one quoted row
  // ---------------------------------------------------------------------------

  /** Four quoted fields without quotes inside read as the four trimmed texts. */
  lemma ParseQuotedRow(a: string, b: string, c: string, d: string)
    requires '"' !in a && '"' !in b && '"' !in c && '"' !in d
    ensures ParseLine(QuotedRow(a, b, c, d)) == [Trim(a), Trim(b), Trim(c), Trim(d)]
  {
    var r3 := Quoted(d);
    var r2 := Quoted(c) + ("," + r3);
    var r1 := Quoted(b) + ("," + r2);
    RowNested(a, b, c, d);
    QuotedCons(a, r1);
    QuotedCons(b, r2);
    QuotedCons(c, r3);
    QuotedAlone(d);
  }

  lemma RowNested(a: string, b: string, c: string, d: string)
    ensures QuotedRow(a, b, c, d) == Quoted(a) + ("," + (Quoted(b) + ("," + (Quoted(c) + ("," + Quoted(d))))))
  {
  }

  lemma QuotedCons(x: string, rest: string)
    requires '"' !in x
    ensures ParseLine(Quoted(x) + ("," + rest)) == [Trim(x)] + ParseLine(rest)
  {
    CsvExport.QuotedThenRest(x, rest);
  }

  lemma QuotedAlone(x: string)
    requires '"' !in x
    ensures ParseLine(Quoted(x)) == [Trim(x)]
  {
    CsvParser.QuotedField(x, "");
    assert Quoted(x) == "\"" + x + "\"" + "";
  }

  /** A quoted row is its quoted first field followed by the rest. */
  lemma QuotedRowShape(a: string, b: string, c: string, d: string)
    ensures QuotedRow(a, b, c, d) == "\"" + a + "\"" + ("," + Quoted(b) + "," + Quoted(c) + "," + Quoted(d))
  {
  }

  /** No quote and no line break. */
  predicate Tame(s: string) {
    forall i :: 0 <= i < |s| ==> s[i] != '"' && s[i] != '\n' && s[i] != '\r'
  }

  /** Tame, and neither spaces nor capitals. */
  predicate Plain(s: string) {
    forall i :: 0 <= i < |s| ==> s[i] != '"' && s[i] != '\n' && s[i] != '\r' && s[i] != ' ' && !('A' <= s[i] <= 'Z')
  }

  /** What reading a sample row needs of its title and dates: a title too short to hold
      "character limit", and accepted dates. */
  predicate SampleFields(t: string, s: string, e: string) {
    Tame(t) && Trim(t) == t && t != [] && |t| < 15 &&
    Plain(s) && Plain(e) && Trim(s) == s && s != [] && Trim(e) == e && e != [] &&
    DateAccepted(s) && DateAccepted(e)
  }

  /** What reading a sample row needs of its category. */
  predicate SampleCategory(c: string) {
    Plain(c) && Trim(c) == c && c != [] && NormalizeCategory(c) == c
  }

  /** A sample row has no line break. */
  lemma RowUnbroken(t: string, s: string, e: string, c: string)
    requires Tame(t) && Plain(s) && Plain(e) && Plain(c)
    ensures '\n' !in QuotedRow(t, s, e, c) && '\r' !in QuotedRow(t, s, e, c)
  {
    var r := QuotedRow(t, s, e, c);
    forall i | 0 <= i < |r| ensures r[i] != '\n' && r[i] != '\r' {
      assert r[i] in r;
    }
  }

  /** A sample row passes the line filter. */
  lemma RowIsDataLine(t: string, s: string, e: string, c: string)
    requires |t| < 15 && Plain(s) && Plain(e) && Plain(c)
    ensures IsDataLine(QuotedRow(t, s, e, c))
  {
    var tail := "," + Quoted(s) + "," + Quoted(e) + "," + Quoted(c);
    QuotedRowShape(t, s, e, c);
    var line := "\"" + t + "\"" + tail;
    assert line[0] == '"' && line[|line| - 1] == '"';
    TrimNoop(line);
    TailPlain(s, e, c, tail);
    CsvExport.LowerQuoted(t, tail);
    CsvExport.LimitNoteChars();
    assert |ToLower(t)| < |"character limit"|;
    CsvExport.NotInQuotedLine(ToLower(t), tail, "character limit");
  }

  lemma TailPlain(b: string, c: string, d: string, tail: string)
    requires Plain(b) && Plain(c) && Plain(d)
    requires tail == "," + Quoted(b) + "," + Quoted(c) + "," + Quoted(d)
    ensures ' ' !in tail && forall i :: 0 <= i < |tail| ==> !('A' <= tail[i] <= 'Z')
  {
  }

  /** A sample row reads as a mismatch of its category when no id normalises to it. */
  lemma RowMismatch(t: string, s: string, e: string, c: string, row: nat, valid: set<string>)
    requires SampleFields(t, s, e) && SampleCategory(c) && c !in valid
    ensures ClassifyRow(ParseLine(QuotedRow(t, s, e, c)), row, valid) == Mismatched(c, row)
  {
    ParseQuotedRow(t, s, e, c);
    assert ParseLine(QuotedRow(t, s, e, c)) == [t, s, e, c];
    CsvExport.ClassifyFour(t, s, e, c, row, valid);
    assert Trim(t) != [] && Trim(s) != [] && Trim(c) != [] && NormalizeCategory(c) !in valid;
    FieldsMismatch(t, s, e, c, row, valid);
  }

  lemma FieldsMismatch(t: string, s: string, e: string, c: string, row: nat, valid: set<string>)
    requires Trim(t) != [] && |t| <= MAX_TITLE_LENGTH && Trim(s) != [] && Trim(c) != []
    requires DateAccepted(s) && DateAccepted(e) && NormalizeCategory(c) !in valid
    ensures ClassifyFields(t, s, e, c, row, valid) == Mismatched(c, row)
  {
    assert MissingFields(t, s, c) == [];
  }

  /** Two mismatches of one category are recorded as one entry listing both rows. */
  lemma TwoMismatches(outs: seq<RowOutcome>, c: string, r1: nat, r2: nat)
    requires |outs| == 2 && outs[0] == Mismatched(c, r1) && outs[1] == Mismatched(c, r2)
    ensures Fold(outs) == Acc([], [], [Entry(c, [r1, r2])])
  {
    assert |outs[..1]| == 1 && outs[..1][0] == outs[0];
    assert outs[..1][..0] == [];
    assert Fold(outs[..1]) == Acc([], [], [Entry(c, [r1])]);
    var ms := [Entry(c, [r1])];
    assert ms[1..] == [] && [r1] + [r2] == [r1, r2];
    assert Record(ms, c, r2) == [Entry(c, [r1, r2])];
  }

  /** Two header lines and two sample rows of one unknown category read back as no
      events and the one mismatch message for rows 3 and 4. */
  lemma ImportOfSamples(h1: string, h2: string, t1: string, s1: string, e1: string,
                        t2: string, s2: string, e2: string, c: string, categories: seq<CategoryConfig>)
    requires CsvExport.Unbroken(h1) && CsvExport.Unbroken(h2)
    requires SampleFields(t1, s1, e1) && SampleFields(t2, s2, e2) && SampleCategory(c)
    requires c !in ValidCategories(categories)
    ensures ParseCsvEventsOf(Join([h1, h2, QuotedRow(t1, s1, e1, c), QuotedRow(t2, s2, e2, c)], "\n"), categories) ==
      CsvParseResult([], categories, [MismatchMessage(Entry(c, [3, 4]))])
  {
    var r1, r2 := QuotedRow(t1, s1, e1, c), QuotedRow(t2, s2, e2, c);
    SampleLines(h1, h2, t1, s1, e1, t2, s2, e2, c);
    var valid := ValidCategories(categories);
    RowMismatch(t1, s1, e1, c, 3, valid);
    RowMismatch(t2, s2, e2, c, 4, valid);
    ImportOfMismatches(Join([h1, h2, r1, r2], "\n"), r1, r2, c, categories);
  }

  /** A text whose two data lines are mismatches of one category. */
  lemma ImportOfMismatches(content: string, r1: string, r2: string, c: string, categories: seq<CategoryConfig>)
    requires DataLinesOf(content) == [r1, r2]
    requires ClassifyRow(ParseLine(r1), 3, ValidCategories(categories)) == Mismatched(c, 3)
    requires ClassifyRow(ParseLine(r2), 4, ValidCategories(categories)) == Mismatched(c, 4)
    ensures ParseCsvEventsOf(content, categories) == CsvParseResult([], categories, [MismatchMessage(Entry(c, [3, 4]))])
  {
    var dataLines := [r1, r2];
    var outs := Outcomes(dataLines, ValidCategories(categories));
    assert dataLines[0] == r1 && dataLines[1] == r2;
    TwoMismatches(outs, c, 3, 4);
    OneMessage(Entry(c, [3, 4]));
  }

  lemma OneMessage(m: Entry)
    ensures MismatchMessages([m]) == [MismatchMessage(m)]
  {
    assert [m][..0] == [];
  }

  /** The data lines of such a text are its two rows. */
  lemma SampleLines(h1: string, h2: string, t1: string, s1: string, e1: string,
                    t2: string, s2: string, e2: string, c: string)
    requires CsvExport.Unbroken(h1) && CsvExport.Unbroken(h2)
    requires SampleFields(t1, s1, e1) && SampleFields(t2, s2, e2) && SampleCategory(c)
    ensures DataLinesOf(Join([h1, h2, QuotedRow(t1, s1, e1, c), QuotedRow(t2, s2, e2, c)], "\n")) ==
      [QuotedRow(t1, s1, e1, c), QuotedRow(t2, s2, e2, c)]
  {
    var r1, r2 := QuotedRow(t1, s1, e1, c), QuotedRow(t2, s2, e2, c);
    var lines := [h1, h2, r1, r2];
    RowUnbroken(t1, s1, e1, c);
    RowUnbroken(t2, s2, e2, c);
    UnbrokenHasNoBreak(h1);
    UnbrokenHasNoBreak(h2);
    RowIsDataLine(t1, s1, e1, c);
    RowIsDataLine(t2, s2, e2, c);
    DataLinesOfFour(h1, h2, r1, r2);
  }

  /** Four lines without breaks, the last two of them data lines. */
  lemma DataLinesOfFour(a: string, b: string, c: string, d: string)
    requires '\n' !in a && '\r' !in a && '\n' !in b && '\r' !in b
    requires '\n' !in c && '\r' !in c && '\n' !in d && '\r' !in d
    requires IsDataLine(c) && IsDataLine(d)
    ensures DataLinesOf(Join([a, b, c, d], "\n")) == [c, d]
  {
    var lines := [a, b, c, d];
    LinesOfUnbroken(lines);
    assert lines[2..] == [c, d];
    KeepAllDataLines(lines[2..]);
  }

  lemma UnbrokenHasNoBreak(h: string)
    requires CsvExport.Unbroken(h)
    ensures '\n' !in h && '\r' !in h
  {
  }

  /** Lines without line breaks joined by newlines split back into themselves. */
  lemma LinesOfUnbroken(lines: seq<string>)
    requires |lines| >= 1 && forall k :: 0 <= k < |lines| ==> '\n' !in lines[k] && '\r' !in lines[k]
    ensures LinesOf(Join(lines, "\n")) == lines
  {
    JoinWithoutChar(lines, "\n", '\r');
    LineEndingsWithoutCr(Join(lines, "\n"));
    SplitUnique(lines, '\n');
  }

  // ---------------------------------------------------------------------------
  // The template's literals
  // ---------------------------------------------------------------------------

  /** A title of fourteen characters that starts and ends with no blank. */
  lemma TitleFields(t: string, s: string, e: string)
    requires Tame(t) && |t| == 14 && !IsWhitespace(t[0]) && !IsWhitespace(t[13])
    requires Plain(s) && Plain(e) && s != [] && !IsWhitespace(s[0]) && !IsWhitespace(s[|s| - 1])
    requires e != [] && !IsWhitespace(e[0]) && !IsWhitespace(e[|e| - 1])
    requires DateAccepted(s) && DateAccepted(e)
    ensures SampleFields(t, s, e)
  {
    TrimNoop(t);
    TrimNoop(s);
    TrimNoop(e);
  }

  /** A slash date whose pieces are digits in range is accepted and plain. */
  lemma SlashTextAccepted(m: string, d: string, y: string)
    requires SlashDateParts(m, d, y) && InAcceptedRange(DigitsValue(m), DigitsValue(d), DigitsValue(y))
    ensures DateAccepted(SlashText(m, d, y)) && Plain(SlashText(m, d, y))
    ensures SlashText(m, d, y) != [] && IsDigit(SlashText(m, d, y)[0])
    ensures IsDigit(SlashText(m, d, y)[|SlashText(m, d, y)| - 1])
  {
    NormalizeSlashText(m, d, y);
    var t := SlashText(m, d, y);
    assert t[0] == m[0] && t[|t| - 1] == y[3];
    DigitsPlain(m);
    DigitsPlain(d);
    DigitsPlain(y);
    PlainAppend(m, "/");
    PlainAppend(m + "/", d);
    PlainAppend(m + "/" + d, "/");
    PlainAppend(m + "/" + d + "/", y);
  }

  lemma DigitsPlain(s: string)
    requires AllDigits(s)
    ensures Plain(s)
  {
  }

  lemma PlainAppend(a: string, b: string)
    requires Plain(a) && Plain(b)
    ensures Plain(a + b)
  {
    forall i | 0 <= i < |a + b| ensures (a + b)[i] == if i < |a| then a[i] else b[i - |a|] {
    }
  }

  lemma DigitIsNotBlank(c: char)
    requires IsDigit(c)
    ensures !IsWhitespace(c)
  {
  }

  lemma SampleDates1()
    ensures var s, e := SlashText("1", "15", "2024"), SlashText("1", "20", "2024");
      Plain(s) && Plain(e) && DateAccepted(s) && DateAccepted(e) && s != [] && e != [] &&
      !IsWhitespace(s[0]) && !IsWhitespace(s[|s| - 1]) && !IsWhitespace(e[0]) && !IsWhitespace(e[|e| - 1])
  {
    Value2024();
    assert DigitsValue("1") == 1 by { assert "1"[..0] == []; }
    assert DigitsValue("15") == 15 by { assert "15"[..1] == "1"; }
    assert DigitsValue("20") == 20 by { assert "20"[..1] == "2"; assert "2"[..0] == []; }
    SlashTextAccepted("1", "15", "2024");
    SlashTextAccepted("1", "20", "2024");
    DigitIsNotBlank('1');
    DigitIsNotBlank('4');
  }

  lemma SampleDates2()
    ensures var s, e := SlashText("10", "14", "2024"), SlashText("10", "16", "2024");
      Plain(s) && Plain(e) && DateAccepted(s) && DateAccepted(e) && s != [] && e != [] &&
      !IsWhitespace(s[0]) && !IsWhitespace(s[|s| - 1]) && !IsWhitespace(e[0]) && !IsWhitespace(e[|e| - 1])
  {
    Value2024();
    assert DigitsValue("1") == 1 by { assert "1"[..0] == []; }
    assert DigitsValue("10") == 10 by { assert "10"[..1] == "1"; }
    assert DigitsValue("14") == 14 by { assert "14"[..1] == "1"; }
    assert DigitsValue("16") == 16 by { assert "16"[..1] == "1"; }
    SlashTextAccepted("10", "14", "2024");
    SlashTextAccepted("10", "16", "2024");
    DigitIsNotBlank('1');
    DigitIsNotBlank('4');
  }

  lemma SampleTitles()
    ensures Tame("Sample Event 1") && |"Sample Event 1"| == 14
    ensures !IsWhitespace("Sample Event 1"[0]) && !IsWhitespace("Sample Event 1"[13])
    ensures Tame("Sample Event 2") && |"Sample Event 2"| == 14
    ensures !IsWhitespace("Sample Event 2"[0]) && !IsWhitespace("Sample Event 2"[13])
  {
    DigitIsNotBlank('1');
    DigitIsNotBlank('2');
  }

  lemma SampleCategoryFields()
    ensures SampleCategory(SAMPLE_CATEGORY)
  {
    assert forall i :: 0 <= i < |SAMPLE_CATEGORY| ==> IsLowerAlnum(SAMPLE_CATEGORY[i]);
    NormalizedIsFixed(SAMPLE_CATEGORY);
    TrimNoop(SAMPLE_CATEGORY);
  }

  lemma HintsUnbroken()
    ensures CsvExport.Unbroken(Join(TEMPLATE_HINTS, ","))
  {
    var n := NatToString(MAX_TITLE_LENGTH);
    var h := "Character limit of " + n;
    assert CsvExport.Unbroken(h) by {
      forall i | 0 <= i < |h| ensures h[i] != '\n' && h[i] != '\r' {
        if i >= 19 { assert h[i] == n[i - 19]; }
      }
    }
    assert CsvExport.Unbroken(TEMPLATE_HINTS[1]) && CsvExport.Unbroken(TEMPLATE_HINTS[2]);
    assert CsvExport.Unbroken(TEMPLATE_HINTS[3]);
    CsvExport.FieldsWithoutBreaks(TEMPLATE_HINTS);
    var j := Join(TEMPLATE_HINTS, ",");
    assert forall i :: 0 <= i < |j| ==> j[i] in j;
  }

  lemma HeaderUnbroken()
    ensures CsvExport.Unbroken(CsvExport.HEADER)
  {
    CsvExport.HeaderLines();
    var j := CsvExport.HEADER;
    assert forall i :: 0 <= i < |j| ==> j[i] in j;
  }

  /** Read back against categories none of whose ids normalises to "test", the template
      gives no events, the categories unchanged and one error: the mismatch of "test" in
      rows 3 and 4. */
  lemma TemplateImport(categories: seq<CategoryConfig>)
    requires SAMPLE_CATEGORY !in ValidCategories(categories)
    ensures ParseCsvEventsOf(TemplateCsv(), categories) ==
      CsvParseResult([], categories, [MismatchMessage(Entry(SAMPLE_CATEGORY, [3, 4]))])
  {
    var s1, e1 := SlashText("1", "15", "2024"), SlashText("1", "20", "2024");
    var s2, e2 := SlashText("10", "14", "2024"), SlashText("10", "16", "2024");
    SampleTitles();
    SampleDates1();
    SampleDates2();
    TitleFields("Sample Event 1", s1, e1);
    TitleFields("Sample Event 2", s2, e2);
    SampleCategoryFields();
    HeaderUnbroken();
    HintsUnbroken();
    ImportOfSamples(CsvExport.HEADER, Join(TEMPLATE_HINTS, ","), "Sample Event 1", s1, e1,
                    "Sample Event 2", s2, e2, SAMPLE_CATEGORY, categories);
  }

  /** The row list of that message. */
  lemma TemplateMismatchRows()
    ensures RowList([3, 4]) == "3, 4"
  {
    assert NatToString(3) == "3" && NatToString(4) == "4";
    assert RowNumbers([3, 4]) == ["3", "4"];
  }
}
