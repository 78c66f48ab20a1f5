/**
  Date text handling (src/utils/dateUtils.ts): the "M/D/YYYY" spreadsheet format read by
  the importers, the "YYYY-MM-DD" format events carry, and the conversion back for export.
  Also the reading of a "YYYY-MM-DD" string into year, month and day that the layout code
  performs (with `split('-').map(Number)` or `new Date(...)`).
*/
module DateUtils {
  import opened Strings
  import opened Types

  /** `isValidDateFormat`: the text is `\d{4}-\d{2}-\d{2}` and nothing else. */
  predicate IsValidDateFormat(s: string) {
    |s| == 10 && AllDigits(s[..4]) && s[4] == '-' && AllDigits(s[5..7]) && s[7] == '-' && AllDigits(s[8..])
  }

  function IsoYear(s: string): nat
    requires IsValidDateFormat(s)
  {
    DigitsValue(s[..4])
  }

  /** The month, counted from 1. */
  function IsoMonth(s: string): nat
    requires IsValidDateFormat(s)
  {
    DigitsValue(s[5..7])
  }

  function IsoDay(s: string): nat
    requires IsValidDateFormat(s)
  {
    DigitsValue(s[8..])
  }

  /** Reading the three fields by position is what `split('-')` does on such a string. */
  lemma IsoSplit(s: string)
    requires IsValidDateFormat(s)
    ensures Split(s, '-') == [s[..4], s[5..7], s[8..]]
  {
    var parts := [s[..4], s[5..7], s[8..]];
    Join3(s[..4], s[5..7], s[8..], "-");
    assert Join(parts, "-") == s;
    forall k | 0 <= k < 3 ensures '-' !in parts[k] {
      assert forall j :: 0 <= j < |parts[k]| ==> parts[k][j] != '-';
    }
    SplitUnique(parts, '-');
  }

  /** An order-preserving number for a date: earlier (year, month, day) gives a smaller key. */
  function DateKey(s: string): (k: nat)
    requires IsValidDateFormat(s)
    ensures k < 100000000
  {
    DigitsValueBound4(s[..4]);
    DigitsValueBound2(s[5..7]);
    DigitsValueBound2(s[8..]);
    IsoYear(s) * 10000 + IsoMonth(s) * 100 + IsoDay(s)
  }

  /** The key orders dates lexicographically by (year, month, day). */
  lemma DateKeyOrder(a: string, b: string)
    requires IsValidDateFormat(a) && IsValidDateFormat(b)
    ensures DateKey(a) < DateKey(b) <==>
      IsoYear(a) < IsoYear(b) ||
      (IsoYear(a) == IsoYear(b) && (IsoMonth(a) < IsoMonth(b) || (IsoMonth(a) == IsoMonth(b) && IsoDay(a) < IsoDay(b))))
    ensures DateKey(a) == DateKey(b) <==> IsoYear(a) == IsoYear(b) && IsoMonth(a) == IsoMonth(b) && IsoDay(a) == IsoDay(b)
  {
    DigitsValueBound2(a[5..7]); DigitsValueBound2(a[8..]);
    DigitsValueBound2(b[5..7]); DigitsValueBound2(b[8..]);
  }

  /** The shape `^(\d{1,2})\/(\d{1,2})\/(\d{4})$`, decided on the `/`-separated pieces. */
  predicate IsSlashDate(t: string) {
    var p := Split(t, '/');
    |p| == 3 && 1 <= |p[0]| <= 2 && 1 <= |p[1]| <= 2 && |p[2]| == 4
    && AllDigits(p[0]) && AllDigits(p[1]) && AllDigits(p[2])
  }

  /** The piece test agrees with the regular expression read literally: one or two digits,
      a slash, one or two digits, a slash, four digits. */
  lemma IsSlashDateIsRegex(t: string)
    ensures IsSlashDate(t) <==>
      exists m, d, y :: SlashDateParts(m, d, y) && t == m + "/" + d + "/" + y
  {
    if IsSlashDate(t) {
      var p := Split(t, '/');
      assert p == [p[0], p[1], p[2]];
      Join3(p[0], p[1], p[2], "/");
      assert SlashDateParts(p[0], p[1], p[2]);
    }
    if exists m, d, y :: SlashDateParts(m, d, y) && t == m + "/" + d + "/" + y {
      var m, d, y :| SlashDateParts(m, d, y) && t == m + "/" + d + "/" + y;
      SlashPiecesSplit(m, d, y);
    }
  }

  predicate SlashDateParts(m: string, d: string, y: string) {
    1 <= |m| <= 2 && 1 <= |d| <= 2 && |y| == 4 && AllDigits(m) && AllDigits(d) && AllDigits(y)
  }

  lemma SlashPiecesSplit(m: string, d: string, y: string)
    requires AllDigits(m) && AllDigits(d) && AllDigits(y)
    ensures Split(m + "/" + d + "/" + y, '/') == [m, d, y]
  {
    var parts := [m, d, y];
    Join3(m, d, y, "/");
    forall k | 0 <= k < 3 ensures '/' !in parts[k] {
      assert forall j :: 0 <= j < |parts[k]| ==> parts[k][j] != '/';
    }
    SplitUnique(parts, '/');
  }

  /** The ranges `normalizeDate` accepts: month 1..12, day 1..31, year from 1900.
      The day is not checked against the month. */
  predicate InAcceptedRange(m: int, d: int, y: int) {
    !(m < 1 || m > 12 || d < 1 || d > 31 || y < 1900)
  }

  function IsoText(y: nat, m: nat, d: nat): string {
    NatToString(y) + "-" + PadStart2(NatToString(m)) + "-" + PadStart2(NatToString(d))
  }

  /** `normalizeDate`: "M/D/YYYY" (after trimming) to "YYYY-MM-DD", or None. */
  function NormalizeDate(s: string): (r: Option<string>)
    ensures r.Some? ==> IsValidDateFormat(r.value)
  {
    var t := Trim(s);
    if !IsSlashDate(t) then None
    else
      var p := Split(t, '/');
      var m, d, y := DigitsValue(p[0]), DigitsValue(p[1]), DigitsValue(p[2]);
      if !InAcceptedRange(m, d, y) then None
      else
        DigitsValueBound4(p[2]);
        IsoTextValid(y, m, d);
        Some(IsoText(y, m, d))
  }

  lemma IsoTextValid(y: nat, m: nat, d: nat)
    requires 1900 <= y <= 9999 && 1 <= m <= 12 && 1 <= d <= 31
    ensures IsValidDateFormat(IsoText(y, m, d))
    ensures IsoYear(IsoText(y, m, d)) == y && IsoMonth(IsoText(y, m, d)) == m && IsoDay(IsoText(y, m, d)) == d
  {
    NatToStringLength(y);
    NatToStringLength(m);
    NatToStringLength(d);
    var t := IsoText(y, m, d);
    var ys, ms, ds := NatToString(y), PadStart2(NatToString(m)), PadStart2(NatToString(d));
    assert |ms| == 2 && |ds| == 2;
    assert t[..4] == ys && t[5..7] == ms && t[8..] == ds;
    PadValue(NatToString(m));
    PadValue(NatToString(d));
  }

  lemma PadValue(s: string)
    requires AllDigits(s) && 1 <= |s| <= 2
    ensures AllDigits(PadStart2(s)) && DigitsValue(PadStart2(s)) == DigitsValue(s)
  {
    if |s| == 1 {
      var p := PadStart2(s);
      assert p[..1] == "0";
      assert DigitsValue(p[..1]) == 0 by { assert p[..1][..0] == []; }
    }
  }

  datatype Ymd = Ymd(year: nat, month: nat, day: nat)

  /** The accepted slash date, read as numbers. */
  function SlashValues(t: string): Ymd
    requires IsSlashDate(t)
  {
    var p := Split(t, '/');
    Ymd(DigitsValue(p[2]), DigitsValue(p[0]), DigitsValue(p[1]))
  }

  /** Everything `normalizeDate` accepts and what it turns it into. */
  lemma NormalizeDateSpec(s: string)
    ensures NormalizeDate(s).Some? <==>
      IsSlashDate(Trim(s)) &&
      InAcceptedRange(SlashValues(Trim(s)).month, SlashValues(Trim(s)).day, SlashValues(Trim(s)).year)
    ensures NormalizeDate(s).Some? ==>
      var v := SlashValues(Trim(s));
      var r := NormalizeDate(s).value;
      IsoYear(r) == v.year && IsoMonth(r) == v.month && IsoDay(r) == v.day
  {
    var t := Trim(s);
    if IsSlashDate(t) {
      var v := SlashValues(t);
      DigitsValueBound4(Split(t, '/')[2]);
      if InAcceptedRange(v.month, v.day, v.year) {
        IsoTextValid(v.year, v.month, v.day);
      }
    }
  }

  /** `Number` on one "-"-separated piece, as a template literal prints the result: text
      that is blank or decimal digits once trimmed gives its value without leading zeros
      (blank text is 0), anything else `NaN`. */
  function NumberText(p: string): (r: string)
    ensures |r| >= 1
  {
    var t := Trim(p);
    if AllDigits(t) then NatToString(DigitsValue(t)) else "NaN"
  }

  /** Element `k` of the destructured `split('-').map(Number)`: `undefined` past the end. */
  function PieceText(pieces: seq<string>, k: nat): (r: string)
    ensures |r| >= 1
  {
    if k < |pieces| then NumberText(pieces[k]) else "undefined"
  }

  /** A date in "YYYY-MM-DD" form splits into its three fields, and `Number` reads each as
      its decimal value. */
  lemma IsoPieces(s: string)
    requires IsValidDateFormat(s)
    ensures Split(s, '-') == [s[..4], s[5..7], s[8..]]
    ensures NumberText(s[..4]) == NatToString(IsoYear(s))
    ensures NumberText(s[5..7]) == NatToString(IsoMonth(s))
    ensures NumberText(s[8..]) == NatToString(IsoDay(s))
  {
    IsoSplit(s);
    TrimNoop(s[..4]);
    TrimNoop(s[5..7]);
    TrimNoop(s[8..]);
  }

  /** `formatDateForCSV`: the second, third and first numbers of `split('-')`, joined by
      "/". */
  function FormatDateForCsv(s: string): (r: string)
    ensures |r| >= 5
  {
    FormatPieces(Split(s, '-'))
  }

  /** Month, day and year, in that order, from the pieces of year, month and day. */
  function FormatPieces(pieces: seq<string>): (r: string)
    ensures |r| >= 5
  {
    PieceText(pieces, 1) + "/" + PieceText(pieces, 2) + "/" + PieceText(pieces, 0)
  }

  /** On a "YYYY-MM-DD" date: its month, day and year printed without padding as
      "M/D/YYYY". */
  lemma FormatIsoDate(s: string)
    requires IsValidDateFormat(s)
    ensures FormatDateForCsv(s) ==
      NatToString(IsoMonth(s)) + "/" + NatToString(IsoDay(s)) + "/" + NatToString(IsoYear(s))
  {
    IsoPieces(s);
  }

  /** A cleared end date exports as "undefined/undefined/0": "" splits into one empty
      piece, which `Number` reads as 0, and month and day are missing. */
  lemma FormatEmptyDate()
    ensures FormatDateForCsv("") == "undefined/undefined/0"
  {
    assert Split("", '-') == [""];
    assert Trim("") == [];
    assert NatToString(0) == "0";
  }

  /** Text without a "-" is one piece, the year: month and day print as `undefined`. */
  lemma FormatUndashedText(s: string)
    requires '-' !in s
    ensures FormatDateForCsv(s) == "undefined/undefined/" + NumberText(s)
  {
    SplitOfSeparatorFree(s, '-');
  }

  /** `normalizeDate` on text that is already exactly "M/D/YYYY". */
  lemma NormalizeSlashText(m: string, d: string, y: string)
    requires SlashDateParts(m, d, y)
    ensures NormalizeDate(m + "/" + d + "/" + y) ==
      if InAcceptedRange(DigitsValue(m), DigitsValue(d), DigitsValue(y))
      then Some(IsoText(DigitsValue(y), DigitsValue(m), DigitsValue(d))) else None
  {
    var t := m + "/" + d + "/" + y;
    assert t[0] == m[0] && t[|t| - 1] == y[3];
    assert IsDigit(t[0]) && IsDigit(t[|t| - 1]);
    TrimNoop(t);
    SlashPiecesSplit(m, d, y);
  }

  /** The day is not checked against the length of the month: "2/31/2024" is accepted. */
  lemma NormalizeDateAcceptsFebruary31()
    ensures NormalizeDate("2/31/2024") == Some("2024-02-31")
  {
    assert "2/31/2024" == "2" + "/" + "31" + "/" + "2024";
    Value2024();
    assert DigitsValue("2") == 2 by { assert "2"[..0] == []; }
    assert DigitsValue("31") == 31 by { assert "31"[..1] == "3"; assert "3"[..0] == []; }
    NormalizeSlashText("2", "31", "2024");
    IsoText20240231();
  }

  lemma Value2024()
    ensures DigitsValue("2024") == 2024
  {
    assert "2024"[..3] == "202"; assert "202"[..2] == "20"; assert "20"[..1] == "2"; assert "2"[..0] == [];
  }

  lemma IsoText20240231()
    ensures IsoText(2024, 2, 31) == "2024-02-31"
  {
    assert NatToString(2024) == "2024";
    assert NatToString(2) == "2" && NatToString(31) == "31";
    assert PadStart2("2") == "02";
  }

  /** `formatDateForCSV` prints month, day and year without the zero padding of the
      "YYYY-MM-DD" form. */
  lemma FormatDropsPadding(y: nat, m: nat, d: nat)
    requires 1900 <= y <= 9999 && 1 <= m <= 12 && 1 <= d <= 31
    ensures IsValidDateFormat(IsoText(y, m, d))
    ensures FormatDateForCsv(IsoText(y, m, d)) == NatToString(m) + "/" + NatToString(d) + "/" + NatToString(y)
  {
    IsoTextValid(y, m, d);
    FormatIsoDate(IsoText(y, m, d));
  }

  lemma FormatDropsLeadingZeros()
    ensures IsValidDateFormat("2024-01-05") && FormatDateForCsv("2024-01-05") == "1/5/2024"
  {
    IsoText20240105();
    Printed1And5();
    FormatDropsPadding(2024, 1, 5);
  }

  lemma IsoText20240105()
    ensures IsoText(2024, 1, 5) == "2024-01-05"
  {
    assert NatToString(2024) == "2024";
    assert NatToString(1) == "1" && NatToString(5) == "5";
    assert PadStart2("1") == "01" && PadStart2("5") == "05";
  }

  lemma Printed1And5()
    ensures NatToString(1) + "/" + NatToString(5) + "/" + NatToString(2024) == "1/5/2024"
  {
    assert NatToString(2024) == "2024";
    assert NatToString(1) == "1" && NatToString(5) == "5";
  }

  /** A date in the form `normalizeDate` produces. */
  predicate IsNormalizedDate(x: string) {
    IsValidDateFormat(x) && InAcceptedRange(IsoMonth(x), IsoDay(x), IsoYear(x))
  }

  lemma NormalizedIsNormalizedDate(s: string)
    requires NormalizeDate(s).Some?
    ensures IsNormalizedDate(NormalizeDate(s).value)
  {
    NormalizeDateSpec(s);
  }

  /** Exporting a date and reading it back gives the same "YYYY-MM-DD" text. */
  lemma {:induction false} FormatThenNormalize(x: string)
    requires IsNormalizedDate(x)
    ensures NormalizeDate(FormatDateForCsv(x)) == Some(x)
  {
    FormatIsoDate(x);
    NormalizePrinted(x);
  }

  /** `normalizeDate` reads the unpadded "M/D/YYYY" form of a normalized date back. */
  lemma NormalizePrinted(x: string)
    requires IsNormalizedDate(x)
    ensures NormalizeDate(NatToString(IsoMonth(x)) + "/" + NatToString(IsoDay(x)) + "/" + NatToString(IsoYear(x))) == Some(x)
  {
    var y, m, d := IsoYear(x), IsoMonth(x), IsoDay(x);
    DigitsValueBound4(x[..4]);
    var ms, ds, ys := NatToString(m), NatToString(d), NatToString(y);
    NatToStringLength(m); NatToStringLength(d); NatToStringLength(y);
    var f := ms + "/" + ds + "/" + ys;
    assert f[0] != '/' && f[|f| - 1] != '/' by { assert f[0] == ms[0] && f[|f| - 1] == ys[3]; }
    assert !IsWhitespace(f[0]) && !IsWhitespace(f[|f| - 1]) by {
      assert IsDigit(f[0]) by { assert f[0] == ms[0]; }
      assert IsDigit(f[|f| - 1]) by { assert f[|f| - 1] == ys[3]; }
    }
    TrimNoop(f);
    SlashPiecesSplit(ms, ds, ys);
    assert IsSlashDate(f);
    IsoTextValid(y, m, d);
    IsoTextIsX(x);
  }

  /** A normalized date is rebuilt exactly from its three numbers. */
  lemma IsoTextIsX(x: string)
    requires IsNormalizedDate(x)
    ensures IsoText(IsoYear(x), IsoMonth(x), IsoDay(x)) == x
  {
    var y, m, d := IsoYear(x), IsoMonth(x), IsoDay(x);
    DigitsValueBound4(x[..4]);
    FixedDigits(x[..4], y);
    TwoDigits(x[5..7], m);
    TwoDigits(x[8..], d);
    assert x == x[..4] + "-" + x[5..7] + "-" + x[8..];
  }

  /** A four-digit field with a value from 1000 is the plain decimal text of that value. */
  lemma FixedDigits(s: string, v: nat)
    requires |s| == 4 && AllDigits(s) && DigitsValue(s) == v && v >= 1000
    ensures NatToString(v) == s
  {
    DigitsValueBound4(s);
    NatToStringLength(v);
    DigitsEqual(NatToString(v), s);
  }

  /** A two-digit field with a value from 1 is the padded decimal text of that value. */
  lemma TwoDigits(s: string, v: nat)
    requires |s| == 2 && AllDigits(s) && DigitsValue(s) == v && v >= 1
    ensures PadStart2(NatToString(v)) == s
  {
    DigitsValueBound2(s);
    NatToStringLength(v);
    PadValue(NatToString(v));
    DigitsEqual(PadStart2(NatToString(v)), s);
  }

  /** Digit strings of equal length and equal value are equal. */
  lemma {:induction false} DigitsEqual(a: string, b: string)
    requires |a| == |b| && AllDigits(a) && AllDigits(b) && DigitsValue(a) == DigitsValue(b)
    ensures a == b
    decreases |a|
  {
    if a != [] {
      var n := |a|;
      assert a[n - 1] == b[n - 1];
      DigitsEqual(a[..n - 1], b[..n - 1]);
      assert a == a[..n - 1] + [a[n - 1]];
      assert b == b[..n - 1] + [b[n - 1]];
    }
  }

  /** Both dates of the event are "YYYY-MM-DD" strings. */
  predicate HasIsoDates(e: Event) {
    IsValidDateFormat(e.startDate) && IsValidDateFormat(e.endDate)
  }

  /** A "YYYY-MM-DD" string whose month is 01..12 and whose day is 01..31. */
  predicate IsCalendarDate(s: string) {
    IsValidDateFormat(s) && 1 <= IsoMonth(s) <= 12 && 1 <= IsoDay(s) <= 31
  }

  /** Every event has "YYYY-MM-DD" dates. */
  predicate AllIsoDates(events: seq<Event>) {
    forall i :: 0 <= i < |events| ==> IsValidDateFormat(events[i].startDate) && IsValidDateFormat(events[i].endDate)
  }

  lemma AllIsoDatesPrefix(events: seq<Event>, j: nat)
    requires AllIsoDates(events) && j <= |events|
    ensures AllIsoDates(events[..j])
  {
    assert forall i :: 0 <= i < j ==> events[..j][i] == events[i];
  }

  /** `new Date(date)` read back through `getFullYear()` and the 0-based `getMonth()`. */
  function MonthOf(date: string): Month
    requires IsValidDateFormat(date)
  {
    Month(IsoYear(date), IsoMonth(date) - 1)
  }
}
