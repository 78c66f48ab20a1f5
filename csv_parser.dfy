/**
  The CSV importer (src/utils/csvParser.ts): category-name normalisation, the
  quote-aware line splitter, and the row-by-row validation of an uploaded file into
  events, row errors and category mismatches.
*/
module CsvParser {
  import opened Types
  import opened Strings
  import opened DateUtils

  // ---------------------------------------------------------------------------
  // normalizeCategory
  // ---------------------------------------------------------------------------

  predicate IsLowerAlnum(c: char) {
    'a' <= c <= 'z' || '0' <= c <= '9'
  }

  /** The characters the class `[^a-z0-9\s&_-]` does not remove. */
  predicate KeptBySpecialFilter(c: char) {
    IsLowerAlnum(c) || IsWhitespace(c) || c == '&' || c == '_' || c == '-'
  }

  /** `.replace(/[^a-z0-9\s&_-]/g, '')`. */
  function RemoveSpecial(s: string): (r: string)
    ensures forall i :: 0 <= i < |r| ==> KeptBySpecialFilter(r[i])
    ensures (forall i :: 0 <= i < |s| ==> KeptBySpecialFilter(s[i])) ==> r == s
  {
    if s == [] then []
    else (if KeptBySpecialFilter(s[0]) then [s[0]] else []) + RemoveSpecial(s[1..])
  }

  /** Every match of the regular expression `\s*&\s*` replaced by `_and_`. Scanning from
      the left, a match starts at the first whitespace character of a run that ends in
      `&` (or at the `&` itself) and takes the whitespace after it. */
  function ReplaceAmpersands(s: string): (r: string)
    ensures '&' !in s ==> r == s
    decreases |s|
  {
    TrimStartSuffix(s);
    if s == [] then []
    else if AmpersandAhead(s) then "_and_" + ReplaceAmpersands(AfterAmpersand(s))
    else [s[0]] + ReplaceAmpersands(s[1..])
  }

  /** `s` starts with whitespace (possibly none) and then `&`. */
  predicate AmpersandAhead(s: string) {
    var t := TrimStart(s);
    t != [] && t[0] == '&'
  }

  /** What follows the `&` and the whitespace after it. */
  function AfterAmpersand(s: string): (r: string)
    requires AmpersandAhead(s)
    ensures |r| < |s| && r == s[|s| - |r|..]
  {
    var t := TrimStart(s);
    TrimStartSuffix(s);
    var u := t[1..];
    assert u == s[|s| - |t| + 1..];
    var r := TrimStart(u);
    TrimStartSuffix(u);
    assert r == s[|s| - |r|..];
    r
  }

  /** The characters left once `&` has been replaced. */
  predicate KeptByAmpersands(c: char) {
    IsLowerAlnum(c) || IsWhitespace(c) || c == '_' || c == '-'
  }

  predicate IsSeparator(c: char) {
    c == '-' || IsWhitespace(c)
  }

  /** Leading separators removed. */
  function DropSeparators(s: string): (r: string)
    ensures |r| <= |s|
    ensures r == [] || !IsSeparator(r[0])
    ensures forall c :: c in r ==> c in s
  {
    if s != [] && IsSeparator(s[0]) then DropSeparators(s[1..]) else s
  }

  /** `.replace(/[-\s]+/g, '_')`: each run of hyphens and whitespace becomes one `_`. */
  function CollapseSeparators(s: string): (r: string)
    ensures forall i :: 0 <= i < |r| ==> !IsSeparator(r[i]) && (r[i] == '_' || r[i] in s)
    ensures (forall i :: 0 <= i < |s| ==> !IsSeparator(s[i])) ==> r == s
    decreases |s|
  {
    if s == [] then []
    else if IsSeparator(s[0]) then
      var t := DropSeparators(s);
      var rest := CollapseSeparators(t);
      "_" + rest
    else
      var rest := CollapseSeparators(s[1..]);
      assert forall c :: c in s[1..] ==> c in s;
      [s[0]] + rest
  }

  /** `normalizeCategory`: trimmed, lower-cased, stripped of other characters, `&` with
      its surrounding whitespace as `_and_`, and separator runs as `_`. */
  function NormalizeCategory(category: string): (r: string)
    ensures forall i :: 0 <= i < |r| ==> IsLowerAlnum(r[i]) || r[i] == '_'
  {
    var a := RemoveSpecial(ToLower(Trim(category)));
    AmpersandsKeep(a);
    var b := ReplaceAmpersands(a);
    CollapseKeeps(b);
    CollapseSeparators(b)
  }

  /** Replacing `&` leaves only characters the special-character filter kept, minus `&`,
      plus those of `_and_`. */
  lemma {:induction false} AmpersandsKeep(s: string)
    requires forall i :: 0 <= i < |s| ==> KeptBySpecialFilter(s[i])
    ensures forall i :: 0 <= i < |ReplaceAmpersands(s)| ==> KeptByAmpersands(ReplaceAmpersands(s)[i])
    decreases |s|
  {
    if s != [] {
      if AmpersandAhead(s) {
        var u := AfterAmpersand(s);
        SuffixKept(s, |s| - |u|);
        AmpersandsKeep(u);
        assert ReplaceAmpersands(s) == "_and_" + ReplaceAmpersands(u);
        AndKept();
        AllKeptAppend("_and_", ReplaceAmpersands(u));
      } else {
        assert s[0] != '&';
        AmpersandsKeep(s[1..]);
        assert ReplaceAmpersands(s) == [s[0]] + ReplaceAmpersands(s[1..]);
        AllKeptAppend([s[0]], ReplaceAmpersands(s[1..]));
      }
    }
  }

  lemma SuffixKept(s: string, k: nat)
    requires k <= |s|
    requires forall i :: 0 <= i < |s| ==> KeptBySpecialFilter(s[i])
    ensures forall i :: 0 <= i < |s[k..]| ==> KeptBySpecialFilter(s[k..][i])
  {
    forall i | 0 <= i < |s[k..]| ensures KeptBySpecialFilter(s[k..][i]) {
      assert s[k..][i] == s[k + i];
    }
  }

  predicate AllKeptByAmpersands(s: string) {
    forall i :: 0 <= i < |s| ==> KeptByAmpersands(s[i])
  }

  lemma AndKept()
    ensures AllKeptByAmpersands("_and_")
  {
  }

  lemma AllKeptAppend(x: string, y: string)
    requires AllKeptByAmpersands(x) && AllKeptByAmpersands(y)
    ensures AllKeptByAmpersands(x + y)
  {
  }

  /** Once separators are collapsed, only letters, digits and `_` remain. */
  lemma CollapseKeeps(s: string)
    requires forall i :: 0 <= i < |s| ==> KeptByAmpersands(s[i])
    ensures forall i :: 0 <= i < |CollapseSeparators(s)| ==>
      IsLowerAlnum(CollapseSeparators(s)[i]) || CollapseSeparators(s)[i] == '_'
  {
    var r := CollapseSeparators(s);
    forall i | 0 <= i < |r| ensures IsLowerAlnum(r[i]) || r[i] == '_' {
      if r[i] != '_' {
        var k :| 0 <= k < |s| && s[k] == r[i];
        assert KeptByAmpersands(s[k]);
      }
    }
  }

  /** A normalised name is its own normalisation. */
  lemma NormalizeCategoryIdempotent(category: string)
    ensures NormalizeCategory(NormalizeCategory(category)) == NormalizeCategory(category)
  {
    var n := NormalizeCategory(category);
    NormalizedIsFixed(n);
  }

  /** Names made of `a`-`z`, `0`-`9` and `_` are left as they are. */
  lemma NormalizedIsFixed(n: string)
    requires forall i :: 0 <= i < |n| ==> IsLowerAlnum(n[i]) || n[i] == '_'
    ensures NormalizeCategory(n) == n
  {
    TrimNoop(n);
    LowerFixed(n);
    SpecialFixed(n);
    var a := RemoveSpecial(ToLower(Trim(n)));
    assert a == n;
    AmpersandFree(n);
    NormalizedIsFixedChars(n);
  }

  /** Letters and digits only. */
  predicate IsWord(x: string) {
    forall i :: 0 <= i < |x| ==> IsLowerAlnum(x[i])
  }

  /** An `&` between two words, with a space on each side, becomes `_and_`. */
  lemma NormalizeAmpersandWords(x: string, y: string)
    requires x != [] && y != [] && IsWord(x) && IsWord(y)
    ensures NormalizeCategory(x + " & " + y) == x + "_and_" + y
  {
    var s := x + " & " + y;
    assert s[0] == x[0] && s[|s| - 1] == y[|y| - 1];
    TrimNoop(s);
    SpacedWordsChars(x, y);
    LowerKeeps(s);
    assert RemoveSpecial(s) == s;
    ReplaceWords(x, y);
    JoinedWordsChars(x, y);
    NormalizedIsFixedChars(x + "_and_" + y);
  }

  lemma SpacedWordsChars(x: string, y: string)
    requires IsWord(x) && IsWord(y)
    ensures forall i :: 0 <= i < |x + " & " + y| ==>
      var c := (x + " & " + y)[i]; IsLowerAlnum(c) || c == ' ' || c == '&'
  {
    var s := x + " & " + y;
    forall i | 0 <= i < |s| ensures IsLowerAlnum(s[i]) || s[i] == ' ' || s[i] == '&' {
      if i < |x| {
        assert s[i] == x[i];
      } else if i >= |x| + 3 {
        assert s[i] == y[i - |x| - 3];
      }
    }
  }

  lemma JoinedWordsChars(x: string, y: string)
    requires IsWord(x) && IsWord(y)
    ensures forall i :: 0 <= i < |x + "_and_" + y| ==>
      IsLowerAlnum((x + "_and_" + y)[i]) || (x + "_and_" + y)[i] == '_'
  {
    var s := x + "_and_" + y;
    forall i | 0 <= i < |s| ensures IsLowerAlnum(s[i]) || s[i] == '_' {
      if i < |x| {
        assert s[i] == x[i];
      } else if i >= |x| + 5 {
        assert s[i] == y[i - |x| - 5];
      }
    }
  }

  /** Lower-casing leaves a string without capital letters as it is. */
  lemma LowerKeeps(s: string)
    requires forall i :: 0 <= i < |s| ==> !('A' <= s[i] <= 'Z')
    ensures ToLower(s) == s
  {
  }

  lemma ReplaceWords(x: string, y: string)
    requires IsWord(x) && IsWord(y)
    ensures ReplaceAmpersands(x + " & " + y) == x + "_and_" + y
  {
    Associative(x, " & ", y);
    Associative(x, "_and_", y);
    assert " & " + y == [' '] + ['&'] + [' '] + y;
    AmpersandSpaced(y);
    AmpersandFree(y);
    WordPrefix(x, " & " + y);
  }

  lemma Associative(a: string, b: string, c: string)
    ensures a + b + c == a + (b + c)
  {
  }

  /** A word in front is copied unchanged. */
  lemma {:induction false} WordPrefix(x: string, t: string)
    requires IsWord(x)
    ensures ReplaceAmpersands(x + t) == x + ReplaceAmpersands(t)
    decreases |x|
  {
    if x != [] {
      HeadSplit(x, t);
      AmpersandPlainChar(x[0], x[1..] + t);
      WordPrefix(x[1..], t);
      HeadSplit(x, ReplaceAmpersands(t));
    } else {
      assert x + t == t;
      assert x + ReplaceAmpersands(t) == ReplaceAmpersands(t);
    }
  }

  lemma HeadSplit(x: string, t: string)
    requires x != []
    ensures x + t == [x[0]] + (x[1..] + t)
  {
  }

  lemma AmpersandPlainChar(c: char, t: string)
    requires !IsWhitespace(c) && c != '&'
    ensures ReplaceAmpersands([c] + t) == [c] + ReplaceAmpersands(t)
  {
    assert ([c] + t)[1..] == t;
  }

  lemma AmpersandSpaced(t: string)
    requires t == [] || !IsWhitespace(t[0])
    ensures ReplaceAmpersands([' '] + ['&'] + [' '] + t) == "_and_" + ReplaceAmpersands(t)
  {
    var s := [' '] + ['&'] + [' '] + t;
    SpaceThenAmpersand(t);
    assert AmpersandAhead(s);
    assert AfterAmpersand(s) == t;
  }

  lemma SpaceThenAmpersand(t: string)
    requires t == [] || !IsWhitespace(t[0])
    ensures TrimStart([' '] + ['&'] + [' '] + t) == ['&'] + [' '] + t
    ensures TrimStart(TrimStart([' '] + ['&'] + [' '] + t)[1..]) == t
  {
    LeadingSpace(['&'] + [' '] + t);
    assert [' '] + ['&'] + [' '] + t == [' '] + (['&'] + [' '] + t);
    assert (['&'] + [' '] + t)[1..] == [' '] + t;
    LeadingSpace(t);
  }

  lemma LeadingSpace(t: string)
    requires t == [] || !IsWhitespace(t[0])
    ensures TrimStart([' '] + t) == t
  {
    assert ([' '] + t)[1..] == t;
  }

  /** A hyphen between spaces becomes a single `_`. */
  lemma NormalizeHyphenExample()
    ensures NormalizeCategory("a - b") == "a_b"
  {
    TrimNoop("a - b");
    HyphenUnchangedBeforeCollapse();
    HyphenStep();
  }

  lemma HyphenUnchangedBeforeCollapse()
    ensures ToLower("a - b") == "a - b"
    ensures RemoveSpecial("a - b") == "a - b"
    ensures ReplaceAmpersands("a - b") == "a - b"
  {
    assert ToLower("a - b") == "a - b";
    assert RemoveSpecial("a - b") == "a - b";
    assert ReplaceAmpersands("a - b") == "a - b";
  }

  lemma HyphenStep()
    ensures CollapseSeparators("a - b") == "a_b"
  {
    assert "a - b"[1..] == " - b";
    assert DropSeparators(" - b") == "b";
    assert CollapseSeparators("b") == "b";
  }

  lemma LowerFixed(n: string)
    requires forall i :: 0 <= i < |n| ==> IsLowerAlnum(n[i]) || n[i] == '_'
    ensures ToLower(n) == n
  {
  }

  lemma SpecialFixed(n: string)
    requires forall i :: 0 <= i < |n| ==> IsLowerAlnum(n[i]) || n[i] == '_'
    ensures RemoveSpecial(n) == n
  {
    assert forall i :: 0 <= i < |n| ==> KeptBySpecialFilter(n[i]);
  }

  lemma AmpersandFree(n: string)
    requires forall i :: 0 <= i < |n| ==> IsLowerAlnum(n[i]) || n[i] == '_'
    ensures ReplaceAmpersands(n) == n
  {
    assert '&' !in n;
  }

  lemma NormalizedIsFixedChars(n: string)
    requires forall i :: 0 <= i < |n| ==> IsLowerAlnum(n[i]) || n[i] == '_'
    ensures CollapseSeparators(n) == n
  {
    assert forall i :: 0 <= i < |n| ==> !IsSeparator(n[i]);
  }

  // ---------------------------------------------------------------------------
  // parseCSVLine
  // ---------------------------------------------------------------------------

  /** What `parseCSVLine` produces from the rest `s` of the line, given the field read so
      far and whether a quote is open: `""` inside quotes is a literal quote, any other
      quote toggles quoting and is dropped, and a comma outside quotes ends a field.
      Every field is trimmed. */
  function Scan(s: string, current: string, insideQuotes: bool): (fields: seq<string>)
    ensures |fields| >= 1
    ensures forall k :: 0 <= k < |fields| ==> Trim(fields[k]) == fields[k]
    decreases |s|
  {
    TrimIdempotent(current);
    if s == [] then [Trim(current)]
    else if s[0] == '"' then
      if insideQuotes && |s| > 1 && s[1] == '"' then Scan(s[2..], current + "\"", insideQuotes)
      else Scan(s[1..], current, !insideQuotes)
    else if s[0] == ',' && !insideQuotes then [Trim(current)] + Scan(s[1..], "", insideQuotes)
    else Scan(s[1..], current + [s[0]], insideQuotes)
  }

  /** `parseCSVLine`. */
  function ParseLine(line: string): (fields: seq<string>)
    ensures |fields| >= 1
    ensures forall k :: 0 <= k < |fields| ==> Trim(fields[k]) == fields[k]
  {
    Scan(line, "", false)
  }

  /** `parseCSVLine`, with its character loop. */
  method ParseCsvLine(line: string) returns (values: seq<string>)
    ensures values == ParseLine(line)
  {
    values := [];
    var currentValue := "";
    var insideQuotes := false;
    var i := 0;
    while i < |line|
      invariant 0 <= i <= |line|
      invariant values + Scan(line[i..], currentValue, insideQuotes) == ParseLine(line)
    {
      var c := line[i];
      if c == '"' {
        if insideQuotes && i + 1 < |line| && line[i + 1] == '"' {
          assert line[i..][2..] == line[i + 2..];
          currentValue := currentValue + "\"";
          i := i + 1;
        } else {
          assert line[i..][1..] == line[i + 1..];
          insideQuotes := !insideQuotes;
        }
      } else if c == ',' && !insideQuotes {
        assert line[i..][1..] == line[i + 1..];
        values := values + [Trim(currentValue)];
        currentValue := "";
      } else {
        assert line[i..][1..] == line[i + 1..];
        currentValue := currentValue + [c];
      }
      i := i + 1;
    }
    values := values + [Trim(currentValue)];
  }

  /** The fields trimmed one by one. */
  function TrimAll(parts: seq<string>): (r: seq<string>)
    ensures |r| == |parts| && forall k :: 0 <= k < |parts| ==> r[k] == Trim(parts[k])
  {
    if parts == [] then [] else [Trim(parts[0])] + TrimAll(parts[1..])
  }

  /** Outside quotes, text without quotes and commas joins the current field. */
  lemma {:induction false} ScanPlain(x: string, rest: string, current: string)
    requires '"' !in x && ',' !in x
    ensures Scan(x + rest, current, false) == Scan(rest, current + x, false)
    decreases |x|
  {
    if x != [] {
      assert (x + rest)[1..] == x[1..] + rest;
      assert '"' !in x[1..] && ',' !in x[1..];
      ScanPlain(x[1..], rest, current + [x[0]]);
      assert current + [x[0]] + x[1..] == current + x;
    } else {
      assert x + rest == rest && current + x == current;
    }
  }

  /** Inside quotes, text without quotes joins the current field, commas included. */
  lemma {:induction false} ScanQuoted(x: string, rest: string, current: string)
    requires '"' !in x
    ensures Scan(x + rest, current, true) == Scan(rest, current + x, true)
    decreases |x|
  {
    if x != [] {
      assert (x + rest)[1..] == x[1..] + rest;
      assert '"' !in x[1..];
      ScanQuoted(x[1..], rest, current + [x[0]]);
      assert current + [x[0]] + x[1..] == current + x;
    } else {
      assert x + rest == rest && current + x == current;
    }
  }

  /** A quoted field without quotes inside, followed by a comma or the end of the line,
      reads as its text, commas included. */
  lemma QuotedField(x: string, rest: string)
    requires '"' !in x
    requires rest == [] || rest[0] != '"'
    ensures Scan("\"" + x + "\"" + rest, "", false) == Scan(rest, x, false)
  {
    var s := "\"" + x + "\"" + rest;
    assert s[1..] == x + ("\"" + rest);
    ScanQuoted(x, "\"" + rest, "");
    assert ("\"" + rest)[1..] == rest;
    assert "" + x == x;
  }

  /** A line without quotes is split at every comma and each piece is trimmed. */
  lemma LineWithoutQuotes(line: string)
    requires '"' !in line
    ensures ParseLine(line) == TrimAll(Split(line, ','))
  {
    var parts := Split(line, ',');
    forall k | 0 <= k < |parts| ensures '"' !in parts[k] {
      JoinedPartIn(parts, ",", k);
    }
    ScanPieces(parts, "");
    assert "" + parts[0] == parts[0];
  }

  /** Every character of a piece is a character of the join. */
  lemma {:induction false} JoinedPartIn(parts: seq<string>, sep: string, k: int)
    requires 0 <= k < |parts|
    ensures forall c :: c in parts[k] ==> c in Join(parts, sep)
  {
    if k > 0 {
      JoinedPartIn(parts[1..], sep, k - 1);
    }
  }

  /** Scanning comma-joined plain pieces yields the pieces, trimmed. */
  lemma {:induction false} ScanPieces(parts: seq<string>, current: string)
    requires |parts| >= 1
    requires forall k :: 0 <= k < |parts| ==> '"' !in parts[k] && ',' !in parts[k]
    ensures Scan(Join(parts, ","), current, false) == TrimAll([current + parts[0]] + parts[1..])
  {
    if |parts| == 1 {
      ScanPlain(parts[0], "", current);
      assert parts[0] + "" == parts[0];
    } else {
      var rest := Join(parts[1..], ",");
      assert Join(parts, ",") == parts[0] + ("," + rest);
      ScanPlain(parts[0], "," + rest, current);
      assert ("," + rest)[1..] == rest;
      ScanPieces(parts[1..], "");
      assert "" + parts[1] == parts[1];
      assert [parts[1]] + parts[2..] == parts[1..];
    }
  }

  /** A line has one more field than it has commas outside quotes; for a line without
      quotes that is one more than its commas. */
  lemma FieldCountWithoutQuotes(line: string)
    requires '"' !in line
    ensures |ParseLine(line)| == |Split(line, ',')|
  {
    LineWithoutQuotes(line);
  }
}
