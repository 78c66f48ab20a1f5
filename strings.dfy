/**
  String primitives of the JavaScript runtime that the timeline code relies on:
  `trim()` and the regex class `\s`, ASCII `toLowerCase()`, decimal digits and
  `Number`/`parseInt` on digit strings, `String(n)`, `split`, `join`, `includes`
  and the `<` comparison of strings.
*/
module Strings {

  /** The code points JavaScript counts as WhiteSpace or LineTerminator
      (what `trim()` removes and what `\s` matches). */
  predicate IsWhitespace(c: char) {
    c == ' ' || c == '\t' || c == '\n' || c == '\r' || c == '\U{000B}' || c == '\U{000C}'
    || c == '\U{00A0}' || c == '\U{1680}' || ('\U{2000}' <= c <= '\U{200A}')
    || c == '\U{2028}' || c == '\U{2029}' || c == '\U{202F}' || c == '\U{205F}'
    || c == '\U{3000}' || c == '\U{FEFF}'
  }

  predicate NoWhitespace(s: string) {
    forall i :: 0 <= i < |s| ==> !IsWhitespace(s[i])
  }

  /** Leading whitespace removed. */
  function TrimStart(s: string): (r: string)
    ensures |r| <= |s|
    ensures r == [] || !IsWhitespace(r[0])
  {
    if s != [] && IsWhitespace(s[0]) then TrimStart(s[1..]) else s
  }

  /** What `TrimStart` keeps is a suffix of its input, and what it drops is whitespace.
      (A lemma rather than postconditions: as postconditions these facts would be
      instantiated for every character of every trimmed string in every proof.) */
  lemma {:induction false} TrimStartSuffix(s: string)
    ensures TrimStart(s) == s[|s| - |TrimStart(s)|..]
    ensures forall i :: 0 <= i < |s| - |TrimStart(s)| ==> IsWhitespace(s[i])
    decreases |s|
  {
    if s != [] && IsWhitespace(s[0]) {
      TrimStartSuffix(s[1..]);
      assert s[1..][|s| - 1 - |TrimStart(s)|..] == s[|s| - |TrimStart(s)|..];
      assert forall i :: 1 <= i < |s| - |TrimStart(s)| ==> s[i] == s[1..][i - 1];
    }
  }

  /** Trailing whitespace removed. */
  function TrimEnd(s: string): (r: string)
    ensures |r| <= |s| && r == s[..|r|]
    ensures r == [] || !IsWhitespace(r[|r| - 1])
    ensures forall i :: |r| <= i < |s| ==> IsWhitespace(s[i])
  {
    if s != [] && IsWhitespace(s[|s| - 1]) then TrimEnd(s[..|s| - 1]) else s
  }

  /** `s.trim()`: the longest infix of `s` that neither starts nor ends with whitespace. */
  function Trim(s: string): (r: string)
    ensures r == [] || (!IsWhitespace(r[0]) && !IsWhitespace(r[|r| - 1]))
    ensures |r| <= |s|
    ensures r == [] <==> forall i :: 0 <= i < |s| ==> IsWhitespace(s[i])
  {
    TrimStartSuffix(s);
    TrimEnd(TrimStart(s))
  }

  /** `Trim(s)` occurs in `s`. */
  lemma TrimInfix(s: string)
    ensures exists a :: OccursAt(s, Trim(s), a)
  {
    var t := TrimStart(s);
    TrimStartSuffix(s);
    assert OccursAt(s, Trim(s), |s| - |t|);
  }

  /** A string that starts and ends with a non-whitespace character is its own trim. */
  lemma TrimNoop(s: string)
    requires s == [] || (!IsWhitespace(s[0]) && !IsWhitespace(s[|s| - 1]))
    ensures Trim(s) == s
  {
  }

  lemma TrimIdempotent(s: string)
    ensures Trim(Trim(s)) == Trim(s)
  {
    TrimNoop(Trim(s));
  }

  function ToLowerChar(c: char): char {
    if 'A' <= c <= 'Z' then (c as int - 'A' as int + 'a' as int) as char else c
  }

  /** `toLowerCase()` on ASCII letters; every other character is kept. */
  function ToLower(s: string): (r: string)
    ensures |r| == |s|
    ensures forall i :: 0 <= i < |s| ==> r[i] == ToLowerChar(s[i])
  {
    if s == [] then [] else [ToLowerChar(s[0])] + ToLower(s[1..])
  }

  lemma ToLowerAppend(a: string, b: string)
    ensures ToLower(a + b) == ToLower(a) + ToLower(b)
  {
    var l, r := ToLower(a + b), ToLower(a) + ToLower(b);
    forall i | 0 <= i < |l| ensures l[i] == r[i] {
      if i < |a| {
        assert (a + b)[i] == a[i];
      } else {
        assert (a + b)[i] == b[i - |a|];
      }
    }
    assert l == r;
  }

  predicate IsDigit(c: char) { '0' <= c <= '9' }

  predicate AllDigits(s: string) {
    forall i :: 0 <= i < |s| ==> IsDigit(s[i])
  }

  /** The value of a decimal digit string (`parseInt`/`Number` on it). */
  function DigitsValue(s: string): (n: nat)
    requires AllDigits(s)
  {
    if s == [] then 0 else DigitsValue(s[..|s| - 1]) * 10 + (s[|s| - 1] as int - '0' as int)
  }

  lemma DigitsValueBound2(s: string)
    requires AllDigits(s) && |s| <= 2
    ensures DigitsValue(s) <= 99
  {
    if |s| > 0 {
      assert DigitsValue(s[..|s| - 1]) <= 9;
    }
  }

  lemma DigitsValueBound4(s: string)
    requires AllDigits(s) && |s| == 4
    ensures DigitsValue(s) <= 9999
  {
    DigitsValueBound2(s[..2]);
    assert s[..3][..2] == s[..2];
    assert s[..|s| - 1] == s[..3];
  }

  function DigitChar(d: nat): char
    requires d < 10
  {
    ('0' as int + d) as char
  }

  /** `String(n)` for a natural number: decimal, no leading zeros. */
  function NatToString(n: nat): (r: string)
    ensures |r| >= 1 && AllDigits(r)
    ensures DigitsValue(r) == n
    ensures r[0] != '0' || n == 0
    decreases n
  {
    if n < 10 then [DigitChar(n)]
    else
      var p := NatToString(n / 10);
      var r := p + [DigitChar(n % 10)];
      assert r[..|r| - 1] == p;
      r
  }

  lemma NatToStringLength(n: nat)
    ensures n < 10 ==> |NatToString(n)| == 1
    ensures 10 <= n < 100 ==> |NatToString(n)| == 2
    ensures 1000 <= n < 10000 ==> |NatToString(n)| == 4
  {
    if n >= 10 { NatToStringLength(n / 10); }
  }

  /** Two decimal representations without leading zeros are equal exactly when their values are. */
  lemma NatToStringInjective(m: nat, n: nat)
    requires NatToString(m) == NatToString(n)
    ensures m == n
  {
  }

  /** `String(i)` for an integer. */
  function IntToString(i: int): (r: string)
    ensures |r| >= 1
    ensures i >= 0 ==> r == NatToString(i)
    ensures i < 0 ==> r == "-" + NatToString(-i)
  {
    if i < 0 then "-" + NatToString(-i) else NatToString(i)
  }

  /** `s.padStart(2, '0')`. */
  function PadStart2(s: string): (r: string)
    ensures |s| < 2 ==> |r| == 2 && r[2 - |s|..] == s && forall i :: 0 <= i < 2 - |s| ==> r[i] == '0'
    ensures |s| >= 2 ==> r == s
  {
    if |s| == 0 then "00" else if |s| == 1 then "0" + s else s
  }

  /** `parts.join(sep)`. */
  function Join(parts: seq<string>, sep: string): string {
    if |parts| == 0 then ""
    else if |parts| == 1 then parts[0]
    else parts[0] + sep + Join(parts[1..], sep)
  }

  lemma JoinCons(parts: seq<string>, sep: string)
    requires |parts| > 1
    ensures Join(parts, sep) == parts[0] + (sep + Join(parts[1..], sep))
  {
  }

  /** A character in neither the pieces nor the separator is not in the join. */
  lemma {:induction false} JoinWithoutChar(parts: seq<string>, sep: string, c: char)
    requires c !in sep && forall k :: 0 <= k < |parts| ==> c !in parts[k]
    ensures c !in Join(parts, sep)
  {
    if |parts| > 1 {
      JoinWithoutChar(parts[1..], sep, c);
    }
  }

  lemma Join3(a: string, b: string, c: string, sep: string)
    ensures Join([a, b, c], sep) == a + sep + b + sep + c
  {
    assert [a, b, c][1..] == [b, c];
    assert [b, c][1..] == [c];
    assert Join([c], sep) == c;
    assert Join([b, c], sep) == b + sep + c;
  }

  /** `s.split(sep)` for a one-character separator: the unique list of separator-free
      pieces whose join is `s` (see SplitUnique). */
  function Split(s: string, sep: char): (parts: seq<string>)
    ensures |parts| >= 1
    ensures forall k :: 0 <= k < |parts| ==> sep !in parts[k]
    ensures Join(parts, [sep]) == s
  {
    if s == [] then [""]
    else
      var rest := Split(s[1..], sep);
      if s[0] == sep then
        [""] + rest
      else
        var r := [[s[0]] + rest[0]] + rest[1..];
        assert r[1..] == rest[1..];
        r
  }

  /** Splitting is determined by its result: pieces free of the separator are
      recovered from their join. */
  lemma {:induction false} SplitUnique(parts: seq<string>, sep: char)
    requires |parts| >= 1
    requires forall k :: 0 <= k < |parts| ==> sep !in parts[k]
    ensures Split(Join(parts, [sep]), sep) == parts
    decreases |parts|, |parts[0]|
  {
    var s := Join(parts, [sep]);
    if |parts| == 1 {
      SplitOfSeparatorFree(parts[0], sep);
    } else if parts[0] == [] {
      assert s == [sep] + Join(parts[1..], [sep]);
      assert s[1..] == Join(parts[1..], [sep]);
      SplitUnique(parts[1..], sep);
      assert [""] + parts[1..] == parts;
    } else {
      var shorter := [parts[0][1..]] + parts[1..];
      assert Join(shorter, [sep]) == parts[0][1..] + [sep] + Join(parts[1..], [sep]);
      assert s == [parts[0][0]] + Join(shorter, [sep]);
      assert s[1..] == Join(shorter, [sep]);
      assert forall k :: 0 <= k < |shorter| ==> sep !in shorter[k] by {
        forall k | 0 <= k < |shorter| ensures sep !in shorter[k] {
          if k == 0 { assert forall c :: c in parts[0][1..] ==> c in parts[0]; } else { assert shorter[k] == parts[k]; }
        }
      }
      SplitUnique(shorter, sep);
      assert parts[0][0] != sep;
      assert [parts[0][0]] + shorter[0] == parts[0];
      assert [[parts[0][0]] + shorter[0]] + shorter[1..] == parts;
    }
  }

  lemma {:induction false} SplitOfSeparatorFree(s: string, sep: char)
    requires sep !in s
    ensures Split(s, sep) == [s]
  {
    if s != [] {
      assert sep !in s[1..];
      SplitOfSeparatorFree(s[1..], sep);
    }
  }

  /** `s.includes(sub)`. */
  predicate Contains(s: string, sub: string) {
    exists i | 0 <= i <= |s| - |sub| :: OccursAt(s, sub, i)
  }

  /** `sub` occurs in `s` starting at position `i`. */
  predicate OccursAt(s: string, sub: string, i: int) {
    0 <= i <= |s| - |sub| && s[i..i + |sub|] == sub
  }

  /** JavaScript's `a < b` on strings: lexicographic on characters, a proper prefix first. */
  predicate LexLess(a: string, b: string) {
    if a == [] then b != []
    else if b == [] then false
    else if a[0] != b[0] then a[0] < b[0]
    else LexLess(a[1..], b[1..])
  }

  lemma {:induction false} LexLessIrreflexive(a: string)
    ensures !LexLess(a, a)
  {
    if a != [] { LexLessIrreflexive(a[1..]); }
  }

  lemma {:induction false} LexLessTransitive(a: string, b: string, c: string)
    requires LexLess(a, b) && LexLess(b, c)
    ensures LexLess(a, c)
  {
    if a != [] && a[0] == b[0] && b[0] == c[0] {
      LexLessTransitive(a[1..], b[1..], c[1..]);
    }
  }

  /** Distinct strings are ordered one way or the other. */
  lemma {:induction false} LexLessTotal(a: string, b: string)
    requires a != b
    ensures LexLess(a, b) || LexLess(b, a)
  {
    if a != [] && b != [] && a[0] == b[0] {
      assert a == [a[0]] + a[1..] && b == [b[0]] + b[1..];
      LexLessTotal(a[1..], b[1..]);
    }
  }

  lemma {:induction false} LexLessAsymmetric(a: string, b: string)
    requires LexLess(a, b)
    ensures !LexLess(b, a)
  {
    if a != [] && b != [] && a[0] == b[0] {
      LexLessAsymmetric(a[1..], b[1..]);
    }
  }

  function Pow10(n: nat): (p: nat)
    ensures p >= 1
  {
    if n == 0 then 1 else 10 * Pow10(n - 1)
  }

  lemma {:induction false} DigitsValueBelow(s: string)
    requires AllDigits(s)
    ensures DigitsValue(s) < Pow10(|s|)
  {
    if s != [] {
      DigitsValueBelow(s[..|s| - 1]);
    }
  }

  /** The value read from the front: the first digit weighs `10^(|s|-1)`. */
  lemma {:induction false} DigitsValueFront(s: string)
    requires AllDigits(s) && s != []
    ensures DigitsValue(s) == (s[0] as int - '0' as int) * Pow10(|s| - 1) + DigitsValue(s[1..])
  {
    if |s| == 1 {
      assert s[1..] == [] && s[..0] == [];
    } else {
      var n := |s|;
      var init := s[..n - 1];
      var d0 := s[0] as int - '0' as int;
      var l := s[n - 1] as int - '0' as int;
      var tail := s[1..];
      assert tail[..|tail| - 1] == init[1..];
      assert tail[|tail| - 1] == s[n - 1];
      var a := DigitsValue(init[1..]);
      var p := Pow10(n - 2);
      assert DigitsValue(tail) == a * 10 + l;
      DigitsValueFront(init);
      assert init[0] == s[0];
      ShiftDigit(d0, p, a);
    }
  }

  lemma ShiftDigit(d: int, p: int, a: int)
    ensures (d * p + a) * 10 == d * (10 * p) + a * 10
  {
  }

  /** On digit strings of one length, string order is numeric order. */
  lemma {:induction false} LexLessDigits(a: string, b: string)
    requires AllDigits(a) && AllDigits(b) && |a| == |b|
    ensures LexLess(a, b) <==> DigitsValue(a) < DigitsValue(b)
  {
    if a != [] {
      DigitsValueFront(a);
      DigitsValueFront(b);
      DigitsValueBelow(a[1..]);
      DigitsValueBelow(b[1..]);
      var p := Pow10(|a| - 1);
      var da, db := a[0] as int - '0' as int, b[0] as int - '0' as int;
      if da != db {
        LeadingDigitDecides(da, db, p, DigitsValue(a[1..]), DigitsValue(b[1..]));
      } else {
        LexLessDigits(a[1..], b[1..]);
      }
    }
  }

  /** A smaller leading digit gives a smaller number whatever the lower digits are. */
  lemma LeadingDigitDecides(da: int, db: int, p: int, ra: int, rb: int)
    requires da != db && p >= 1 && 0 <= ra < p && 0 <= rb < p
    ensures da < db <==> da * p + ra < db * p + rb
  {
    if da < db {
      assert (da + 1) * p <= db * p;
    } else {
      assert (db + 1) * p <= da * p;
    }
  }

  /** `String(i)` of distinct integers differ. */
  lemma IntToStringInjective(i: int, j: int)
    requires IntToString(i) == IntToString(j)
    ensures i == j
  {
    if i >= 0 && j >= 0 {
      NatToStringInjective(i, j);
    } else if i < 0 && j < 0 {
      assert NatToString(-i) == IntToString(i)[1..];
      assert NatToString(-j) == IntToString(j)[1..];
      NatToStringInjective(-i, -j);
    }
  }

  // ---------------------------------------------------------------------------
  // includes() and replace(/\s+/g, c)
  // ---------------------------------------------------------------------------

  /** An occurrence of `sub`, which does not hold the character `c`, lies on one side
      of a `c`. */
  lemma ContainsAroundChar(a: string, c: char, b: string, sub: string)
    requires c !in sub
    requires Contains(a + [c] + b, sub)
    ensures Contains(a, sub) || Contains(b, sub)
  {
    var s := a + [c] + b;
    var i :| 0 <= i <= |s| - |sub| && OccursAt(s, sub, i);
    if i + |sub| <= |a| {
      assert a[i..i + |sub|] == s[i..i + |sub|];
      assert OccursAt(a, sub, i);
    } else if i > |a| {
      assert b[i - |a| - 1..i - |a| - 1 + |sub|] == s[i..i + |sub|];
      assert OccursAt(b, sub, i - |a| - 1);
    } else {
      OccurrenceChar(s, sub, i, |a|);
      assert false;
    }
  }

  lemma OccurrenceChar(s: string, sub: string, i: int, j: int)
    requires OccursAt(s, sub, i) && i <= j < i + |sub|
    ensures sub[j - i] == s[j]
  {
    assert s[i..i + |sub|][j - i] == s[j];
  }

  /** Text without the character `c` does not contain a string that holds `c`. */
  lemma NotContainsWithoutChar(s: string, sub: string, c: char)
    requires c in sub && c !in s
    ensures !Contains(s, sub)
  {
    var k :| 0 <= k < |sub| && sub[k] == c;
    forall i | 0 <= i <= |s| - |sub| ensures !OccursAt(s, sub, i) {
      assert s[i..i + |sub|][k] == s[i + k];
    }
  }

  /** `s.replace(/\s+/g, c)`: every maximal run of whitespace becomes one `c`. */
  function ReplaceWhitespaceRuns(s: string, c: char): (r: string)
    ensures |r| <= |s|
    decreases |s|
  {
    if s == [] then []
    else if IsWhitespace(s[0]) then [c] + ReplaceWhitespaceRuns(TrimStart(s[1..]), c)
    else [s[0]] + ReplaceWhitespaceRuns(s[1..], c)
  }

  /** With a replacement that is not whitespace, no whitespace is left. */
  lemma {:induction false} ReplacedHasNoWhitespace(s: string, c: char)
    requires !IsWhitespace(c)
    ensures NoWhitespace(ReplaceWhitespaceRuns(s, c))
    decreases |s|
  {
    if s != [] {
      if IsWhitespace(s[0]) {
        ReplacedHasNoWhitespace(TrimStart(s[1..]), c);
      } else {
        ReplacedHasNoWhitespace(s[1..], c);
      }
    }
  }

  /** Text without whitespace is copied unchanged, in front of whatever follows. */
  lemma {:induction false} ReplaceCopiesWord(x: string, t: string, c: char)
    requires NoWhitespace(x)
    ensures ReplaceWhitespaceRuns(x + t, c) == x + ReplaceWhitespaceRuns(t, c)
    decreases |x|
  {
    if x != [] {
      assert (x + t)[0] == x[0] && (x + t)[1..] == x[1..] + t;
      ReplaceCopiesWord(x[1..], t, c);
      assert x == [x[0]] + x[1..];
    } else {
      assert x + t == t;
    }
  }

  /** A run of whitespace followed by a non-whitespace character becomes one `c`. */
  lemma ReplaceGap(w: string, u: string, c: char)
    requires w != [] && forall i :: 0 <= i < |w| ==> IsWhitespace(w[i])
    requires u == [] || !IsWhitespace(u[0])
    ensures ReplaceWhitespaceRuns(w + u, c) == [c] + ReplaceWhitespaceRuns(u, c)
  {
    assert (w + u)[1..] == w[1..] + u;
    TrimStartOfBlank(w[1..], u);
  }

  lemma {:induction false} TrimStartOfBlank(w: string, u: string)
    requires forall i :: 0 <= i < |w| ==> IsWhitespace(w[i])
    requires u == [] || !IsWhitespace(u[0])
    ensures TrimStart(w + u) == u
    decreases |w|
  {
    if w != [] {
      assert (w + u)[1..] == w[1..] + u;
      TrimStartOfBlank(w[1..], u);
    } else {
      assert w + u == u;
    }
  }

  /** Words separated by runs of whitespace come out separated by single `c`s. */
  lemma {:induction false} ReplaceJoinedWords(words: seq<string>, gap: string, c: char)
    requires gap != [] && forall i :: 0 <= i < |gap| ==> IsWhitespace(gap[i])
    requires forall k :: 0 <= k < |words| ==> words[k] != [] && NoWhitespace(words[k])
    ensures ReplaceWhitespaceRuns(Join(words, gap), c) == Join(words, [c])
  {
    if |words| == 1 {
      ReplaceCopiesWord(words[0], [], c);
      assert words[0] + [] == words[0];
    } else if |words| > 1 {
      var rest := Join(words[1..], gap);
      ReplaceJoinedWords(words[1..], gap, c);
      JoinStartsWith(words[1..], gap);
      assert Join(words, gap) == words[0] + (gap + rest);
      ReplaceCopiesWord(words[0], gap + rest, c);
      ReplaceGap(gap, rest, c);
      assert Join(words, [c]) == words[0] + ([c] + Join(words[1..], [c]));
    }
  }

  /** The join of non-empty words starts with the first word's first character. */
  lemma JoinStartsWith(words: seq<string>, sep: string)
    requires |words| >= 1 && words[0] != []
    ensures Join(words, sep) != [] && Join(words, sep)[0] == words[0][0]
  {
  }

  function LowerAll(words: seq<string>): (r: seq<string>)
    ensures |r| == |words| && forall k :: 0 <= k < |words| ==> r[k] == ToLower(words[k])
  {
    if words == [] then [] else [ToLower(words[0])] + LowerAll(words[1..])
  }

  lemma {:induction false} ToLowerJoin(words: seq<string>, sep: string)
    ensures ToLower(Join(words, sep)) == Join(LowerAll(words), ToLower(sep))
  {
    if |words| > 1 {
      ToLowerJoin(words[1..], sep);
      JoinCons(words, sep);
      JoinCons(LowerAll(words), ToLower(sep));
      ToLowerAppend(words[0], sep + Join(words[1..], sep));
      ToLowerAppend(sep, Join(words[1..], sep));
      assert LowerAll(words)[1..] == LowerAll(words[1..]);
    }
  }

  lemma LowerNoWhitespace(w: string)
    requires w != [] && NoWhitespace(w)
    ensures ToLower(w) != [] && NoWhitespace(ToLower(w))
  {
    var l := ToLower(w);
    forall i | 0 <= i < |l| ensures !IsWhitespace(l[i]) {
      assert l[i] == ToLowerChar(w[i]);
    }
  }

  lemma LowerWords(words: seq<string>)
    requires forall k :: 0 <= k < |words| ==> words[k] != [] && NoWhitespace(words[k])
    ensures forall k :: 0 <= k < |words| ==> LowerAll(words)[k] != [] && NoWhitespace(LowerAll(words)[k])
  {
    forall k | 0 <= k < |words| ensures LowerAll(words)[k] != [] && NoWhitespace(LowerAll(words)[k]) {
      LowerNoWhitespace(words[k]);
    }
  }

  /** Lower-casing words separated by spaces and replacing the spaces by `c` gives the
      lower-cased words joined by `c`. */
  lemma LowerSlugOfWords(words: seq<string>, c: char)
    requires forall k :: 0 <= k < |words| ==> words[k] != [] && NoWhitespace(words[k])
    ensures ReplaceWhitespaceRuns(ToLower(Join(words, " ")), c) == Join(LowerAll(words), [c])
  {
    ToLowerJoin(words, " ");
    LowerWords(words);
    assert ToLower(" ") == " ";
    ReplaceJoinedWords(LowerAll(words), " ", c);
  }
}
