/** Reading Italian-formatted numbers (`parseItalianNumber` of frontend/src/utils/parser.ts),
    where `.` and `,` can each be a thousands separator or the decimal point.
    Values are exact reals; JavaScript's binary floating point is not modelled. */
module ItalianNumbers {
  import opened Wrappers
  import opened Text
  import opened Regex

  function Pow10(n: nat): (r: nat)
    ensures r >= 1
  {
    if n == 0 then 1 else 10 * Pow10(n - 1)
  }

  function DigitValue(c: char): (v: nat)
    requires IsDigit(c)
    ensures v <= 9
  {
    c as int - '0' as int
  }

  /** The integer the first `n` digits of `d` denote. */
  function PrefixValue(d: string, n: nat): (v: nat)
    requires n <= |d|
    requires DigitText(d)
    ensures v < Pow10(n)
  {
    if n == 0 then 0
    else
      assert d[n - 1] in d;
      PrefixValue(d, n - 1) * 10 + DigitValue(d[n - 1])
  }

  /** The integer a string of decimal digits denotes (0 for the empty string). */
  function DigitsValue(d: string): nat
    requires DigitText(d)
  {
    PrefixValue(d, |d|)
  }

  /** The value of `0.` followed by the digits of `d` from position `k` on. */
  function FractionFrom(d: string, k: nat): (v: real)
    requires DigitText(d)
    ensures 0.0 <= v < 1.0
    decreases |d| - k
  {
    if k >= |d| then 0.0
    else
      assert d[k] in d;
      (DigitValue(d[k]) as real + FractionFrom(d, k + 1)) / 10.0
  }

  /** The value of `0.d`: the digits of `d` read as decimals. */
  function Fraction(d: string): real
    requires DigitText(d)
  {
    FractionFrom(d, 0)
  }

  /** JavaScript's `parseFloat` on text over digits, `.` and `,`: the longest prefix of the
      form `digits[.digits]` or `.digits` is read, and `None` stands for `NaN`. Signs,
      exponents, `Infinity` and leading white space never reach it. */
  function ParseFloat(s: string): (r: Option<real>)
    requires NumericText(s)
    ensures r.Some? ==> r.value >= 0.0
    ensures r.Some? <==> (|s| > 0 && IsDigit(s[0])) || (|s| > 1 && s[0] == '.' && IsDigit(s[1]))
  {
    var n := Run(s, 0, Digit);
    RunSpan(s, 0, Digit);
    if n > 0 then
      var whole := DigitsValue(s[..n]) as real;
      if n < |s| && s[n] == '.' then
        RunSpan(s, n + 1, Digit);
        Some(whole + Fraction(s[n + 1..n + 1 + Run(s, n + 1, Digit)]))
      else
        Some(whole)
    else if |s| > 1 && s[0] == '.' && IsDigit(s[1]) then
      RunSpan(s, 1, Digit);
      Some(Fraction(s[1..1 + Run(s, 1, Digit)]))
    else
      None
  }

  /** What `parseItalianNumber` accepts from its callers: the captures of its patterns,
      possibly with the `€` sign and white space it strips first. */
  predicate NumberInput(raw: string) {
    forall c | c in raw :: IsNumericChar(c) || IsSpace(c) || c == '€'
  }

  /** The first step: `€` and white space are removed. */
  function Clean(raw: string): (cleaned: string)
    requires NumberInput(raw)
    ensures NumericText(cleaned)
  {
    RemoveAll(raw, WhiteSpace + {'€'})
  }

  /** Only `,` present: it groups thousands when exactly three characters follow the first
      one and the text before it reads below 1000; otherwise it is the decimal point. */
  function ReadCommaAs(cleaned: string): (t: string)
    requires NumericText(cleaned) && ',' in cleaned
    ensures NumericText(t)
    ensures forall c | c in t :: c in cleaned || c == '.'
  {
    var parts := Split(cleaned, ',');
    var head := ParseFloat(parts[0]);
    if |parts[1]| == 3 && head.Some? && head.value < 1000.0 then
      ReplaceFirst(cleaned, ',', "")
    else
      ReplaceFirst(cleaned, ',', ".")
  }

  /** Only `.` present: it groups thousands when it is the only one and exactly three
      characters follow it; otherwise the text is left as it is. */
  function ReadDotAs(cleaned: string): (t: string)
    requires NumericText(cleaned)
    ensures NumericText(t)
    ensures forall c | c in t :: c in cleaned
  {
    var parts := Split(cleaned, '.');
    if |parts| == 2 && |parts[1]| == 3 then ReplaceFirst(cleaned, '.', "") else cleaned
  }

  /** Both present: every `.` groups thousands and the first `,` is the decimal point. */
  function ReadBothAs(cleaned: string): (t: string)
    requires NumericText(cleaned)
    ensures NumericText(t)
    ensures forall c | c in t :: c in cleaned || c == '.'
  {
    ReplaceFirst(RemoveAll(cleaned, {'.'}), ',', ".")
  }

  /** Decides what `.` and `,` mean and rewrites the text so that `.` is the decimal point. */
  function Normalize(cleaned: string): (t: string)
    requires NumericText(cleaned)
    ensures NumericText(t)
    ensures forall c | c in t :: c in cleaned || c == '.'
  {
    if ',' in cleaned && '.' in cleaned then ReadBothAs(cleaned)
    else if ',' in cleaned then ReadCommaAs(cleaned)
    else if '.' in cleaned then ReadDotAs(cleaned)
    else cleaned
  }

  /** `parseItalianNumber`: never `NaN`, always a non-negative number. */
  function ParseItalianNumber(raw: string): (r: real)
    requires NumberInput(raw)
    ensures r >= 0.0
  {
    ParseFloat(Normalize(Clean(raw))).GetOr(0.0)
  }

  // ---------------------------------------------------------------------------
  // Digit strings and parseFloat

  /** Extending a digit string does not change the value of a prefix of it. */
  lemma {:induction false} PrefixValueExtend(a: string, b: string, n: nat)
    requires DigitText(a) && DigitText(b) && n <= |a|
    ensures DigitText(a + b)
    ensures PrefixValue(a + b, n) == PrefixValue(a, n)
  {
    if n > 0 {
      assert (a + b)[n - 1] == a[n - 1];
      PrefixValueExtend(a, b, n - 1);
    }
  }

  lemma {:induction false} PrefixValueShift(a: string, b: string, n: nat)
    requires DigitText(a) && DigitText(b) && n <= |b|
    ensures DigitText(a + b)
    ensures PrefixValue(a + b, |a| + n) == PrefixValue(a, |a|) * Pow10(n) + PrefixValue(b, n)
  {
    if n == 0 {
      PrefixValueExtend(a, b, |a|);
    } else {
      assert (a + b)[|a| + n - 1] == b[n - 1] && b[n - 1] in b;
      PrefixValueShift(a, b, n - 1);
      ShiftStep(PrefixValue(a, |a|), Pow10(n - 1), PrefixValue(b, n - 1), DigitValue(b[n - 1]));
    }
  }

  lemma ShiftStep(x: int, y: int, z: int, d: int)
    ensures (x * y + z) * 10 + d == x * (10 * y) + (z * 10 + d)
  {
  }

  /** Reading digits `a + b` shifts `a` by the length of `b`. */
  lemma DigitsValueAppend(a: string, b: string)
    requires DigitText(a) && DigitText(b)
    ensures DigitText(a + b)
    ensures DigitsValue(a + b) == DigitsValue(a) * Pow10(|b|) + DigitsValue(b)
  {
    PrefixValueShift(a, b, |b|);
  }

  /** The run of digits at the start of `a + rest` is `a` when `rest` does not start with one. */
  lemma DigitRunOf(a: string, rest: string)
    requires DigitText(a)
    requires rest == [] || !IsDigit(rest[0])
    ensures Run(a + rest, 0, Digit) == |a|
    ensures (a + rest)[..|a|] == a
  {
    RunIs(a + rest, 0, Digit, |a|);
  }

  lemma ParseFloatInteger(a: string, rest: string)
    requires DigitText(a) && |a| > 0 && NumericText(a + rest)
    requires rest == [] || (!IsDigit(rest[0]) && rest[0] != '.')
    ensures ParseFloat(a + rest) == Some(DigitsValue(a) as real)
  {
    DigitRunOf(a, rest);
    assert (a + rest)[0] == a[0] && a[0] in a;
  }

  /** A run of the digits `b` at `i`, not followed by another digit. */
  lemma DigitsAt(s: string, i: nat, b: string)
    requires DigitText(b) && i + |b| <= |s| && s[i..i + |b|] == b
    requires i + |b| == |s| || !IsDigit(s[i + |b|])
    ensures Run(s, i, Digit) == |b|
  {
    forall j | i <= j < i + |b| ensures InClass(s[j], Digit) {
      assert s[j] == b[j - i] && b[j - i] in b;
    }
    RunIs(s, i, Digit, |b|);
  }

  /** Where the pieces of `a.b rest` sit. */
  lemma PointPieces(a: string, b: string, rest: string)
    ensures (a + "." + b + rest)[..|a|] == a
    ensures (a + "." + b + rest)[|a|] == '.'
    ensures (a + "." + b + rest)[|a| + 1..|a| + 1 + |b|] == b
    ensures |a| + 1 + |b| < |a + "." + b + rest| ==> (a + "." + b + rest)[|a| + 1 + |b|] == rest[0]
  {
  }

  lemma ParseFloatDecimal(a: string, b: string, rest: string)
    requires DigitText(a) && |a| > 0 && DigitText(b) && NumericText(a + "." + b + rest)
    requires rest == [] || !IsDigit(rest[0])
    ensures ParseFloat(a + "." + b + rest) == Some(DigitsValue(a) as real + Fraction(b))
  {
    var s := a + "." + b + rest;
    PointPieces(a, b, rest);
    assert a[0] in a;
    DigitsAt(s, 0, a);
    DigitsAt(s, |a| + 1, b);
  }

  lemma ParseFloatLeadingDot(b: string, rest: string)
    requires DigitText(b) && |b| > 0 && NumericText("." + b + rest)
    requires rest == [] || !IsDigit(rest[0])
    ensures ParseFloat("." + b + rest) == Some(Fraction(b))
  {
    var s := "." + b + rest;
    PointPieces("", b, rest);
    assert "" + "." + b + rest == s;
    assert b[0] in b;
    DigitsAt(s, 1, b);
  }

  // ---------------------------------------------------------------------------
  // parseItalianNumber, one separator shape at a time

  lemma NumericKept(c: char)
    requires IsNumericChar(c)
    ensures c !in WhiteSpace + {'€'}
  {
    assert !IsSpace(c);
  }

  /** Text already made of digits and separators is not changed by the stripping step. */
  lemma CleanNumeric(s: string)
    requires NumericText(s)
    ensures NumberInput(s)
    ensures RemoveAll(s, WhiteSpace + {'€'}) == s
  {
    forall c | c in s ensures c !in WhiteSpace + {'€'} {
      NumericKept(c);
    }
  }

  lemma DigitsNoSeparators(d: string)
    requires DigitText(d)
    ensures NumericText(d) && '.' !in d && ',' !in d
  {
  }

  /** Stripping `€` and white space first changes nothing: only the digits and separators
      of the input matter. */
  lemma ReadAfterStripping(raw: string)
    requires NumberInput(raw)
    ensures NumberInput(Clean(raw))
    ensures ParseItalianNumber(raw) == ParseItalianNumber(Clean(raw))
  {
    CleanNumeric(Clean(raw));
  }

  /** Digits alone are read as an integer; the empty string gives 0. */
  lemma ReadDigits(a: string)
    requires DigitText(a)
    ensures NumberInput(a)
    ensures ParseItalianNumber(a) == DigitsValue(a) as real
  {
    ReadNumeric(a);
    NormalizeCases(a);
    ParseFloatDigits(a);
  }

  /** Splitting `a` `c` `b` at `c`, when neither side contains `c`. */
  lemma SplitTwo(a: string, c: char, b: string)
    requires c !in a && c !in b
    ensures Split(a + [c] + b, c) == [a, b]
  {
    SplitJoin([a, b], c);
    assert Join([a, b], [c]) == a + [c] + b;
  }

  /** Which rewriting `Normalize` applies. */
  lemma NormalizeCases(s: string)
    requires NumericText(s)
    ensures ',' in s && '.' in s ==> Normalize(s) == ReadBothAs(s)
    ensures ',' in s && '.' !in s ==> Normalize(s) == ReadCommaAs(s)
    ensures ',' !in s && '.' in s ==> Normalize(s) == ReadDotAs(s)
  {
  }

  lemma ReadCommaAsOf(a: string, b: string)
    requires DigitText(a) && DigitText(b)
    ensures NumericText(a + [','] + b)
    ensures ReadCommaAs(a + [','] + b) ==
      if |b| == 3 && |a| > 0 && DigitsValue(a) < 1000 then a + b else a + "." + b
  {
    var s := a + [','] + b;
    assert s[|a|] == ',';
    SplitTwo(a, ',', b);
    ParseFloatDigits(a);
    ReplaceFirstAfter(a, ',', b, "");
    ReplaceFirstAfter(a, ',', b, ".");
    assert a + "" + b == a + b;
  }

  /** Digits, a `,` and digits: the `,` is dropped or becomes the decimal point. */
  lemma NormalizeCommaOnly(a: string, b: string)
    requires DigitText(a) && DigitText(b)
    ensures NumericText(a + "," + b)
    ensures Normalize(a + "," + b) ==
      if |b| == 3 && |a| > 0 && DigitsValue(a) < 1000 then a + b else a + "." + b
  {
    var s := a + "," + b;
    assert s == a + [','] + b;
    assert s[|a|] == ',';
    NormalizeCases(s);
    ReadCommaAsOf(a, b);
  }

  /** On text already made of digits and separators, only the rewriting step matters. */
  lemma ReadNumeric(s: string)
    requires NumericText(s)
    ensures NumberInput(s)
    ensures ParseItalianNumber(s) == ParseFloat(Normalize(s)).GetOr(0.0)
  {
    CleanNumeric(s);
  }

  /** Reading `a.b` with `parseFloat`, where either side may be empty. */
  lemma ParseFloatPoint(a: string, b: string)
    requires DigitText(a) && DigitText(b)
    ensures NumericText(a + "." + b)
    ensures ParseFloat(a + "." + b).GetOr(0.0) == DigitsValue(a) as real + Fraction(b)
  {
    if |a| > 0 {
      ParseFloatDecimal(a, b, []);
      assert a + "." + b + [] == a + "." + b;
    } else if |b| > 0 {
      ParseFloatLeadingDot(b, []);
      assert "." + b + [] == a + "." + b;
    } else {
      assert a + "." + b == ".";
    }
  }

  /** Reading digits with `parseFloat`; the empty string gives `NaN`, that is 0. */
  lemma ParseFloatDigits(a: string)
    requires DigitText(a)
    ensures NumericText(a)
    ensures ParseFloat(a).GetOr(0.0) == DigitsValue(a) as real
  {
    if |a| > 0 {
      ParseFloatInteger(a, []);
      assert a + [] == a;
    }
  }

  /** A lone `,` groups thousands exactly when three digits follow it and the digits before it
      are present and read below 1000; otherwise it is the decimal point. */
  lemma ReadCommaOnly(a: string, b: string)
    requires DigitText(a) && DigitText(b)
    ensures DigitText(a + b) && NumberInput(a + "," + b)
    ensures ParseItalianNumber(a + "," + b) ==
      if |b| == 3 && |a| > 0 && DigitsValue(a) < 1000 then DigitsValue(a + b) as real
      else DigitsValue(a) as real + Fraction(b)
  {
    var s := a + "," + b;
    ReadNumeric(s);
    NormalizeCommaOnly(a, b);
    if |b| == 3 && |a| > 0 && DigitsValue(a) < 1000 {
      assert Normalize(s) == a + b;
      ParseFloatDigits(a + b);
    } else {
      assert Normalize(s) == a + "." + b;
      ParseFloatPoint(a, b);
    }
  }

  lemma ReadDotAsOf(a: string, b: string)
    requires DigitText(a) && DigitText(b)
    ensures NumericText(a + ['.'] + b)
    ensures ReadDotAs(a + ['.'] + b) == if |b| == 3 then a + b else a + "." + b
  {
    var s := a + ['.'] + b;
    assert s[|a|] == '.';
    SplitTwo(a, '.', b);
    ReplaceFirstAfter(a, '.', b, "");
    assert a + "" + b == a + b;
  }

  lemma NormalizeDotOnly(a: string, b: string)
    requires DigitText(a) && DigitText(b)
    ensures NumericText(a + "." + b)
    ensures Normalize(a + "." + b) == if |b| == 3 then a + b else a + "." + b
  {
    var s := a + "." + b;
    assert s == a + ['.'] + b;
    assert s[|a|] == '.';
    NormalizeCases(s);
    ReadDotAsOf(a, b);
  }

  /** A lone `.` groups thousands exactly when three digits follow it; otherwise it stays
      the decimal point. */
  lemma ReadDotOnly(a: string, b: string)
    requires DigitText(a) && DigitText(b)
    ensures DigitText(a + b) && NumberInput(a + "." + b)
    ensures ParseItalianNumber(a + "." + b) ==
      if |b| == 3 then DigitsValue(a + b) as real else DigitsValue(a) as real + Fraction(b)
  {
    var s := a + "." + b;
    ReadNumeric(s);
    NormalizeDotOnly(a, b);
    if |b| == 3 {
      assert Normalize(s) == a + b;
      ParseFloatDigits(a + b);
    } else {
      assert Normalize(s) == a + "." + b;
      ParseFloatPoint(a, b);
    }
  }

  lemma NormalizeSeveralDots(a: string, b: string, c: string)
    requires DigitText(a) && DigitText(b) && NumericText(c) && ',' !in c
    ensures NumericText(a + "." + b + "." + c)
    ensures Normalize(a + "." + b + "." + c) == a + "." + b + "." + c
  {
    var s := a + "." + b + "." + c;
    var rest := b + "." + c;
    assert s == a + ['.'] + rest;
    assert rest == b + ['.'] + c;
    assert ',' !in s;
    assert s[|a|] == '.';
    IndexOfJoined(a, '.', rest);
    assert s[|a| + 1..] == rest;
    assert '.' in rest by { assert rest[|b|] == '.'; }
    assert |Split(s, '.')| >= 3;
    NormalizeCases(s);
  }

  /** `parseFloat` stops at a second `.`. */
  lemma ParseFloatStops(a: string, b: string, c: string)
    requires DigitText(a) && DigitText(b) && NumericText(c)
    ensures NumericText(a + "." + b + "." + c)
    ensures ParseFloat(a + "." + b + "." + c).GetOr(0.0) == DigitsValue(a) as real + Fraction(b)
  {
    var s := a + "." + b + "." + c;
    assert s == a + "." + b + ("." + c);
    if |a| > 0 {
      ParseFloatDecimal(a, b, "." + c);
    } else if |b| > 0 {
      ParseFloatLeadingDot(b, "." + c);
      assert "." + b + ("." + c) == s;
    } else {
      assert s[0] == '.' && s[1] == '.';
    }
  }

  /** With two or more `.` and no `,`, nothing is rewritten and `parseFloat` stops at the
      second `.`: the first group after a dot is read as decimals. */
  lemma ReadSeveralDots(a: string, b: string, c: string)
    requires DigitText(a) && DigitText(b) && NumericText(c) && ',' !in c
    ensures NumberInput(a + "." + b + "." + c)
    ensures ParseItalianNumber(a + "." + b + "." + c) == DigitsValue(a) as real + Fraction(b)
  {
    var s := a + "." + b + "." + c;
    NormalizeSeveralDots(a, b, c);
    ReadNumeric(s);
    ParseFloatStops(a, b, c);
  }

  lemma RemoveDotsMixed(x: string, d: string)
    requires DigitText(d)
    ensures RemoveAll(x + "," + d, {'.'}) == RemoveAll(x, {'.'}) + [','] + d
  {
    assert x + "," + d == x + ("," + d);
    RemoveAllAppend(x, "," + d, {'.'});
    RemoveAllAppend(",", d, {'.'});
    RemoveKept(',', {'.'});
  }

  lemma RemoveKept(c: char, drop: set<char>)
    requires c !in drop
    ensures RemoveAll([c], drop) == [c]
  {
  }

  lemma NormalizeMixed(x: string, d: string)
    requires NumericText(x) && ',' !in x && '.' in x
    requires DigitText(RemoveAll(x, {'.'}))
    requires DigitText(d)
    ensures NumericText(x + "," + d)
    ensures Normalize(x + "," + d) == RemoveAll(x, {'.'}) + "." + d
  {
    var s := x + "," + d;
    var w := RemoveAll(x, {'.'});
    assert s == x + [','] + d;
    assert s[|x|] == ',';
    RemoveDotsMixed(x, d);
    ReplaceFirstAfter(w, ',', d, ".");
    NormalizeCases(s);
  }

  /** With both separators, every `.` is dropped and the first `,` becomes the decimal point. */
  lemma ReadMixed(x: string, d: string)
    requires NumericText(x) && ',' !in x && '.' in x
    requires DigitText(RemoveAll(x, {'.'}))
    requires DigitText(d)
    ensures NumberInput(x + "," + d)
    ensures ParseItalianNumber(x + "," + d) == DigitsValue(RemoveAll(x, {'.'})) as real + Fraction(d)
  {
    var s := x + "," + d;
    ReadNumeric(s);
    NormalizeMixed(x, d);
    ParseFloatPoint(RemoveAll(x, {'.'}), d);
  }

  /** Text without a digit reads as 0. */
  lemma ReadNoDigits(raw: string)
    requires NumberInput(raw)
    requires forall c | c in raw :: !IsDigit(c)
    ensures ParseItalianNumber(raw) == 0.0
  {
    var cleaned := RemoveAll(raw, WhiteSpace + {'€'});
    var t := Normalize(cleaned);
    if |t| > 0 {
      assert t[0] in t;
    }
    if |t| > 1 {
      assert t[1] in t;
    }
  }

  // ---------------------------------------------------------------------------
  // Round trip through the Italian notation

  function Concat(groups: seq<string>): (r: string)
    ensures (forall k | 0 <= k < |groups| :: DigitText(groups[k])) ==> DigitText(r)
  {
    if |groups| == 0 then "" else groups[0] + Concat(groups[1..])
  }

  /** `.g1.g2...`: the groups each preceded by a thousands dot. */
  function DotGroups(groups: seq<string>): string {
    if |groups| == 0 then "" else "." + groups[0] + DotGroups(groups[1..])
  }

  /** A number written the Italian way: a lead of one to three digits, groups of three digits
      each after a `.`, and the decimals after a `,` when there are any. */
  predicate WellGrouped(lead: string, groups: seq<string>, decimals: string) {
    && 1 <= |lead| <= 3 && DigitText(lead)
    && (forall k | 0 <= k < |groups| :: |groups[k]| == 3 && DigitText(groups[k]))
    && DigitText(decimals)
  }

  function ItalianLiteral(lead: string, groups: seq<string>, decimals: string): string {
    lead + DotGroups(groups) + (if decimals == "" then "" else "," + decimals)
  }

  /** The value the literal is written to denote. */
  function IntendedValue(lead: string, groups: seq<string>, decimals: string): real
    requires WellGrouped(lead, groups, decimals)
  {
    assert DigitText(Concat(groups));
    DigitsValue(lead + Concat(groups)) as real + Fraction(decimals)
  }

  lemma {:induction false} DotGroupsText(groups: seq<string>)
    requires forall k | 0 <= k < |groups| :: DigitText(groups[k])
    ensures NumericText(DotGroups(groups)) && ',' !in DotGroups(groups)
    ensures RemoveAll(DotGroups(groups), {'.'}) == Concat(groups)
    ensures |groups| > 0 ==> '.' in DotGroups(groups)
  {
    DotGroupsChars(groups);
    DotGroupsRemove(groups);
  }

  lemma {:induction false} DotGroupsChars(groups: seq<string>)
    requires forall k | 0 <= k < |groups| :: DigitText(groups[k])
    ensures NumericText(DotGroups(groups)) && ',' !in DotGroups(groups)
    ensures |groups| > 0 ==> '.' in DotGroups(groups)
  {
    if |groups| > 0 {
      var g := groups[0];
      var rest := DotGroups(groups[1..]);
      DotGroupsChars(groups[1..]);
      assert DotGroups(groups) == "." + g + rest;
      assert DotGroups(groups)[0] == '.';
      forall c | c in DotGroups(groups) ensures IsNumericChar(c) && c != ',' {
        assert c in "." || c in g || c in rest;
      }
    }
  }

  lemma {:induction false} DotGroupsRemove(groups: seq<string>)
    requires forall k | 0 <= k < |groups| :: DigitText(groups[k])
    ensures RemoveAll(DotGroups(groups), {'.'}) == Concat(groups)
  {
    if |groups| > 0 {
      var g := groups[0];
      var rest := DotGroups(groups[1..]);
      DotGroupsRemove(groups[1..]);
      assert DotGroups(groups) == "." + (g + rest);
      RemoveAllAppend(".", g + rest, {'.'});
      RemoveAllAppend(g, rest, {'.'});
      RemoveDropped('.', {'.'});
      assert forall c | c in g :: c !in {'.'};
      assert "" + (g + Concat(groups[1..])) == Concat(groups);
    }
  }

  lemma RemoveDropped(c: char, drop: set<char>)
    requires c in drop
    ensures RemoveAll([c], drop) == []
  {
  }

  /** A lead of at most three digits reads below 1000. */
  lemma LeadBelowThousand(lead: string)
    requires DigitText(lead) && |lead| <= 3
    ensures DigitsValue(lead) < 1000
  {
    assert Pow10(|lead|) <= 1000 by {
      if |lead| == 3 { assert Pow10(3) == 1000; }
      else if |lead| == 2 { assert Pow10(2) == 100; }
      else if |lead| == 1 { assert Pow10(1) == 10; }
    }
  }

  lemma RoundTripPlain(lead: string, decimals: string)
    requires WellGrouped(lead, [], decimals) && |decimals| != 3
    ensures NumberInput(ItalianLiteral(lead, [], decimals))
    ensures ParseItalianNumber(ItalianLiteral(lead, [], decimals)) == IntendedValue(lead, [], decimals)
  {
    var lit := ItalianLiteral(lead, [], decimals);
    assert lead + Concat([]) == lead;
    if decimals == "" {
      assert lit == lead;
      ReadDigits(lead);
    } else {
      assert lit == lead + "," + decimals;
      ReadCommaOnly(lead, decimals);
    }
  }

  lemma RoundTripOneGroup(lead: string, g: string)
    requires WellGrouped(lead, [g], "")
    ensures NumberInput(ItalianLiteral(lead, [g], ""))
    ensures ParseItalianNumber(ItalianLiteral(lead, [g], "")) == IntendedValue(lead, [g], "")
  {
    assert |[g][0]| == 3 && DigitText([g][0]);
    assert DotGroups([g]) == "." + g;
    assert Concat([g]) == g;
    assert ItalianLiteral(lead, [g], "") == lead + "." + g;
    ReadDotOnly(lead, g);
  }

  lemma RoundTripGroupsAndDecimals(lead: string, groups: seq<string>, decimals: string)
    requires WellGrouped(lead, groups, decimals) && |groups| > 0 && decimals != ""
    ensures NumberInput(ItalianLiteral(lead, groups, decimals))
    ensures ParseItalianNumber(ItalianLiteral(lead, groups, decimals)) == IntendedValue(lead, groups, decimals)
  {
    var x := lead + DotGroups(groups);
    DotGroupsText(groups);
    assert ItalianLiteral(lead, groups, decimals) == x + "," + decimals;
    RemoveAllAppend(lead, DotGroups(groups), {'.'});
    assert RemoveAll(x, {'.'}) == lead + Concat(groups);
    ReadMixed(x, decimals);
  }

  /** The Italian notation reads back as the number it denotes, except in the two shapes
      the heuristic cannot tell apart from other notations (see the lemmas below). */
  lemma ItalianRoundTrip(lead: string, groups: seq<string>, decimals: string)
    requires WellGrouped(lead, groups, decimals)
    requires !(|groups| == 0 && |decimals| == 3)
    requires !(|groups| >= 2 && decimals == "")
    ensures NumberInput(ItalianLiteral(lead, groups, decimals))
    ensures ParseItalianNumber(ItalianLiteral(lead, groups, decimals)) == IntendedValue(lead, groups, decimals)
  {
    if |groups| == 0 {
      RoundTripPlain(lead, decimals);
    } else if decimals == "" {
      assert groups == [groups[0]];
      RoundTripOneGroup(lead, groups[0]);
    } else {
      RoundTripGroupsAndDecimals(lead, groups, decimals);
    }
  }

  /** A lead of up to three digits, a `,` and exactly three digits is read as a thousands
      grouping: "808,280" reads as 808280, not 808.28. */
  lemma ThreeDecimalsReadAsThousands(lead: string, decimals: string)
    requires WellGrouped(lead, [], decimals) && |decimals| == 3
    ensures DigitText(lead + decimals) && NumberInput(ItalianLiteral(lead, [], decimals))
    ensures ParseItalianNumber(ItalianLiteral(lead, [], decimals)) == DigitsValue(lead + decimals) as real
  {
    assert ItalianLiteral(lead, [], decimals) == lead + "," + decimals;
    LeadBelowThousand(lead);
    ReadCommaOnly(lead, decimals);
  }

  /** Two or more thousands dots without decimals are not recognised: "1.500.000" reads as 1.5. */
  lemma ManyGroupsReadAsDecimals(lead: string, groups: seq<string>)
    requires WellGrouped(lead, groups, "") && |groups| >= 2
    ensures DigitText(groups[0]) && NumberInput(ItalianLiteral(lead, groups, ""))
    ensures ParseItalianNumber(ItalianLiteral(lead, groups, "")) == DigitsValue(lead) as real + Fraction(groups[0])
  {
    var rest := groups[1] + DotGroups(groups[2..]);
    DotGroupsText(groups[2..]);
    assert DotGroups(groups) == "." + groups[0] + ("." + groups[1] + DotGroups(groups[2..]));
    assert ItalianLiteral(lead, groups, "") == lead + "." + groups[0] + "." + rest;
    ReadSeveralDots(lead, groups[0], rest);
  }

  // ---------------------------------------------------------------------------
  // Worked examples

  lemma Value180000()
    ensures DigitText("180" + "000") && DigitsValue("180" + "000") == 180000
  {
    DigitsValueAppend("180", "000");
    assert PrefixValue("180", 1) == 1;
    assert PrefixValue("180", 2) == 18;
    assert PrefixValue("180", 3) == 180;
    assert PrefixValue("000", 1) == 0;
    assert PrefixValue("000", 2) == 0;
    assert PrefixValue("000", 3) == 0;
    assert Pow10(3) == 1000;
  }

  lemma LiteralsOf180000()
    ensures WellGrouped("180", ["000"], "28") && WellGrouped("180", ["000"], "")
    ensures ItalianLiteral("180", ["000"], "28") == "180.000,28"
    ensures ItalianLiteral("180", ["000"], "") == "180.000"
    ensures IntendedValue("180", ["000"], "28") == 180000.28
    ensures IntendedValue("180", ["000"], "") == 180000.0
  {
    assert Concat(["000"]) == "000";
    Value180000();
    assert Fraction("28") == 0.28;
  }

  /** The amounts of a typical offer: "180.000,28" and "180.000" keep their thousands. */
  lemma ReadsThousands()
    ensures NumberInput("180.000,28") && ParseItalianNumber("180.000,28") == 180000.28
    ensures NumberInput("180.000") && ParseItalianNumber("180.000") == 180000.0
  {
    LiteralsOf180000();
    ItalianRoundTrip("180", ["000"], "28");
    ItalianRoundTrip("180", ["000"], "");
  }

  lemma CommaAndDotLiterals()
    ensures "808" + "," + "28" == "808,28" && "3" + "." + "50" == "3.50" && "1" + "," + "500" == "1,500"
    ensures "3" + "," + "50" == "3,50"
    ensures DigitsValue("808") == 808 && DigitsValue("3") == 3 && DigitsValue("1" + "500") == 1500
    ensures Fraction("28") == 0.28 && Fraction("50") == 0.5
  {
    assert PrefixValue("808", 2) == 80;
    assert "1" + "500" == "1500";
    assert PrefixValue("1500", 2) == 15;
    assert PrefixValue("1500", 3) == 150;
  }

  /** Rates and costs: "808,28", "3,50" and "3.50" are decimals, "1,500" is a thousands grouping. */
  lemma ReadsDecimals()
    ensures NumberInput("808,28") && ParseItalianNumber("808,28") == 808.28
    ensures NumberInput("3,50") && ParseItalianNumber("3,50") == 3.5
    ensures NumberInput("3.50") && ParseItalianNumber("3.50") == 3.5
    ensures NumberInput("1,500") && ParseItalianNumber("1,500") == 1500.0
  {
    CommaAndDotLiterals();
    ReadCommaOnly("808", "28");
    ReadCommaOnly("3", "50");
    ReadDotOnly("3", "50");
    ReadCommaOnly("1", "500");
  }

  lemma StripEuroSign()
    ensures RemoveAll("€ " + "600,00", WhiteSpace + {'€'}) == "600,00"
  {
    CleanNumeric("600,00");
    RemoveAllAppend("€ ", "600,00", WhiteSpace + {'€'});
    assert RemoveAll(" ", WhiteSpace + {'€'}) == "";
    assert RemoveAll("€ ", WhiteSpace + {'€'}) == "";
  }

  lemma EuroAmountInput()
    ensures NumberInput("€ " + "600,00")
  {
    CleanNumeric("600,00");
    assert NumberInput("€ ");
    forall c | c in "€ " + "600,00" ensures IsNumericChar(c) || IsSpace(c) || c == '€' {
      assert c in "€ " || c in "600,00";
    }
  }

  lemma CleanEuroAmount()
    ensures NumberInput("€ 600,00") && Clean("€ 600,00") == "600,00"
  {
    EuroAmountInput();
    StripEuroSign();
    EuroAmountSplit();
  }

  lemma EuroAmountSplit()
    ensures "€ " + "600,00" == "€ 600,00"
  {
  }

  lemma Reads600()
    ensures NumberInput("600,00") && ParseItalianNumber("600,00") == 600.0
  {
    assert "600" + "," + "00" == "600,00";
    assert PrefixValue("600", 2) == 60;
    ReadCommaOnly("600", "00");
  }

  /** The `€` sign and the space before the amount are ignored. */
  lemma ReadsEuroAmount()
    ensures NumberInput("€ 600,00") && ParseItalianNumber("€ 600,00") == 600.0
  {
    CleanEuroAmount();
    Reads600();
    ReadAfterStripping("€ 600,00");
  }

  lemma LiteralsOfMillion()
    ensures WellGrouped("1", ["500", "000"], "")
    ensures ItalianLiteral("1", ["500", "000"], "") == "1.500.000"
    ensures DigitsValue("1") as real + Fraction("500") == 1.5
  {
  }

  /** A million written with two thousands dots is read as 1.5. */
  lemma ReadsMillionAsDecimal()
    ensures NumberInput("1.500.000") && ParseItalianNumber("1.500.000") == 1.5
  {
    LiteralsOfMillion();
    ManyGroupsReadAsDecimals("1", ["500", "000"]);
  }
}
