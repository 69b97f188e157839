/** `findPercent` and `findEuro` of frontend/src/utils/parser.ts: the first number on a line
    that is written as a percentage or as an amount in euro. */
module Finders {
  import opened Wrappers
  import opened Text
  import opened Regex
  import opened ItalianNumbers

  /** A digit at `i` and a `%` at `j`, with only white space between them. */
  predicate PercentAfterDigit(s: string, i: nat, j: nat) {
    i < j < |s| && IsDigit(s[i]) && s[j] == '%' && SpacesBetween(s, i, j)
  }

  /** The line writes some number as a percentage. */
  predicate HasPercent(s: string) {
    exists i: nat, j: nat | i < j < |s| :: PercentAfterDigit(s, i, j)
  }

  /** A `€` at `i` and a digit or separator at `j`, with only white space between them. */
  predicate EuroSignBefore(s: string, i: nat, j: nat) {
    i < j < |s| && s[i] == '€' && IsNumericChar(s[j]) && SpacesBetween(s, i, j)
  }

  /** A digit or separator at `i`, then white space, then `€` or `Euro`/`euro` at `j`. */
  predicate EuroAfter(s: string, i: nat, j: nat) {
    i < j <= |s| && IsNumericChar(s[i]) && SpacesBetween(s, i, j)
    && ((j < |s| && s[j] == '€') || EuroWordAt(s, j))
  }

  /** The line writes some amount in euro. */
  predicate HasEuroAmount(s: string) {
    || (exists i: nat, j: nat | i < j < |s| :: EuroSignBefore(s, i, j))
    || (exists i: nat, j: nat | i < j <= |s| :: EuroAfter(s, i, j))
  }

  /** `findPercent`: the decimal percentage read the Italian way if there is one, else the
      integer percentage read with `parseInt`, else nothing. */
  function FindPercent(line: string): (r: Option<real>)
    ensures r.Some? <==> HasPercent(line)
    ensures r.Some? ==> r.value >= 0.0
    ensures r.Some? && !Test(DecimalPercent, line) ==> r.value == r.value.Floor as real
  {
    PercentIff(line);
    match Exec(DecimalPercent, line)
    case Some(number) =>
      CleanNumeric(number);
      Some(ParseItalianNumber(number))
    case None =>
      match Exec(IntegerPercent, line)
      case Some(digits) => Some(DigitsValue(digits) as real)
      case None => None
  }

  /** `findEuro`: the amount after the first `€` followed by one, else the amount before the
      first `€`/`euro` preceded by one, read the Italian way. */
  function FindEuro(line: string): (r: Option<real>)
    ensures r.Some? <==> HasEuroAmount(line)
    ensures r.Some? ==> r.value >= 0.0
  {
    EuroIff(line);
    match Exec(EuroThenAmount, line)
    case Some(number) =>
      CleanNumeric(number);
      Some(ParseItalianNumber(number))
    case None =>
      match Exec(AmountThenEuro, line)
      case Some(number) =>
        CleanNumeric(number);
        Some(ParseItalianNumber(number))
      case None => None
  }

  // ---------------------------------------------------------------------------
  // The patterns against the witnesses

  lemma IntegerPercentWitness(s: string, p: nat)
    requires MatchAt(IntegerPercent, s, p).Some?
    ensures HasPercent(s)
  {
    var q := p + Run(s, p, Digit);
    var t := q + Run(s, q, Space);
    RunSpan(s, p, Digit);
    RunSpan(s, q, Space);
    assert PercentAfterDigit(s, q - 1, t);
  }

  lemma PercentWitnessMatches(s: string, i: nat, j: nat)
    requires PercentAfterDigit(s, i, j)
    ensures MatchAt(IntegerPercent, s, i).Some?
  {
    assert !IsDigit(s[i + 1]) by {
      if i + 1 < j { assert IsSpace(s[i + 1]); }
    }
    RunIs(s, i, Digit, 1);
    RunIs(s, i + 1, Space, j - i - 1);
  }

  /** A line has an integer percentage exactly when it writes a number as a percentage, and a
      decimal percentage always contains an integer one. */
  lemma PercentIff(s: string)
    ensures Test(IntegerPercent, s) <==> HasPercent(s)
    ensures Test(DecimalPercent, s) ==> Test(IntegerPercent, s)
  {
    TestIff(IntegerPercent, s);
    TestIff(DecimalPercent, s);
    if Test(IntegerPercent, s) {
      var p: nat :| MatchAt(IntegerPercent, s, p).Some?;
      IntegerPercentWitness(s, p);
    }
    if HasPercent(s) {
      var i: nat, j: nat :| PercentAfterDigit(s, i, j);
      PercentWitnessMatches(s, i, j);
    }
    if Test(DecimalPercent, s) {
      var p: nat :| MatchAt(DecimalPercent, s, p).Some?;
      DecimalImpliesInteger(s, p);
    }
  }

  lemma EuroThenAmountWitness(s: string, p: nat)
    requires MatchAt(EuroThenAmount, s, p).Some?
    ensures EuroSignBefore(s, p, p + 1 + Run(s, p + 1, Space))
  {
    RunSpan(s, p + 1, Space);
  }

  lemma EuroSignMatches(s: string, i: nat, j: nat)
    requires EuroSignBefore(s, i, j)
    ensures MatchAt(EuroThenAmount, s, i).Some?
  {
    RunIs(s, i + 1, Space, j - i - 1);
  }

  lemma AmountThenEuroWitness(s: string, p: nat)
    requires MatchAt(AmountThenEuro, s, p).Some?
    ensures exists i: nat, j: nat | i < j <= |s| :: EuroAfter(s, i, j)
  {
    var q := p + Run(s, p, DigitOrSeparator);
    var t := q + Run(s, q, Space);
    RunSpan(s, p, DigitOrSeparator);
    RunSpan(s, q, Space);
    assert EuroAfter(s, q - 1, t);
  }

  lemma EuroAfterMatches(s: string, i: nat, j: nat)
    requires EuroAfter(s, i, j)
    ensures MatchAt(AmountThenEuro, s, i).Some?
  {
    assert i + 1 < |s| && !IsNumericChar(s[i + 1]) by {
      if i + 1 < j { assert IsSpace(s[i + 1]); }
    }
    RunIs(s, i, DigitOrSeparator, 1);
    RunIs(s, i + 1, Space, j - i - 1);
  }

  /** A line has a match of one of the two euro patterns exactly when it writes an amount in
      euro. */
  lemma EuroIff(s: string)
    ensures (Test(EuroThenAmount, s) || Test(AmountThenEuro, s)) <==> HasEuroAmount(s)
  {
    TestIff(EuroThenAmount, s);
    TestIff(AmountThenEuro, s);
    if Test(EuroThenAmount, s) {
      var p: nat :| MatchAt(EuroThenAmount, s, p).Some?;
      EuroThenAmountWitness(s, p);
    }
    if Test(AmountThenEuro, s) {
      var p: nat :| MatchAt(AmountThenEuro, s, p).Some?;
      AmountThenEuroWitness(s, p);
    }
    if exists i: nat, j: nat | i < j < |s| :: EuroSignBefore(s, i, j) {
      var i: nat, j: nat :| EuroSignBefore(s, i, j);
      EuroSignMatches(s, i, j);
    }
    if exists i: nat, j: nat | i < j <= |s| :: EuroAfter(s, i, j) {
      var i: nat, j: nat :| EuroAfter(s, i, j);
      EuroAfterMatches(s, i, j);
    }
  }

  // ---------------------------------------------------------------------------
  // Which number comes back

  /** The characters of a line built from pieces. */
  lemma PiecesAt(u: string, v: string, w: string, k: nat)
    requires k < |u + v + w|
    ensures k < |u| ==> (u + v + w)[k] == u[k]
    ensures |u| <= k < |u| + |v| ==> (u + v + w)[k] == v[k - |u|]
    ensures |u| + |v| <= k ==> (u + v + w)[k] == w[k - |u| - |v|]
  {
  }

  /** The number of `d1 sep d2 ws % post` is read as a decimal percentage. */
  lemma DecimalPercentOf(d1: string, sep: char, d2: string, ws: string, post: string)
    requires |d1| > 0 && |d2| > 0 && DigitText(d1) && DigitText(d2)
    requires sep == '.' || sep == ','
    requires AllSpace(ws)
    ensures Exec(DecimalPercent, d1 + [sep] + d2 + ws + "%" + post) == Some(d1 + [sep] + d2)
  {
    var n := d1 + [sep] + d2;
    var s := n + ws + ("%" + post);
    assert s == d1 + [sep] + d2 + ws + "%" + post;
    forall k | 0 <= k < |d1| ensures IsDigit(s[k]) {
      PiecesAt(n, ws, "%" + post, k);
      PiecesAt(d1, [sep], d2, k);
      assert d1[k] in d1;
    }
    forall k | |d1| < k < |n| ensures IsDigit(s[k]) {
      PiecesAt(n, ws, "%" + post, k);
      PiecesAt(d1, [sep], d2, k);
      assert d2[k - |d1| - 1] in d2;
    }
    forall k | |n| <= k < |n| + |ws| ensures IsSpace(s[k]) {
      PiecesAt(n, ws, "%" + post, k);
      assert ws[k - |n|] in ws;
    }
    PiecesAt(n, ws, "%" + post, |d1|);
    PiecesAt(d1, [sep], d2, |d1|);
    PiecesAt(n, ws, "%" + post, |n| + |ws|);
    DecimalPercentAtIs(s, |d1|, |n|, |n| + |ws|);
    assert s[..|n|] == n;
    ExecLeftmost(DecimalPercent, s, 0);
  }

  /** No decimal percentage starts inside the integer percentage `d ws %`. */
  lemma NoDecimalInInteger(d: string, ws: string, post: string)
    requires |d| > 0 && DigitText(d) && AllSpace(ws)
    ensures forall q | 0 <= q <= |d| + |ws| :: MatchAt(DecimalPercent, d + ws + "%" + post, q).None?
  {
    var s := d + ws + ("%" + post);
    assert s == d + ws + "%" + post;
    forall k | 0 <= k < |d| ensures IsDigit(s[k]) {
      PiecesAt(d, ws, "%" + post, k);
      assert d[k] in d;
    }
    forall k | |d| <= k <= |d| + |ws| ensures !IsDigit(s[k]) && s[k] != '.' && s[k] != ',' {
      PiecesAt(d, ws, "%" + post, k);
      if k < |d| + |ws| {
        assert ws[k - |d|] in ws;
      }
    }
    forall q | 0 <= q <= |d| + |ws| ensures MatchAt(DecimalPercent, s, q).None? {
      if q < |d| {
        RunIs(s, q, Digit, |d| - q);
      }
    }
  }

  /** `findPercent` reads the decimal percentage that first follows a prefix without digits,
      with `parseItalianNumber`. */
  lemma FindPercentDecimal(pre: string, d1: string, sep: char, d2: string, ws: string, post: string)
    requires forall c | c in pre :: !IsDigit(c)
    requires |d1| > 0 && |d2| > 0 && DigitText(d1) && DigitText(d2)
    requires sep == '.' || sep == ','
    requires AllSpace(ws)
    ensures NumberInput(d1 + [sep] + d2)
    ensures FindPercent(pre + (d1 + [sep] + d2 + ws + "%" + post))
            == Some(ParseItalianNumber(d1 + [sep] + d2))
  {
    var n := d1 + [sep] + d2;
    assert forall q | 0 <= q < |pre| :: pre[q] in pre;
    ExecSkipsPrefix(DecimalPercent, pre, n + ws + "%" + post);
    DecimalPercentOf(d1, sep, d2, ws, post);
    CleanNumeric(n);
  }

  /** `findPercent` reads an integer percentage after a prefix without digits, with `parseInt`,
      when no decimal percentage comes after it. */
  lemma FindPercentInteger(pre: string, d: string, ws: string, post: string)
    requires forall c | c in pre :: !IsDigit(c)
    requires |d| > 0 && DigitText(d) && AllSpace(ws)
    requires !Test(DecimalPercent, post)
    ensures FindPercent(pre + (d + ws + "%" + post)) == Some(DigitsValue(d) as real)
  {
    var rest := d + ws + "%" + post;
    var s := pre + rest;
    assert forall q | 0 <= q < |pre| :: pre[q] in pre;
    ExecSkipsPrefix(DecimalPercent, pre, rest);
    NoDecimalInInteger(d, ws, post);
    assert rest == (d + ws + "%") + post;
    ExecAfterNoMatch(DecimalPercent, d + ws + "%", post);
    ExecSkipsPrefix(IntegerPercent, pre, rest);
    forall k | 0 <= k < |d| ensures IsDigit(rest[k]) {
      assert rest[k] == d[k] && d[k] in d;
    }
    forall k | |d| <= k < |d| + |ws| ensures IsSpace(rest[k]) {
      assert rest[k] == ws[k - |d|] && ws[k - |d|] in ws;
    }
    assert rest[|d| + |ws|] == '%';
    DigitsThenAtIs(rest, |d|, |d| + |ws|, true);
    assert rest[..|d|] == d;
    ExecLeftmost(IntegerPercent, rest, 0);
  }

  /** A decimal percentage wins over an integer one written before it: `findPercent` tries the
      decimal pattern on the whole line first. */
  lemma DecimalPercentWins(pre: string, d: string, ws: string, mid: string,
                           d1: string, sep: char, d2: string, ws2: string, post: string)
    requires forall c | c in pre :: !IsDigit(c)
    requires forall c | c in mid :: !IsDigit(c)
    requires |d| > 0 && DigitText(d) && AllSpace(ws)
    requires |d1| > 0 && |d2| > 0 && DigitText(d1) && DigitText(d2)
    requires sep == '.' || sep == ','
    requires AllSpace(ws2)
    ensures FindPercent(pre + (d + ws + "%" + mid) + (d1 + [sep] + d2 + ws2 + "%" + post))
            == Some(ParseItalianNumber(d1 + [sep] + d2))
  {
    var first := d + ws + "%" + mid;
    var second := d1 + [sep] + d2 + ws2 + "%" + post;
    var a := pre + first;
    var s := a + second;
    assert s == pre + (first + second);
    assert first + second == d + ws + "%" + (mid + second);
    NoDecimalInInteger(d, ws, mid + second);
    forall q | 0 <= q < |a| ensures MatchAt(DecimalPercent, s, q).None? {
      if q < |pre| {
        assert s[q] == pre[q] && pre[q] in pre;
        if MatchAt(DecimalPercent, s, q).Some? { MatchStarts(DecimalPercent, s, q); }
      } else if q <= |pre| + |d| + |ws| {
        MatchAtShift(DecimalPercent, pre, first + second, q - |pre|);
      } else {
        assert s[q] == mid[q - |pre| - |d| - |ws| - 1];
        assert mid[q - |pre| - |d| - |ws| - 1] in mid;
        if MatchAt(DecimalPercent, s, q).Some? { MatchStarts(DecimalPercent, s, q); }
      }
    }
    ExecAfterNoMatch(DecimalPercent, a, second);
    DecimalPercentOf(d1, sep, d2, ws2, post);
    CleanNumeric(d1 + [sep] + d2);
  }

  /** `findEuro` reads the amount after the first `€`, with `parseItalianNumber`. */
  lemma FindEuroAfterSign(pre: string, ws: string, n: string, post: string)
    requires '€' !in pre
    requires AllSpace(ws) && |n| > 0 && NumericText(n)
    requires post == [] || !IsNumericChar(post[0])
    ensures NumberInput(n)
    ensures FindEuro(pre + ("€" + ws + n + post)) == Some(ParseItalianNumber(n))
  {
    var rest := "€" + ws + n + post;
    assert forall q | 0 <= q < |pre| :: pre[q] in pre;
    ExecSkipsPrefix(EuroThenAmount, pre, rest);
    forall k | 0 < k < 1 + |ws| ensures IsSpace(rest[k]) {
      assert rest[k] == ws[k - 1] && ws[k - 1] in ws;
    }
    forall k | 1 + |ws| <= k < 1 + |ws| + |n| ensures IsNumericChar(rest[k]) {
      assert rest[k] == n[k - 1 - |ws|] && n[k - 1 - |ws|] in n;
    }
    if post != [] {
      assert rest[1 + |ws| + |n|] == post[0];
    }
    EuroThenAmountAtIs(rest, 1 + |ws|, 1 + |ws| + |n|);
    assert rest[1 + |ws|..1 + |ws| + |n|] == n;
    ExecLeftmost(EuroThenAmount, rest, 0);
    CleanNumeric(n);
  }

  /** A line without `€` gives no match of `€\s*([\d.,]+)`. */
  lemma NoEuroSign(s: string)
    requires '€' !in s
    ensures Exec(EuroThenAmount, s).None?
  {
    assert forall q | 0 <= q < |s| :: s[q] in s;
    ExecSkipsPrefix(EuroThenAmount, s, "");
    assert s + "" == s;
  }

  /** The number of `n ws euro post` is read as an amount before the word. */
  lemma AmountThenEuroOf(n: string, ws: string, w: string, post: string)
    requires |n| > 0 && NumericText(n) && AllSpace(ws)
    requires w == "euro" || w == "Euro"
    ensures Exec(AmountThenEuro, n + ws + w + post) == Some(n)
  {
    var s := n + ws + w + post;
    forall k | 0 <= k < |n| ensures IsNumericChar(s[k]) {
      assert s[k] == n[k] && n[k] in n;
    }
    forall k | |n| <= k < |n| + |ws| ensures IsSpace(s[k]) {
      assert s[k] == ws[k - |n|] && ws[k - |n|] in ws;
    }
    var t := |n| + |ws|;
    assert s[t..t + 4] == w;
    assert s[t] == w[0] && s[t + 1..t + 4] == w[1..];
    AmountThenEuroAtIs(s, |n|, t);
    assert s[..|n|] == n;
    ExecLeftmost(AmountThenEuro, s, 0);
  }

  /** Without a `€` on the line, `findEuro` reads the amount before the first `euro` that
      follows a prefix without digits or separators. */
  lemma FindEuroBeforeWord(pre: string, n: string, ws: string, w: string, post: string)
    requires forall c | c in pre :: !IsNumericChar(c) && c != '€'
    requires '€' !in post
    requires |n| > 0 && NumericText(n) && AllSpace(ws)
    requires w == "euro" || w == "Euro"
    ensures NumberInput(n)
    ensures FindEuro(pre + (n + ws + w + post)) == Some(ParseItalianNumber(n))
  {
    var rest := n + ws + w + post;
    assert '€' !in pre && '€' !in n && '€' !in ws;
    assert '€' !in rest;
    NoEuroSign(pre + rest);
    assert forall q | 0 <= q < |pre| :: pre[q] in pre;
    ExecSkipsPrefix(AmountThenEuro, pre, rest);
    AmountThenEuroOf(n, ws, w, post);
    CleanNumeric(n);
  }

  // ---------------------------------------------------------------------------
  // Worked examples

  lemma Reads350()
    ensures NumberInput("350") && ParseItalianNumber("350") == 350.0
  {
    Value350();
    ReadDigits("350");
  }

  lemma Value350()
    ensures DigitText("350") && DigitsValue("350") == 350
  {
    assert PrefixValue("350", 2) == 35;
  }

  lemma DecimalPercentOf350()
    ensures Exec(DecimalPercent, "3,50%") == Some("3,50")
  {
    var s := "3,50%";
    assert Run(s, 4, Space) == 0;
    assert Run(s, 4, Digit) == 0;
    assert Run(s, 3, Digit) == 1;
    assert Run(s, 2, Digit) == 2;
    assert Run(s, 1, Digit) == 0;
    assert Run(s, 0, Digit) == 1;
    assert s[0..4] == "3,50";
    assert MatchAt(DecimalPercent, s, 0) == Some("3,50");
  }

  /** A decimal percentage after a label. */
  lemma DecimalPercentOfLine350()
    ensures Exec(DecimalPercent, "TAN: 3,50%") == Some("3,50")
  {
    assert forall q | 0 <= q < 5 :: !IsDigit("TAN: "[q]);
    ExecSkipsPrefix(DecimalPercent, "TAN: ", "3,50%");
    TanLineSplit();
    DecimalPercentOf350();
  }

  lemma TanLineSplit()
    ensures "TAN: " + "3,50%" == "TAN: 3,50%"
  {
  }

  lemma FindsDecimalPercent()
    ensures FindPercent("TAN: 3,50%") == Some(3.5)
  {
    DecimalPercentOfLine350();
    ReadsDecimals();
  }

  lemma PercentPatternsOf5()
    ensures Exec(DecimalPercent, "5%").None?
    ensures Exec(IntegerPercent, "5%") == Some("5")
  {
    var s := "5%";
    assert Run(s, 1, Space) == 0;
    assert Run(s, 1, Digit) == 0;
    assert Run(s, 0, Digit) == 1;
    assert MatchAt(DecimalPercent, s, 0).None?;
    assert MatchAt(DecimalPercent, s, 1).None?;
    TestIff(DecimalPercent, s);
    assert s[0..1] == "5";
    assert MatchAt(IntegerPercent, s, 0) == Some("5");
  }

  /** An integer percentage is read as an integer. */
  lemma FindsIntegerPercent()
    ensures FindPercent("Tasso 5%") == Some(5.0)
  {
    assert forall q | 0 <= q < 6 :: !IsDigit("Tasso "[q]);
    ExecSkipsPrefix(DecimalPercent, "Tasso ", "5%");
    ExecSkipsPrefix(IntegerPercent, "Tasso ", "5%");
    assert "Tasso " + "5%" == "Tasso 5%";
    PercentPatternsOf5();
    assert DigitsValue("5") == 5;
  }

  /** A line without a `%` has no percentage. */
  lemma NoPercentSign(s: string)
    requires forall j | 0 <= j < |s| :: s[j] != '%'
    ensures FindPercent(s) == None
  {
  }

  lemma FindsNoPercent()
    ensures FindPercent("no percent here") == None
  {
    assert forall j | 0 <= j < 15 :: "no percent here"[j] != '%';
    NoPercentSign("no percent here");
  }

  lemma EuroPatternOf600()
    ensures Exec(EuroThenAmount, "€ 600,00") == Some("600,00")
  {
    var s := "€ 600,00";
    assert Run(s, 2, Space) == 0;
    assert Run(s, 1, Space) == 1;
    assert Run(s, 7, DigitOrSeparator) == 1;
    assert Run(s, 6, DigitOrSeparator) == 2;
    assert Run(s, 5, DigitOrSeparator) == 3;
    assert Run(s, 4, DigitOrSeparator) == 4;
    assert Run(s, 3, DigitOrSeparator) == 5;
    assert Run(s, 2, DigitOrSeparator) == 6;
    assert s[2..8] == "600,00";
    assert MatchAt(EuroThenAmount, s, 0) == Some("600,00");
  }

  lemma NoEuroSignInLabel()
    ensures forall q | 0 <= q < 13 :: !CanStart(EuroThenAmount, "Istruttoria: "[q])
  {
  }

  lemma EuroPatternOfLine600()
    ensures Exec(EuroThenAmount, "Istruttoria: € 600,00") == Some("600,00")
  {
    NoEuroSignInLabel();
    ExecSkipsPrefix(EuroThenAmount, "Istruttoria: ", "€ 600,00");
    FeeLineSplit();
    EuroPatternOf600();
  }

  lemma FeeLineSplit()
    ensures "Istruttoria: " + "€ 600,00" == "Istruttoria: € 600,00"
  {
  }

  /** An amount after the `€` sign. */
  lemma FindsEuroSignAmount()
    ensures FindEuro("Istruttoria: € 600,00") == Some(600.0)
  {
    EuroPatternOfLine600();
    Reads600();
  }

  lemma NoEuroSignIn350()
    ensures Exec(EuroThenAmount, "350 euro").None?
  {
    assert forall q | 0 <= q < 8 :: "350 euro"[q] != '€';
    ExecSkipsPrefix(EuroThenAmount, "350 euro", "");
    assert "350 euro" + "" == "350 euro";
  }

  lemma AmountThenEuroOf350()
    ensures Exec(AmountThenEuro, "350 euro") == Some("350")
  {
    var s := "350 euro";
    assert Run(s, 3, DigitOrSeparator) == 0;
    assert Run(s, 2, DigitOrSeparator) == 1;
    assert Run(s, 1, DigitOrSeparator) == 2;
    assert Run(s, 0, DigitOrSeparator) == 3;
    assert Run(s, 4, Space) == 0;
    assert Run(s, 3, Space) == 1;
    assert EuroWordAt(s, 4);
    assert s[0..3] == "350";
    assert MatchAt(AmountThenEuro, s, 0) == Some("350");
  }

  /** An amount before the word `euro`. */
  lemma FindsAmountBeforeEuro()
    ensures FindEuro("350 euro") == Some(350.0)
  {
    NoEuroSignIn350();
    AmountThenEuroOf350();
    Reads350();
  }
}
