/** The regular expressions of the extractor, each as a hand-written matcher.
    Every pattern starts with a fixed character class and its greedy quantifiers are
    followed by a character the quantified class cannot contain, so the JavaScript
    engine never backtracks into them: a match starting at a given position is unique,
    and `String.prototype.match` returns the one at the leftmost such position. */
module Regex {
  import opened Wrappers
  import opened Text

  /** The character classes the patterns quantify over. */
  datatype CharClass = Space | Digit | DigitOrSeparator | DigitOrComma

  predicate InClass(c: char, cls: CharClass) {
    match cls
    case Space => IsSpace(c)
    case Digit => IsDigit(c)
    case DigitOrSeparator => IsNumericChar(c)
    case DigitOrComma => IsDigit(c) || c == ','
  }

  /** Length of the run of `cls` characters starting at `p`: what a greedy `[cls]*` consumes. */
  function Run(s: string, p: nat, cls: CharClass): (n: nat)
    ensures n == 0 || p + n <= |s|
    decreases |s| - p
  {
    if p < |s| && InClass(s[p], cls) then 1 + Run(s, p + 1, cls) else 0
  }

  /** The run consists of `cls` characters and stops at the first other one. */
  lemma {:induction false} RunSpan(s: string, p: nat, cls: CharClass)
    ensures forall i | p <= i < p + Run(s, p, cls) :: InClass(s[i], cls)
    ensures p + Run(s, p, cls) < |s| ==> !InClass(s[p + Run(s, p, cls)], cls)
    decreases |s| - p
  {
    if p < |s| && InClass(s[p], cls) {
      RunSpan(s, p + 1, cls);
    }
  }

  /** `Run` is the length of the maximal run. */
  lemma {:induction false} RunIs(s: string, p: nat, cls: CharClass, k: nat)
    requires p + k <= |s|
    requires forall i | p <= i < p + k :: InClass(s[i], cls)
    requires p + k == |s| || !InClass(s[p + k], cls)
    ensures Run(s, p, cls) == k
    decreases k
  {
    if k > 0 {
      RunIs(s, p + 1, cls, k - 1);
    }
  }

  datatype Regex =
      /** `/w/i` */
    | Keyword(w: string)
      /** `/\bw\b/i`, for a word `w` of `\w` characters */
    | WholeWord(w: string)
      /** `/first\s+second/i` */
    | Phrase(first: string, second: string)
      /** `/([\d]+[.,][\d]+)\s*%/` */
    | DecimalPercent
      /** `/([\d]+)\s*%/` */
    | IntegerPercent
      /** `/€\s*([\d.,]+)/` */
    | EuroThenAmount
      /** `/([\d.,]+)\s*(?:€|[Ee]uro)/` */
    | AmountThenEuro
      /** `/(\d+)\s*anni/i` */
    | Years
      /** `/(-\s*[\d,]+%)\s*(?:per|acquisto|immobile|green)/i` */
    | GreenDiscount
  {
    /** The patterns whose first group captures a number. */
    predicate CapturesNumber() {
      DecimalPercent? || IntegerPercent? || EuroThenAmount? || AmountThenEuro? || Years?
    }

    /** The patterns whose first group captures digits only. */
    predicate CapturesDigits() {
      IntegerPercent? || Years?
    }
  }

  /** `[Ee]uro` at `t`: only the first letter may be upper case. */
  predicate EuroWordAt(s: string, t: nat) {
    t + 4 <= |s| && (s[t] == 'E' || s[t] == 'e') && s[t + 1..t + 4] == "uro"
  }

  /** `\bw\b` at `p`, ignoring case: `w` is neither preceded nor followed by a `\w` character. */
  predicate WholeWordAt(s: string, p: nat, w: string)
    requires p < |s|
  {
    && MatchesAt(s, p, w)
    && (p == 0 || !IsWordChar(s[p - 1]))
    && (p + |w| >= |s| || !IsWordChar(s[p + |w|]))
  }

  /** `first\s+second` at `p`, ignoring case. As `second` starts with a letter, `\s+` must take
      the whole run of white space. */
  predicate PhraseAt(s: string, p: nat, first: string, second: string)
  {
    var q := p + |first|;
    var n := Run(s, q, Space);
    MatchesAt(s, p, first) && n > 0 && MatchesAt(s, q + n, second)
  }

  /** `[\d]+[.,][\d]+` then `\s*%` at `p`: the capture ends after the decimals. */
  function DecimalPercentAt(s: string, p: nat): (m: Option<string>)
    requires p < |s|
    ensures m.Some? ==> |m.value| > 0 && NumericText(m.value)
  {
    var q := p + Run(s, p, Digit);
    RunSpan(s, p, Digit);
    if q > p && q + 1 < |s| && (s[q] == '.' || s[q] == ',') && IsDigit(s[q + 1]) then
      var r := q + 1 + Run(s, q + 1, Digit);
      RunSpan(s, q + 1, Digit);
      var t := r + Run(s, r, Space);
      if t < |s| && s[t] == '%' then Some(s[p..r]) else None
    else None
  }

  /** `[\d]+` then `\s*` and a terminator at `p`; the digits are captured. */
  function DigitsThenAt(s: string, p: nat, percent: bool): (m: Option<string>)
    requires p < |s|
    ensures m.Some? ==> |m.value| > 0 && DigitText(m.value) && NumericText(m.value)
  {
    var q := p + Run(s, p, Digit);
    RunSpan(s, p, Digit);
    var t := q + Run(s, q, Space);
    var terminated := if percent then t < |s| && s[t] == '%' else MatchesAt(s, t, "anni");
    if q > p && terminated then Some(s[p..q]) else None
  }

  /** `€\s*([\d.,]+)` at `p`. */
  function EuroThenAmountAt(s: string, p: nat): (m: Option<string>)
    requires p < |s|
    ensures m.Some? ==> |m.value| > 0 && NumericText(m.value)
  {
    var t := p + 1 + Run(s, p + 1, Space);
    var n := Run(s, t, DigitOrSeparator);
    RunSpan(s, t, DigitOrSeparator);
    if s[p] == '€' && n > 0 then Some(s[t..t + n]) else None
  }

  /** `([\d.,]+)\s*(?:€|[Ee]uro)` at `p`. */
  function AmountThenEuroAt(s: string, p: nat): (m: Option<string>)
    requires p < |s|
    ensures m.Some? ==> |m.value| > 0 && NumericText(m.value)
  {
    var q := p + Run(s, p, DigitOrSeparator);
    RunSpan(s, p, DigitOrSeparator);
    var t := q + Run(s, q, Space);
    if q > p && ((t < |s| && s[t] == '€') || EuroWordAt(s, t)) then Some(s[p..q]) else None
  }

  /** `(?:per|acquisto|immobile|green)` at `t`, ignoring case. */
  predicate GreenWordAt(s: string, t: nat) {
    MatchesAt(s, t, "per") || MatchesAt(s, t, "acquisto") || MatchesAt(s, t, "immobile")
    || MatchesAt(s, t, "green")
  }

  /** Where `-\s*[\d,]+%` ends when it matches at `p`; `p` itself when it does not. */
  function SignedPercentEnd(s: string, p: nat): (e: nat)
    requires p < |s|
    ensures e == p || p < e <= |s|
    ensures e > p ==> s[p] == '-' && s[e - 1] == '%'
  {
    var a := p + 1 + Run(s, p + 1, Space);
    var n := Run(s, a, DigitOrComma);
    if s[p] == '-' && n > 0 && a + n < |s| && s[a + n] == '%' then a + n + 1 else p
  }

  /** `(-\s*[\d,]+%)\s*(?:per|acquisto|immobile|green)` at `p`, ignoring case. */
  function GreenDiscountAt(s: string, p: nat): (m: Option<string>)
    requires p < |s|
    ensures m.Some? ==> |m.value| > 0 && m.value[0] == '-' && m.value[|m.value| - 1] == '%'
  {
    var e := SignedPercentEnd(s, p);
    if e > p && GreenWordAt(s, e + Run(s, e, Space)) then Some(s[p..e]) else None
  }

  /** Only white space strictly between positions `i` and `j`. */
  predicate SpacesBetween(s: string, i: nat, j: nat)
    requires i < j <= |s|
  {
    forall k | i < k < j :: IsSpace(s[k])
  }

  /** `-\s*[\d,]+%` spans `s[p..e]`, its digits and commas starting at `a`. */
  predicate SignedPercentSpan(s: string, p: nat, a: nat, e: nat) {
    && p < a && a + 1 < e <= |s|
    && s[p] == '-' && SpacesBetween(s, p, a)
    && (forall k | a <= k < e - 1 :: IsDigit(s[k]) || s[k] == ',')
    && s[e - 1] == '%'
  }

  /** `s[p..e]` is a signed percentage with its digits from `a`, followed by white space up to
      one of the four words at `t`. */
  predicate DiscountVia(s: string, p: nat, a: nat, e: nat, t: nat) {
    && SignedPercentSpan(s, p, a, e)
    && e <= t <= |s| && SpacesBetween(s, e - 1, t) && GreenWordAt(s, t)
  }

  /** The group of `(-\s*[\d,]+%)\s*(?:per|acquisto|immobile|green)` can span `s[p..e]`:
      a signed percentage there, then only white space up to one of the four words. */
  predicate DiscountSpan(s: string, p: nat, e: nat) {
    p < e <= |s| && exists a: nat, t: nat | a < e <= t <= |s| :: DiscountVia(s, p, a, e, t)
  }

  /** A word that occurs at `t` starts there. */
  lemma MatchesAtFirst(s: string, t: nat, w: string)
    requires |w| > 0 && MatchesAt(s, t, w)
    ensures t < |s| && Lower(s[t]) == w[0]
  {
  }

  /** The four words start with a letter, so with no white space. */
  lemma GreenWordNotSpace(s: string, t: nat)
    requires GreenWordAt(s, t)
    ensures t < |s| && !IsSpace(s[t])
  {
    var w := if MatchesAt(s, t, "per") then "per"
             else if MatchesAt(s, t, "acquisto") then "acquisto"
             else if MatchesAt(s, t, "immobile") then "immobile"
             else "green";
    MatchesAtFirst(s, t, w);
    assert w[0] in {'p', 'a', 'i', 'g'};
  }

  lemma SignedPercentEndOf(s: string, p: nat, a: nat, e: nat)
    requires SignedPercentSpan(s, p, a, e)
    ensures SignedPercentEnd(s, p) == e
  {
    RunIs(s, p + 1, Space, a - p - 1);
    assert forall k | a <= k < e - 1 :: InClass(s[k], DigitOrComma);
    RunIs(s, a, DigitOrComma, e - 1 - a);
  }

  lemma SpacesUpTo(s: string, e: nat, t: nat)
    requires 1 <= e <= t <= |s| && SpacesBetween(s, e - 1, t) && GreenWordAt(s, t)
    ensures Run(s, e, Space) == t - e
  {
    GreenWordNotSpace(s, t);
    assert forall k | e <= k < t :: InClass(s[k], Space);
    RunIs(s, e, Space, t - e);
  }

  lemma GreenDiscountEnds(s: string, p: nat, e: nat, t: nat)
    requires p < e <= t <= |s| && SignedPercentEnd(s, p) == e
    requires Run(s, e, Space) == t - e && GreenWordAt(s, t)
    ensures MatchAt(GreenDiscount, s, p) == Some(s[p..e])
  {
  }

  /** A discount span is where the green-discount pattern matches, with that group. */
  lemma GreenDiscountOfSpan(s: string, p: nat, e: nat)
    requires DiscountSpan(s, p, e)
    ensures MatchAt(GreenDiscount, s, p) == Some(s[p..e])
  {
    var a: nat, t: nat :| a < e <= t <= |s| && DiscountVia(s, p, a, e, t);
    SignedPercentEndOf(s, p, a, e);
    SpacesUpTo(s, e, t);
    GreenDiscountEnds(s, p, e, t);
  }

  /** Where the green-discount pattern matches, its group ends where the signed percentage
      does. */
  lemma GreenDiscountGroup(s: string, p: nat)
    requires MatchAt(GreenDiscount, s, p).Some?
    ensures p < SignedPercentEnd(s, p) <= |s|
    ensures MatchAt(GreenDiscount, s, p) == Some(s[p..SignedPercentEnd(s, p)])
  {
  }

  /** Where the green-discount pattern matches, its group is a discount span. */
  lemma SpanOfMatch(s: string, p: nat, e: nat)
    requires p < e <= |s| && MatchAt(GreenDiscount, s, p) == Some(s[p..e])
    ensures DiscountSpan(s, p, e)
  {
    GreenDiscountGroup(s, p);
    assert SignedPercentEnd(s, p) == e by {
      var e' := SignedPercentEnd(s, p);
      assert |s[p..e]| == e - p && |s[p..e']| == e' - p;
    }
    var a := p + 1 + Run(s, p + 1, Space);
    SignedSpanOfEnd(s, p);
    var t := e + Run(s, e, Space);
    RunSpan(s, e, Space);
    assert DiscountVia(s, p, a, e, t);
  }

  lemma SignedSpanOfEnd(s: string, p: nat)
    requires p < |s| && SignedPercentEnd(s, p) > p
    ensures SignedPercentSpan(s, p, p + 1 + Run(s, p + 1, Space), SignedPercentEnd(s, p))
  {
    RunSpan(s, p + 1, Space);
    RunSpan(s, p + 1 + Run(s, p + 1, Space), DigitOrComma);
  }

  /** The green-discount pattern matches at `p` with its group ending at `e` exactly when
      `s[p..e]` is a discount span. */
  lemma GreenDiscountAtIff(s: string, p: nat, e: nat)
    ensures DiscountSpan(s, p, e) <==> p < e <= |s| && MatchAt(GreenDiscount, s, p) == Some(s[p..e])
  {
    if DiscountSpan(s, p, e) {
      GreenDiscountOfSpan(s, p, e);
    }
    if p < e <= |s| && MatchAt(GreenDiscount, s, p) == Some(s[p..e]) {
      SpanOfMatch(s, p, e);
    }
  }

  /** The first capture group of the match of `re` that starts at `p`, if there is one;
      the patterns without a group capture the empty string. */
  function MatchAt(re: Regex, s: string, p: nat): (m: Option<string>)
    ensures m.Some? ==> p < |s|
    ensures m.Some? && re.CapturesNumber() ==> |m.value| > 0 && NumericText(m.value)
    ensures m.Some? && re.CapturesDigits() ==> DigitText(m.value)
  {
    if p >= |s| then None
    else match re
      case Keyword(w) => if MatchesAt(s, p, w) then Some("") else None
      case WholeWord(w) => if WholeWordAt(s, p, w) then Some("") else None
      case Phrase(first, second) => if PhraseAt(s, p, first, second) then Some("") else None
      case DecimalPercent => DecimalPercentAt(s, p)
      case IntegerPercent => DigitsThenAt(s, p, true)
      case EuroThenAmount => EuroThenAmountAt(s, p)
      case AmountThenEuro => AmountThenEuroAt(s, p)
      case Years => DigitsThenAt(s, p, false)
      case GreenDiscount => GreenDiscountAt(s, p)
  }

  /** The leftmost position at or after `from` where `re` matches, or `|s|` when none does. */
  function LeftmostFrom(re: Regex, s: string, from: nat): (p: nat)
    requires from <= |s|
    ensures from <= p <= |s|
    ensures p < |s| ==> MatchAt(re, s, p).Some?
    ensures forall q | from <= q < p :: MatchAt(re, s, q).None?
    decreases |s| - from
  {
    if from == |s| || MatchAt(re, s, from).Some? then from else LeftmostFrom(re, s, from + 1)
  }

  /** `re.test(s)`. */
  predicate Test(re: Regex, s: string)
  {
    LeftmostFrom(re, s, 0) < |s|
  }

  /** `s.match(re)?.[1]`: the first group of the leftmost match. */
  function Exec(re: Regex, s: string): (m: Option<string>)
    ensures m.Some? <==> Test(re, s)
    ensures m.Some? && re.CapturesNumber() ==> |m.value| > 0 && NumericText(m.value)
    ensures m.Some? && re.CapturesDigits() ==> DigitText(m.value)
  {
    var p := LeftmostFrom(re, s, 0);
    if p < |s| then MatchAt(re, s, p) else None
  }

  /** `re.test(s)` holds exactly when `re` matches at some position. */
  lemma TestIff(re: Regex, s: string)
    ensures Test(re, s) <==> exists p: nat :: MatchAt(re, s, p).Some?
  {
    if p: nat :| MatchAt(re, s, p).Some? {
      assert p < |s|;
    }
  }

  /** `Exec` returns the capture at the leftmost matching position. */
  lemma ExecLeftmost(re: Regex, s: string, p: nat)
    requires MatchAt(re, s, p).Some?
    requires forall q | 0 <= q < p :: MatchAt(re, s, q).None?
    ensures Exec(re, s) == MatchAt(re, s, p)
  {
  }

  /** A decimal percentage is also an integer percentage, starting at its decimals:
      `([\d]+[.,][\d]+)\s*%` matching implies `([\d]+)\s*%` matching. */
  lemma DecimalImpliesInteger(s: string, p: nat)
    requires MatchAt(DecimalPercent, s, p).Some?
    ensures MatchAt(IntegerPercent, s, p + Run(s, p, Digit) + 1).Some?
  {
  }

  // ---------------------------------------------------------------------------
  // Matching after a prefix

  /** The patterns that only look forward from where a match starts. */
  predicate LooksForward(re: Regex) {
    !re.WholeWord?
  }

  /** `c` can start a match of a number pattern. */
  predicate CanStart(re: Regex, c: char) {
    match re
    case DecimalPercent => IsDigit(c)
    case IntegerPercent => IsDigit(c)
    case Years => IsDigit(c)
    case EuroThenAmount => c == '€'
    case AmountThenEuro => IsNumericChar(c)
    case GreenDiscount => c == '-'
    case _ => true
  }

  lemma MatchStarts(re: Regex, s: string, p: nat)
    requires MatchAt(re, s, p).Some?
    ensures CanStart(re, s[p])
  {
  }

  lemma {:induction false} RunShift(a: string, b: string, p: nat, cls: CharClass)
    ensures Run(a + b, |a| + p, cls) == Run(b, p, cls)
    decreases |b| - p
  {
    if p < |b| {
      assert (a + b)[|a| + p] == b[p];
      RunShift(a, b, p + 1, cls);
    }
  }

  lemma {:induction false} MatchesFromShift(a: string, b: string, p: nat, w: string, k: nat)
    requires k <= |w|
    ensures MatchesFrom(a + b, |a| + p, w, k) == MatchesFrom(b, p, w, k)
    decreases |w| - k
  {
    if k < |w| {
      if p + k < |b| {
        assert (a + b)[|a| + p + k] == b[p + k];
      }
      MatchesFromShift(a, b, p, w, k + 1);
    }
  }

  lemma MatchesAtShift(a: string, b: string, p: nat, w: string)
    ensures MatchesAt(a + b, |a| + p, w) == MatchesAt(b, p, w)
  {
    MatchesFromShift(a, b, p, w, 0);
  }

  lemma EuroWordShift(a: string, b: string, t: nat)
    ensures EuroWordAt(a + b, |a| + t) == EuroWordAt(b, t)
  {
    if t + 4 <= |b| {
      assert (a + b)[|a| + t] == b[t];
      assert (a + b)[|a| + t + 1..|a| + t + 4] == b[t + 1..t + 4];
    }
  }

  lemma SliceShift(a: string, b: string, i: nat, j: nat)
    requires i <= j <= |b|
    ensures (a + b)[|a| + i..|a| + j] == b[i..j]
  {
  }

  lemma DigitPatternShift(a: string, b: string, p: nat, percent: bool)
    requires p < |b|
    ensures DigitsThenAt(a + b, |a| + p, percent) == DigitsThenAt(b, p, percent)
  {
    var s := a + b;
    var q := p + Run(b, p, Digit);
    RunShift(a, b, p, Digit);
    assert |a| + p + Run(s, |a| + p, Digit) == |a| + q;
    var t := q + Run(b, q, Space);
    RunShift(a, b, q, Space);
    assert |a| + q + Run(s, |a| + q, Space) == |a| + t;
    var terminated := if percent then t < |b| && b[t] == '%' else MatchesAt(b, t, "anni");
    var terminated' := if percent then |a| + t < |s| && s[|a| + t] == '%' else MatchesAt(s, |a| + t, "anni");
    assert terminated == terminated' by {
      MatchesAtShift(a, b, t, "anni");
      if t < |b| {
        assert s[|a| + t] == b[t];
      }
    }
    if q > p {
      SliceShift(a, b, p, q);
    }
  }

  lemma DecimalPercentShift(a: string, b: string, p: nat)
    requires p < |b|
    ensures DecimalPercentAt(a + b, |a| + p) == DecimalPercentAt(b, p)
  {
    var q := p + Run(b, p, Digit);
    RunShift(a, b, p, Digit);
    if q + 1 < |b| {
      assert (a + b)[|a| + q] == b[q] && (a + b)[|a| + q + 1] == b[q + 1];
      var r := q + 1 + Run(b, q + 1, Digit);
      RunShift(a, b, q + 1, Digit);
      RunShift(a, b, r, Space);
      var t := r + Run(b, r, Space);
      if t < |b| {
        assert (a + b)[|a| + t] == b[t];
      }
      SliceShift(a, b, p, r);
    }
  }

  lemma EuroThenAmountShift(a: string, b: string, p: nat)
    requires p < |b|
    ensures EuroThenAmountAt(a + b, |a| + p) == EuroThenAmountAt(b, p)
  {
    assert (a + b)[|a| + p] == b[p];
    RunShift(a, b, p + 1, Space);
    var t := p + 1 + Run(b, p + 1, Space);
    RunShift(a, b, t, DigitOrSeparator);
    var n := Run(b, t, DigitOrSeparator);
    if n > 0 {
      SliceShift(a, b, t, t + n);
    }
  }

  lemma AmountThenEuroShift(a: string, b: string, p: nat)
    requires p < |b|
    ensures AmountThenEuroAt(a + b, |a| + p) == AmountThenEuroAt(b, p)
  {
    RunShift(a, b, p, DigitOrSeparator);
    var q := p + Run(b, p, DigitOrSeparator);
    RunShift(a, b, q, Space);
    var t := q + Run(b, q, Space);
    if t < |b| {
      assert (a + b)[|a| + t] == b[t];
    }
    EuroWordShift(a, b, t);
    if q > p {
      SliceShift(a, b, p, q);
    }
  }

  lemma GreenWordShift(a: string, b: string, t: nat)
    ensures GreenWordAt(a + b, |a| + t) == GreenWordAt(b, t)
  {
    MatchesAtShift(a, b, t, "per");
    MatchesAtShift(a, b, t, "acquisto");
    MatchesAtShift(a, b, t, "immobile");
    MatchesAtShift(a, b, t, "green");
  }

  lemma SignedPercentShift(a: string, b: string, p: nat)
    requires p < |b|
    ensures SignedPercentEnd(a + b, |a| + p) == |a| + SignedPercentEnd(b, p)
  {
    assert (a + b)[|a| + p] == b[p];
    RunShift(a, b, p + 1, Space);
    var x := p + 1 + Run(b, p + 1, Space);
    RunShift(a, b, x, DigitOrComma);
    var n := Run(b, x, DigitOrComma);
    if x + n < |b| {
      assert (a + b)[|a| + x + n] == b[x + n];
    }
  }

  lemma GreenDiscountShift(a: string, b: string, p: nat)
    requires p < |b|
    ensures GreenDiscountAt(a + b, |a| + p) == GreenDiscountAt(b, p)
  {
    SignedPercentShift(a, b, p);
    var e := SignedPercentEnd(b, p);
    RunShift(a, b, e, Space);
    GreenWordShift(a, b, e + Run(b, e, Space));
    if e > p {
      SliceShift(a, b, p, e);
    }
  }

  lemma PhraseShift(a: string, b: string, p: nat, first: string, second: string)
    ensures PhraseAt(a + b, |a| + p, first, second) == PhraseAt(b, p, first, second)
  {
    var q := p + |first|;
    MatchesAtShift(a, b, p, first);
    RunShift(a, b, q, Space);
    MatchesAtShift(a, b, q + Run(b, q, Space), second);
  }

  /** A pattern that only looks forward matches in `b` as it matches after any prefix. */
  lemma MatchAtShift(re: Regex, a: string, b: string, p: nat)
    requires LooksForward(re)
    ensures MatchAt(re, a + b, |a| + p) == MatchAt(re, b, p)
  {
    if p < |b| {
      match re
      case Keyword(w) => MatchesAtShift(a, b, p, w);
      case WholeWord(_) =>
      case Phrase(first, second) => PhraseShift(a, b, p, first, second);
      case DecimalPercent => DecimalPercentShift(a, b, p);
      case IntegerPercent => DigitPatternShift(a, b, p, true);
      case EuroThenAmount => EuroThenAmountShift(a, b, p);
      case AmountThenEuro => AmountThenEuroShift(a, b, p);
      case Years => DigitPatternShift(a, b, p, false);
      case GreenDiscount => GreenDiscountShift(a, b, p);
    }
  }

  /** A prefix at none of whose positions `re` matches does not change what `Exec` finds. */
  lemma ExecAfterNoMatch(re: Regex, a: string, b: string)
    requires LooksForward(re)
    requires forall q | 0 <= q < |a| :: MatchAt(re, a + b, q).None?
    ensures Exec(re, a + b) == Exec(re, b)
  {
    var s := a + b;
    var p := LeftmostFrom(re, b, 0);
    NoMatchShifted(re, a, b, p);
    if p < |b| {
      MatchAtShift(re, a, b, p);
      ExecLeftmost(re, s, |a| + p);
    } else {
      TestIff(re, s);
    }
  }

  /** No match in `a` nor in the first `n` positions of `b` is no match in the first
      `|a| + n` positions of `a + b`. */
  lemma NoMatchShifted(re: Regex, a: string, b: string, n: nat)
    requires LooksForward(re) && n <= |b|
    requires forall q | 0 <= q < |a| :: MatchAt(re, a + b, q).None?
    requires forall q | 0 <= q < n :: MatchAt(re, b, q).None?
    ensures forall q | 0 <= q < |a| + n :: MatchAt(re, a + b, q).None?
  {
    forall q | |a| <= q < |a| + n ensures MatchAt(re, a + b, q).None? {
      MatchAtShift(re, a, b, q - |a|);
    }
  }

  /** A prefix in which no match can start does not change what `Exec` finds. */
  lemma ExecSkipsPrefix(re: Regex, a: string, b: string)
    requires LooksForward(re)
    requires forall q | 0 <= q < |a| :: !CanStart(re, a[q])
    ensures Exec(re, a + b) == Exec(re, b)
  {
    var s := a + b;
    forall q | 0 <= q < |a| ensures MatchAt(re, s, q).None? {
      assert s[q] == a[q];
      if MatchAt(re, s, q).Some? {
        MatchStarts(re, s, q);
      }
    }
    ExecAfterNoMatch(re, a, b);
  }

  // ---------------------------------------------------------------------------
  // Matches at the start of a text

  /** `([\d]+[.,][\d]+)\s*%` at 0 when digits end at `i`, a separator stands at `i`, digits
      end at `j` and white space ends at a `%` at `t`: the capture is `s[..j]`. */
  lemma DecimalPercentAtIs(s: string, i: nat, j: nat, t: nat)
    requires 0 < i && i + 1 < j <= t < |s|
    requires forall k | 0 <= k < i :: IsDigit(s[k])
    requires s[i] == '.' || s[i] == ','
    requires forall k | i < k < j :: IsDigit(s[k])
    requires forall k | j <= k < t :: IsSpace(s[k])
    requires s[t] == '%'
    ensures MatchAt(DecimalPercent, s, 0) == Some(s[..j])
  {
    RunIs(s, 0, Digit, i);
    assert IsDigit(s[i + 1]);
    assert !IsDigit(s[j]) by {
      if j < t { assert IsSpace(s[j]); }
    }
    RunIs(s, i + 1, Digit, j - i - 1);
    assert !IsSpace(s[t]);
    RunIs(s, j, Space, t - j);
    assert DecimalPercentAt(s, 0) == Some(s[0..j]);
  }

  /** `([\d]+)\s*%` (or `(\d+)\s*anni`) at 0 when digits end at `i` and white space ends at
      the terminator at `t`: the capture is `s[..i]`. */
  lemma DigitsThenAtIs(s: string, i: nat, t: nat, percent: bool)
    requires 0 < i <= t < |s|
    requires forall k | 0 <= k < i :: IsDigit(s[k])
    requires forall k | i <= k < t :: IsSpace(s[k])
    requires if percent then s[t] == '%' else MatchesAt(s, t, "anni")
    ensures DigitsThenAt(s, 0, percent) == Some(s[..i])
  {
    RunIs(s, 0, Digit, i);
    if !percent {
      MatchesAtIff(s, t, "anni");
    }
    assert !IsDigit(s[i]) by {
      if i < t { assert IsSpace(s[i]); }
    }
    assert !IsSpace(s[t]) by {
      if !percent { assert Lower(s[t]) == 'a'; }
    }
    RunIs(s, i, Space, t - i);
  }

  /** `€\s*([\d.,]+)` at 0 when white space ends at `i` and digits and separators end at `j`:
      the capture is `s[i..j]`. */
  lemma EuroThenAmountAtIs(s: string, i: nat, j: nat)
    requires 0 < i < j <= |s| && s[0] == '€'
    requires forall k | 0 < k < i :: IsSpace(s[k])
    requires forall k | i <= k < j :: IsNumericChar(s[k])
    requires j == |s| || !IsNumericChar(s[j])
    ensures MatchAt(EuroThenAmount, s, 0) == Some(s[i..j])
  {
    RunIs(s, 1, Space, i - 1);
    RunIs(s, i, DigitOrSeparator, j - i);
  }

  /** `([\d.,]+)\s*(?:€|[Ee]uro)` at 0 when digits and separators end at `i` and white space
      ends at `[Ee]uro` at `t`: the capture is `s[..i]`. */
  lemma AmountThenEuroAtIs(s: string, i: nat, t: nat)
    requires 0 < i <= t && EuroWordAt(s, t)
    requires forall k | 0 <= k < i :: IsNumericChar(s[k])
    requires forall k | i <= k < t :: IsSpace(s[k])
    ensures MatchAt(AmountThenEuro, s, 0) == Some(s[..i])
  {
    RunIs(s, 0, DigitOrSeparator, i);
    assert !IsNumericChar(s[i]) by {
      if i < t { assert IsSpace(s[i]); }
    }
    RunIs(s, i, Space, t - i);
  }
}
