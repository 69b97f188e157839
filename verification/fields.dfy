/** The field extractors of `parseMutuoText` (frontend/src/utils/parser.ts): the rate type,
    read from the whole text, and the numeric fields, each read from the first line that
    carries its keyword and a value its guard accepts. */
module Fields {
  import opened Wrappers
  import opened Text
  import opened Regex
  import opened ItalianNumbers
  import opened Finders

  datatype RateType = Fisso | Variabile | Misto

  /** The numeric fields of the offer form (`MutuoForm` in frontend/src/types/index.ts). */
  datatype NumField =
    | Importo | ValoreImmobile | DurataAnni | Tan | Taeg | Spread
    | SpeseIstruttoria | SpesePerizia | CostoAssicurazione | SpeseNotarili | AltreSpese

  /** `w` occurs somewhere in `s`, ignoring case. */
  predicate Mentions(s: string, w: string) {
    exists p: nat | p < |s| :: MatchesAt(s, p, w)
  }

  lemma KeywordIff(s: string, w: string)
    ensures Test(Keyword(w), s) <==> Mentions(s, w)
  {
    TestIff(Keyword(w), s);
    if Mentions(s, w) {
      var p: nat :| p < |s| && MatchesAt(s, p, w);
      assert MatchAt(Keyword(w), s, p).Some?;
    }
  }

  /** `first\s+w` contains `w`. */
  lemma PhraseMentionsSecond(s: string, first: string, w: string, p: nat)
    requires |w| > 0
    requires PhraseAt(s, p, first, w)
    ensures Mentions(s, w)
  {
    var q := p + |first|;
    var t := q + Run(s, q, Space);
    MatchesAtIff(s, t, w);
    assert t < |s| && MatchesAt(s, t, w);
  }

  /** A word that does not start with white space occurs in no blank text. */
  lemma BlankMentionsNothing(text: string, w: string)
    requires AllSpace(text)
    requires |w| > 0 && !IsSpace(w[0])
    ensures !Mentions(text, w)
  {
    forall p: nat | p < |text| ensures !MatchesAt(text, p, w) {
      MatchesAtIff(text, p, w);
      assert text[p] in text;
    }
  }

  /** `first\s+second` matches only where `first` occurs. */
  lemma PhraseNeedsFirst(s: string, first: string, second: string)
    ensures !Mentions(s, first) ==> !Test(Phrase(first, second), s)
  {
    TestIff(Phrase(first, second), s);
    if Test(Phrase(first, second), s) {
      var p: nat :| MatchAt(Phrase(first, second), s, p).Some?;
      assert p < |s| && MatchesAt(s, p, first);
    }
  }

  /** `/tasso\s+w|w/i.test(text)`. */
  predicate RateWord(text: string, w: string) {
    Test(Phrase("tasso", w), text) || Test(Keyword(w), text)
  }

  /** The first alternative adds nothing: `/tasso\s+w|w/i` holds exactly when `w` occurs. */
  lemma RateWordIff(text: string, w: string)
    requires |w| > 0
    ensures RateWord(text, w) <==> Mentions(text, w)
  {
    KeywordIff(text, w);
    TestIff(Phrase("tasso", w), text);
    if Test(Phrase("tasso", w), text) {
      var p: nat :| MatchAt(Phrase("tasso", w), text, p).Some?;
      PhraseMentionsSecond(text, "tasso", w, p);
    }
  }

  /** The rate type: fixed or variable when exactly one of the two words occurs, otherwise
      mixed when "misto" occurs, otherwise none. */
  function RateTypeOf(text: string): (r: Option<RateType>)
    ensures r == Some(Fisso) <==> Mentions(text, "fisso") && !Mentions(text, "variabile")
    ensures r == Some(Variabile) <==> Mentions(text, "variabile") && !Mentions(text, "fisso")
    ensures r == Some(Misto) <==>
      (Mentions(text, "fisso") <==> Mentions(text, "variabile")) && Mentions(text, "misto")
    ensures r.None? <==>
      (Mentions(text, "fisso") <==> Mentions(text, "variabile")) && !Mentions(text, "misto")
  {
    RateWordIff(text, "fisso");
    RateWordIff(text, "variabile");
    RateWordIff(text, "misto");
    var fisso := RateWord(text, "fisso");
    var variabile := RateWord(text, "variabile");
    if fisso && !variabile then Some(Fisso)
    else if variabile && !fisso then Some(Variabile)
    else if RateWord(text, "misto") then Some(Misto)
    else None
  }

  // ---------------------------------------------------------------------------
  // Line scans

  /** The line scans of `parseMutuoText`, in the order it runs them. */
  datatype Scan =
    | ImportoScan | DurataScan | TanScan | TanFallbackScan | TaegScan | SpreadScan
    | IstruttoriaScan | PeriziaScan | ImpostaScan | AssicurazioneScan
  {
    /** The field the scan sets; the fallback scan sets the TAN too. */
    function Target(): NumField {
      match this
      case ImportoScan => Importo
      case DurataScan => DurataAnni
      case TanScan => Tan
      case TanFallbackScan => Tan
      case TaegScan => Taeg
      case SpreadScan => Spread
      case IstruttoriaScan => SpeseIstruttoria
      case PeriziaScan => SpesePerizia
      case ImpostaScan => SpeseNotarili
      case AssicurazioneScan => CostoAssicurazione
    }
  }

  /** The keyword test a line must pass before the scan reads a value from it. */
  predicate Anchored(scan: Scan, line: string) {
    match scan
    case ImportoScan =>
      Test(Phrase("importo", "mutuo"), line) || Test(Phrase("importo", "finanzi"), line)
    case DurataScan => Test(Keyword("durata"), line)
    case TanScan => Test(WholeWord("tan"), line)
    case TanFallbackScan =>
      || Test(Phrase("tasso", "fisso"), line)
      || Test(Phrase("tasso", "variabile"), line)
      || Test(Phrase("tasso", "finito"), line)
    case TaegScan => Test(WholeWord("taeg"), line)
    case SpreadScan => Test(WholeWord("spread"), line)
    case IstruttoriaScan => Test(Keyword("istruttoria"), line)
    case PeriziaScan =>
      Test(Keyword("perizia"), line)
      && !(Test(Keyword("sopralluogo"), line) || Test(Keyword("successiv"), line))
    case ImpostaScan => Test(Phrase("imposta", "sostitutiva"), line)
    case AssicurazioneScan => Test(Keyword("assicurazion"), line)
  }

  /** The word every line a scan reads must contain: the first word of its keyword test. */
  function KeywordOf(scan: Scan): string {
    match scan
    case ImportoScan => "importo"
    case DurataScan => "durata"
    case TanScan => "tan"
    case TanFallbackScan => "tasso"
    case TaegScan => "taeg"
    case SpreadScan => "spread"
    case IstruttoriaScan => "istruttoria"
    case PeriziaScan => "perizia"
    case ImpostaScan => "imposta"
    case AssicurazioneScan => "assicurazion"
  }

  /** `\bw\b` matches only where `w` occurs. */
  lemma WholeWordNeedsWord(s: string, w: string)
    ensures Test(WholeWord(w), s) ==> Mentions(s, w)
  {
    TestIff(WholeWord(w), s);
    if Test(WholeWord(w), s) {
      var p: nat :| MatchAt(WholeWord(w), s, p).Some?;
      assert p < |s| && MatchesAt(s, p, w);
    }
  }

  /** A scan only reads lines that contain its keyword, in any case. */
  lemma AnchorNeedsKeyword(scan: Scan, line: string)
    ensures Anchored(scan, line) ==> Mentions(line, KeywordOf(scan))
  {
    match scan
    case ImportoScan =>
      PhraseNeedsFirst(line, "importo", "mutuo");
      PhraseNeedsFirst(line, "importo", "finanzi");
    case DurataScan => KeywordIff(line, "durata");
    case TanScan => WholeWordNeedsWord(line, "tan");
    case TanFallbackScan =>
      PhraseNeedsFirst(line, "tasso", "fisso");
      PhraseNeedsFirst(line, "tasso", "variabile");
      PhraseNeedsFirst(line, "tasso", "finito");
    case TaegScan => WholeWordNeedsWord(line, "taeg");
    case SpreadScan => WholeWordNeedsWord(line, "spread");
    case IstruttoriaScan => KeywordIff(line, "istruttoria");
    case PeriziaScan => KeywordIff(line, "perizia");
    case ImpostaScan => PhraseNeedsFirst(line, "imposta", "sostitutiva");
    case AssicurazioneScan => KeywordIff(line, "assicurazion");
  }

  /** A word does not occur in a text none of whose characters lowers to one of its letters. */
  lemma MissingLetter(s: string, w: string, j: nat)
    requires j < |w|
    requires forall c | c in s :: Lower(c) != w[j]
    ensures !Mentions(s, w)
  {
    forall p: nat | p < |s| ensures !MatchesAt(s, p, w) {
      MatchesAtIff(s, p, w);
      if p + j < |s| {
        assert s[p + j] in s;
      }
    }
  }

  /** The years of `(\d+)\s*anni`, read with `parseInt`. */
  function Years(line: string): (r: Option<real>)
    ensures r.Some? <==> Test(Regex.Years, line)
    ensures r.Some? ==> r.value >= 0.0 && r.value == r.value.Floor as real
  {
    match Exec(Regex.Years, line)
    case Some(digits) => Some(DigitsValue(digits) as real)
    case None => None
  }

  /** The digits of `d ws anni post` are what `(\d+)\s*anni` captures. */
  lemma YearsOf(d: string, ws: string, post: string)
    requires |d| > 0 && DigitText(d) && AllSpace(ws)
    ensures Exec(Regex.Years, d + ws + "anni" + post) == Some(d)
  {
    var s := d + ws + "anni" + post;
    forall k | 0 <= k < |d| ensures IsDigit(s[k]) {
      assert s[k] == d[k] && d[k] in d;
    }
    forall k | |d| <= k < |d| + |ws| ensures IsSpace(s[k]) {
      assert s[k] == ws[k - |d|] && ws[k - |d|] in ws;
    }
    var t := |d| + |ws|;
    MatchesAtIff(s, t, "anni");
    assert MatchesAt(s, t, "anni") by {
      forall j | 0 <= j < 4 ensures Lower(s[t + j]) == "anni"[j] {
        assert s[t + j] == "anni"[j];
      }
    }
    DigitsThenAtIs(s, |d|, t, false);
    assert s[..|d|] == d;
    ExecLeftmost(Regex.Years, s, 0);
  }

  /** `(\d+)\s*anni` reads the digits before the first `anni` that follows a prefix without
      digits, with `parseInt`. */
  lemma YearsRead(pre: string, d: string, ws: string, post: string)
    requires forall c | c in pre :: !IsDigit(c)
    requires |d| > 0 && DigitText(d) && AllSpace(ws)
    ensures Years(pre + (d + ws + "anni" + post)) == Some(DigitsValue(d) as real)
  {
    assert forall q | 0 <= q < |pre| :: pre[q] in pre;
    ExecSkipsPrefix(Regex.Years, pre, d + ws + "anni" + post);
    YearsOf(d, ws, post);
  }

  /** The value a scan reads from a line. */
  function Reading(scan: Scan, line: string): Option<real> {
    match scan
    case DurataScan => Years(line)
    case TanScan => FindPercent(line)
    case TanFallbackScan => FindPercent(line)
    case TaegScan => FindPercent(line)
    case SpreadScan => FindPercent(line)
    case _ => FindEuro(line)
  }

  /** The guard on the value read. */
  predicate Accepts(scan: Scan, v: real) {
    match scan
    case ImportoScan => v > 1000.0
    case TanScan => v < 20.0
    case TanFallbackScan => v < 20.0
    case TaegScan => v < 20.0
    case SpreadScan => v < 10.0
    case PeriziaScan => v < 5000.0
    case AssicurazioneScan => v > 0.0
    case _ => true
  }

  /** What one line gives a scan: the value read, when the line is anchored and the value
      passes the guard. */
  function Probe(scan: Scan, line: string): Option<real> {
    if Anchored(scan, line) then
      match Reading(scan, line)
      case Some(v) => if Accepts(scan, v) then Some(v) else None
      case None => None
    else None
  }

  /** The range a value of each field can have once extracted. */
  predicate InRange(f: NumField, v: real) {
    && v >= 0.0
    && match f
       case Importo => v > 1000.0
       case DurataAnni => v == v.Floor as real
       case Tan => v < 20.0
       case Taeg => v < 20.0
       case Spread => v < 10.0
       case SpesePerizia => v < 5000.0
       case CostoAssicurazione => v > 0.0
       case _ => true
  }

  /** Every value a scan takes lies in the range of its field. */
  lemma ProbeInRange(scan: Scan, line: string)
    requires Probe(scan, line).Some?
    ensures InRange(scan.Target(), Probe(scan, line).value)
  {
  }

  /** The first present entry of `hits[i..]`. */
  function FirstSomeFrom(hits: seq<Option<real>>, i: nat): (r: Option<real>)
    requires i <= |hits|
    ensures r.None? <==> forall k | i <= k < |hits| :: hits[k].None?
    ensures r.Some? ==> exists k | i <= k < |hits| ::
      && hits[k] == r
      && forall j | i <= j < k :: hits[j].None?
    decreases |hits| - i
  {
    if i == |hits| then None
    else if hits[i].Some? then hits[i]
    else FirstSomeFrom(hits, i + 1)
  }

  /** What each line gives the scan. */
  function Probes(scan: Scan, lines: seq<string>): (hits: seq<Option<real>>)
    ensures |hits| == |lines|
    ensures forall k | 0 <= k < |lines| :: hits[k] == Probe(scan, lines[k])
  {
    seq(|lines|, k requires 0 <= k < |lines| => Probe(scan, lines[k]))
  }

  /** `for (const line of lines) { ... break }`: the scan gives nothing exactly when no line
      gives a value, and otherwise the value of a line that no earlier line pre-empts. */
  function FirstHit(scan: Scan, lines: seq<string>): (r: Option<real>)
    ensures r.None? <==> forall k | 0 <= k < |lines| :: Probe(scan, lines[k]).None?
    ensures r.Some? ==> exists k | 0 <= k < |lines| ::
      && Probe(scan, lines[k]) == r
      && forall j | 0 <= j < k :: Probe(scan, lines[j]).None?
  {
    FirstSomeFrom(Probes(scan, lines), 0)
  }

  /** The value of the first hit: a line `k` gives it and no line before `k` gives one. */
  lemma FirstHitIs(scan: Scan, lines: seq<string>, k: nat)
    requires k < |lines| && Probe(scan, lines[k]).Some?
    requires forall j | 0 <= j < k :: Probe(scan, lines[j]).None?
    ensures FirstHit(scan, lines) == Probe(scan, lines[k])
  {
    var r := FirstHit(scan, lines);
    if r.Some? {
      var k' :| 0 <= k' < |lines| && Probe(scan, lines[k']) == r
        && forall j | 0 <= j < k' :: Probe(scan, lines[j]).None?;
      assert k' == k;
    }
  }

  /** Lines after the first hit are never looked at. */
  lemma FirstHitIgnoresLater(scan: Scan, lines: seq<string>, more: seq<string>)
    requires FirstHit(scan, lines).Some?
    ensures FirstHit(scan, lines + more) == FirstHit(scan, lines)
  {
    var k :| 0 <= k < |lines| && Probe(scan, lines[k]) == FirstHit(scan, lines)
      && forall j | 0 <= j < k :: Probe(scan, lines[j]).None?;
    FirstHitIs(scan, lines + more, k);
  }

  // ---------------------------------------------------------------------------
  // The insurance scan

  /** Index of the first line from `i` on that passes the scan's keyword test, or `|lines|`. */
  function FirstAnchoredFrom(scan: Scan, lines: seq<string>, i: nat): (k: nat)
    requires i <= |lines|
    ensures i <= k <= |lines|
    ensures k < |lines| ==> Anchored(scan, lines[k])
    ensures forall j | i <= j < k :: !Anchored(scan, lines[j])
    decreases |lines| - i
  {
    if i == |lines| || Anchored(scan, lines[i]) then i else FirstAnchoredFrom(scan, lines, i + 1)
  }

  /** The first anchored line is the only one with no anchored line before it. */
  lemma FirstAnchoredUnique(scan: Scan, lines: seq<string>)
    ensures (forall k | 0 <= k < |lines| :: !Anchored(scan, lines[k])) ==>
      FirstAnchoredFrom(scan, lines, 0) == |lines|
    ensures forall k | 0 <= k < |lines| && Anchored(scan, lines[k])
                       && (forall j | 0 <= j < k :: !Anchored(scan, lines[j])) ::
      FirstAnchoredFrom(scan, lines, 0) == k
  {
  }

  /** The insurance cost: only the first line mentioning insurance is read, because the loop
      breaks after that line whether or not it gave a value. */
  function InsuranceCost(lines: seq<string>): (r: Option<real>)
    ensures (forall k | 0 <= k < |lines| :: !Anchored(AssicurazioneScan, lines[k])) ==> r.None?
    ensures forall k | 0 <= k < |lines| && Anchored(AssicurazioneScan, lines[k])
                       && (forall j | 0 <= j < k :: !Anchored(AssicurazioneScan, lines[j])) ::
      r == Probe(AssicurazioneScan, lines[k])
  {
    FirstAnchoredUnique(AssicurazioneScan, lines);
    var k := FirstAnchoredFrom(AssicurazioneScan, lines, 0);
    if k < |lines| then Probe(AssicurazioneScan, lines[k]) else None
  }

  /** A value of the insurance scan is what the general first-hit scan would find too. */
  lemma InsuranceCostSpec(lines: seq<string>)
    ensures InsuranceCost(lines).Some? ==> InsuranceCost(lines) == FirstHit(AssicurazioneScan, lines)
  {
    var k := FirstAnchoredFrom(AssicurazioneScan, lines, 0);
    if k < |lines| && Probe(AssicurazioneScan, lines[k]).Some? {
      forall j | 0 <= j < k ensures Probe(AssicurazioneScan, lines[j]).None? {
      }
      FirstHitIs(AssicurazioneScan, lines, k);
    }
  }

  /** A first insurance line without a positive amount hides every later one, unlike the
      other scans. */
  lemma InsuranceStopsAtFirstMention(first: string, rest: seq<string>)
    requires Anchored(AssicurazioneScan, first) && Probe(AssicurazioneScan, first).None?
    ensures InsuranceCost([first] + rest) == None
  {
    assert ([first] + rest)[0] == first;
  }
}
