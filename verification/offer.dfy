/** A worked example of `parseMutuoText` (frontend/src/utils/parser.ts) on a five-line offer:
    the amount, the duration, a fixed rate without a line naming the TAN, the TAEG and the
    processing fee. */
module Offer {
  import opened Wrappers
  import opened Text
  import opened Regex
  import opened ItalianNumbers
  import opened Finders
  import opened Fields
  import opened Notes
  import opened Parser

  const Line1: string := "Importo Mutuo: € 180.000"
  const Line2: string := "Durata: 30 anni"
  const Line3: string := "Tasso Fisso: 3,50%"
  const Line4: string := "TAEG: 3,66%"
  const Line5: string := "Istruttoria: € 600,00"

  /** The offer: its five lines, one after the other. */
  const OfferText: string := Line1 + "\n" + (Line2 + "\n" + (Line3 + "\n" + (Line4 + "\n" + Line5)))

  const OfferLines: seq<string> := [Line1, Line2, Line3, Line4, Line5]

  // ---------------------------------------------------------------------------
  // Characters

  /** The characters of each line. */
  const Chars1: set<char> := {'I', 'm', 'p', 'o', 'r', 't', ' ', 'M', 'u', ':', '€', '1', '8', '0', '.'}
  const Chars2: set<char> := {'D', 'u', 'r', 'a', 't', ':', ' ', '3', '0', 'n', 'i'}
  const Chars3: set<char> := {'T', 'a', 's', 'o', ' ', 'F', 'i', ':', '3', ',', '5', '0', '%'}
  const Chars4: set<char> := {'T', 'A', 'E', 'G', ':', ' ', '3', ',', '6', '%'}
  const Chars5: set<char> := {'I', 's', 't', 'r', 'u', 'o', 'i', 'a', ':', ' ', '€', '6', '0', ','}

  lemma Line1Chars()
    ensures forall i | 0 <= i < |Line1| :: Line1[i] in Chars1
  {
  }

  lemma Line2Chars()
    ensures forall i | 0 <= i < |Line2| :: Line2[i] in Chars2
  {
  }

  lemma Line3Chars()
    ensures forall i | 0 <= i < |Line3| :: Line3[i] in Chars3
  {
  }

  lemma Line4Chars()
    ensures forall i | 0 <= i < |Line4| :: Line4[i] in Chars4
  {
  }

  lemma Line5Chars()
    ensures forall i | 0 <= i < |Line5| :: Line5[i] in Chars5
  {
  }

  /** No character of `s` lowers to `c`. */
  predicate Lacks(s: string, c: char) {
    forall x | x in s :: Lower(x) != c
  }

  /** The lower-case forms of a line's characters lie in the lower-case forms of its set. */
  lemma LowsOf(s: string, chars: set<char>, lows: set<char>)
    requires forall i | 0 <= i < |s| :: s[i] in chars
    requires forall x | x in chars :: Lower(x) in lows
    ensures forall i | 0 <= i < |s| :: Lower(s[i]) in lows
  {
  }

  /** A line lacks every letter outside the lower-case forms of its characters. */
  lemma LacksByLows(s: string, lows: set<char>, c: char)
    requires forall i | 0 <= i < |s| :: Lower(s[i]) in lows
    requires c !in lows
    ensures Lacks(s, c)
  {
    forall x | x in s ensures Lower(x) != c {
      var i :| 0 <= i < |s| && s[i] == x;
    }
  }

  /** The lower-case forms of the characters of each line. */
  const Low1: set<char> := {'i', 'm', 'p', 'o', 'r', 't', ' ', 'u', ':', '€', '1', '8', '0', '.'}
  const Low2: set<char> := {'d', 'u', 'r', 'a', 't', ':', ' ', '3', '0', 'n', 'i'}
  const Low3: set<char> := {'t', 'a', 's', 'o', ' ', 'f', 'i', ':', '3', ',', '5', '0', '%'}
  const Low4: set<char> := {'t', 'a', 'e', 'g', ':', ' ', '3', ',', '6', '%'}
  const Low5: set<char> := {'i', 's', 't', 'r', 'u', 'o', 'a', ':', ' ', '€', '6', '0', ','}

  lemma Line1Lows()
    ensures forall i | 0 <= i < |Line1| :: Lower(Line1[i]) in Low1
  {
    Line1Chars();
    LowsOf(Line1, Chars1, Low1);
  }

  lemma Line2Lows()
    ensures forall i | 0 <= i < |Line2| :: Lower(Line2[i]) in Low2
  {
    Line2Chars();
    LowsOf(Line2, Chars2, Low2);
  }

  lemma Line3Lows()
    ensures forall i | 0 <= i < |Line3| :: Lower(Line3[i]) in Low3
  {
    Line3Chars();
    LowsOf(Line3, Chars3, Low3);
  }

  lemma Line4Lows()
    ensures forall i | 0 <= i < |Line4| :: Lower(Line4[i]) in Low4
  {
    Line4Chars();
    LowsOf(Line4, Chars4, Low4);
  }

  lemma Line5Lows()
    ensures forall i | 0 <= i < |Line5| :: Lower(Line5[i]) in Low5
  {
    Line5Chars();
    LowsOf(Line5, Chars5, Low5);
  }

  // ---------------------------------------------------------------------------
  // Lines

  /** A trimmed line without a line break is a text of one line. */
  lemma OneLine(line: string, chars: set<char>)
    requires |line| > 0 && !IsSpace(line[0]) && !IsSpace(line[|line| - 1])
    requires forall i | 0 <= i < |line| :: line[i] in chars
    requires '\n' !in chars
    ensures '\n' !in line
    ensures Lines(line) == [line]
  {
    TrimTrimmed(line);
    assert line[0] in line;
    LinesOfLine(line);
  }

  /** A one-line text put in front of a text adds its line in front of that text's lines. */
  lemma PrependLine(a: string, b: string, rest: seq<string>)
    requires '\n' !in a && Lines(a) == [a] && Lines(b) == rest
    ensures Lines(a + "\n" + b) == [a] + rest
  {
    LinesCons(a, b);
  }

  lemma FiveInARow<T>(a: T, b: T, c: T, d: T, e: T)
    ensures [a] + ([b] + ([c] + ([d] + [e]))) == [a, b, c, d, e]
  {
  }

  /** Five such lines joined by line breaks are the five lines of the text. */
  lemma FiveLines(l1: string, l2: string, l3: string, l4: string, l5: string)
    requires '\n' !in l1 && '\n' !in l2 && '\n' !in l3 && '\n' !in l4
    requires Lines(l1) == [l1] && Lines(l2) == [l2] && Lines(l3) == [l3]
    requires Lines(l4) == [l4] && Lines(l5) == [l5]
    ensures Lines(l1 + "\n" + (l2 + "\n" + (l3 + "\n" + (l4 + "\n" + l5)))) == [l1, l2, l3, l4, l5]
  {
    var t4 := l4 + "\n" + l5;
    var t3 := l3 + "\n" + t4;
    var t2 := l2 + "\n" + t3;
    PrependLine(l4, l5, [l5]);
    PrependLine(l3, t4, [l4] + [l5]);
    PrependLine(l2, t3, [l3] + ([l4] + [l5]));
    PrependLine(l1, t2, [l2] + ([l3] + ([l4] + [l5])));
    FiveInARow(l1, l2, l3, l4, l5);
  }

  lemma Line1IsLine()
    ensures '\n' !in Line1 && Lines(Line1) == [Line1]
  {
    Line1Chars();
    OneLine(Line1, Chars1);
  }

  lemma Line2IsLine()
    ensures '\n' !in Line2 && Lines(Line2) == [Line2]
  {
    Line2Chars();
    OneLine(Line2, Chars2);
  }

  lemma Line3IsLine()
    ensures '\n' !in Line3 && Lines(Line3) == [Line3]
  {
    Line3Chars();
    OneLine(Line3, Chars3);
  }

  lemma Line4IsLine()
    ensures '\n' !in Line4 && Lines(Line4) == [Line4]
  {
    Line4Chars();
    OneLine(Line4, Chars4);
  }

  lemma Line5IsLine()
    ensures Lines(Line5) == [Line5]
  {
    Line5Chars();
    OneLine(Line5, Chars5);
  }

  /** The offer splits into its five lines. */
  lemma OfferSplit()
    ensures Lines(OfferText) == OfferLines
  {
    Line1IsLine();
    Line2IsLine();
    Line3IsLine();
    Line4IsLine();
    Line5IsLine();
    FiveLines(Line1, Line2, Line3, Line4, Line5);
  }

  // ---------------------------------------------------------------------------
  // Rate type

  lemma OfferMentionsFisso()
    ensures Mentions(OfferText, "fisso")
  {
    var rest := Line3 + "\n" + (Line4 + "\n" + Line5);
    var tail := Line2 + "\n" + rest;
    assert rest[6..11] == "Fisso";
    MatchesAtIff(rest, 6, "fisso");
    MatchesAtShift(Line2 + "\n", rest, 6, "fisso");
    MatchesAtShift(Line1 + "\n", tail, |Line2| + 1 + 6, "fisso");
  }

  /** Lines joined by line breaks lack every letter each of them lacks, other than the break. */
  lemma LacksFive(l1: string, l2: string, l3: string, l4: string, l5: string, c: char)
    requires Lower('\n') != c
    requires Lacks(l1, c) && Lacks(l2, c) && Lacks(l3, c) && Lacks(l4, c) && Lacks(l5, c)
    ensures Lacks(l1 + "\n" + (l2 + "\n" + (l3 + "\n" + (l4 + "\n" + l5))), c)
  {
  }

  lemma OfferLacksV()
    ensures Lacks(OfferText, 'v')
  {
    assert Lacks(Line1, 'v') by { Line1Lows(); LacksByLows(Line1, Low1, 'v'); }
    assert Lacks(Line2, 'v') by { Line2Lows(); LacksByLows(Line2, Low2, 'v'); }
    assert Lacks(Line3, 'v') by { Line3Lows(); LacksByLows(Line3, Low3, 'v'); }
    assert Lacks(Line4, 'v') by { Line4Lows(); LacksByLows(Line4, Low4, 'v'); }
    assert Lacks(Line5, 'v') by { Line5Lows(); LacksByLows(Line5, Low5, 'v'); }
    LacksFive(Line1, Line2, Line3, Line4, Line5, 'v');
  }

  lemma OfferIsFixed()
    ensures RateTypeOf(OfferText) == Some(Fisso)
  {
    OfferMentionsFisso();
    OfferLacksV();
    MissingLetter(OfferText, "variabile", 0);
  }

  // ---------------------------------------------------------------------------
  // Scans over any lines

  /** A pattern that matches somewhere passes its test. */
  lemma TestAt(re: Regex, s: string, p: nat)
    requires MatchAt(re, s, p).Some?
    ensures Test(re, s)
  {
    TestIff(re, s);
  }

  /** No line mentioning the keyword of a scan, no value. */
  lemma NoHit(scan: Scan, lines: seq<string>)
    requires forall i | 0 <= i < |lines| :: !Mentions(lines[i], KeywordOf(scan))
    ensures FirstHit(scan, lines).None?
  {
    forall i | 0 <= i < |lines| ensures Probe(scan, lines[i]).None? {
      AnchorNeedsKeyword(scan, lines[i]);
    }
  }

  /** The first of five lines mentioning the keyword of a scan gives the value it reads. */
  lemma HitAmong(scan: Scan, l1: string, l2: string, l3: string, l4: string, l5: string, k: nat, v: real)
    requires k < 5 && Probe(scan, [l1, l2, l3, l4, l5][k]) == Some(v)
    requires k > 0 ==> !Mentions(l1, KeywordOf(scan))
    requires k > 1 ==> !Mentions(l2, KeywordOf(scan))
    requires k > 2 ==> !Mentions(l3, KeywordOf(scan))
    requires k > 3 ==> !Mentions(l4, KeywordOf(scan))
    ensures FirstHit(scan, [l1, l2, l3, l4, l5]) == Some(v)
  {
    var lines := [l1, l2, l3, l4, l5];
    forall i | 0 <= i < k ensures !Mentions(lines[i], KeywordOf(scan)) {
    }
    HitAt(scan, lines, k);
  }

  /** The first line mentioning the keyword of a scan gives the value it reads. */
  lemma HitAt(scan: Scan, lines: seq<string>, k: nat)
    requires k < |lines| && Probe(scan, lines[k]).Some?
    requires forall i | 0 <= i < k :: !Mentions(lines[i], KeywordOf(scan))
    ensures FirstHit(scan, lines) == Probe(scan, lines[k])
  {
    forall i | 0 <= i < k ensures Probe(scan, lines[i]).None? {
      AnchorNeedsKeyword(scan, lines[i]);
    }
    FirstHitIs(scan, lines, k);
  }

  /** None of five lines mentioning the keyword of a scan, no value. */
  lemma NoneAmong(scan: Scan, l1: string, l2: string, l3: string, l4: string, l5: string)
    requires !Mentions(l1, KeywordOf(scan)) && !Mentions(l2, KeywordOf(scan))
    requires !Mentions(l3, KeywordOf(scan)) && !Mentions(l4, KeywordOf(scan))
    requires !Mentions(l5, KeywordOf(scan))
    ensures FirstHit(scan, [l1, l2, l3, l4, l5]).None?
  {
    var lines := [l1, l2, l3, l4, l5];
    forall i | 0 <= i < |lines| ensures !Mentions(lines[i], KeywordOf(scan)) {
    }
    NoHit(scan, lines);
  }

  /** No line mentioning the insurance keyword, no insurance cost. */
  lemma NoInsurance(lines: seq<string>)
    requires forall i | 0 <= i < |lines| :: !Mentions(lines[i], KeywordOf(AssicurazioneScan))
    ensures InsuranceCost(lines).None?
  {
    forall i | 0 <= i < |lines| ensures !Anchored(AssicurazioneScan, lines[i]) {
      AnchorNeedsKeyword(AssicurazioneScan, lines[i]);
    }
  }

  lemma NoInsuranceAmong(l1: string, l2: string, l3: string, l4: string, l5: string)
    requires !Mentions(l1, KeywordOf(AssicurazioneScan)) && !Mentions(l2, KeywordOf(AssicurazioneScan))
    requires !Mentions(l3, KeywordOf(AssicurazioneScan)) && !Mentions(l4, KeywordOf(AssicurazioneScan))
    requires !Mentions(l5, KeywordOf(AssicurazioneScan))
    ensures InsuranceCost([l1, l2, l3, l4, l5]).None?
  {
    var lines := [l1, l2, l3, l4, l5];
    forall i | 0 <= i < |lines| ensures !Mentions(lines[i], KeywordOf(AssicurazioneScan)) {
    }
    NoInsurance(lines);
  }

  /** An anchored line whose reading passes the guard gives the scan that reading. */
  lemma ProbeReads(scan: Scan, line: string, v: real)
    requires Anchored(scan, line) && Reading(scan, line) == Some(v) && Accepts(scan, v)
    ensures Probe(scan, line) == Some(v)
  {
  }

  /** The readings of a line of each shape. */
  lemma PercentLine(line: string, pre: string, d1: string, d2: string, n: string)
    requires n == d1 + [','] + d2 && line == pre + (n + "%")
    requires forall c | c in pre :: !IsDigit(c)
    requires |d1| > 0 && |d2| > 0 && DigitText(d1) && DigitText(d2)
    ensures NumberInput(n) && FindPercent(line) == Some(ParseItalianNumber(n))
  {
    assert n + "%" == d1 + [','] + d2 + "" + "%" + "";
    FindPercentDecimal(pre, d1, ',', d2, "", "");
  }

  lemma YearsLine(line: string, pre: string, d: string, ws: string, v: real)
    requires line == pre + (d + ws + "anni" + "")
    requires forall c | c in pre :: !IsDigit(c)
    requires |d| > 0 && DigitText(d) && AllSpace(ws) && DigitsValue(d) as real == v
    ensures Fields.Years(line) == Some(v)
  {
    YearsRead(pre, d, ws, "");
  }

  // ---------------------------------------------------------------------------
  // The lines without a keyword

  /** A line none of whose characters lowers to the `j`-th letter of `w` does not mention `w`. */
  lemma Absent(line: string, lows: set<char>, w: string, j: nat)
    requires forall i | 0 <= i < |line| :: Lower(line[i]) in lows
    requires j < |w| && w[j] !in lows
    ensures !Mentions(line, w)
  {
    LacksByLows(line, lows, w[j]);
    MissingLetter(line, w, j);
  }

  // ---------------------------------------------------------------------------
  // Fields

  lemma Line1Importo()
    ensures MatchesAt(Line1, 0, "importo")
  {
    MatchesAtIff(Line1, 0, "importo");
  }

  lemma Line1Mutuo()
    ensures MatchesAt(Line1, 8, "mutuo")
  {
    MatchesAtIff(Line1, 8, "mutuo");
  }

  lemma Line1Phrase()
    ensures PhraseAt(Line1, 0, "importo", "mutuo")
  {
    Line1Importo();
    RunIs(Line1, 7, Space, 1);
    Line1Mutuo();
  }

  lemma Line1Euro()
    ensures FindEuro(Line1) == Some(180000.0)
  {
    assert Line1 == "Importo Mutuo: " + ("€" + " " + "180.000" + "");
    FindEuroAfterSign("Importo Mutuo: ", " ", "180.000", "");
    ReadsThousands();
  }

  /** The amount: the first line names the loan amount and gives it after the euro sign. */
  lemma ImportoProbe()
    ensures Probe(ImportoScan, Line1) == Some(180000.0)
  {
    Line1Phrase();
    TestAt(Phrase("importo", "mutuo"), Line1, 0);
    Line1Euro();
    ProbeReads(ImportoScan, Line1, 180000.0);
  }

  lemma ImportoFound()
    ensures FirstHit(ImportoScan, OfferLines) == Some(180000.0)
  {
    ImportoProbe();
    HitAmong(ImportoScan, Line1, Line2, Line3, Line4, Line5, 0, 180000.0);
  }

  /** The duration: the second line reads 30 years. */
  lemma Line2Durata()
    ensures MatchesAt(Line2, 0, "durata")
  {
    MatchesAtIff(Line2, 0, "durata");
  }

  lemma Thirty()
    ensures DigitText("30") && DigitsValue("30") == 30
  {
    assert PrefixValue("30", 1) == 3;
  }

  lemma Line2Years()
    ensures Fields.Years(Line2) == Some(30.0)
  {
    Thirty();
    assert forall c | c in "Durata: " :: !IsDigit(c);
    YearsLine(Line2, "Durata: ", "30", " ", 30.0);
  }

  lemma DurataProbe()
    ensures Probe(DurataScan, Line2) == Some(30.0)
  {
    Line2Durata();
    TestAt(Keyword("durata"), Line2, 0);
    Line2Years();
    ProbeReads(DurataScan, Line2, 30.0);
  }

  lemma DurataFound()
    ensures FirstHit(DurataScan, OfferLines) == Some(30.0)
  {
    assert !Mentions(Line1, "durata") by { Line1Lows(); Absent(Line1, Low1, "durata", 0); }
    DurataProbe();
    HitAmong(DurataScan, Line1, Line2, Line3, Line4, Line5, 1, 30.0);
  }

  /** No line names the TAN: "tan" never occurs in the second line, and every other line
      lacks one of its letters. */
  lemma Line2NoTan()
    ensures !Mentions(Line2, "tan")
  {
    forall p: nat | p < |Line2| ensures !MatchesAt(Line2, p, "tan") {
      MatchesAtIff(Line2, p, "tan");
    }
  }

  lemma TanMissing()
    ensures FirstHit(TanScan, OfferLines).None?
  {
    assert !Mentions(Line1, "tan") by { Line1Lows(); Absent(Line1, Low1, "tan", 1); }
    assert !Mentions(Line3, "tan") by { Line3Lows(); Absent(Line3, Low3, "tan", 2); }
    assert !Mentions(Line4, "tan") by { Line4Lows(); Absent(Line4, Low4, "tan", 2); }
    assert !Mentions(Line5, "tan") by { Line5Lows(); Absent(Line5, Low5, "tan", 2); }
    Line2NoTan();
    NoneAmong(TanScan, Line1, Line2, Line3, Line4, Line5);
  }

  /** The fallback: the third line reads "Tasso Fisso" and gives 3.50%. */
  lemma Line3Tasso()
    ensures MatchesAt(Line3, 0, "tasso")
  {
    MatchesAtIff(Line3, 0, "tasso");
  }

  lemma Line3Fisso()
    ensures MatchesAt(Line3, 6, "fisso")
  {
    MatchesAtIff(Line3, 6, "fisso");
  }

  lemma Line3Phrase()
    ensures PhraseAt(Line3, 0, "tasso", "fisso")
  {
    Line3Tasso();
    RunIs(Line3, 5, Space, 1);
    Line3Fisso();
  }

  lemma Line3Shape()
    ensures Line3 == "Tasso Fisso: " + ("3,50" + "%") && "3,50" == "3" + [','] + "50"
    ensures forall c | c in "Tasso Fisso: " :: !IsDigit(c)
  {
  }

  lemma Line3Percent()
    ensures FindPercent(Line3) == Some(3.5)
  {
    Line3Shape();
    PercentLine(Line3, "Tasso Fisso: ", "3", "50", "3,50");
    ReadsRate();
  }

  /** A line speaking of a fixed rate anchors the fallback. */
  lemma FixedRateAnchors(line: string, p: nat)
    requires p < |line| && PhraseAt(line, p, "tasso", "fisso")
    ensures Anchored(TanFallbackScan, line)
  {
    TestAt(Phrase("tasso", "fisso"), line, p);
  }

  lemma Line3Anchored()
    ensures Anchored(TanFallbackScan, Line3)
  {
    Line3Phrase();
    FixedRateAnchors(Line3, 0);
  }

  lemma TanFallbackProbe()
    ensures Probe(TanFallbackScan, Line3) == Some(3.5)
  {
    Line3Anchored();
    Line3Percent();
    ProbeReads(TanFallbackScan, Line3, 3.5);
  }

  lemma TanFallbackFound()
    ensures FirstHit(TanFallbackScan, OfferLines) == Some(3.5)
  {
    assert !Mentions(Line1, "tasso") by { Line1Lows(); Absent(Line1, Low1, "tasso", 1); }
    assert !Mentions(Line2, "tasso") by { Line2Lows(); Absent(Line2, Low2, "tasso", 2); }
    TanFallbackProbe();
    HitAmong(TanFallbackScan, Line1, Line2, Line3, Line4, Line5, 2, 3.5);
  }

  /** The TAEG: the fourth line names it as a word and gives 3.66%. */
  lemma Line4Taeg()
    ensures WholeWordAt(Line4, 0, "taeg")
  {
    MatchesAtIff(Line4, 0, "taeg");
    assert Line4[4] == ':';
  }

  lemma ReadsRate()
    ensures NumberInput("3,50") && ParseItalianNumber("3,50") == 3.5
  {
    ReadsDecimals();
  }

  lemma SixtySix()
    ensures "3" + "," + "66" == "3,66" && DigitText("3") && DigitText("66")
    ensures DigitsValue("3") == 3 && Fraction("66") == 0.66
  {
  }

  lemma Reads366()
    ensures NumberInput("3,66") && ParseItalianNumber("3,66") == 3.66
  {
    SixtySix();
    ReadCommaOnly("3", "66");
  }

  lemma Line4Shape()
    ensures Line4 == "TAEG: " + ("3,66" + "%") && "3,66" == "3" + [','] + "66"
    ensures forall c | c in "TAEG: " :: !IsDigit(c)
  {
  }

  lemma Line4Percent()
    ensures FindPercent(Line4) == Some(3.66)
  {
    Line4Shape();
    PercentLine(Line4, "TAEG: ", "3", "66", "3,66");
    Reads366();
  }

  lemma TaegProbe()
    ensures Probe(TaegScan, Line4) == Some(3.66)
  {
    Line4Taeg();
    TestAt(WholeWord("taeg"), Line4, 0);
    Line4Percent();
    ProbeReads(TaegScan, Line4, 3.66);
  }

  lemma TaegFound()
    ensures FirstHit(TaegScan, OfferLines) == Some(3.66)
  {
    assert !Mentions(Line1, "taeg") by { Line1Lows(); Absent(Line1, Low1, "taeg", 3); }
    assert !Mentions(Line2, "taeg") by { Line2Lows(); Absent(Line2, Low2, "taeg", 3); }
    assert !Mentions(Line3, "taeg") by { Line3Lows(); Absent(Line3, Low3, "taeg", 3); }
    TaegProbe();
    HitAmong(TaegScan, Line1, Line2, Line3, Line4, Line5, 3, 3.66);
  }

  /** No line names the spread. */
  lemma SpreadMissing()
    ensures FirstHit(SpreadScan, OfferLines).None?
  {
    assert !Mentions(Line1, "spread") by { Line1Lows(); Absent(Line1, Low1, "spread", 0); }
    assert !Mentions(Line2, "spread") by { Line2Lows(); Absent(Line2, Low2, "spread", 0); }
    assert !Mentions(Line3, "spread") by { Line3Lows(); Absent(Line3, Low3, "spread", 1); }
    assert !Mentions(Line4, "spread") by { Line4Lows(); Absent(Line4, Low4, "spread", 0); }
    assert !Mentions(Line5, "spread") by { Line5Lows(); Absent(Line5, Low5, "spread", 1); }
    NoneAmong(SpreadScan, Line1, Line2, Line3, Line4, Line5);
  }

  /** The processing fee: the fifth line gives 600 after the euro sign. */
  lemma Line5Istruttoria()
    ensures MatchesAt(Line5, 0, "istruttoria")
  {
    MatchesAtIff(Line5, 0, "istruttoria");
  }

  lemma Line5Euro()
    ensures FindEuro(Line5) == Some(600.0)
  {
    assert Line5 == "Istruttoria: " + ("€" + " " + "600,00" + "");
    FindEuroAfterSign("Istruttoria: ", " ", "600,00", "");
    Reads600();
  }

  lemma IstruttoriaProbe()
    ensures Probe(IstruttoriaScan, Line5) == Some(600.0)
  {
    Line5Istruttoria();
    TestAt(Keyword("istruttoria"), Line5, 0);
    Line5Euro();
    ProbeReads(IstruttoriaScan, Line5, 600.0);
  }

  lemma IstruttoriaFound()
    ensures FirstHit(IstruttoriaScan, OfferLines) == Some(600.0)
  {
    assert !Mentions(Line1, "istruttoria") by { Line1Lows(); Absent(Line1, Low1, "istruttoria", 1); }
    assert !Mentions(Line2, "istruttoria") by { Line2Lows(); Absent(Line2, Low2, "istruttoria", 1); }
    assert !Mentions(Line3, "istruttoria") by { Line3Lows(); Absent(Line3, Low3, "istruttoria", 4); }
    assert !Mentions(Line4, "istruttoria") by { Line4Lows(); Absent(Line4, Low4, "istruttoria", 1); }
    IstruttoriaProbe();
    HitAmong(IstruttoriaScan, Line1, Line2, Line3, Line4, Line5, 4, 600.0);
  }

  /** No line names the survey, the substitute tax or the insurance. */
  lemma PeriziaMissing()
    ensures FirstHit(PeriziaScan, OfferLines).None?
  {
    assert !Mentions(Line1, "perizia") by { Line1Lows(); Absent(Line1, Low1, "perizia", 1); }
    assert !Mentions(Line2, "perizia") by { Line2Lows(); Absent(Line2, Low2, "perizia", 0); }
    assert !Mentions(Line3, "perizia") by { Line3Lows(); Absent(Line3, Low3, "perizia", 0); }
    assert !Mentions(Line4, "perizia") by { Line4Lows(); Absent(Line4, Low4, "perizia", 0); }
    assert !Mentions(Line5, "perizia") by { Line5Lows(); Absent(Line5, Low5, "perizia", 0); }
    NoneAmong(PeriziaScan, Line1, Line2, Line3, Line4, Line5);
  }

  lemma ImpostaMissing()
    ensures FirstHit(ImpostaScan, OfferLines).None?
  {
    assert !Mentions(Line1, "imposta") by { Line1Lows(); Absent(Line1, Low1, "imposta", 4); }
    assert !Mentions(Line2, "imposta") by { Line2Lows(); Absent(Line2, Low2, "imposta", 2); }
    assert !Mentions(Line3, "imposta") by { Line3Lows(); Absent(Line3, Low3, "imposta", 2); }
    assert !Mentions(Line4, "imposta") by { Line4Lows(); Absent(Line4, Low4, "imposta", 2); }
    assert !Mentions(Line5, "imposta") by { Line5Lows(); Absent(Line5, Low5, "imposta", 2); }
    NoneAmong(ImpostaScan, Line1, Line2, Line3, Line4, Line5);
  }

  lemma InsuranceMissing()
    ensures InsuranceCost(OfferLines).None?
  {
    assert !Mentions(Line1, "assicurazion") by { Line1Lows(); Absent(Line1, Low1, "assicurazion", 1); }
    assert !Mentions(Line2, "assicurazion") by { Line2Lows(); Absent(Line2, Low2, "assicurazion", 1); }
    assert !Mentions(Line3, "assicurazion") by { Line3Lows(); Absent(Line3, Low3, "assicurazion", 4); }
    assert !Mentions(Line4, "assicurazion") by { Line4Lows(); Absent(Line4, Low4, "assicurazion", 1); }
    assert !Mentions(Line5, "assicurazion") by { Line5Lows(); Absent(Line5, Low5, "assicurazion", 4); }
    NoInsuranceAmong(Line1, Line2, Line3, Line4, Line5);
  }

  // ---------------------------------------------------------------------------
  // Notes

  /** A line whose first letters start none of the note keywords is no heading. */
  lemma NoHeadingStart(line: string)
    requires |line| >= 2
    requires Lower(line[0]) !in {'f', 'g', 'p', 'n', 'a', 's', 'c'}
    requires Lower(line[0]) == 'd' ==> Lower(line[1]) != 'e'
    ensures !IsHeading(line)
  {
    var keys := NoteKeywords;
    forall i | 0 <= i < |keys| ensures !MatchesAt(line, 0, keys[i]) {
      MatchesAtIff(line, 0, keys[i]);
    }
    var k := 0;
    while k < |keys|
      invariant k <= |keys|
      invariant StartsWithAny(line, keys) == StartsWithAny(line, keys[k..])
    {
      assert keys[k..][1..] == keys[k + 1..];
      k := k + 1;
    }
  }

  /** A text without a minus sign states no discount. */
  lemma NoDashNoDiscount(text: string)
    requires Lacks(text, '-')
    ensures NoSpanBefore(text, |text|)
  {
    forall q: nat, e: nat | q < |text| && e <= |text| ensures !DiscountSpan(text, q, e) {
      assert text[q] in text;
    }
  }

  lemma NoHeadingAmong(l1: string, l2: string, l3: string, l4: string, l5: string)
    requires !IsHeading(l1) && !IsHeading(l2) && !IsHeading(l3) && !IsHeading(l4) && !IsHeading(l5)
    ensures SectionNotes([l1, l2, l3, l4, l5]) == []
  {
    var lines := [l1, l2, l3, l4, l5];
    forall k | 0 <= k < |lines| ensures !IsHeading(lines[k]) {
    }
    NoHeadingNoNotes(lines);
  }

  /** No line of the offer opens a section. */
  lemma NoSections()
    ensures SectionNotes(OfferLines) == []
  {
    NoHeadingStart(Line1);
    NoHeadingStart(Line2);
    NoHeadingStart(Line3);
    NoHeadingStart(Line4);
    NoHeadingStart(Line5);
    NoHeadingAmong(Line1, Line2, Line3, Line4, Line5);
  }

  lemma OfferLacksDash()
    ensures Lacks(OfferText, '-')
  {
    assert Lacks(Line1, '-') by { Line1Lows(); LacksByLows(Line1, Low1, '-'); }
    assert Lacks(Line2, '-') by { Line2Lows(); LacksByLows(Line2, Low2, '-'); }
    assert Lacks(Line3, '-') by { Line3Lows(); LacksByLows(Line3, Low3, '-'); }
    assert Lacks(Line4, '-') by { Line4Lows(); LacksByLows(Line4, Low4, '-'); }
    assert Lacks(Line5, '-') by { Line5Lows(); LacksByLows(Line5, Low5, '-'); }
    LacksFive(Line1, Line2, Line3, Line4, Line5, '-');
  }

  /** The offer states no green discount. */
  lemma NoGreenNote()
    ensures GreenNote(OfferText).None?
  {
    OfferLacksDash();
    NoDashNoDiscount(OfferText);
  }

  /** The offer has no notes at all. */
  lemma NoNotes()
    ensures Truncate(AllNotes(OfferText)) == []
  {
    OfferSplit();
    NoSections();
    NoGreenNote();
    assert AllNotes(OfferText) == [];
  }

  // ---------------------------------------------------------------------------
  // The whole parse

  /** The scans of any lines, one per field in rank order. */
  lemma ExtractionsShape(lines: seq<string>)
    ensures Extractions(lines) == [
      ExtractAt(0, lines), ExtractAt(1, lines), ExtractAt(2, lines), ExtractAt(3, lines),
      ExtractAt(4, lines), ExtractAt(5, lines), ExtractAt(6, lines), ExtractAt(7, lines),
      ExtractAt(8, lines)]
  {
    var xs := Extractions(lines);
    NineInARow(xs, xs[0], xs[1], xs[2], xs[3], xs[4], xs[5], xs[6], xs[7], xs[8]);
  }

  /** A sequence of nine is the display of its elements. */
  lemma NineInARow<T>(s: seq<T>, a: T, b: T, c: T, d: T, e: T, f: T, g: T, h: T, i: T)
    requires |s| == 9
    requires s[0] == a && s[1] == b && s[2] == c && s[3] == d && s[4] == e
    requires s[5] == f && s[6] == g && s[7] == h && s[8] == i
    ensures s == [a, b, c, d, e, f, g, h, i]
  {
  }

  /** A plain scan's extraction holds its first hit; the TAN's holds the fallback's when the
      TAN line is missing; the insurance's holds the insurance cost. */
  lemma ExtractPlain(i: nat, lines: seq<string>)
    requires i < 9 && i != 2 && i != 8
    ensures ExtractAt(i, lines) == Extracted(FieldAt(i), FirstHit(ScanAt(i), lines), false)
  {
  }

  lemma ExtractTanFallback(lines: seq<string>, tan: real)
    requires FirstHit(TanScan, lines).None? && FirstHit(TanFallbackScan, lines) == Some(tan)
    ensures ExtractAt(2, lines) == Extracted(Tan, Some(tan), true)
  {
  }

  lemma ExtractInsurance(lines: seq<string>)
    ensures ExtractAt(8, lines) == Extracted(CostoAssicurazione, InsuranceCost(lines), false)
  {
  }

  /** What the scans of the offer find. */
  const OfferExtracted: seq<Extracted> := [
    Extracted(Importo, Some(180000.0), false), Extracted(DurataAnni, Some(30.0), false),
    Extracted(Tan, Some(3.5), true), Extracted(Taeg, Some(3.66), false),
    Extracted(Spread, None, false), Extracted(SpeseIstruttoria, Some(600.0), false),
    Extracted(SpesePerizia, None, false), Extracted(SpeseNotarili, None, false),
    Extracted(CostoAssicurazione, None, false)]

  lemma OfferScans()
    ensures Extractions(OfferLines) == OfferExtracted
  {
    ExtractionsShape(OfferLines);
    ImportoFound();
    ExtractPlain(0, OfferLines);
    DurataFound();
    ExtractPlain(1, OfferLines);
    TanMissing();
    TanFallbackFound();
    ExtractTanFallback(OfferLines, 3.5);
    TaegFound();
    ExtractPlain(3, OfferLines);
    SpreadMissing();
    ExtractPlain(4, OfferLines);
    IstruttoriaFound();
    ExtractPlain(5, OfferLines);
    PeriziaMissing();
    ExtractPlain(6, OfferLines);
    ImpostaMissing();
    ExtractPlain(7, OfferLines);
    InsuranceMissing();
    ExtractInsurance(OfferLines);
  }

  /** The values and diagnostics of those scans. */
  lemma OfferRanked()
    ensures Ranked(OfferExtracted)
  {
  }

  lemma OfferValues()
    requires Ranked(OfferExtracted)
    ensures ValuesOf(OfferExtracted) ==
      map[Importo := 180000.0, DurataAnni := 30.0, Tan := 3.5, Taeg := 3.66, SpeseIstruttoria := 600.0]
  {
    RankedDistinct(OfferExtracted);
    var xs := OfferExtracted;
    var m := ValuesOf(xs);
    var expected :=
      map[Importo := 180000.0, DurataAnni := 30.0, Tan := 3.5, Taeg := 3.66, SpeseIstruttoria := 600.0];
    forall i | 0 <= i < |xs| && xs[i].value.Some?
      ensures xs[i].field in expected && expected[xs[i].field] == xs[i].value.value
    {
      assert i in {0, 1, 2, 3, 5};
    }
    forall f | f in expected ensures f in m && m[f] == expected[f] {
      var i := if f == Importo then 0 else if f == DurataAnni then 1 else if f == Tan then 2
               else if f == Taeg then 3 else 5;
      assert xs[i].field == f && xs[i].value.Some?;
    }
    assert m.Keys == expected.Keys;
  }

  lemma OfferFound()
    ensures FoundOf(OfferExtracted) == [
      FieldFound(Importo, 180000.0, false), FieldFound(DurataAnni, 30.0, false),
      FieldFound(Tan, 3.5, true), FieldFound(Taeg, 3.66, false),
      FieldFound(SpeseIstruttoria, 600.0, false)]
  {
  }

  /** The parse of a text whose rate type, scans and notes are known. */
  lemma ParseOf(text: string, t: RateType, xs: seq<Extracted>, values: map<NumField, real>,
                found: seq<Diagnostic>, notes: seq<string>)
    requires RateTypeOf(text) == Some(t) && Extractions(Lines(text)) == xs && Ranked(xs)
    requires ValuesOf(xs) == values && FoundOf(xs) == found && Truncate(AllNotes(text)) == notes
    ensures ParseMutuoText(text) == ParseResult(PartialForm(Some(t), values), notes, [RateTypeFound(t)] + found)
  {
  }

  lemma SixInARow<T>(a: T, b: T, c: T, d: T, e: T, f: T)
    ensures [a] + [b, c, d, e, f] == [a, b, c, d, e, f]
  {
  }

  /** `parseMutuoText` on the offer: a fixed rate, the amount, the duration, the TAN read from
      the "Tasso Fisso" line because no line names the TAN, the TAEG and the processing fee,
      six diagnostics, and no notes. */
  lemma ParsesOffer()
    ensures ParseMutuoText(OfferText) == ParseResult(
      PartialForm(Some(Fisso),
        map[Importo := 180000.0, DurataAnni := 30.0, Tan := 3.5, Taeg := 3.66, SpeseIstruttoria := 600.0]),
      [],
      [RateTypeFound(Fisso),
       FieldFound(Importo, 180000.0, false), FieldFound(DurataAnni, 30.0, false),
       FieldFound(Tan, 3.5, true), FieldFound(Taeg, 3.66, false),
       FieldFound(SpeseIstruttoria, 600.0, false)])
  {
    OfferSplit();
    OfferIsFixed();
    OfferScans();
    OfferRanked();
    OfferValues();
    OfferFound();
    NoNotes();
    ParseOf(OfferText, Fisso, OfferExtracted,
      map[Importo := 180000.0, DurataAnni := 30.0, Tan := 3.5, Taeg := 3.66, SpeseIstruttoria := 600.0],
      [FieldFound(Importo, 180000.0, false), FieldFound(DurataAnni, 30.0, false),
       FieldFound(Tan, 3.5, true), FieldFound(Taeg, 3.66, false),
       FieldFound(SpeseIstruttoria, 600.0, false)],
      []);
    SixInARow(RateTypeFound(Fisso),
      FieldFound(Importo, 180000.0, false), FieldFound(DurataAnni, 30.0, false),
      FieldFound(Tan, 3.5, true), FieldFound(Taeg, 3.66, false),
      FieldFound(SpeseIstruttoria, 600.0, false));
  }
}
