/** `parseMutuoText` (frontend/src/utils/parser.ts): from the text of a mortgage offer pasted
    from a comparison site, a partial form, the notes worth keeping and the list of what was
    recognised. */
module Parser {
  import opened Wrappers
  import opened Text
  import opened Regex
  import opened Fields
  import opened Notes

  // ---------------------------------------------------------------------------
  // Lines

  /** The trimmed pieces of `parts` that are not blank, in order. */
  function NonBlank(parts: seq<string>): (lines: seq<string>)
    ensures |lines| <= |parts|
    ensures forall k | 0 <= k < |lines| ::
      |lines[k]| > 0 && !IsSpace(lines[k][0]) && !IsSpace(lines[k][|lines[k]| - 1])
  {
    if |parts| == 0 then []
    else
      var rest := NonBlank(parts[1..]);
      var t := Trim(parts[0]);
      if |t| == 0 then rest
      else
        TrimmedCons(t, rest);
        [t] + rest
  }

  /** A trimmed, non-empty line in front of such lines keeps them all so. */
  lemma TrimmedCons(t: string, rest: seq<string>)
    requires |t| > 0 && !IsSpace(t[0]) && !IsSpace(t[|t| - 1])
    requires forall k | 0 <= k < |rest| ::
      |rest[k]| > 0 && !IsSpace(rest[k][0]) && !IsSpace(rest[k][|rest[k]| - 1])
    ensures forall k | 0 <= k < |[t] + rest| ::
      |([t] + rest)[k]| > 0 && !IsSpace(([t] + rest)[k][0]) && !IsSpace(([t] + rest)[k][|([t] + rest)[k]| - 1])
  {
    forall k | 1 <= k < |rest| + 1 ensures ([t] + rest)[k] == rest[k - 1] {
    }
  }

  /** `text.split(/\n/).map(l => l.trim()).filter(Boolean)`. */
  function Lines(text: string): (lines: seq<string>)
    ensures forall k | 0 <= k < |lines| ::
      |lines[k]| > 0 && !IsSpace(lines[k][0]) && !IsSpace(lines[k][|lines[k]| - 1])
  {
    NonBlank(Split(text, '\n'))
  }

  lemma NonBlankCons(part: string, rest: seq<string>)
    ensures NonBlank([part] + rest) == NonBlank([part]) + NonBlank(rest)
  {
    var t := Trim(part);
    var xs := [part] + rest;
    assert xs[0] == part;
    assert xs[1..] == rest;
    assert [part][1..] == [];
    if |t| == 0 {
      assert NonBlank([part]) == [];
    } else {
      assert NonBlank([part]) == [t];
    }
  }

  /** A text without a line break is one line: none when it is blank, else its trim. */
  lemma LinesOfLine(t: string)
    requires '\n' !in t
    ensures Lines(t) == if AllSpace(t) then [] else [Trim(t)]
  {
    assert Split(t, '\n') == [t];
    NonBlankCons(t, []);
  }

  /** The lines of a text are the lines of its first line, then those of the rest. */
  lemma LinesCons(a: string, b: string)
    requires '\n' !in a
    ensures Lines(a + "\n" + b) == Lines(a) + Lines(b)
  {
    var s := a + "\n" + b;
    assert s == a + ['\n'] + b;
    IndexOfJoined(a, '\n', b);
    SplitAt(s, '\n');
    assert s[..|a|] == a;
    assert s[|a| + 1..] == b;
    NonBlankCons(a, Split(b, '\n'));
    LinesOfLine(a);
    assert Split(a, '\n') == [a];
  }

  /** No line holds a line break. */
  lemma LinesUnbroken(text: string)
    ensures forall k | 0 <= k < |Lines(text)| :: '\n' !in Lines(text)[k]
  {
    NonBlankChars(Split(text, '\n'), '\n');
  }

  /** Every line is a trimmed piece of its input, so holds no character the input lacks. */
  lemma {:induction false} NonBlankChars(parts: seq<string>, c: char)
    requires forall k | 0 <= k < |parts| :: c !in parts[k]
    ensures forall k | 0 <= k < |NonBlank(parts)| :: c !in NonBlank(parts)[k]
  {
    if |parts| > 0 {
      NonBlankChars(parts[1..], c);
      TrimWithin(parts[0], c);
    }
  }

  lemma TrimWithin(s: string, c: char)
    requires c !in s
    ensures c !in Trim(s)
  {
    var t := Trim(s);
    var i :| 0 <= i <= |s| - |t| && t == s[i..i + |t|];
    forall j | 0 <= j < |t| ensures t[j] != c {
      assert t[j] == s[i + j];
    }
  }

  /** The pieces of a joined list hold only characters of the whole. */
  lemma {:induction false} PiecesWithin(parts: seq<string>, sep: string, k: nat, c: char)
    requires k < |parts| && c in parts[k]
    ensures c in Join(parts, sep)
  {
    if |parts| > 1 {
      var j := Join(parts, sep);
      assert j == parts[0] + sep + Join(parts[1..], sep);
      if k == 0 {
        var i :| 0 <= i < |parts[0]| && parts[0][i] == c;
        assert j[i] == c;
      } else {
        PiecesWithin(parts[1..], sep, k - 1, c);
        var rest := Join(parts[1..], sep);
        var i :| 0 <= i < |rest| && rest[i] == c;
        assert j[|parts[0]| + |sep| + i] == c;
      }
    }
  }

  lemma {:induction false} NonBlankOfBlank(parts: seq<string>)
    requires forall k | 0 <= k < |parts| :: AllSpace(parts[k])
    ensures NonBlank(parts) == []
  {
    if |parts| > 0 {
      NonBlankOfBlank(parts[1..]);
    }
  }

  /** A blank text has no lines. */
  lemma BlankHasNoLines(text: string)
    requires AllSpace(text)
    ensures Lines(text) == []
  {
    var parts := Split(text, '\n');
    forall k | 0 <= k < |parts| ensures AllSpace(parts[k]) {
      forall c | c in parts[k] ensures IsSpace(c) {
        PiecesWithin(parts, ['\n'], k, c);
      }
    }
    NonBlankOfBlank(parts);
  }

  // ---------------------------------------------------------------------------
  // Results

  /** `Partial<MutuoForm>` as the parser fills it: the rate type and the numeric fields set. */
  datatype PartialForm = PartialForm(tipoTasso: Option<RateType>, values: map<NumField, real>)

  /** One entry of `campiTrovati`, the list of what was recognised; the source words each
      entry as text, the model keeps what the text reports. */
  datatype Diagnostic =
    | RateTypeFound(rate: RateType)
    | FieldFound(field: NumField, value: real, viaFallback: bool)

  datatype ParseResult = ParseResult(form: PartialForm, noteParts: seq<string>, found: seq<Diagnostic>)

  /** The outcome of one field's scan. */
  datatype Extracted = Extracted(field: NumField, value: Option<real>, viaFallback: bool)

  /** The TAN: from a line naming it, otherwise from a "tasso fisso/variabile/finito" line. */
  function TanExtraction(lines: seq<string>): (x: Extracted)
    ensures x.field == Tan
    ensures FirstHit(TanScan, lines).Some? ==> x == Extracted(Tan, FirstHit(TanScan, lines), false)
    ensures FirstHit(TanScan, lines).None? ==> x.value == FirstHit(TanFallbackScan, lines)
    ensures x.viaFallback <==> FirstHit(TanScan, lines).None? && FirstHit(TanFallbackScan, lines).Some?
  {
    match FirstHit(TanScan, lines)
    case Some(v) => Extracted(Tan, Some(v), false)
    case None =>
      var fallback := FirstHit(TanFallbackScan, lines);
      Extracted(Tan, fallback, fallback.Some?)
  }

  /** The position of a field among the scans, and -1 for the fields the parser never sets. */
  function Rank(f: NumField): int {
    match f
    case Importo => 0
    case DurataAnni => 1
    case Tan => 2
    case Taeg => 3
    case Spread => 4
    case SpeseIstruttoria => 5
    case SpesePerizia => 6
    case SpeseNotarili => 7
    case CostoAssicurazione => 8
    case _ => -1
  }

  /** The field of rank `i`. */
  function FieldAt(i: nat): (f: NumField)
    requires i < 9
    ensures Rank(f) == i
  {
    [Importo, DurataAnni, Tan, Taeg, Spread, SpeseIstruttoria, SpesePerizia, SpeseNotarili,
     CostoAssicurazione][i]
  }

  /** The plain first-hit scan of the field of rank `i`; the TAN and the insurance cost,
      ranks 2 and 8, have scans of their own. */
  function ScanAt(i: nat): (scan: Scan)
    requires i < 9 && i != 2 && i != 8
    ensures scan.Target() == FieldAt(i)
  {
    [ImportoScan, DurataScan, TanScan, TaegScan, SpreadScan, IstruttoriaScan, PeriziaScan,
     ImpostaScan][i]
  }

  /** The value the scan of the field of rank `i` finds. */
  function ValueAt(i: nat, lines: seq<string>): Option<real>
    requires i < 9
  {
    if i == 2 then TanExtraction(lines).value
    else if i == 8 then InsuranceCost(lines)
    else FirstHit(ScanAt(i), lines)
  }

  /** The scan of the field of rank `i`. */
  function ExtractAt(i: nat, lines: seq<string>): (x: Extracted)
    requires i < 9
    ensures Rank(x.field) == i
    ensures x.viaFallback ==> x.field == Tan
  {
    Extracted(FieldAt(i), ValueAt(i, lines), i == 2 && TanExtraction(lines).viaFallback)
  }

  /** The scans of all the fields, in the order the source runs them. */
  function Extractions(lines: seq<string>): (xs: seq<Extracted>)
    ensures |xs| == 9
    ensures forall i | 0 <= i < |xs| :: xs[i] == ExtractAt(i, lines)
  {
    seq(9, i requires 0 <= i < 9 => ExtractAt(i, lines))
  }

  predicate DistinctFields(xs: seq<Extracted>) {
    forall i, j | 0 <= i < j < |xs| :: xs[i].field != xs[j].field
  }

  /** Every diagnostic reports an extraction that found a value, and every extraction that
      found one is reported. */
  lemma {:induction false} FoundOfSpec(xs: seq<Extracted>)
    ensures forall d | d in FoundOf(xs) :: d.FieldFound? && exists i | 0 <= i < |xs| ::
      xs[i] == Extracted(d.field, Some(d.value), d.viaFallback)
    ensures forall i | 0 <= i < |xs| && xs[i].value.Some? ::
      FieldFound(xs[i].field, xs[i].value.value, xs[i].viaFallback) in FoundOf(xs)
    ensures (forall i | 0 <= i < |xs| :: xs[i].value.None?) ==> FoundOf(xs) == []
  {
    if |xs| > 0 {
      FoundOfSpec(xs[1..]);
      assert forall i | 1 <= i < |xs| :: xs[i] == xs[1..][i - 1];
    }
  }

  /** The fields the scans set, with their values. */
  function ValuesOf(xs: seq<Extracted>): (m: map<NumField, real>)
    requires DistinctFields(xs)
    ensures forall f :: f in m <==> exists i | 0 <= i < |xs| :: xs[i].field == f && xs[i].value.Some?
    ensures forall i | 0 <= i < |xs| && xs[i].value.Some? :: m[xs[i].field] == xs[i].value.value
  {
    if |xs| == 0 then map[]
    else
      var last := xs[|xs| - 1];
      var m := ValuesOf(xs[..|xs| - 1]);
      if last.value.Some? then m[last.field := last.value.value] else m
  }

  /** One diagnostic per field set, in the order of the scans. */
  function FoundOf(xs: seq<Extracted>): (ds: seq<Diagnostic>)
    ensures |ds| <= |xs|
    ensures forall k | 0 <= k < |ds| :: ds[k].FieldFound?
  {
    if |xs| == 0 then []
    else
      var rest := FoundOf(xs[1..]);
      match xs[0].value
      case Some(v) => [FieldFound(xs[0].field, v, xs[0].viaFallback)] + rest
      case None => rest
  }

  /** Diagnostics only report fields of rank above a bound all extractions respect. */
  lemma {:induction false} FoundOfAbove(xs: seq<Extracted>, lo: int)
    requires forall i | 0 <= i < |xs| :: lo < Rank(xs[i].field)
    ensures forall j | 0 <= j < |FoundOf(xs)| :: lo < Rank(FoundOf(xs)[j].field)
  {
    if |xs| > 0 {
      FoundOfAbove(xs[1..], lo);
    }
  }

  /** Diagnostics for extractions of consecutive ranks come out in increasing rank. */
  lemma {:induction false} FoundOfOrdered(xs: seq<Extracted>, base: int)
    requires forall i | 0 <= i < |xs| :: Rank(xs[i].field) == base + i
    ensures forall i, j | 0 <= i < j < |FoundOf(xs)| :: Rank(FoundOf(xs)[i].field) < Rank(FoundOf(xs)[j].field)
  {
    if |xs| > 0 {
      var tail := xs[1..];
      assert forall i | 0 <= i < |tail| :: tail[i] == xs[i + 1];
      FoundOfOrdered(tail, base + 1);
      FoundOfAbove(tail, base);
      var rest := FoundOf(tail);
      if xs[0].value.Some? {
        var ds := [FieldFound(xs[0].field, xs[0].value.value, xs[0].viaFallback)] + rest;
        assert FoundOf(xs) == ds;
        assert forall j | 1 <= j < |ds| :: ds[j] == rest[j - 1];
      }
    }
  }

  /** The diagnostics of one more extraction come after those of the ones before it. */
  lemma {:induction false} FoundOfSnoc(init: seq<Extracted>, x: Extracted)
    ensures FoundOf(init + [x]) == FoundOf(init) + FoundOf([x])
  {
    if |init| == 0 {
      assert init + [x] == [x];
    } else {
      assert (init + [x])[0] == init[0];
      assert (init + [x])[1..] == init[1..] + [x];
      FoundOfSnoc(init[1..], x);
    }
  }

  /** One diagnostic per field set. */
  lemma {:induction false} FoundValuesCount(xs: seq<Extracted>)
    requires DistinctFields(xs)
    ensures |FoundOf(xs)| == |ValuesOf(xs)|
  {
    if |xs| > 0 {
      var init := xs[..|xs| - 1];
      var last := xs[|xs| - 1];
      assert xs == init + [last];
      assert DistinctFields(init) by {
        forall i, j | 0 <= i < j < |init| ensures init[i].field != init[j].field {
          assert init[i] == xs[i] && init[j] == xs[j];
        }
      }
      FoundValuesCount(init);
      FoundOfSnoc(init, last);
      var m := ValuesOf(init);
      if last.value.Some? {
        assert last.field !in m;
        assert FoundOf([last]) == [FieldFound(last.field, last.value.value, last.viaFallback)];
      } else {
        assert FoundOf([last]) == [];
      }
    }
  }

  /** The diagnostics of a parse: the rate type's, when it is set, then those of the fields. */
  function Diagnostics(tipo: Option<RateType>, xs: seq<Extracted>): seq<Diagnostic> {
    (match tipo case Some(t) => [RateTypeFound(t)] case None => []) + FoundOf(xs)
  }

  /** Diagnostics in the order of the scans: the rate type's first, exactly when the rate type
      is set, then the fields' in strictly increasing rank, so none twice. */
  predicate InScanOrder(ds: seq<Diagnostic>, tipo: Option<RateType>) {
    && (forall i | 0 <= i < |ds| :: ds[i].RateTypeFound? <==> i == 0 && tipo.Some?)
    && (forall i, j | 0 <= i < j < |ds| ::
          && ds[j].FieldFound?
          && (ds[i].FieldFound? ==> Rank(ds[i].field) < Rank(ds[j].field)))
  }

  /** One diagnostic per field set and one for the rate type, in the order of the scans. */
  lemma DiagnosticsOrdered(tipo: Option<RateType>, xs: seq<Extracted>)
    requires Ranked(xs)
    ensures DistinctFields(xs)
    ensures |Diagnostics(tipo, xs)| == |ValuesOf(xs)| + (if tipo.Some? then 1 else 0)
    ensures InScanOrder(Diagnostics(tipo, xs), tipo)
  {
    RankedDistinct(xs);
    FoundValuesCount(xs);
    FoundOfOrdered(xs, 0);
    HeadedInScanOrder(tipo, FoundOf(xs));
  }

  /** Field diagnostics in increasing rank, after the rate type's when it is set, are in the
      order of the scans. */
  lemma HeadedInScanOrder(tipo: Option<RateType>, fs: seq<Diagnostic>)
    requires forall k | 0 <= k < |fs| :: fs[k].FieldFound?
    requires forall i, j | 0 <= i < j < |fs| :: Rank(fs[i].field) < Rank(fs[j].field)
    ensures InScanOrder((match tipo case Some(t) => [RateTypeFound(t)] case None => []) + fs, tipo)
  {
    if tipo.Some? {
      var ds := [RateTypeFound(tipo.value)] + fs;
      assert forall i | 1 <= i < |ds| :: ds[i] == fs[i - 1];
    } else {
      assert [] + fs == fs;
    }
  }

  /** The notes before truncation: the section notes, then the green discount. */
  function AllNotes(text: string): (notes: seq<string>)
    ensures |notes| == |SectionNotes(Lines(text))| + (if GreenNote(text).Some? then 1 else 0)
    ensures notes[..|SectionNotes(Lines(text))|] == ContributionsFrom(Lines(text), 0)
    ensures GreenNote(text).Some? ==> notes[|notes| - 1] == GreenNote(text).value
  {
    SectionNotes(Lines(text)) + match GreenNote(text) case Some(g) => [g] case None => []
  }

  /** The extractions of a text, one per field in rank order. */
  predicate Ranked(xs: seq<Extracted>) {
    |xs| == 9 && forall i | 0 <= i < |xs| :: Rank(xs[i].field) == i
  }

  /** Extractions in rank order are for different fields. */
  lemma RankedDistinct(xs: seq<Extracted>)
    requires Ranked(xs)
    ensures DistinctFields(xs)
  {
    forall i, j | 0 <= i < j < |xs| ensures xs[i].field != xs[j].field {
      assert Rank(xs[i].field) != Rank(xs[j].field);
    }
  }

  /** The result from the rate type, the extractions and the notes: the form holds what was
      found, and the diagnostics report it. */
  function Assemble(tipo: Option<RateType>, xs: seq<Extracted>, notes: seq<string>): (r: ParseResult)
    requires Ranked(xs)
    ensures r.form.tipoTasso == tipo && r.noteParts == notes
    ensures forall t :: RateTypeFound(t) in r.found <==> tipo == Some(t)
    ensures forall i | 0 <= i < |xs| && xs[i].value.Some? ::
      xs[i].field in r.form.values && r.form.values[xs[i].field] == xs[i].value.value
    ensures forall f | f in r.form.values :: exists i | 0 <= i < |xs| ::
      xs[i].field == f && xs[i].value == Some(r.form.values[f])
      && FieldFound(f, r.form.values[f], xs[i].viaFallback) in r.found
    ensures forall d | d in r.found && d.FieldFound? :: exists i | 0 <= i < |xs| ::
      xs[i] == Extracted(d.field, Some(d.value), d.viaFallback)
      && d.field in r.form.values && r.form.values[d.field] == d.value
  {
    RankedDistinct(xs);
    FoundOfSpec(xs);
    var values := ValuesOf(xs);
    var found := (match tipo case Some(t) => [RateTypeFound(t)] case None => []) + FoundOf(xs);
    ParseResult(PartialForm(tipo, values), notes, found)
  }

  /** `parseMutuoText(text)`. */
  function ParseMutuoText(text: string): (r: ParseResult)
    // One diagnostic per field set, and one more for the rate type.
    ensures |r.found| == |r.form.values| + (if r.form.tipoTasso.Some? then 1 else 0)
  {
    DiagnosticsOrdered(RateTypeOf(text), Extractions(Lines(text)));
    Assemble(RateTypeOf(text), Extractions(Lines(text)), Truncate(AllNotes(text)))
  }

  /** The diagnostics follow the order of the scans: the rate type first, when it is set, and
      then the fields in the order they are scanned, none twice. */
  lemma ParsedOrder(text: string)
    ensures InScanOrder(ParseMutuoText(text).found, ParseMutuoText(text).form.tipoTasso)
  {
    var xs := Extractions(Lines(text));
    DiagnosticsOrdered(RateTypeOf(text), xs);
    assert ParseMutuoText(text).found == Diagnostics(RateTypeOf(text), xs);
  }

  /** What the parser reports agrees with what it sets: the rate type is reported exactly
      when it is set, every field set is reported with its value (flagged when the TAN came
      from the fallback), and every field reported is set with that value. */
  lemma ParsedReported(text: string)
    ensures forall t ::
      RateTypeFound(t) in ParseMutuoText(text).found <==> ParseMutuoText(text).form.tipoTasso == Some(t)
    ensures forall f | f in ParseMutuoText(text).form.values ::
      FieldFound(f, ParseMutuoText(text).form.values[f], f == Tan && ViaFallback(text))
        in ParseMutuoText(text).found
    ensures forall d | d in ParseMutuoText(text).found && d.FieldFound? ::
      d.field in ParseMutuoText(text).form.values && ParseMutuoText(text).form.values[d.field] == d.value
  {
    var lines := Lines(text);
    ExtractionFlags(lines);
    AssembleReported(RateTypeOf(text), Extractions(lines), Truncate(AllNotes(text)), ViaFallback(text));
  }

  /** Only the TAN's extraction can carry the fallback flag, and it carries the flag of the
      TAN scan. */
  lemma ExtractionFlags(lines: seq<string>)
    ensures forall i | 0 <= i < 9 ::
      Extractions(lines)[i].viaFallback == (Extractions(lines)[i].field == Tan && TanExtraction(lines).viaFallback)
  {
    var xs := Extractions(lines);
    forall i | 0 <= i < 9
      ensures xs[i].viaFallback == (xs[i].field == Tan && TanExtraction(lines).viaFallback)
    {
      assert xs[i] == ExtractAt(i, lines);
      if i == 2 {
        TanAt(lines);
      }
    }
  }

  lemma AssembleReported(tipo: Option<RateType>, xs: seq<Extracted>, notes: seq<string>, fallback: bool)
    requires Ranked(xs)
    requires forall i | 0 <= i < |xs| :: xs[i].viaFallback == (xs[i].field == Tan && fallback)
    ensures forall t :: RateTypeFound(t) in Assemble(tipo, xs, notes).found <==> tipo == Some(t)
    ensures forall f | f in Assemble(tipo, xs, notes).form.values ::
      FieldFound(f, Assemble(tipo, xs, notes).form.values[f], f == Tan && fallback) in Assemble(tipo, xs, notes).found
    ensures forall d | d in Assemble(tipo, xs, notes).found && d.FieldFound? ::
      && d.field in Assemble(tipo, xs, notes).form.values
      && Assemble(tipo, xs, notes).form.values[d.field] == d.value
  {
  }

  /** The TAN was taken from a "tasso fisso/variabile/finito" line. */
  predicate ViaFallback(text: string) {
    TanExtraction(Lines(text)).viaFallback
  }

  /** Only the TAN can come from the fallback. */
  lemma AssembleFallbackIsTan(tipo: Option<RateType>, lines: seq<string>, notes: seq<string>)
    ensures forall d | d in Assemble(tipo, Extractions(lines), notes).found && d.FieldFound? && d.viaFallback ::
      d.field == Tan
  {
    var xs := Extractions(lines);
    forall d | d in Assemble(tipo, xs, notes).found && d.FieldFound? && d.viaFallback
      ensures d.field == Tan
    {
      var i :| 0 <= i < |xs| && xs[i] == Extracted(d.field, Some(d.value), d.viaFallback);
      assert xs[i] == ExtractAt(i, lines);
    }
  }

  /** A field is set exactly when its scan finds a value, and then it holds that value. */
  lemma ParsedValue(text: string, i: nat)
    requires i < 9
    ensures FieldAt(i) in ParseMutuoText(text).form.values <==> ExtractAt(i, Lines(text)).value.Some?
    ensures FieldAt(i) in ParseMutuoText(text).form.values ==>
      ParseMutuoText(text).form.values[FieldAt(i)] == ExtractAt(i, Lines(text)).value.value
  {
    var xs := Extractions(Lines(text));
    assert xs[i] == ExtractAt(i, Lines(text));
    var r := ParseMutuoText(text);
    if FieldAt(i) in r.form.values {
      var j :| 0 <= j < |xs| && xs[j].field == FieldAt(i) && xs[j].value == Some(r.form.values[FieldAt(i)]);
      assert xs[j] == ExtractAt(j, Lines(text));
    }
  }

  /** A line naming the TAN always wins over the fallback. */
  lemma ParsedTanFirst(text: string)
    requires FirstHit(TanScan, Lines(text)).Some?
    ensures Tan in ParseMutuoText(text).form.values
    ensures ParseMutuoText(text).form.values[Tan] == FirstHit(TanScan, Lines(text)).value
    ensures !ViaFallback(text)
  {
    TanAt(Lines(text));
    ParsedValue(text, 2);
  }

  lemma TanAt(lines: seq<string>)
    ensures ExtractAt(2, lines) == TanExtraction(lines)
  {
  }

  /** The fallback is used only when no line naming the TAN gives a rate below 20%. */
  lemma FallbackOnlyWithoutTan(text: string)
    requires ViaFallback(text)
    ensures forall k | 0 <= k < |Lines(text)| :: Probe(TanScan, Lines(text)[k]).None?
  {
  }

  /** Only the TAN is ever reported as coming from the fallback. */
  lemma ParsedFallbackIsTan(text: string)
    ensures forall d | d in ParseMutuoText(text).found && d.FieldFound? && d.viaFallback :: d.field == Tan
  {
    AssembleFallbackIsTan(RateTypeOf(text), Lines(text), Truncate(AllNotes(text)));
  }

  /** Every value the parser sets lies in its field's range. */
  lemma ParsedInRange(text: string)
    ensures forall f | f in ParseMutuoText(text).form.values ::
      InRange(f, ParseMutuoText(text).form.values[f])
  {
    var lines := Lines(text);
    var xs := Extractions(lines);
    var r := Assemble(RateTypeOf(text), xs, Truncate(AllNotes(text)));
    assert ParseMutuoText(text) == r;
    forall f | f in r.form.values ensures InRange(f, r.form.values[f]) {
      var i :| 0 <= i < |xs| && xs[i].field == f && xs[i].value == Some(r.form.values[f]);
      ExtractAtInRange(i, lines);
    }
  }

  lemma AssembleScanned(tipo: Option<RateType>, xs: seq<Extracted>, notes: seq<string>)
    requires Ranked(xs)
    ensures forall f | f in Assemble(tipo, xs, notes).form.values :: Rank(f) >= 0
  {
    var r := Assemble(tipo, xs, notes);
    forall f | f in r.form.values ensures Rank(f) >= 0 {
      var i :| 0 <= i < |xs| && xs[i].field == f && xs[i].value == Some(r.form.values[f]);
    }
  }

  /** The parser sets only the nine fields it scans for (those of non-negative rank), never
      the property value or the other costs. */
  lemma ParsedFieldsScanned(text: string)
    ensures forall f | f in ParseMutuoText(text).form.values :: Rank(f) >= 0
  {
    AssembleScanned(RateTypeOf(text), Extractions(Lines(text)), Truncate(AllNotes(text)));
  }

  /** The notes returned are the first of all the notes collected, and fit the budget once
      joined. */
  lemma ParsedNotes(text: string)
    ensures ParseMutuoText(text).noteParts == AllNotes(text)[..|ParseMutuoText(text).noteParts|]
    ensures Utf16Len(Join(ParseMutuoText(text).noteParts, "\n")) <= NotesBudget
    ensures Utf16Len(Join(AllNotes(text), "\n")) <= NotesBudget ==>
      ParseMutuoText(text).noteParts == AllNotes(text)
    ensures Utf16Len(Join(AllNotes(text), "\n")) > NotesBudget ==>
      && |ParseMutuoText(text).noteParts| < |AllNotes(text)|
      && Cost(ParseMutuoText(text).noteParts) <= NotesBudget
      && Cost(ParseMutuoText(text).noteParts) + Utf16Len(AllNotes(text)[|ParseMutuoText(text).noteParts|]) + 1 > NotesBudget
  {
    var all := AllNotes(text);
    assert ParseMutuoText(text).noteParts == Truncate(all);
  }

  /** A value the first-hit scan takes lies in the range of the scan's field. */
  lemma FirstHitInRange(scan: Scan, lines: seq<string>)
    ensures FirstHit(scan, lines).Some? ==> InRange(scan.Target(), FirstHit(scan, lines).value)
  {
    if FirstHit(scan, lines).Some? {
      var k :| 0 <= k < |lines| && Probe(scan, lines[k]) == FirstHit(scan, lines);
      ProbeInRange(scan, lines[k]);
    }
  }

  /** Every value a scan takes lies in its field's range. */
  lemma ExtractAtInRange(i: nat, lines: seq<string>)
    requires i < 9
    ensures ExtractAt(i, lines).value.Some? ==>
      InRange(ExtractAt(i, lines).field, ExtractAt(i, lines).value.value)
  {
    if i == 2 {
      FirstHitInRange(TanScan, lines);
      FirstHitInRange(TanFallbackScan, lines);
    } else if i == 8 {
      FirstHitInRange(AssicurazioneScan, lines);
      InsuranceCostSpec(lines);
    } else {
      FirstHitInRange(ScanAt(i), lines);
    }
  }

  /** Without lines no field is found. */
  lemma NoLinesNoValues()
    ensures forall i | 0 <= i < 9 :: ExtractAt(i, []).value.None?
  {
    forall i | 0 <= i < 9 ensures ExtractAt(i, []).value.None? {
    }
  }

  /** The result when nothing is recognised. */
  const NothingFound := ParseResult(PartialForm(None, map[]), [], [])

  /** Extractions that found nothing give the empty result. */
  lemma AssembleNothing(xs: seq<Extracted>)
    requires Ranked(xs)
    requires forall i | 0 <= i < |xs| :: xs[i].value.None?
    ensures Assemble(None, xs, []) == NothingFound
  {
    FoundOfSpec(xs);
    var r := Assemble(None, xs, []);
    assert r.form.values == map[];
  }

  /** A blank text names no rate type. */
  lemma BlankRate(text: string)
    requires AllSpace(text)
    ensures RateTypeOf(text) == None
  {
    BlankMentionsNothing(text, "fisso");
    BlankMentionsNothing(text, "variabile");
    BlankMentionsNothing(text, "misto");
  }

  /** A blank text gives no note. */
  lemma BlankNotes(text: string)
    requires AllSpace(text)
    ensures AllNotes(text) == []
  {
    BlankHasNoLines(text);
    BlankNotGreen(text);
  }

  lemma BlankNotGreen(text: string)
    requires AllSpace(text)
    ensures !SpeaksGreen(text)
  {
    BlankMentionsNothing(text, "green");
    BlankMentionsNothing(text, "classe");
    KeywordIff(text, "green");
    PhraseNeedsFirst(text, "classe", "energetica");
  }

  /** Nothing is recognised in a blank text: no field, no rate type, no note. */
  lemma BlankTextGivesNothing(text: string)
    requires AllSpace(text)
    ensures ParseMutuoText(text) == NothingFound
  {
    BlankHasNoLines(text);
    BlankRate(text);
    BlankNotes(text);
    NoLinesNoValues();
    AssembleNothing(Extractions([]));
  }
}
