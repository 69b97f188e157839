/** `handleParse` of the offer form (frontend/src/components/MutuoForm.tsx): the fields
    recognised in a pasted text are merged into the form being edited, and the notes found
    are appended to the form's note. */
module FormMerge {
  import opened Wrappers
  import opened Text
  import opened Fields
  import opened Parser

  /** The offer form (`MutuoForm` in frontend/src/types/index.ts). A numeric field absent
      from `values` is undefined, which only the TAEG and the spread may be. */
  datatype MutuoForm = MutuoForm(
    banca: string,
    tipoTasso: RateType,
    values: map<NumField, real>,
    note: Option<string>)

  /** Every numeric field but the optional TAEG and spread has a value. */
  predicate WellFormed(form: MutuoForm) {
    forall f: NumField | f != Taeg && f != Spread :: f in form.values
  }

  /** The form a new offer starts from (`defaultForm`). */
  const DefaultForm := MutuoForm("", Fisso,
    map[Tan := 0.0, Importo := 0.0, ValoreImmobile := 0.0, DurataAnni := 25.0,
        SpeseIstruttoria := 0.0, SpesePerizia := 0.0, CostoAssicurazione := 0.0,
        SpeseNotarili := 0.0, AltreSpese := 0.0],
    Some(""))

  /** A new offer starts with every mandatory field set and no TAEG or spread, and an import
      into it keeps every mandatory field set. */
  lemma DefaultFormWellFormed(parsed: PartialForm, noteParts: seq<string>)
    ensures WellFormed(DefaultForm)
    ensures Taeg !in DefaultForm.values && Spread !in DefaultForm.values
    ensures WellFormed(MergeParsed(DefaultForm, parsed, noteParts))
  {
  }

  /** A value the merge copies: `value !== undefined && value !== 0`. */
  predicate Overrides(parsed: PartialForm, f: NumField) {
    f in parsed.values && parsed.values[f] != 0.0
  }

  /** A note counts only when it is a non-empty string. */
  predicate HasNote(form: MutuoForm) {
    form.note.Some? && |form.note.value| > 0
  }

  /** The text the notes add: `noteParts.join('\n').trim()`. */
  function NoteText(noteParts: seq<string>): string {
    Trim(Join(noteParts, "\n"))
  }

  /** The note after the merge: unchanged without new notes; otherwise the new notes, after
      the old note and a blank line when there was one. */
  function MergedNote(prev: MutuoForm, noteParts: seq<string>): (note: Option<string>)
    ensures |noteParts| == 0 ==> note == prev.note
    ensures |noteParts| > 0 && !HasNote(prev) ==> note == Some(NoteText(noteParts))
    ensures |noteParts| > 0 && HasNote(prev) ==>
      && note.Some? && |note.value| >= |prev.note.value|
      && note.value[..|prev.note.value|] == prev.note.value
      && note.value[|prev.note.value|..] == "\n\n" + NoteText(noteParts)
  {
    if |noteParts| == 0 then prev.note
    else if HasNote(prev) then Some(prev.note.value + "\n\n" + NoteText(noteParts))
    else Some(NoteText(noteParts))
  }

  /** The state update of `handleParse`: the form with the parsed fields merged in. */
  function MergeParsed(prev: MutuoForm, parsed: PartialForm, noteParts: seq<string>): (r: MutuoForm)
    // Only the fields and the note change, the bank name never does.
    ensures r.banca == prev.banca
    ensures r.tipoTasso == parsed.tipoTasso.GetOr(prev.tipoTasso)
    // A field has a value after the merge when it had one or the parse gave a non-zero one.
    ensures forall f :: f in r.values <==> f in prev.values || Overrides(parsed, f)
    // Non-zero parsed values win; every other field keeps its value.
    ensures forall f | Overrides(parsed, f) :: r.values[f] == parsed.values[f]
    ensures forall f | f in prev.values && !Overrides(parsed, f) :: r.values[f] == prev.values[f]
    ensures r.note == MergedNote(prev, noteParts)
    // A form with every mandatory field stays so.
    ensures WellFormed(prev) ==> WellFormed(r)
  {
    var values := map f | f in prev.values.Keys + parsed.values.Keys && (f in prev.values || Overrides(parsed, f)) ::
      if Overrides(parsed, f) then parsed.values[f] else prev.values[f];
    MutuoForm(prev.banca, parsed.tipoTasso.GetOr(prev.tipoTasso), values, MergedNote(prev, noteParts))
  }

  /** Merging the same fields a second time changes nothing more. */
  lemma MergeIdempotent(prev: MutuoForm, parsed: PartialForm)
    ensures MergeParsed(MergeParsed(prev, parsed, []), parsed, []) == MergeParsed(prev, parsed, [])
  {
    var once := MergeParsed(prev, parsed, []);
    var twice := MergeParsed(once, parsed, []);
    assert twice.values == once.values;
  }

  /** A parse that recognised nothing leaves the form as it was. */
  lemma MergeNothing(prev: MutuoForm)
    ensures MergeParsed(prev, NothingFound.form, NothingFound.noteParts) == prev
  {
    assert MergeParsed(prev, NothingFound.form, []).values == prev.values;
  }

  /** The editor: the form being edited and the report of the last parse. */
  datatype Editor = Editor(form: MutuoForm, report: Option<(seq<Diagnostic>, seq<string>)>)

  /** `handleParse` on the pasted text: nothing happens for a blank paste; otherwise the text
      is parsed, the report shown and the fields merged in. */
  function HandleParse(e: Editor, paste: string): (r: Editor)
    ensures AllSpace(paste) ==> r == e
    ensures !AllSpace(paste) ==> r.report == Some((ParseMutuoText(paste).found, ParseMutuoText(paste).noteParts))
    ensures !AllSpace(paste) ==>
      r.form == MergeParsed(e.form, ParseMutuoText(paste).form, ParseMutuoText(paste).noteParts)
  {
    if |Trim(paste)| == 0 then e
    else
      var parsed := ParseMutuoText(paste);
      Editor(MergeParsed(e.form, parsed.form, parsed.noteParts), Some((parsed.found, parsed.noteParts)))
  }

  /** Pasting a blank text and parsing it is the same as not parsing at all, also when the
      parser itself is run on it. */
  lemma BlankPasteChangesNothing(e: Editor, paste: string)
    requires AllSpace(paste)
    ensures HandleParse(e, paste) == e
    ensures MergeParsed(e.form, ParseMutuoText(paste).form, ParseMutuoText(paste).noteParts) == e.form
  {
    BlankTextGivesNothing(paste);
    MergeNothing(e.form);
  }
}
