/** The notes `parseMutuoText` (frontend/src/utils/parser.ts) collects besides the fields:
    the lines of the sections that matter to a borrower, the green-mortgage discount, and the
    cut that keeps the joined notes within 4500 UTF-16 units. */
module Notes {
  import opened Wrappers
  import opened Text
  import opened Regex

  /** The lower-case beginnings that open a section worth keeping. */
  const NoteKeywords: seq<string> := [
    "destinatari", "finalità", "garanzi", "penale estinzione", "note",
    "assicurazion", "spese periodiche", "calcolo tasso"
  ]

  /** A line that opens a section: its lower-case form starts with one of the keywords. */
  predicate IsHeading(line: string) {
    StartsWithAny(line, NoteKeywords)
  }

  /** `keys.some(k => line.toLowerCase().startsWith(k))`. */
  predicate StartsWithAny(line: string, keys: seq<string>) {
    |keys| > 0 && (StartsWithIgnoringCase(line, keys[0]) || StartsWithAny(line, keys[1..]))
  }

  /** How a heading is recorded: on a line of its own, after a pushpin. */
  function HeadingNote(line: string): string {
    "\n\U{1F4CC} " + line
  }

  /** A line outside a heading is kept when it is longer than this many UTF-16 units. */
  const MinNoteLength: nat := 10

  /** The notes of `lines[i..]`, reading them in order; `open` says whether a heading has
      been seen, which is what the source's `currentSection` being non-empty records. */
  function CollectFrom(lines: seq<string>, i: nat, open: bool): seq<string>
    requires i <= |lines|
    decreases |lines| - i
  {
    if i == |lines| then []
    else if IsHeading(lines[i]) then [HeadingNote(lines[i])] + CollectFrom(lines, i + 1, true)
    else if open && Utf16Len(lines[i]) > MinNoteLength then [lines[i]] + CollectFrom(lines, i + 1, open)
    else CollectFrom(lines, i + 1, open)
  }

  /** The section notes of the (trimmed, non-blank) lines of a text: what each line
      contributes, in order. */
  function SectionNotes(lines: seq<string>): (notes: seq<string>)
    ensures notes == ContributionsFrom(lines, 0)
  {
    CollectFromSpec(lines, 0);
    CollectFrom(lines, 0, false)
  }

  // Reference definition: what each line contributes, decided from the lines alone.

  /** Some line before `k` is a heading. */
  predicate SectionOpenBefore(lines: seq<string>, k: nat)
    requires k <= |lines|
  {
    exists j | 0 <= j < k :: IsHeading(lines[j])
  }

  /** What line `k` contributes to the notes. */
  function Contribution(lines: seq<string>, k: nat): (c: seq<string>)
    requires k < |lines|
  {
    if IsHeading(lines[k]) then [HeadingNote(lines[k])]
    else if SectionOpenBefore(lines, k) && Utf16Len(lines[k]) > MinNoteLength then [lines[k]]
    else []
  }

  /** The contributions of the lines from `i` on, in order. */
  function ContributionsFrom(lines: seq<string>, i: nat): seq<string>
    requires i <= |lines|
    decreases |lines| - i
  {
    if i == |lines| then [] else Contribution(lines, i) + ContributionsFrom(lines, i + 1)
  }

  /** A section is open after line `i` when it was before, or line `i` is a heading. */
  lemma OpenStep(lines: seq<string>, i: nat)
    requires i < |lines|
    ensures SectionOpenBefore(lines, i + 1) == (SectionOpenBefore(lines, i) || IsHeading(lines[i]))
  {
    if SectionOpenBefore(lines, i) {
      var j :| 0 <= j < i && IsHeading(lines[j]);
      assert IsHeading(lines[j]);
    }
  }

  /** One step of the fold adds the contribution of the line it reads. */
  lemma CollectStep(lines: seq<string>, i: nat)
    requires i < |lines|
    ensures CollectFrom(lines, i, SectionOpenBefore(lines, i))
         == Contribution(lines, i) + CollectFrom(lines, i + 1, SectionOpenBefore(lines, i + 1))
  {
    OpenStep(lines, i);
  }

  lemma {:induction false} CollectFromSpec(lines: seq<string>, i: nat)
    requires i <= |lines|
    ensures CollectFrom(lines, i, SectionOpenBefore(lines, i)) == ContributionsFrom(lines, i)
    decreases |lines| - i
  {
    if i < |lines| {
      CollectStep(lines, i);
      CollectFromSpec(lines, i + 1);
    }
  }

  lemma {:induction false} NoHeadingCollectsNothing(lines: seq<string>, i: nat, open: bool)
    requires i <= |lines|
    requires forall k | i <= k < |lines| :: !IsHeading(lines[k]) && (open ==> Utf16Len(lines[k]) <= MinNoteLength)
    ensures CollectFrom(lines, i, open) == []
    decreases |lines| - i
  {
    if i < |lines| {
      NoHeadingCollectsNothing(lines, i + 1, open);
    }
  }

  /** Without a heading no line is kept: lines before the first heading are never notes. */
  lemma NoHeadingNoNotes(lines: seq<string>)
    requires forall k | 0 <= k < |lines| :: !IsHeading(lines[k])
    ensures SectionNotes(lines) == []
  {
    NoHeadingCollectsNothing(lines, 0, false);
  }

  // ---------------------------------------------------------------------------
  // Green discount

  /** How the green discount is recorded: on a line of its own, after a herb. */
  const GreenPrefix: string := "\n\U{1F33F} Sconto Green: "

  /** The text speaks of a green mortgage: `/green|classe\s+energetica/i`. */
  predicate SpeaksGreen(text: string) {
    Test(Keyword("green"), text) || Test(Phrase("classe", "energetica"), text)
  }

  /** No discount span starts before `p`. */
  predicate NoSpanBefore(text: string, p: nat) {
    forall q: nat, e: nat | q < p && e <= |text| :: !DiscountSpan(text, q, e)
  }

  /** The green-discount pattern matches nowhere before `p` when no discount span starts there. */
  lemma NoMatchBefore(text: string, p: nat)
    requires NoSpanBefore(text, p)
    ensures forall q | 0 <= q < p :: MatchAt(GreenDiscount, text, q).None?
  {
    forall q | 0 <= q < p ensures MatchAt(GreenDiscount, text, q).None? {
      if MatchAt(GreenDiscount, text, q).Some? {
        GreenDiscountGroup(text, q);
        SpanOfMatch(text, q, SignedPercentEnd(text, q));
      }
    }
  }

  /** `text.match` of the green-discount pattern finds the group of the leftmost discount
      span, and nothing when there is none. */
  lemma DiscountMatch(text: string)
    ensures NoSpanBefore(text, |text|) ==> Exec(GreenDiscount, text).None?
    ensures forall p: nat, e: nat | DiscountSpan(text, p, e) && NoSpanBefore(text, p) ::
      Exec(GreenDiscount, text) == Some(text[p..e])
  {
    if NoSpanBefore(text, |text|) {
      NoMatchBefore(text, |text|);
      TestIff(GreenDiscount, text);
    }
    forall p: nat, e: nat | DiscountSpan(text, p, e) && NoSpanBefore(text, p)
      ensures Exec(GreenDiscount, text) == Some(text[p..e])
    {
      GreenDiscountOfSpan(text, p, e);
      NoMatchBefore(text, p);
      ExecLeftmost(GreenDiscount, text, p);
    }
  }

  /** The green-discount note: it quotes the leftmost discount span `-N%` (followed by "per",
      "acquisto", "immobile" or "green") of a text that speaks of a green mortgage, and is
      absent when the text does not or states no such discount. */
  function GreenNote(text: string): (r: Option<string>)
    ensures !SpeaksGreen(text) ==> r.None?
    ensures NoSpanBefore(text, |text|) ==> r.None?
    ensures forall p: nat, e: nat | DiscountSpan(text, p, e) && NoSpanBefore(text, p) ::
      r == if SpeaksGreen(text) then Some(GreenPrefix + text[p..e]) else None
  {
    DiscountMatch(text);
    if SpeaksGreen(text) then
      match Exec(GreenDiscount, text)
      case Some(d) => Some(GreenPrefix + d)
      case None => None
    else None
  }

  // ---------------------------------------------------------------------------
  // Truncation

  /** The notes budget, in UTF-16 units. */
  const NotesBudget: nat := 4500

  /** What a list of notes costs: each note's length plus one for its separator. */
  function Cost(parts: seq<string>): (c: nat)
    ensures c >= |parts|
  {
    if |parts| == 0 then 0 else Utf16Len(parts[0]) + 1 + Cost(parts[1..])
  }

  /** The joined notes are one unit shorter than their cost (no separator after the last). */
  lemma {:induction false} JoinedLength(parts: seq<string>)
    requires |parts| > 0
    ensures Utf16Len(Join(parts, "\n")) + 1 == Cost(parts)
  {
    if |parts| > 1 {
      var rest := Join(parts[1..], "\n");
      Utf16LenAppend(parts[0] + "\n", rest);
      Utf16LenAppend(parts[0], "\n");
      JoinedLength(parts[1..]);
    }
  }

  /** The longest prefix of `parts` whose cost fits in `room`, taking notes in order and
      stopping at the first one that does not fit. */
  function TakeWithin(parts: seq<string>, room: int): (r: seq<string>)
    ensures |r| <= |parts| && r == parts[..|r|]
    ensures Cost(r) <= room || |r| == 0
    ensures |r| < |parts| ==> Cost(r) + Utf16Len(parts[|r|]) + 1 > room
  {
    if |parts| == 0 || Utf16Len(parts[0]) + 1 > room then []
    else
      var rest := TakeWithin(parts[1..], room - Utf16Len(parts[0]) - 1);
      assert ([parts[0]] + rest)[1..] == rest;
      [parts[0]] + rest
  }

  /** The notes as returned: unchanged when their joined length is within the budget,
      otherwise the longest prefix whose notes and separators fit in it. */
  function Truncate(notes: seq<string>): (r: seq<string>)
    ensures |r| <= |notes| && r == notes[..|r|]
    ensures Utf16Len(Join(r, "\n")) <= NotesBudget
    ensures Utf16Len(Join(notes, "\n")) <= NotesBudget ==> r == notes
    // When cut, the notes kept and their separators fit the budget, and the next note would
    // not: the cut falls where the running total first exceeds it.
    ensures Utf16Len(Join(notes, "\n")) > NotesBudget ==>
      && |r| < |notes|
      && Cost(r) <= NotesBudget
      && Cost(r) + Utf16Len(notes[|r|]) + 1 > NotesBudget
  {
    if Utf16Len(Join(notes, "\n")) > NotesBudget then
      TakeWithinJoined(notes, NotesBudget);
      TakeWithin(notes, NotesBudget)
    else notes
  }

  /** The prefix taken fits once joined, and is a proper prefix when the whole does not fit. */
  lemma TakeWithinJoined(notes: seq<string>, room: nat)
    ensures Utf16Len(Join(TakeWithin(notes, room), "\n")) <= room
    ensures Utf16Len(Join(notes, "\n")) > room ==> |TakeWithin(notes, room)| < |notes|
  {
    var r := TakeWithin(notes, room);
    if |r| > 0 {
      JoinedLength(r);
    }
    if |r| == |notes| && |notes| > 0 {
      assert r == notes;
      JoinedLength(notes);
    }
  }
}
