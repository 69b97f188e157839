# BancaAdvisor offer import, in Dafny

BancaAdvisor compares Italian mortgage offers. Its frontend lets a user paste the text of an
offer copied from a comparison site, and this model covers what happens to that text:

- `parseMutuoText` (frontend/src/utils/parser.ts) splits the text into trimmed, non-blank lines.
  From them it reads:
  - the rate type (fisso / variabile / misto);
  - nine numeric fields: amount, duration, TAN, TAEG, spread, processing fee, appraisal fee,
    substitute tax and insurance;
  - the notes of the sections a borrower cares about, plus a green-mortgage discount;
  - a cut that keeps the joined notes within 4500 UTF-16 units.
- The helpers it relies on:
  - `parseItalianNumber`, which guesses whether `.` and `,` group thousands or mark decimals;
  - `findPercent` and `findEuro`, which find the first percentage or euro amount on a line.
- `handleParse` of the offer form (frontend/src/components/MutuoForm.tsx) merges the parsed
  fields into the form being edited and appends the notes to the form's note.
- The display helpers of frontend/src/utils/format.ts map a score to its colour band and a rate
  type to its label and badge.

The module `Offer` works `parseMutuoText` through on a five-line offer, from the split into
lines to the form, the diagnostics and the (empty) notes.

## How JavaScript is modelled

- **Modules.** `Text` and `Regex` model the pieces of JavaScript the parser leans on:
  - `\s` is ECMAScript white space, and `trim` strips the same set.
  - `\d` and `\b` are ASCII only.
  - `toLowerCase` and the `i` flag cover ASCII and Latin-1.
  - `length` counts UTF-16 units.
  - `String.prototype.match` is leftmost-first.
  
  Each regular expression of the parser is one constructor of `Regex.Regex`. Its greedy
  match is written out, and `Test`/`Exec` return the leftmost match.
- **Numbers** are `real`, which is exact. `NaN` is `None` and becomes 0 where the source turns
  it into 0.
- **Strings the parser builds.** The text of `campiTrovati` (the list of what was recognised)
  is abstracted by the `Parser.Diagnostic` datatype. Each entry keeps the field, the value and
  whether the TAN came from the fallback; the `toLocaleString` wording is not kept.
- **Numeric fields.** The form's numeric fields are one `map<NumField, real>`. A field absent
  from the map is `undefined`.

## Model

| member | source | states |
|---|---|---|
| ItalianNumbers.ParseItalianNumber | frontend/src/utils/parser.ts:6-35 | the result is never NaN: it is always a non-negative number (that unreadable text gives 0 is `ItalianNumbers.ReadNoDigits`) |
| ItalianNumbers.ParseFloat | frontend/src/utils/parser.ts:33-34 | `parseFloat` reads a number exactly when the text starts with a digit or with `.` and a digit, and what it reads is non-negative |
| ItalianNumbers.ReadAfterStripping | frontend/src/utils/parser.ts:8 | `€` and white space anywhere in the input do not change the value read |
| ItalianNumbers.ReadCommaOnly | frontend/src/utils/parser.ts:14-22 | a lone comma groups thousands exactly when three digits follow it and the part before it is present and below 1000; otherwise it is the decimal point |
| ItalianNumbers.ReadDotOnly | frontend/src/utils/parser.ts:23-29 | a lone dot groups thousands exactly when three digits follow it; otherwise it is the decimal point |
| ItalianNumbers.ReadSeveralDots | frontend/src/utils/parser.ts:23-33 | with two or more dots and no comma nothing is rewritten, so `parseFloat` stops at the second dot |
| ItalianNumbers.ReadMixed | frontend/src/utils/parser.ts:12-13 | with both separators every dot is dropped and the comma becomes the decimal point |
| ItalianNumbers.ReadNoDigits | frontend/src/utils/parser.ts:33-34 | text without a digit reads as 0 |
| ItalianNumbers.ItalianRoundTrip | frontend/src/utils/parser.ts:6-35 | an amount written the Italian way (dot-grouped thousands, comma decimals) reads back as the number it denotes, outside the two ambiguous shapes below |
| ItalianNumbers.ThreeDecimalsReadAsThousands | frontend/src/utils/parser.ts:17-19 | "808,280"-shaped text is read as a thousands grouping, not as three decimals |
| ItalianNumbers.ManyGroupsReadAsDecimals | frontend/src/utils/parser.ts:23-33 | two or more thousands dots without decimals are read as a decimal number ("1.500.000" as 1.5) |
| ItalianNumbers.ReadsThousands | frontend/src/utils/parser.ts:4-10 | the documented examples "180.000,28" and "180.000" read as 180000.28 and 180000 |
| ItalianNumbers.ReadsDecimals | frontend/src/utils/parser.ts:4 | "808,28", "3,50" and "3.50" are decimals and "1,500" is 1500 |
| ItalianNumbers.ReadsEuroAmount | frontend/src/utils/parser.ts:7-8 | "€ 600,00" reads as 600 |
| ItalianNumbers.ReadsMillionAsDecimal | frontend/src/utils/parser.ts:23-33 | "1.500.000" reads as 1.5 |
| Finders.FindPercent | frontend/src/utils/parser.ts:40-50 | a value is found exactly when a digit is followed, after white space only, by `%`; it is non-negative, and it is an integer when no decimal percentage is written |
| Finders.FindEuro | frontend/src/utils/parser.ts:55-65 | a value is found exactly when a digit or separator is next to `€`, or precedes `€`/`euro`, with only white space between; it is non-negative |
| Finders.FindPercentDecimal | frontend/src/utils/parser.ts:41-43 | on a line whose first digit starts `d1` `.`/`,` `d2`, white space and `%`, the value is `d1` `sep` `d2` read the Italian way |
| Finders.FindPercentInteger | frontend/src/utils/parser.ts:45-47 | when no decimal percentage occurs, the first digit run followed by white space and `%` is the value, read as an integer |
| Finders.DecimalPercentWins | frontend/src/utils/parser.ts:41-47 | a decimal percentage anywhere on the line is taken even when an integer percentage comes before it |
| Finders.FindEuroAfterSign | frontend/src/utils/parser.ts:57-58 | the run of digits and separators after the first `€` (and white space) is the value, read the Italian way |
| Finders.FindEuroBeforeWord | frontend/src/utils/parser.ts:61-62 | without `€`, the first run of digits and separators followed by white space and "euro"/"Euro" is the value |
| Finders.FindsDecimalPercent | frontend/src/utils/parser.ts:41-43 | "TAN: 3,50%" gives 3.5 |
| Finders.FindsIntegerPercent | frontend/src/utils/parser.ts:45-47 | "Tasso 5%", a percentage without decimals, gives 5 through the integer pattern |
| Finders.FindsNoPercent | frontend/src/utils/parser.ts:49 | a line without `%` gives nothing |
| Finders.FindsEuroSignAmount | frontend/src/utils/parser.ts:57-58 | "Istruttoria: € 600,00" gives 600 |
| Finders.FindsAmountBeforeEuro | frontend/src/utils/parser.ts:61-62 | "350 euro", an amount written before the word, gives 350 |
| Fields.RateWordIff | frontend/src/utils/parser.ts:80 | `/tasso\s+w\|w/i` matches exactly when `w` occurs, so the "tasso" alternative adds nothing |
| Fields.RateTypeOf | frontend/src/utils/parser.ts:80-89 | fisso when only "fisso" occurs, variabile when only "variabile" occurs, misto when neither or both occur and "misto" does, nothing otherwise (each stated both ways) |
| Fields.Years | frontend/src/utils/parser.ts:106-108 | a duration is read exactly when digits are followed by "anni", and it is a non-negative integer |
| Fields.YearsRead | frontend/src/utils/parser.ts:106-108 | the first digit run followed by white space and "anni" is the duration, read as an integer |
| Fields.AnchorNeedsKeyword | frontend/src/utils/parser.ts:93-203 | a line passes a field's guard only when it mentions that field's keyword, case-insensitively |
| Fields.FirstSomeFrom | frontend/src/utils/parser.ts:92-101 | the first present entry of a list: none exactly when all are absent, otherwise an entry no earlier one pre-empts |
| Fields.FirstHit | frontend/src/utils/parser.ts:92-199 | a field scan finds nothing exactly when no line is anchored with an accepted value; otherwise it takes the value of a line that gives one, with no earlier line giving one |
| Fields.FirstHitIs | frontend/src/utils/parser.ts:98 | the scan takes the value of line k when k gives one and no earlier line does |
| Fields.FirstHitIgnoresLater | frontend/src/utils/parser.ts:98 | lines after the first hit never change the value found |
| Fields.FirstAnchoredFrom | frontend/src/utils/parser.ts:202-203 | the index of the first line mentioning insurance, with no earlier line mentioning it |
| Fields.InsuranceCost | frontend/src/utils/parser.ts:202-211 | no cost without a line mentioning insurance; otherwise the cost is what the first such line gives, or nothing when it gives no positive amount |
| Fields.InsuranceCostSpec | frontend/src/utils/parser.ts:202-211 | the insurance cost comes from the first line mentioning insurance, and when found it agrees with the general first-hit scan |
| Fields.InsuranceStopsAtFirstMention | frontend/src/utils/parser.ts:205-209 | a first insurance line without a positive amount hides every later line |
| Fields.ProbeInRange | frontend/src/utils/parser.ts:95-205 | every value a scan accepts is in its field's range (amount above 1000, rates below 20%, spread below 10%, appraisal below 5000, insurance positive, duration an integer, all non-negative) |
| Notes.SectionNotes | frontend/src/utils/parser.ts:214-229 | the notes fold equals a per-line definition: a heading gives its pushpin line; a line longer than 10 after some heading is kept; nothing else is kept |
| Notes.NoHeadingNoNotes | frontend/src/utils/parser.ts:219-228 | without a heading line no note is collected |
| Notes.GreenNote | frontend/src/utils/parser.ts:232-237 | no note when the text does not speak of green or of an energy class, or holds no discount span; otherwise the note is the herb prefix plus the leftmost discount span |
| Regex.GreenDiscountAtIff | frontend/src/utils/parser.ts:233 | the discount pattern matches at `p` with its group ending at `e` exactly when `-`, white space, digits and commas, and `%` lie between them and only white space separates `%` from "per", "acquisto", "immobile" or "green" |
| Notes.DiscountMatch | frontend/src/utils/parser.ts:233 | `text.match` of the discount pattern gives the group of the leftmost discount span, and nothing when the text holds none |
| Notes.JoinedLength | frontend/src/utils/parser.ts:241-248 | the running total of the truncation (length plus one per note) exceeds the joined length by exactly one |
| Notes.TakeWithin | frontend/src/utils/parser.ts:243-249 | the notes kept are a prefix whose total fits, and the next note would not have fitted |
| Notes.Truncate | frontend/src/utils/parser.ts:240-250 | the notes returned are a prefix of those collected and fit in 4500 units once joined; they are unchanged when the whole fits; otherwise they are a proper prefix whose running total fits and would not fit with the next note |
| Parser.Lines | frontend/src/utils/parser.ts:77 | every line is non-empty and has no white space at either end |
| Parser.LinesOfLine | frontend/src/utils/parser.ts:77 | a text without a line break gives no line when blank, and its trim otherwise |
| Parser.LinesCons | frontend/src/utils/parser.ts:77 | the lines of `a` + line break + `b` are the lines of `a` followed by those of `b` |
| Parser.LinesUnbroken | frontend/src/utils/parser.ts:77 | no line holds a line break |
| Parser.BlankHasNoLines | frontend/src/utils/parser.ts:77 | a blank text has no lines |
| Parser.TanExtraction | frontend/src/utils/parser.ts:117-139 | a line naming the TAN wins; only without one is the "tasso fisso/variabile/finito" fallback used, and the result says which |
| Parser.ParsedReported | frontend/src/utils/parser.ts:79-211 | the rate type is reported exactly when set; every field set is reported with its value (flagged when the TAN came from the fallback), and every field reported is set with that value |
| Parser.ParsedOrder | frontend/src/utils/parser.ts:79-211 | the rate type's diagnostic comes first, exactly when the rate type is set; the fields' diagnostics follow in the order of the scans, none twice |
| Parser.DiagnosticsOrdered | frontend/src/utils/parser.ts:79-211 | there is one diagnostic per field set, plus one for the rate type when it is set, in the order of the scans |
| Parser.ParseMutuoText | frontend/src/utils/parser.ts:71-253 | the number of diagnostics is the number of fields set, plus one when the rate type is set |
| Parser.ParsedValue | frontend/src/utils/parser.ts:92-211 | a field is set exactly when its scan finds a value, and then it holds that value |
| Parser.AllNotes | frontend/src/utils/parser.ts:213-237 | the notes before the cut are the section notes, each line's contribution in order, then the green note when there is one |
| Parser.ParsedTanFirst | frontend/src/utils/parser.ts:117-128 | when a line naming the TAN gives a rate, the parsed TAN is that rate and the fallback is not used |
| Parser.FallbackOnlyWithoutTan | frontend/src/utils/parser.ts:128-139 | the fallback is used only when no line naming the TAN gives a rate below 20% |
| Parser.ParsedFallbackIsTan | frontend/src/utils/parser.ts:134 | only the TAN is ever reported as coming from the fallback |
| Parser.ParsedInRange | frontend/src/utils/parser.ts:92-211 | every value the parser sets lies in its field's range |
| Parser.ParsedFieldsScanned | frontend/src/utils/parser.ts:92-211 | the parser sets only the nine fields it scans for |
| Parser.ParsedNotes | frontend/src/utils/parser.ts:213-252 | the notes returned are a prefix of the section notes followed by the green note, and fit the budget; they are all of them when those fit, and otherwise the cut falls where the running total would first exceed 4500 |
| Parser.BlankTextGivesNothing | frontend/src/utils/parser.ts:71-252 | a blank text gives no rate type, no field, no diagnostic and no note |
| Offer.ParsesOffer | frontend/src/utils/parser.ts:71-253 | the five-line offer "Importo Mutuo: € 180.000 / Durata: 30 anni / Tasso Fisso: 3,50% / TAEG: 3,66% / Istruttoria: € 600,00" parses as a fixed rate with amount 180000, 30 years, TAN 3.5 from the fallback, TAEG 3.66 and a 600 fee, six diagnostics in that order and no note |
| FormMerge.DefaultFormWellFormed | frontend/src/components/MutuoForm.tsx:13-31 | the form a new offer starts from has every mandatory field set and no TAEG or spread, and merging an import into it keeps every mandatory field set |
| FormMerge.MergedNote | frontend/src/components/MutuoForm.tsx:54-57 | the note is unchanged without new notes; it becomes the trimmed joined notes when there was no note; otherwise the old note is kept as a prefix, followed by a blank line and the new notes |
| FormMerge.MergeParsed | frontend/src/components/MutuoForm.tsx:46-59 | the bank name never changes; a parsed rate type replaces the old one; a field is set after the merge exactly when it was before or the parse gave a non-zero value; non-zero parsed values win and other fields keep theirs; a form with all mandatory fields keeps them |
| FormMerge.MergeIdempotent | frontend/src/components/MutuoForm.tsx:46-52 | merging the same parsed fields twice gives the same form as merging once |
| FormMerge.MergeNothing | frontend/src/components/MutuoForm.tsx:46-59 | merging a parse that recognised nothing leaves the form as it was |
| FormMerge.HandleParse | frontend/src/components/MutuoForm.tsx:40-60 | a blank paste changes nothing; otherwise the report holds the parse's diagnostics and notes, and the form is the merge of the parse |
| FormMerge.BlankPasteChangesNothing | frontend/src/components/MutuoForm.tsx:41 | skipping a blank paste is the same as parsing and merging it |
| Format.PunteggioColor | frontend/src/utils/format.ts:38-43 | each of the four text colours is shown exactly when the score lies in its band (80 and up, 60 to 80, 40 to 60, below 40) |
| Format.PunteggioBgColor | frontend/src/utils/format.ts:45-50 | each of the four background colours is shown exactly when the score lies in its band, and it is the band the text colour shows |
| Format.ColorsAgree | frontend/src/utils/format.ts:38-50 | the text and background colours of a score always show the same band |
| Format.ColorMonotone | frontend/src/utils/format.ts:38-43 | a higher score never shows a lower band |
| Format.TipoTassoLabel | frontend/src/utils/format.ts:20-27 | a known rate type gets its label; any other name is shown as is, except a name inherited from `Object.prototype`, which gives that member instead of a string |
| Format.TipoTassoBadgeClass | frontend/src/utils/format.ts:29-36 | a known rate type gets its badge class; any other name gets the plain badge, except a name inherited from `Object.prototype`, which gives that member instead of a string |
| Format.RateTypesShown | frontend/src/utils/format.ts:20-36 | each stored rate type has a "Tasso …" label and a "badge-…" class of its own, different for different rate types |
| Format.InheritedNameIsNoLabel | frontend/src/utils/format.ts:26 | "toString" and "constructor" are looked up on the prototype rather than falling back |

## Behaviour of the code worth noting

- **Insurance scan.** The loop at frontend/src/utils/parser.ts:202-211 breaks after the first
  line that mentions insurance, whether or not that line gave a positive amount. A later line
  with an amount is never read (`Fields.InsuranceStopsAtFirstMention`), unlike the other eight
  scans, which break only once a value is accepted.
- **Rate type.** At frontend/src/utils/parser.ts:80-89 "misto" is looked for only after fixed and
  variable. It decides whenever "fisso" and "variabile" do not single one out, that is when
  neither occurs or both do. A text naming all three is therefore misto (`Fields.RateTypeOf`).
- **The rate type is a diagnostic.** Line 82 pushes "Tipo Tasso → Fisso" when "fisso" occurs
  and "variabile" does not, so a text holding "Tasso Fisso: 3,50%" reports the rate type as well as the TAN. The
  worked offer of `Offer.ParsesOffer` gets six diagnostics for its five lines.

## Left out

- ItalianNumbers.ParseItalianNumber: requires its input to hold only digits, `.`, `,`, `€` and
  white space. Every caller passes such a capture, and other text would need the sign,
  exponent and `Infinity` cases of `parseFloat`.
- Floating point: values are exact reals. IEEE rounding of `parseFloat` and `parseInt` on very
  long digit strings is not modelled.
- The wording of `campiTrovati`: the `toLocaleString('it-IT')` formatting is abstracted by
  `Parser.Diagnostic`.
- Lower-casing beyond Latin-1: `toLowerCase` characters that change length or lie outside
  Latin-1 are compared as they are.
- Format.PunteggioColor: a score is a real, so the `NaN` score the source would paint red is
  not modelled.
- Parser.ParsedFieldsScanned: states that only fields of non-negative rank are set, that is
  the nine scanned fields, rather than naming the property value and the other costs one by one.
- React state, rendering, the paste box and the rest of the frontend; the backend and its
  scoring. None of these are part of the parsing core.
- The other helpers of frontend/src/utils/format.ts (currency and percentage formatting), which
  rest on `Intl.NumberFormat`.
