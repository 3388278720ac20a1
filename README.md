# Faculty offer-letter generator: benefits resolver and paragraph cleaner

This project models the logic of `streamlit_app.py`, the offer-letter generator. A web form
collects a candidate's details. The program looks up that person's benefits in a constant table
and fills `{{KEY}}` placeholders in a Word template. The model covers two parts of that program.

- **Benefits resolver** (`Benefits.dfy`, `Amounts.dfy`). `RankTable` and
  `ChildrenSchoolAllowance` hold the constant table. `CampusKey` sorts a campus into one of two
  brackets, "AD/Dubai" or "AA". `FmtAmt` is `fmt_amt`: it prints a number with comma thousands
  separators. `ParseAmt` is its proved inverse. `ComputeBenefitsMapping` computes the seven
  benefit placeholders. When the source would raise `KeyError`, the model returns
  `Failure(KeyError(key))`.
- **Paragraph cleaner** (`Text.dfy`, `Cleaner.dfy`, `Placeholders.dfy`). `Text` models the Python
  string operations the cleaner uses: `find`, `rfind`, `in`, `replace`, `strip` and `startswith`.
  `DedupLine` models `dedup_line`: for each marker in `DEDUP_STARTS` that occurs more than once,
  the paragraph is cut back to that marker's last occurrence. `ReplaceAndClean` models
  `replace_and_clean` in three steps:
  - it replaces the tokens, one mapping entry at a time, in mapping order;
  - it empties the "Commencement Air Tickets:" line when there is no joining ticket;
  - it de-duplicates the result.

  The class `Placeholders.Document` holds the body paragraphs and the tables (rows, then cells,
  then paragraphs). Its method `ReplacePlaceholders` models the driver loops. Each paragraph is
  its text. Rebuilding a paragraph's runs is modelled as "the paragraph's text becomes the
  cleaned text".

A placeholder mapping is a sequence of (key, value) pairs in the dictionary's iteration order,
because the order of replacement matters. Integer values (`ANNUAL_LEAVE_DAYS`) become text by
`Decimal`, which is Python's `str(int)`.

Where the program's own comments, or a natural reading of it, differ from what `streamlit_app.py` does:
- The docstring of `replace_placeholders` (streamlit_app.py:89) says the commencement paragraph is
  removed. The code only empties its text (streamlit_app.py:128-130, 136-139), so the paragraph
  stays, with empty text.
- This revision does not strip unresolved tokens, does not rebuild a benefits section, and does
  not keep only the last copy of a paragraph. It de-duplicates within one paragraph only
  (streamlit_app.py:109-117, 132).
- After substitution a token of a mapped key can remain. For example, the text `{{K{{K}}}}` with
  `K` mapped to "" becomes `{{K}}`. The model proves the single-token round trip
  `SubstituteSingleToken` instead. It assumes the text around the token contains no `{`, and that
  the keys and values are brace-free.

## Model

| member | source | states |
|---|---|---|
| Benefits.CampusKey | streamlit_app.py:56-58 | the bracket is AD/Dubai exactly for "Abu Dhabi", "Dubai" and "AD/Dubai"; every other campus gives AA |
| Benefits.CampusKeyIdempotent | streamlit_app.py:56-58 | normalising a bracket's own key ("AD/Dubai" or "AA") gives that bracket back |
| Benefits.CampusChoices | streamlit_app.py:176 | of the form's campuses, Abu Dhabi and Dubai share the AD/Dubai bracket; Al Ain is AA |
| Benefits.RankTableRanks | streamlit_app.py:14-53 | the table holds the five ranks and "_shared" is not one of them; every housing and furniture value is positive, and married housing is never below single housing |
| Benefits.ChildrenSchoolAllowance | streamlit_app.py:15-16 | the shared school allowance per bracket, 60000 for AD/Dubai and 50000 for AA; its rendering is specified by EducationOnlyByBracket |
| Benefits.MaritalOf | streamlit_app.py:68 | exactly "Single" and "Married" are keys of the allowance blocks |
| Benefits.Pairs | streamlit_app.py:76-84 | the mapping has the seven entries; JOINING_TICKET is third and holds the ticket; the keys are distinct |
| Benefits.ComputeBenefitsMapping | streamlit_app.py:63-84 | succeeds exactly when the rank is a rank of the table and the marital status is Single or Married; otherwise the KeyError key is the rank, or "housing_allowance_k" for "_shared", or the marital status |
| Benefits.AllowancesScaled | streamlit_app.py:68-80 | the housing and furniture texts read back as the table's thousands-value times 1000 for the campus bracket and marital status; the repatriation text reads back as the rank's value |
| Benefits.JoiningTicketOnlyInternational | streamlit_app.py:72-79 | the joining ticket is "" exactly for local hires; for international hires it is the rank's ticket |
| Benefits.EducationOnlyByBracket | streamlit_app.py:70-83 | the per-child and total education figures are the same text; they read back as the bracket's school allowance; two lookups in the same bracket agree on them |
| Benefits.LeaveAndRepatriationOnlyByRank | streamlit_app.py:80-81 | leave days and repatriation depend only on the rank |
| Benefits.InstructorDubaiSingleLocal | streamlit_app.py:46-84 | Instructor, Single, Dubai, local hire gives housing "35,000", furniture "12,000", no ticket, repatriation "2,000", 42 days, education "60,000" twice |
| Benefits.ProfessorAbuDhabiMarried | streamlit_app.py:18-24 | Professor, Married, Abu Dhabi gives housing "60,000" and furniture "30,000" |
| Amounts.DecimalDenotes | streamlit_app.py:81 | str(n) is a non-empty digit string with no leading zero that denotes n |
| Amounts.Decimal | streamlit_app.py:81 | Python's `str(int)` on a non-negative integer; specified by DecimalDenotes |
| Amounts.FmtAmt | streamlit_app.py:60-61 | `f"{n:,}"`; specified by FmtAmtCanonical, FmtAmtParseAmt and StripCommasFmtAmt |
| Amounts.ParseAmt | streamlit_app.py:60-61 | the reading back of an amount: rejects every string that is not a canonical grouped numeral; FmtAmtParseAmt proves it inverse to fmt_amt |
| Amounts.FmtAmtCanonical | streamlit_app.py:60-61 | fmt_amt(n) has a first group of 1-3 digits, then groups of exactly 3 digits after commas, no leading zero, and denotes n |
| Amounts.ParseFmtAmt | streamlit_app.py:60-61 | reading back fmt_amt(n) gives n |
| Amounts.FmtAmtOfCanonical | streamlit_app.py:60-61 | every canonical grouped numeral is fmt_amt of the value it denotes |
| Amounts.FmtAmtParseAmt | streamlit_app.py:60-61 | ParseAmt(s) gives n exactly when fmt_amt(n) is s |
| Amounts.StripCommasFmtAmt | streamlit_app.py:60-61 | deleting the commas of fmt_amt(n) gives the decimal digits of n |
| Amounts.FmtAmtSmall | streamlit_app.py:60-61 | below 1000, fmt_amt(n) has no comma and equals str(n) |
| Amounts.FmtAmtThousands | streamlit_app.py:60-69 | a table value k from 1 to 999, scaled by 1000, prints as str(k) followed by ",000" |
| Text.Find | streamlit_app.py:111 | str.find gives the lowest index of an occurrence, or -1 exactly when there is none |
| Text.RFind | streamlit_app.py:113 | str.rfind gives the highest index of an occurrence, or -1 exactly when there is none |
| Text.Contains | streamlit_app.py:125 | `token in text` holds exactly when the token occurs somewhere |
| Text.ReplaceAllAbsent | streamlit_app.py:125-126 | str.replace with a target that does not occur leaves the text unchanged |
| Text.ReplaceAllSelf | streamlit_app.py:126 | replacing a target by itself leaves the text unchanged |
| Text.ReplaceAllSingle | streamlit_app.py:126 | one occurrence between texts without the target's first character is replaced by the value, and nothing else changes |
| Text.ReplaceAll | streamlit_app.py:126 | `str.replace`, left to right without overlap; specified by ReplaceAllAbsent, ReplaceAllSelf and ReplaceAllSingle |
| Text.LStrip | streamlit_app.py:129 | the left-stripped text is a suffix of the input; everything removed is whitespace, and the result does not start with whitespace |
| Text.RStrip | streamlit_app.py:129 | the right-stripped text is a prefix of the input; everything removed is whitespace, and the result does not end with whitespace |
| Text.Strip | streamlit_app.py:129 | `strip()` is the slice left after removing whitespace from both ends: everything removed is whitespace, and the result neither starts nor ends with whitespace |
| Text.StartsWith | streamlit_app.py:129 | `startswith(p)`: p is no longer than the text and equals its first characters; used by StripStartsWith |
| Text.StripStartsWith | streamlit_app.py:129 | for a prefix ending in a non-space, `strip().startswith(p)` holds exactly when the text minus its leading whitespace starts with p |
| Cleaner.DedupStep | streamlit_app.py:110-116 | one marker step returns a suffix of the text; when the first and last occurrences differ, the suffix starts with the marker (with DedupStepAtMostOnce: exactly the suffix from the last occurrence); otherwise the text is unchanged |
| Cleaner.DedupStartsMarkers | streamlit_app.py:93-107 | DEDUP_STARTS has thirteen distinct, non-empty markers, among them "Commencement Air Tickets:" |
| Cleaner.Dedup | streamlit_app.py:109-117 | `dedup_line` as a fold of the marker steps in list order; specified by DedupSuffix, DedupAtMostOnce, DedupUnchanged and DedupIdempotent |
| Cleaner.DedupLine | streamlit_app.py:109-117 | the loop computes Dedup over DEDUP_STARTS in order; the result is a suffix of the input with every marker at most once |
| Cleaner.DedupStepAtMostOnce | streamlit_app.py:111-116 | after its own step a marker occurs at most once |
| Cleaner.DedupSuffix | streamlit_app.py:109-117 | dedup_line returns a suffix of its input |
| Cleaner.DedupAtMostOnce | streamlit_app.py:109-117 | in dedup_line's result every marker of the list occurs at most once |
| Cleaner.DedupUnchanged | streamlit_app.py:109-117 | a text in which every marker occurs at most once is returned unchanged |
| Cleaner.DedupIdempotent | streamlit_app.py:109-117 | dedup_line applied twice gives the same as once |
| Cleaner.Token | streamlit_app.py:124 | the token is the key between "{{" and "}}" |
| Cleaner.Get | streamlit_app.py:129 | `mapping.get(key, default)` gives the default when no entry has the key, otherwise the value of an entry with that key |
| Cleaner.ReplaceStep | streamlit_app.py:124-126 | one mapping entry: the text with the entry's token replaced by its value when the token occurs; specified by SubstituteNoTokens and SubstituteSingleToken |
| Cleaner.Substitute | streamlit_app.py:123-126 | the replacement loop as a fold over the mapping in order; ReplaceTokens is proved equal to it, SubstituteNoTokens and SubstituteSingleToken state what it does |
| Cleaner.ReplaceTokens | streamlit_app.py:123-126 | the replacement loop computes Substitute of the mapping, taken in order |
| Cleaner.SubstituteNoTokens | streamlit_app.py:123-126 | a text holding no token of any mapping key is left unchanged by the replacement loop |
| Cleaner.TokenPosition | streamlit_app.py:124-125 | a token of a brace-free key can occur in a brace-free frame around one token only at that token's place, and only for that key |
| Cleaner.SubstituteSingleToken | streamlit_app.py:122-126 | a brace-free text with one `{{key}}` becomes the text with the key's value in its place, whatever the mapping's order |
| Cleaner.ReplaceAndClean | streamlit_app.py:119-139 | the paragraph's new text is CleanText (substitute, blank the commencement line, de-duplicate), with every marker at most once |
| Cleaner.Blanked | streamlit_app.py:129 | the commencement condition: JOINING_TICKET missing or "" and the stripped text starting with "Commencement Air Tickets:"; CommencementLineDropped and LocalHireDropsCommencementLine use it |
| Cleaner.CleanText | streamlit_app.py:119-133 | substitute, blank, de-duplicate, in the source's order; specified by CleanTextShape, CleanTextUnchanged and CommencementLineDropped |
| Cleaner.CommencementLineDropped | streamlit_app.py:128-130 | with JOINING_TICKET empty or missing, a paragraph whose substituted text starts with "Commencement Air Tickets:" after leading whitespace becomes "" |
| Cleaner.CleanTextUnchanged | streamlit_app.py:119-133 | a paragraph with no token of any key, no repeated marker, and not a commencement line to drop keeps its text |
| Cleaner.CleanTextShape | streamlit_app.py:119-133 | the cleaned text is a suffix of the substituted text (or ""), repeats no marker, and is a fixed point of dedup_line |
| Cleaner.LocalHireDropsCommencementLine | streamlit_app.py:72-79 | for a local hire, with the benefits merged after the base fields, every commencement-ticket paragraph is emptied |
| Cleaner.Merge | streamlit_app.py:222 | `{**base_map, **benefits_map}` for maps with no shared key: the base entries, then the seven benefit entries; GetPairsTicket and LocalHireDropsCommencementLine read JOINING_TICKET from it |
| Placeholders.CleanEach | streamlit_app.py:142-143 | as many paragraphs as before, each with its own cleaned text |
| Placeholders.CleanParagraphs | streamlit_app.py:142-143 | the loop over a paragraph list gives CleanEach of the list: same count and order, each paragraph's own cleaned text |
| Placeholders.CleanEachAppend | streamlit_app.py:142-143 | paragraphs are cleaned independently: cleaning a concatenation gives the concatenation of the cleaned parts |
| Placeholders.CleanTables | streamlit_app.py:146-150 | the same tables, rows and cells in the same order; every cell paragraph has its cleaned text |
| Placeholders.Document.ReplacePlaceholders | streamlit_app.py:141-150 | the body paragraphs become CleanEach of the old ones and the tables become CleanTables of the old ones; nothing else changes |
| Placeholders.Document.CleanTableAt | streamlit_app.py:146-150 | cleans every cell paragraph of one table in place; the other tables and the body are unchanged |
| Placeholders.Document.CleanRowAt | streamlit_app.py:147-150 | cleans every cell paragraph of one row in place; every other row, table and the body are unchanged |
| Placeholders.Document.CleanCellAt | streamlit_app.py:149-150 | cleans the paragraphs of one cell in place; every other cell, row, table and the body are unchanged |

## Left out

- Streamlit UI, form widgets and the assembly of `base_map` (streamlit_app.py:7, 160-236): these
  are user-interface code. `Cleaner.Merge` stands for `{**base_map, **benefits_map}` only when
  the two share no key.
- Loading and saving the document with python-docx, and the byte buffers (streamlit_app.py:152-158):
  this is I/O in a foreign library. A document is a list of paragraph texts plus tables as nested
  lists.
- Run objects (streamlit_app.py:136-139): run-level formatting is not modelled. The model assumes
  that the loop removes every old run, so the paragraph's text becomes the cleaned string. In
  python-docx, `par.runs` builds a new list on each access, so `del par.runs[0]` may leave the
  old runs in the paragraph. Line 137 then empties only the first run, on every pass, and the
  other old runs stay before the added run. The model does not capture that.
- Merged table cells: python-docx can yield one merged cell several times in `row.cells`, so that
  cell's paragraphs are cleaned more than once. The model treats every cell as distinct.
- Nested tables inside cells: the source does not visit them, and they are not represented.
- The date and the `str()` of the probation months (streamlit_app.py:196, 211): they come from
  the clock and the form. Mapping values are strings; the one table integer goes through
  `Decimal`.
- The `SALARY` formatting (streamlit_app.py:210): it belongs to the UI. It uses the same format
  as `FmtAmt`.
- Negative amounts: `fmt_amt` is applied only to the table's non-negative constants, so it is
  modelled on `nat`.
- Text.ReplaceAll: `str.replace` with an empty target is not modelled. Tokens are never empty.
