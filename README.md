# Athena's indexing and chat text pipeline, modelled in Dafny

Athena is a retrieval-augmented chat service over a company's documents.
This project models its deterministic text processing:

- **Indexing** (`athena/libs/indexer.py`).
  - A document-analysis result (pages, tables, cells) becomes a page map.
    Each page's characters are either copied from the content or covered
    by a table, which is spliced in once as HTML.
  - The concatenated page texts are cut into overlapping sections of about
    1000 characters, each tagged with the page it starts on.
  - The sections become search records: a sanitised id, the text, the
    category, the source page's blob name and the file name.
  - The records are uploaded in batches of 1000.
- **Chat** (`athena/libs/chat/readretrieveread.py`, `athena/libs/prompt.py`).
  - The chat history is rendered as chat markup, truncated to a character
    budget.
  - The category-exclusion filter of a search is built.
  - The search results become result lines.
  - The message list for the completion service is built.
- **File routes** (`athena/routers/file_handler.py`).
  - `upload` decides the blob names a file is stored under.
  - `remove` decides which blobs it deletes.

The analysis service, the search index, blob storage and the language model
are outside the model. Their answers are inputs:

- an `AnalyzeResult` value;
- an `upload` function from a batch to per-document success flags;
- a listing of blob names.

Python library behaviour is modelled as small functions in `PyText`:
`str(n)`, `html.escape`, `str.rfind`, `os.path.basename`/`splitext`,
`str.lower` on ASCII, and `str.replace` for one character.

Where the source works by updating variables in loops, the model is a
method with the same loops. Each such method is proved equal to a
function, and the properties are proved as lemmas about that function. The
methods are:

- `GetPageMap`, `ClaimChars`, `RenderPage`;
- `TableToHtml`;
- `ScanForward`, `ScanBackward`, `SplitText`;
- `RecordsOf`;
- `IndexSections`;
- `GetChatHistoryAsText`;
- `ChatGPTPrompt`.

Two places where the code does not do what it evidently intends are under
"Findings". In both, the model keeps the code as written and exhibits the
problem. The rest of the model uses a corrected definition.

- `split_text` can loop forever. This happens when lines 174-181 give the
  loop-head start back the value it already holds: a section reaching the
  text end has an unclosed `<table` more than 200 characters in, and that
  `<table` sits exactly at the loop-head start. A rendered table cannot
  cause this, because its tags are always closed (`TableHtmlClosed`). Page
  text that literally contains `<table` is copied unescaped
  (athena/libs/indexer.py:62) and can. The corrected loop ends instead
  of repeating that iteration. On every text where `split_text` returns,
  the model yields the same sections (`AsWrittenAgrees`), including texts
  where the loop restarts at an unclosed `<table` and then finishes
  (`SplitTextRestarts`). The two differ only on texts where the code never
  returns (`AsWrittenDecided`).
- `remove`'s name pattern deletes the wrong blobs. `RemovedBlobs` is the
  filter as written; `IntendedRemovedBlobs` deletes exactly the blobs
  `upload` stored.

In one place the code differs from a natural reading of its purpose, and
the model follows the code. `index_sections` computes a success count per
batch and drops it: nothing is summed or returned. `IndexSections`
therefore returns the batches and the count of each.

## Model

| member | source | states |
|---|---|---|
| PageMapper.TablesOnPage | athena/libs/indexer.py:42-46 | the tables kept are exactly those whose page number is the 0-based page plus one, each as often as in the input |
| PageMapper.ClaimOf | athena/libs/indexer.py:51-56 | the table claiming a position is the last one whose spans cover it (later tables overwrite), or -1 when none does |
| PageMapper.Claims | athena/libs/indexer.py:50 | one claim per character of the page span, each -1 or a valid table index |
| PageMapper.ClaimChars | athena/libs/indexer.py:50-56 | the nested loops write each position's claim: out-of-range span indices are dropped and the last covering table wins |
| PageMapper.CoversSnoc | athena/libs/indexer.py:52-56 | a position is covered by the first k+1 spans iff it is covered by the first k or by span k |
| PageMapper.SeenMeaning | athena/libs/indexer.py:59-65 | after n characters, `added_tables` holds exactly the table ids among the first n claims |
| PageMapper.FirstClaimIsUnseen | athena/libs/indexer.py:63 | the `not in added_tables` test holds exactly at the first position a table claims |
| PageMapper.PiecesStep | athena/libs/indexer.py:60-65 | an unclaimed position appends its content character, a table's first claimed position appends its HTML, any later claimed position nothing |
| PageMapper.UnreadablePage | athena/libs/indexer.py:62 | an unclaimed position beyond the content makes the page unreadable (the index raises) |
| PageMapper.RenderChar | athena/libs/indexer.py:60-65 | one loop turn extends the text and the set of added tables as the page text prescribes, or fails exactly where the content index raises |
| PageMapper.RenderPage | athena/libs/indexer.py:58-65 | the walk over the claims yields the page text, or None when reading the content raises |
| PageMapper.UnclaimedPageIsContent | athena/libs/indexer.py:58-65 | a page that no table claims is its content span, in order |
| PageMapper.RenderedOnce | athena/libs/indexer.py:63-65 | every table claiming a character has exactly one first-claimed position, at or before that character, so it is rendered exactly once |
| PageMapper.FirstIndex | athena/libs/indexer.py:63-65 | the first occurrence of a claim: it lies at or before the given one and nothing before it has the same claim |
| PageMapper.PiecesText | athena/libs/indexer.py:58-65 | the text the walk appends over the first n claims (stated by PiecesStep and UnclaimedPageIsContent) |
| PageMapper.PageText | athena/libs/indexer.py:58-65 | a page's text, or None when an unclaimed character lies past the content (stated by RenderPage and UnreadablePage) |
| PageMapper.PageTextOf | athena/libs/indexer.py:41-65 | the text of page k from its tables, claims and content, or None when reading it raises (stated by ReadPage) |
| PageMapper.ReadPage | athena/libs/indexer.py:42-65 | reading one page yields its text from its tables, claims and content |
| PageMapper.GetPageMap | athena/libs/indexer.py:38-71 | the loop yields the page map: one entry per page with the running offset, or None when a page cannot be read |
| PageMapper.PageTexts | athena/libs/indexer.py:41 | one text per page of the result |
| PageMapper.BuildMap | athena/libs/indexer.py:39-69 | the page map built from the page texts: each entry is the page number, the running offset and the text plus one space; None once a page cannot be read (stated by BuildMapStep, BuildMapWellFormed and BuildMapNoneStays) |
| PageMapper.PageMap | athena/libs/indexer.py:38-71 | the page map `get_page_map` returns (stated by GetPageMap and PageMapWellFormed) |
| PageMapper.AllText | athena/libs/indexer.py:129 | the concatenated page texts of a map (stated by EntryEnd and AllTextPrefixGrows) |
| PageMapper.BuildMapNoneStays | athena/libs/indexer.py:41-69 | once a page cannot be read, the whole map cannot be built |
| PageMapper.BuildMapStep | athena/libs/indexer.py:67-69 | the next page's entry is placed at the length of the text so far and carries its text plus one space |
| PageMapper.WellFormedAt | athena/libs/indexer.py:67-69 | in a well-formed map, entry k is page k at offset equal to the length of the earlier texts, and its text ends in the appended space |
| PageMapper.WellFormedSnoc | athena/libs/indexer.py:67-69 | appending the next page where the text so far ends keeps a map well formed |
| PageMapper.BuildMapWellFormed | athena/libs/indexer.py:39-69 | a built map has one entry per page and is well formed |
| PageMapper.BuildMapTexts | athena/libs/indexer.py:67-68 | entry k holds page k's text followed by exactly one space |
| PageMapper.AllTextPrefixGrows | athena/libs/indexer.py:129 | the linear text of a longer prefix of the map is at least as long |
| PageMapper.EntryEnd | athena/libs/indexer.py:68-69 | entry k ends exactly where the text up to and including it ends |
| PageMapper.OffsetsIncrease | athena/libs/indexer.py:39-69 | offsets start at 0 and strictly increase |
| PageMapper.PageMapWellFormed | athena/libs/indexer.py:38-71 | the page map of a result has one entry per page, is well formed, and entry k is page k's text plus a space |
| TableRenderer.CellsInRow | athena/libs/indexer.py:77 | the cells selected for row i are those with that row index, each as often as in the table |
| TableRenderer.InsertByColumn | athena/libs/indexer.py:76-79 | insertion adds the cell and keeps every other cell |
| TableRenderer.InsertByColumnBound | athena/libs/indexer.py:76-79 | a lower bound on the column indexes of the inserted cell and of the list bounds those of the result |
| TableRenderer.InsertByColumnSorted | athena/libs/indexer.py:76-79 | inserting into a list sorted by column keeps it sorted |
| TableRenderer.SortByColumn | athena/libs/indexer.py:76-79 | the sort by column index yields a sorted permutation of the cells |
| TableRenderer.InColumnInsert | athena/libs/indexer.py:76-79 | insertion puts the new cell first among the cells of its column |
| TableRenderer.SortByColumnStable | athena/libs/indexer.py:76-79 | the sort is stable: within each column the cells keep their input order |
| TableRenderer.Rows | athena/libs/indexer.py:75-81 | exactly `row_count` rows |
| TableRenderer.RowContents | athena/libs/indexer.py:75-81 | row i is sorted by column, stably, and holds exactly the cells with row index i; a cell with a row index outside [0, row_count) appears in no row |
| TableRenderer.SpanAttributes | athena/libs/indexer.py:90-94 | the span attributes of a cell (stated by SpanAttributesShape and SpanAttributesNoLt) |
| TableRenderer.CellHtml | athena/libs/indexer.py:85-95 | the markup of one cell: the tag, the span attributes, the escaped content and the closing tag (stated by CellStep, CellContentRecoverable and CellHtmlTagsOk) |
| TableRenderer.CellsHtml | athena/libs/indexer.py:84-95 | the markup of a row's cells, in order (stated by CellStep and CellsHtmlTagsOk) |
| TableRenderer.RowsHtml | athena/libs/indexer.py:82-96 | one `<tr>…</tr>` group per row, in order (stated by RowStep and RowsHtmlTagsOk) |
| TableRenderer.TableHtml | athena/libs/indexer.py:73-98 | the rows' markup wrapped in `<table>` and `</table>` (stated by TableToHtml and TableHtmlClosed) |
| TableRenderer.CellTag | athena/libs/indexer.py:85-89 | the tag is `th` iff the cell is a column or row header, else `td` |
| TableRenderer.SpanAttributesShape | athena/libs/indexer.py:90-94 | span attributes are empty iff neither span exceeds one; with both spans above one they are ` colSpan=` and the column span, then ` rowSpan=` and the row span; with one span above one they are that attribute alone, and its value reads back as the span |
| TableRenderer.CellContentRecoverable | athena/libs/indexer.py:95 | escaped cell text contains no `<` and unescapes to the original text |
| TableRenderer.CellStep | athena/libs/indexer.py:84-95 | one cell turn appends that cell's markup |
| TableRenderer.RowStep | athena/libs/indexer.py:82-96 | one row turn appends `<tr>`, the row's cells and `</tr>` |
| TableRenderer.TableToHtml | athena/libs/indexer.py:73-98 | the nested loops yield `<table>`, one `<tr>…</tr>` group per row in row order, and `</table>` |
| TableRenderer.TagsOkConcat | athena/libs/indexer.py:82-96 | markup whose tags are all safe stays safe when concatenated |
| TableRenderer.NoLtTagsOk | athena/libs/indexer.py:95 | text without `<` has only safe tags |
| TableRenderer.NumeralNoLt | athena/libs/indexer.py:92-94 | a printed integer has no `<` |
| TableRenderer.SpanAttributesNoLt | athena/libs/indexer.py:90-94 | span attributes have no `<` |
| TableRenderer.CellHtmlTagsOk | athena/libs/indexer.py:95 | the markup of a cell opens no `<table` |
| TableRenderer.CellsHtmlTagsOk | athena/libs/indexer.py:84-95 | the markup of a row's cells opens no `<table` |
| TableRenderer.RowsHtmlTagsOk | athena/libs/indexer.py:82-96 | the markup of the rows opens no `<table` |
| TableRenderer.TagsOkHasNoTableOpen | athena/libs/indexer.py:82-96 | tag-safe text has no occurrence of `<table` |
| TableRenderer.NoTableOpenBehind | athena/libs/indexer.py:74 | after the seven-character `<table>` prefix, tag-safe text adds no `<table` |
| TableRenderer.WrappedClosed | athena/libs/indexer.py:74-97 | wrapped tag-safe text has its only `<table` at 0 and its last `</table` at the end |
| TableRenderer.TableHtmlClosed | athena/libs/indexer.py:74-98 | a rendered table's last `<table` is at 0 and its last `</table` eight characters before the end: the table always closes its tag |
| PyText.Escape | athena/libs/indexer.py:95 | `html.escape` yields no markup character and never shortens the text |
| PyText.UnescapeEscape | athena/libs/indexer.py:95 | unescaping escaped text gives the original back |
| PyText.UnescapeEscapeChar | athena/libs/indexer.py:95 | unescaping an escaped character followed by any text yields that character followed by the unescaped text |
| PyText.NatToString | athena/libs/indexer.py:105 | `str` of a non-negative integer is a canonical numeral, starting with `0` only for zero |
| PyText.IntToString | athena/libs/indexer.py:105 | `str` of an integer is non-empty and starts with `-` iff the integer is negative |
| PyText.ParseNatOfNatToString | athena/libs/indexer.py:105 | reading the printed numeral back gives the number |
| PyText.ParseIntOfIntToString | athena/libs/indexer.py:114 | a printed integer is a sign and digits, and reads back as that integer |
| PyText.IntToStringInjective | athena/libs/indexer.py:105 | distinct integers print differently |
| PyText.NatToStringOfParseNat | athena/libs/indexer.py:114 | every canonical numeral is what `str` prints for its value |
| PyText.ParseNatPositive | athena/libs/indexer.py:114 | a numeral without a leading zero reads as a positive number |
| PyText.DigitChar | athena/libs/indexer.py:105 | a digit value maps to a digit character |
| PyText.DigitValue | athena/libs/indexer.py:114 | a digit character's value maps back to the character |
| PyText.RFind | athena/libs/indexer.py:174-177 | `rfind` returns -1 or an occurrence, and no occurrence lies beyond it |
| PyText.LastOccurrence | athena/libs/indexer.py:174-177 | the last occurrence at or before k, or -1 |
| PyText.OccursAtSuffix | athena/libs/indexer.py:171-177 | an occurrence in a suffix is an occurrence in the whole string, shifted |
| PyText.RFindSuffix | athena/libs/indexer.py:171-177 | `rfind` on a suffix is `rfind` on the whole string, shifted, when the hit lies in the suffix |
| PyText.FirstIn | athena/libs/indexer.py:140-147 | the first index in a window whose character is in a class, or the window end |
| PyText.LastIn | athena/libs/indexer.py:158-165 | the last index in a window whose character is in a class, or one before the window |
| PyText.FirstInAt | athena/libs/indexer.py:140-147 | the first index of a class is the only index with its two defining properties |
| PyText.LastInAt | athena/libs/indexer.py:158-165 | the last index of a class is the only index with its two defining properties |
| PyText.Slice | athena/libs/indexer.py:171 | clamped slicing is the plain slice within bounds |
| PyText.ConcatAppend | athena/libs/indexer.py:129 | concatenation distributes over appending lists of strings |
| PyText.ReplaceChar | athena/libs/chat/readretrieveread.py:148 | `replace` of one character keeps the length and changes exactly the occurrences |
| PyText.AsciiLower | athena/libs/indexer.py:113 | `lower` keeps the length and lowers character by character |
| PyText.Basename | athena/libs/indexer.py:114-116 | `basename` is the suffix after the last `/` and has no `/` |
| PyText.SplitExt | athena/libs/indexer.py:113-114 | `splitext` splits the path into a root and an extension that concatenate back; the extension is empty or one dot-led suffix without `/` |
| PyText.Stem | athena/libs/indexer.py:114 | the stem is a prefix of the base name and has no `/` |
| PyText.SplitExtAt | athena/libs/indexer.py:113-114 | a name without `/` splits at its last dot when something other than a dot comes before it |
| PyText.SplitExtOf | athena/routers/file_handler.py:16-17 | a stem followed by one dot-led extension splits back into the two |
| PyText.Parts | athena/libs/indexer.py:114 | the parts of `a + sep + b + c` can be cut back out |
| Sectionizer.SectionEnd | athena/libs/indexer.py:134-155 | the forward cut lies within the text, no later than MAX + SSL + 1 past the start; it is the text end when MAX characters do not fit, else beyond start + MAX unless it is the text end |
| Sectionizer.ForwardCut | athena/libs/indexer.py:134-155 | when not clamped: the cut follows the first sentence end in the search window, else the last word break before the limit, else the limit plus one; the text end only if no sentence end comes first |
| Sectionizer.ScanForward | athena/libs/indexer.py:134-155 | the forward-scan loop computes the forward cut |
| Sectionizer.SectionStart | athena/libs/indexer.py:157-169 | the backward cut lies between the look-back floor and start + 1 |
| Sectionizer.BackwardCut | athena/libs/indexer.py:157-169 | a section that starts after a sentence end starts after the last one up to the loop-head start, and does so whenever the look-back window holds one; with no sentence end but a word break it starts after the earliest break in the window; with neither it starts one past the floor (or at 0); a loop-head start at or below the floor is not moved back |
| Sectionizer.ScanBackward | athena/libs/indexer.py:157-169 | the backward-scan loop computes the backward cut |
| Sectionizer.NextStartAsWritten | athena/libs/indexer.py:174-181 | lines 174-181 as written: restart at the section's last `<table` when it lies more than 2·SSL characters in and after its last `</table`, but no later than SECTION_OVERLAP before the section end; otherwise keep SECTION_OVERLAP characters (its properties are stated by SectionAround, AsWrittenAdvancesUnclamped and StepAgrees) |
| Sectionizer.NextStart | athena/libs/indexer.py:174-181 | the corrected step: the start lines 174-181 compute, unless that is the loop-head start the iteration began with; then the section end minus SECTION_OVERLAP, which ends the loop (StepAgrees) |
| Sectionizer.SectionAround | athena/libs/indexer.py:133-181 | an iteration's section ends more than SECTION_OVERLAP past the loop-head start, starts at most one past it, holds at most MAX + 2·SSL characters, and the next start as written lies between 0 and the section end minus SECTION_OVERLAP |
| Sectionizer.AsWrittenAdvancesUnclamped | athena/libs/indexer.py:174-181 | a section that does not reach the text end advances the loop-head start even with the step as written |
| Sectionizer.CutAt | athena/libs/indexer.py:134-169 | the slice one iteration cuts: from the backward cut to the forward cut (its bounds are stated by StepAdvances) |
| Sectionizer.StepAsWritten | athena/libs/indexer.py:133-181 | the loop-head start after one iteration, computed as lines 174-181 do |
| Sectionizer.Step | athena/libs/indexer.py:133-181 | the loop-head start after one iteration with the corrected step |
| Sectionizer.StepAgrees | athena/libs/indexer.py:174-181 | the corrected step equals the step as written whenever that changes the loop-head start; where the step as written gives the start back unchanged, the corrected one keeps SECTION_OVERLAP characters of the section and the loop condition fails |
| Sectionizer.StepAgreesClosed | athena/libs/indexer.py:174-181 | when every `<table` of the text is followed by a `</table`, the corrected step equals the step as written |
| Sectionizer.RestartIsLast | athena/libs/indexer.py:133-181 | an iteration at the text's last `<table` whose section reaches the text end is the final one |
| Sectionizer.ClampedStep | athena/libs/indexer.py:133-181 | after a section that reaches the text end the loop either ends or runs exactly one more iteration, from the text's last `<table`; that section reaches the text end too and is the final one |
| Sectionizer.StepAdvances | athena/libs/indexer.py:133-181 | one iteration cuts a slice within the text, of at most MAX + 2·SSL characters, starting at most one past the loop-head start and ending past it plus the overlap; the next start keeps SECTION_OVERLAP characters of it, advances when the section ends before the text does, and lowers the rank |
| Sectionizer.Cuts | athena/libs/indexer.py:133-181 | the slices the corrected loop cuts from a loop-head start on, in order (its properties are stated by CutsReachEnd, CutsOverlap, CutBounds, CutsCover and CutsShape) |
| Sectionizer.CutsAsWritten | athena/libs/indexer.py:133-181 | the slices the loop as written cuts within a number of iterations, or None when it has not finished by then |
| Sectionizer.CutsCorrect | athena/libs/indexer.py:133-181 | the corrected loop takes the as-written step at every loop-head start that step changes, and yields the cut at its start followed by the cuts from its next start |
| Sectionizer.AsWrittenRepeats | athena/libs/indexer.py:133-181 | a loop-head start that lines 174-181 give back unchanged, while the loop condition holds, makes the loop as written run forever: it has not finished after any number of iterations |
| Sectionizer.AsWrittenAgrees | athena/libs/indexer.py:133-181 | whenever the loop as written finishes, it has cut exactly the sections of the corrected loop |
| Sectionizer.RankDecreases | athena/libs/indexer.py:133-181 | every iteration of the corrected loop lowers the rank, so the corrected loop always ends |
| Sectionizer.AsWrittenDecided | athena/libs/indexer.py:133-181 | from every loop-head start, the loop as written either finishes with exactly the corrected loop's sections or never finishes |
| Sectionizer.StallTextChars | athena/libs/indexer.py:174-181 | the first counterexample text has 307 characters, one `<table` at 201, and no sentence end or word break |
| Sectionizer.StallTextSteps | athena/libs/indexer.py:133-181 | on that text, the iteration at 0 cuts [0, 307) and moves to 201; the iteration at 201 cuts [0, 307) again and stays at 201 while the loop condition holds |
| Sectionizer.StallNeverFinishes | athena/libs/indexer.py:133-181 | on that text the loop as written never finishes |
| Sectionizer.StallCuts | athena/libs/indexer.py:133-181 | on that text the corrected loop cuts [0, 307) twice and ends: the iterations the source runs before it starts repeating |
| Sectionizer.SplitTextStalls | athena/libs/indexer.py:133-181 | on that text the loop as written never finishes, and the corrected loop ends after the two iterations the source runs before repeating |
| Sectionizer.RestartTextChars | athena/libs/indexer.py:174-181 | the second text has 400 characters, a `.` at 245, one `<table` at 250, no other sentence end and no word break |
| Sectionizer.RestartTextSteps | athena/libs/indexer.py:133-181 | on that text, the iteration at 0 cuts [0, 400) and restarts at the unclosed `<table` at 250; the iteration at 250 cuts [246, 400) and moves to 300, where the loop condition fails |
| Sectionizer.SplitTextRestarts | athena/libs/indexer.py:133-181 | on that text the loop as written finishes after two iterations with [0, 400) and [246, 400), and the corrected loop cuts the same two sections |
| Sectionizer.FindPage | athena/libs/indexer.py:122-127 | the `find_page` loop computes the page of an offset |
| Sectionizer.PageFromLocates | athena/libs/indexer.py:122-127 | in a well-formed map, searching from page i names a page at or after i whose text holds the offset |
| Sectionizer.PageOfLocates | athena/libs/indexer.py:122-127 | in a well-formed map, `find_page` names the page whose text holds the offset |
| Sectionizer.PageFrom | athena/libs/indexer.py:122-127 | the page `find_page` names when its loop starts at page i: the first page from i on whose offset range holds the offset, else the last page (stated by PageFromLocates) |
| Sectionizer.PageOf | athena/libs/indexer.py:122-127 | the page `find_page` names for an offset (stated by PageOfLocates) |
| Sectionizer.Sections | athena/libs/indexer.py:118-184 | the sections `split_text` yields for a page map: each corrected cut of the linear text, tagged with the page of its first character (stated by SplitText and SectionIsSlice) |
| Sectionizer.SectionsOf | athena/libs/indexer.py:171-172 | one section per cut |
| Sectionizer.SectionsOfAt | athena/libs/indexer.py:171-172 | section i is slice i of the text, tagged with the page of its first character |
| Sectionizer.SectionsOfCons | athena/libs/indexer.py:171-172 | the sections of a cut followed by more cuts are that cut's section followed by theirs |
| Sectionizer.NextSectionStart | athena/libs/indexer.py:174-181 | lines 174-181 on the section text, followed by the correction: the result is the corrected step NextStart |
| Sectionizer.CutSection | athena/libs/indexer.py:133-181 | one iteration yields the section of the cut at the loop-head start and the next start |
| Sectionizer.SplitText | athena/libs/indexer.py:118-184 | the splitter yields exactly the sections of the cuts; lines 183-184 never add a section |
| Sectionizer.CutsReachEnd | athena/libs/indexer.py:133-181 | the last section ends at the text end |
| Sectionizer.CutsOverlap | athena/libs/indexer.py:157-181 | each section starts at least SECTION_OVERLAP - 1 characters before the previous one ends (a section may start one past its loop-head start) |
| Sectionizer.CutBounds | athena/libs/indexer.py:157-172 | every section is a non-empty slice of the text of at most MAX + 2·SSL characters |
| Sectionizer.CutsCover | athena/libs/indexer.py:133-181 | every position from the first section's start to the text end lies in some section |
| Sectionizer.CutsShape | athena/libs/indexer.py:133-181 | for every text, the empty one included, there are no sections iff it has at most SECTION_OVERLAP characters; otherwise the first starts at 0, the last ends at the text end, and every position of the text lies in some section |
| Sectionizer.NoCutsOfEmpty | athena/libs/indexer.py:133 | the empty text yields no sections |
| Sectionizer.SectionIsSlice | athena/libs/indexer.py:118-172 | section i of a well-formed map is a non-empty slice of the linear text of at most MAX + 2·SSL characters, tagged with the page holding its first character |
| BlobNaming.IsPdf | athena/libs/indexer.py:113 | a file is a PDF when its extension, lowered, is `.pdf` (stated by PdfNamed and LowerPdf) |
| BlobNaming.BlobNameFromFilePage | athena/libs/indexer.py:112-116 | the blob name of a file's page: the stem, `-`, the page and `.pdf` for a PDF, else the base name (stated by BlobNameShape, PageNamesDistinct and BlobNameFlat) |
| BlobNaming.BlobNameShape | athena/libs/indexer.py:112-116 | a PDF page's name is the stem, `-`, the decimal page and `.pdf`, and the page reads back from it; any other file is named by its base name whatever the page, which is also its default-page name |
| BlobNaming.PageNamesDistinct | athena/routers/file_handler.py:15-19 | different pages of a PDF get different names |
| BlobNaming.BlobNameFlat | athena/routers/file_handler.py:15-19 | blob names never contain `/` |
| BlobNaming.PdfNameFlat | athena/routers/file_handler.py:17 | a stem without `/`, a dash, a page and `.pdf` contain no `/` |
| BlobNaming.IntToStringNoSlash | athena/routers/file_handler.py:17 | a printed page number has no `/` |
| BlobNaming.PdfNamed | athena/routers/file_handler.py:16-17 | `<stem>.pdf` is a PDF with that stem, when the stem has no `/` and is not all dots |
| BlobNaming.LowerPdf | athena/routers/file_handler.py:16 | lowering `.pdf` leaves it unchanged |
| FileHandler.UploadBlobNames | athena/routers/file_handler.py:26-38 | a PDF upload stores one blob per page, page i under the name of page i; any other upload stores one blob under the default-page name |
| FileHandler.UploadNamesDistinct | athena/routers/file_handler.py:29-30 | the page blobs of a PDF upload are pairwise distinct |
| FileHandler.Filter | athena/routers/file_handler.py:85-90 | the kept items are exactly those of the listing that satisfy the test, each as often as it is listed, in listing order |
| FileHandler.RemoveMatches | athena/routers/file_handler.py:86 | the test `re.match` makes: the blob name starts with the stem, `-` and a digit (stated by RemoveListingImplied, RemoveOvermatches and RemoveMissesNonPdf) |
| FileHandler.RemoveSelects | athena/routers/file_handler.py:84-90 | a listed blob is selected when it starts with the listing prefix and the pattern matches it (stated by RemovedBlobs) |
| FileHandler.IsUploadedBlobName | athena/routers/file_handler.py:15-19 | the corrected test: a blob name is one `upload` stores for the file (stated by UploadedBlobNamesExact) |
| FileHandler.RemovedBlobs | athena/routers/file_handler.py:81-90 | with no file name every listed blob is deleted; otherwise exactly the listed blobs the name filter selects, in listing order |
| FileHandler.RemoveListingImplied | athena/routers/file_handler.py:84-88 | a match of the pattern already starts with the listing prefix |
| FileHandler.RemoveAcceptsUploaded | athena/routers/file_handler.py:29-88 | for a PDF whose stem is a literal pattern, removal selects every page blob `upload` stored for it |
| FileHandler.UploadedBlobNameExact | athena/routers/file_handler.py:15-19 | the corrected removal test selects exactly the names of the file's pages |
| FileHandler.IntendedRemovedBlobs | athena/routers/file_handler.py:81-90 | corrected removal: with no file name every listed blob, otherwise exactly the listed blobs that are names of the file's pages |
| FileHandler.UploadedBlobNamesExact | athena/routers/file_handler.py:15-19 | for every blob name, the corrected test holds iff it is the name of one of the file's pages |
| FileHandler.UploadedIsPageName | athena/routers/file_handler.py:15-19 | every name the corrected test accepts is a page name of the file |
| FileHandler.UploadedPdfIsPageName | athena/routers/file_handler.py:16-17 | for a PDF, every accepted name is the name of the page its numeral spells |
| FileHandler.PdfPageNameOf | athena/routers/file_handler.py:17 | a canonical numeral between the stem and `.pdf` names the page it spells |
| FileHandler.Reassemble | athena/routers/file_handler.py:17 | a string with a known head and tail is the head, the middle and the tail |
| FileHandler.PageNameIsUploaded | athena/routers/file_handler.py:15-19 | the corrected test accepts the name of every page |
| FileHandler.RemoveOvermatches | athena/routers/file_handler.py:84-86 | removing `<stem>.pdf` selects the page blobs of `<stem>-2.pdf`, which `upload` never stored for `<stem>.pdf` |
| FileHandler.OtherBlob | athena/routers/file_handler.py:15-17 | `<stem>-2.pdf` is a PDF and its page blobs are `<stem>-2-<page>.pdf` |
| FileHandler.OtherBlobShape | athena/routers/file_handler.py:86 | `<stem>-2-<d>.pdf` starts with the stem, a dash and a digit, but its page part is not a numeral |
| FileHandler.RemoveMissesNonPdf | athena/routers/file_handler.py:38-86 | removing a file that is not a PDF never selects the one blob `upload` stored for it |
| FileHandler.NoDashAfterStem | athena/routers/file_handler.py:84-86 | a stem followed by an empty or dot-led extension has no dash right after the stem |
| Provenance.SanitizeId | athena/libs/indexer.py:105 | the sanitised id has the input's length, and each character is kept when it is in `[0-9a-zA-Z_-]`, else replaced by `_` |
| Provenance.SanitizeIdClean | athena/libs/indexer.py:105 | a sanitised id uses only the id alphabet, sanitising is idempotent, and it leaves text in the alphabet unchanged |
| Provenance.SanitizeIdAppend | athena/libs/indexer.py:105 | sanitising distributes over concatenation |
| Provenance.SanitizeDash | athena/libs/indexer.py:105 | the dash is kept |
| Provenance.RecordId | athena/libs/indexer.py:105 | the id of section i: the sanitised `<file name>-<i>` (stated by RecordIdShape and RecordIdsDistinct) |
| Provenance.RecordIdShape | athena/libs/indexer.py:105 | the id of section i is the sanitised file name, `-` and the decimal position |
| Provenance.RecordIdsDistinct | athena/libs/indexer.py:103-105 | the sections of one file get pairwise distinct ids |
| Provenance.DropHead | athena/libs/indexer.py:105 | dropping the head of a concatenation leaves the rest |
| Provenance.Indexed | athena/libs/indexer.py:103 | the enumerate map has one result per item |
| Provenance.IndexedAt | athena/libs/indexer.py:103 | result i is computed from position i and item i |
| Provenance.IndexedSnoc | athena/libs/indexer.py:103 | mapping a prefix one item longer appends that item's result |
| Provenance.SectionRecord | athena/libs/indexer.py:104-110 | the record of section i: its id, the section text, the category, the blob name of the section's page and the file name (stated by RecordsAt and RecordProvenance) |
| Provenance.Records | athena/libs/indexer.py:103-110 | one record per section |
| Provenance.RecordsAt | athena/libs/indexer.py:104-110 | record i is the record of section i at position i |
| Provenance.RecordsOf | athena/libs/indexer.py:103-110 | the enumerate loop yields the records of the sections in order |
| Provenance.CreateSections | athena/libs/indexer.py:100-110 | `create_sections` yields the records of the sections `split_text` yields |
| Provenance.RecordProvenance | athena/libs/indexer.py:100-116 | record i has id i, the file name and the category unchanged, and its text is a window of the document; its source page is the blob of the page holding the window's start, a name `upload` stores for the file |
| BatchIndexer.BatchCountBounds | athena/libs/indexer.py:186-199 | the number of uploads is n/1000 rounded up: the least count whose batches hold all n records, and zero exactly for no records |
| BatchIndexer.Batches | athena/libs/indexer.py:186-199 | the uploads number ⌈n/1000⌉ |
| BatchIndexer.BatchSizes | athena/libs/indexer.py:192-197 | every batch holds between 1 and 1000 records, all but the last exactly 1000 |
| BatchIndexer.BatchesSnoc | athena/libs/indexer.py:192-195 | one more full batch adds one upload of those 1000 records |
| BatchIndexer.BatchesLast | athena/libs/indexer.py:197-199 | the non-empty rest after the full batches is the last upload |
| BatchIndexer.FlattenAppend | athena/libs/indexer.py:186-199 | flattening distributes over appending one batch |
| BatchIndexer.BatchesFlatten | athena/libs/indexer.py:186-199 | the uploaded batches, concatenated, are the records in order |
| BatchIndexer.CountTrue | athena/libs/indexer.py:194-199 | the success count of a batch is the number of `true` flags, so at most the number of flags |
| BatchIndexer.Counts | athena/libs/indexer.py:194-199 | one success count per upload |
| BatchIndexer.CountsSnoc | athena/libs/indexer.py:194 | one more upload appends its success count |
| BatchIndexer.FullAt | athena/libs/indexer.py:192 | `i % 1000 == 0` after appending a record holds exactly when the batch is full |
| BatchIndexer.IndexSections | athena/libs/indexer.py:186-199 | the loop uploads exactly the batches, in order, and computes each one's success count |
| BatchIndexer.Flush | athena/libs/indexer.py:192-195 | uploading a full batch keeps the uploads equal to the batches of the records seen so far |
| ReadRetrieveRead.NoNewlines | athena/libs/chat/readretrieveread.py:146-148 | no `\n` or `\r` remains, the length is kept, and every other character is unchanged |
| ReadRetrieveRead.NoNewlinesIdempotent | athena/libs/chat/readretrieveread.py:146-148 | applying it twice is applying it once |
| ReadRetrieveRead.DoubleQuotes | athena/libs/chat/readretrieveread.py:67 | doubling quotes never shortens the text |
| ReadRetrieveRead.DoubleQuotesRoundTrip | athena/libs/chat/readretrieveread.py:67 | doubling yields a well-formed literal body that reads back as the value |
| ReadRetrieveRead.UndoubleRoundTrip | athena/libs/chat/readretrieveread.py:67 | every well-formed literal body is the doubling of the value it stands for |
| ReadRetrieveRead.SearchFilter | athena/libs/chat/readretrieveread.py:66-70 | there is no filter iff the excluded category is missing or empty |
| ReadRetrieveRead.SearchFilterParses | athena/libs/chat/readretrieveread.py:66-70 | the filter is `category ne '`, a well-formed literal body that reads back as the category, and `'` |
| ReadRetrieveRead.SearchFilterInjective | athena/libs/chat/readretrieveread.py:66-70 | different categories give different filters |
| ReadRetrieveRead.ResultLines | athena/libs/chat/readretrieveread.py:86-101 | one line per document, in the order the search returned them |
| ReadRetrieveRead.ResultLine | athena/libs/chat/readretrieveread.py:86-101 | the line of one search document: its source page, `: ` and its text with newlines blanked (stated by ResultLineShape) |
| ReadRetrieveRead.ResultLineShape | athena/libs/chat/readretrieveread.py:86-101 | a line is the source page, `: `, and its text with newlines blanked (the captions joined by ` . ` under semantic captions, else the content); it holds a newline only if the source page does |
| ReadRetrieveRead.TurnBlock | athena/libs/chat/readretrieveread.py:129-140 | the chat-markup block of one turn (stated by TurnBlockShape) |
| ReadRetrieveRead.TurnBlockShape | athena/libs/chat/readretrieveread.py:129-140 | a block is the user head, the question, the assistant head, then the reply and its end marker only when the turn was answered, and a newline |
| ReadRetrieveRead.ConcatMapAppend | athena/libs/chat/readretrieveread.py:128-141 | the text of two stretches of items is the concatenation of their texts |
| ReadRetrieveRead.HistoryTextAppend | athena/libs/chat/readretrieveread.py:128-141 | the text of two stretches of turns is the concatenation of their texts |
| ReadRetrieveRead.HistoryTextPrepend | athena/libs/chat/readretrieveread.py:129-141 | one more earlier turn puts its block in front of the text |
| ReadRetrieveRead.KeptFromBound | athena/libs/chat/readretrieveread.py:128-143 | the loop keeps at least the turns that already fitted, and at least one more when any is left |
| ReadRetrieveRead.KeptFromSpec | athena/libs/chat/readretrieveread.py:128-143 | the loop stops at the first count whose text exceeds the budget, or at all turns |
| ReadRetrieveRead.KeptCount | athena/libs/chat/readretrieveread.py:128-143 | the number of latest turns the loop keeps under a character limit (stated by KeptCountMinimal) |
| ReadRetrieveRead.KeptCountMinimal | athena/libs/chat/readretrieveread.py:142-143 | the kept count is every considered turn or the smallest count whose text exceeds 4 × the token budget; every shorter stretch of latest turns fits |
| ReadRetrieveRead.HistoryAsText | athena/libs/chat/readretrieveread.py:121-144 | the text `get_chat_history_as_text` returns (stated by HistoryAsTextShape and GetChatHistoryAsText) |
| ReadRetrieveRead.HistoryAsTextShape | athena/libs/chat/readretrieveread.py:127-144 | the result is the blocks of the latest KeptCount considered turns under a limit of 4 × the token budget, oldest first; the last turn is left out when asked; no turns give the empty text |
| ReadRetrieveRead.GetChatHistoryAsText | athena/libs/chat/readretrieveread.py:121-144 | the loop with its early break yields the truncated history text |
| Prompt.Fill2Fields | athena/libs/prompt.py:21 | a template with two fields filled in splits back into its five parts |
| Prompt.GPTPrompt | athena/libs/prompt.py:4-21 | the query prompt with the history and the question filled in (stated by GPTPromptFields and GPTPromptInjective) |
| Prompt.GPTPromptFields | athena/libs/prompt.py:4-21 | the query prompt is the fixed template with the history at `{chat_history}` and the question at `{question}`, history first, and both can be cut back out |
| Prompt.GPTPromptInjective | athena/libs/prompt.py:4-21 | prompts that agree, given histories of the same length, come from the same history and question |
| Prompt.FollowUpQuestions | athena/libs/chat/readretrieveread.py:42-44 | the follow-up instruction is non-empty iff suggestions are asked for, and it is then the fixed prompt |
| Prompt.SystemContent | athena/libs/prompt.py:39-47 | the system message text with the follow-up instruction and the sources filled in (stated by SystemContentFields) |
| Prompt.SystemContentFields | athena/libs/prompt.py:39-47 | the system message holds the follow-up instruction and the sources at fixed places |
| Prompt.HistoryMessages | athena/libs/prompt.py:55-65 | two messages per turn |
| Prompt.HistoryMessagesAt | athena/libs/prompt.py:55-65 | turn k gives the user message and then the assistant message, at positions 2k and 2k+1 |
| Prompt.HistoryMessagesSnoc | athena/libs/prompt.py:55-65 | one more turn appends its two messages |
| Prompt.AppendTwo | athena/libs/prompt.py:56-64 | appending two messages one after the other is appending the pair |
| Prompt.PromptMessages | athena/libs/prompt.py:39-67 | the message list `ChatGPTPrompt` returns (stated by PromptMessagesShape and ChatGPTPrompt) |
| Prompt.PromptMessagesShape | athena/libs/prompt.py:39-65 | 2 + 2 × (number of turns) messages: the system message with the sources and the follow-up instruction, the fixed greeting, then per turn (user, question, `employee`) and (assistant, the reply or `""`, `athena`) in order |
| Prompt.ChatGPTPrompt | athena/libs/prompt.py:35-67 | the loop yields that message list |

## Left out

- Analysing the document (athena/libs/indexer.py:25-36) is left out and the analysis result is an input. It is a long-running call to a foreign service.
- The search client's `upload_documents` is a parameter. It is a network call: the model receives only the per-document success flags of each batch.
- BatchIndexer.IndexSections: it returns the per-batch counts. The source computes them and discards them.
- Pages are read through their first span, and tables placed by their first bounding region (athena/libs/indexer.py:45, 48-49). The source reads only those, so `Page` carries one span.
- Sectionizer.SplitText: it uses the corrected step, not the one at athena/libs/indexer.py:174-181, so it does not model the non-termination of the code. The code as written is `StepAsWritten` and `CutsAsWritten`. The two loops yield the same sections on every text where the code returns (`AsWrittenAgrees`, `AsWrittenDecided`). They take the same step on every text whose `<table` tags are closed (`StepAgreesClosed`), which includes all markup the renderer produces (`TableHtmlClosed`).
- Lines 183-184 of athena/libs/indexer.py are not a separate branch: the model proves they never add a section.
- `run`, `build_search_query` and the search calls are left out (athena/libs/chat/readretrieveread.py:28-61, 71-85, 104-119). They call the language model and the search service; the join of the result lines at line 40 belongs to `run`.
- The sampling temperature of `Overrides` is not modelled, because it is a float passed to the completion service.
- Blob storage is left out: PDF splitting, uploads, deletions, listing iteration and the polling loop of `remove` (athena/routers/file_handler.py:24-57, 91-104). These are I/O; only the naming is modelled.
- The HTTP routes and the application wiring (athena/routers/chat.py, athena/main.py, athena/core/lifespan.py), logging and configuration are outside the model. They are plumbing.
- FileHandler.RemoveMatches: it models the pattern only for file stems that are literal patterns (no regular-expression metacharacter). Other stems are outside the model.
- FileHandler.RemoveMatches: `\d` is read as an ASCII digit.
- PyText.AsciiLower: `str.lower` is modelled on ASCII letters only. That is enough to compare an extension with `.pdf`.
- Records are datatypes and dictionary lookup is field access (`doc[self.sourcepage_field]` becomes `sourcepage`). The field names are configuration.
- `str` is modelled on Python's unbounded integers. No width or overflow applies.

## Findings

| source | as written | input that shows it | evidently intended | confidence | as-written member | corrected member |
|---|---|---|---|---|---|---|
| athena/libs/indexer.py:174-181 | An iteration whose section reaches the text end restarts at the section's last unclosed `<table` when that lies more than 200 characters in. When that `<table` sits exactly at the loop-head start, the start is given back its own value. | 201 × `a`, then `<table`, then 100 × `a` (307 characters): the loop-head start goes 0 → 201 → 201 → … and `split_text` never returns. | `split_text` always returns: an iteration that would leave the loop-head start where it was ends the loop, and every section the code yields before it starts repeating is kept. | not executed | Sectionizer.StepAsWritten, Sectionizer.CutsAsWritten, Sectionizer.SplitTextStalls | Sectionizer.Step, Sectionizer.AsWrittenAgrees, Sectionizer.SplitText |
| athena/routers/file_handler.py:84-86 | `re.match(f"{prefix}-\d+\.*", b)` needs only the stem, a dash and one digit at the start of the blob name. | Removing `report.pdf` also deletes `report-2-0.pdf`, a page of `report-2.pdf`. Removing `notes.txt` never deletes its blob `notes.txt`. | Delete exactly the blobs `upload` stored for the file. | not executed | FileHandler.RemoveSelects, FileHandler.RemoveOvermatches, FileHandler.RemoveMissesNonPdf | FileHandler.IsUploadedBlobName, FileHandler.UploadedBlobNameExact, FileHandler.IntendedRemovedBlobs |
