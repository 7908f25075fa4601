/**
 * The page map (`get_page_map`): for every page, each character of the
 * page's span is claimed by the last table on that page whose spans cover
 * it; unclaimed characters are copied from the content, each claiming
 * table is spliced in once as HTML at its first claimed character, and a
 * space closes the page. Entries carry the running offset of the page text
 * in the linear text that the sectionizer later splits.
 */
module PageMapper {

  import opened Wrappers
  import opened PyText
  import opened Analysis
  import opened TableRenderer

  /** A page-map entry: 0-based page index, offset in the linear text, page text. */
  datatype Entry = Entry(pageNum: nat, offset: nat, text: string)

  // ---------------------------------------------------------------------
  // Which table claims a character
  // ---------------------------------------------------------------------

  /** The tables whose first bounding region lies on page `pageNum` (0-based). */
  function TablesOnPage(tables: seq<Table>, pageNum: nat): (r: seq<Table>)
    ensures forall t :: t in r <==> t in tables && t.pageNumber == pageNum + 1
    ensures forall t :: multiset(r)[t] == if t.pageNumber == pageNum + 1 then multiset(tables)[t] else 0
  {
    if tables == [] then []
    else
      assert tables == tables[..|tables| - 1] + [tables[|tables| - 1]];
      var last := tables[|tables| - 1];
      TablesOnPage(tables[..|tables| - 1], pageNum) + (if last.pageNumber == pageNum + 1 then [last] else [])
  }

  predicate InSpan(s: Span, p: int)
  {
    s.offset <= p < s.offset + s.length
  }

  /** Some span of `spans` covers content position `p`. */
  predicate Covers(spans: seq<Span>, p: int)
  {
    exists k :: 0 <= k < |spans| && InSpan(spans[k], p)
  }

  lemma CoversSnoc(spans: seq<Span>, k: nat, p: int)
    requires k < |spans|
    ensures Covers(spans[..k + 1], p) <==> Covers(spans[..k], p) || InSpan(spans[k], p)
  {
    if InSpan(spans[k], p) {
      assert spans[..k + 1][k] == spans[k];
    }
    if Covers(spans[..k], p) {
      var q :| 0 <= q < k && InSpan(spans[..k][q], p);
      assert spans[..k + 1][q] == spans[..k][q];
    }
    if Covers(spans[..k + 1], p) {
      var q :| 0 <= q < k + 1 && InSpan(spans[..k + 1][q], p);
      if q < k {
        assert spans[..k][q] == spans[..k + 1][q];
      }
    }
  }

  /**
   * The id (index into `tables`) of the table that ends up claiming content
   * position `p`: the last one covering it, since later tables overwrite;
   * -1 when none does.
   */
  function ClaimOf(tables: seq<Table>, p: int): (r: int)
    ensures -1 <= r < |tables|
    ensures r >= 0 ==> Covers(tables[r].spans, p)
    ensures forall t :: r < t < |tables| ==> !Covers(tables[t].spans, p)
  {
    if tables == [] then -1
    else if Covers(tables[|tables| - 1].spans, p) then |tables| - 1
    else ClaimOf(tables[..|tables| - 1], p)
  }

  /** The claim of every character of the page span [offset, offset + length). */
  function Claims(tables: seq<Table>, offset: nat, length: nat): (claims: seq<int>)
    ensures |claims| == length
    ensures forall j :: 0 <= j < length ==> -1 <= claims[j] < |tables|
  {
    var claims := seq(length, j requires 0 <= j < length => ClaimOf(tables, offset + j));
    assert forall j :: 0 <= j < length ==> claims[j] == ClaimOf(tables, offset + j);
    claims
  }

  /**
   * Lines 50-56: `table_chars` starts all -1 and every table writes its id
   * over the in-range characters of its spans; out-of-range indices are
   * dropped.
   */
  method ClaimChars(tables: seq<Table>, pageOffset: nat, pageLength: nat) returns (claims: seq<int>)
    ensures claims == Claims(tables, pageOffset, pageLength)
  {
    var tableChars := new int[pageLength](_ => -1);
    for tableId := 0 to |tables|
      invariant forall j :: 0 <= j < pageLength ==> tableChars[j] == ClaimOf(tables[..tableId], pageOffset + j)
    {
      var table := tables[tableId];
      for k := 0 to |table.spans|
        invariant forall j :: 0 <= j < pageLength ==>
          tableChars[j] == if Covers(table.spans[..k], pageOffset + j) then tableId
                           else ClaimOf(tables[..tableId], pageOffset + j)
      {
        var span := table.spans[k];
        for i := 0 to span.length
          invariant forall j :: 0 <= j < pageLength ==>
            tableChars[j] == if Covers(table.spans[..k], pageOffset + j) || span.offset <= pageOffset + j < span.offset + i
                             then tableId
                             else ClaimOf(tables[..tableId], pageOffset + j)
        {
          var idx := span.offset - pageOffset + i;
          if idx >= 0 && idx < pageLength {
            tableChars[idx] := tableId;
          }
        }
        forall p | pageOffset <= p < pageOffset + pageLength
          ensures Covers(table.spans[..k + 1], p) <==> Covers(table.spans[..k], p) || InSpan(span, p)
        {
          CoversSnoc(table.spans, k, p);
        }
      }
      assert table.spans[..|table.spans|] == table.spans;
      assert tables[..tableId + 1][..tableId] == tables[..tableId];
    }
    assert tables[..|tables|] == tables;
    claims := tableChars[..];
  }

  // ---------------------------------------------------------------------
  // Walking the claims
  // ---------------------------------------------------------------------

  /** Position j is the first character claimed by its table. */
  predicate FirstClaim(claims: seq<int>, j: int)
    requires 0 <= j < |claims|
  {
    claims[j] != -1 && claims[j] !in claims[..j]
  }

  /** The tables met among the first n characters: what `added_tables` holds after n steps. */
  function Seen(claims: seq<int>, n: nat): set<int>
    requires n <= |claims|
  {
    if n == 0 then {} else Seen(claims, n - 1) + (if claims[n - 1] != -1 then {claims[n - 1]} else {})
  }

  lemma {:induction false} SeenMeaning(claims: seq<int>, n: nat, c: int)
    requires n <= |claims|
    ensures c in Seen(claims, n) <==> c != -1 && c in claims[..n]
  {
    if n > 0 {
      SeenMeaning(claims, n - 1, c);
      assert claims[..n] == claims[..n - 1] + [claims[n - 1]];
    }
  }

  lemma FirstClaimIsUnseen(claims: seq<int>, j: nat)
    requires j < |claims|
    ensures FirstClaim(claims, j) <==> claims[j] != -1 && claims[j] !in Seen(claims, j)
  {
    SeenMeaning(claims, j, claims[j]);
  }

  /** Every unclaimed character among the first n lies inside the content. */
  predicate Readable(content: string, offset: nat, claims: seq<int>, n: nat)
    requires n <= |claims|
  {
    forall j :: 0 <= j < n && claims[j] == -1 ==> offset + j < |content|
  }

  /** What position j contributes: its character, its table's markup the first time, or nothing. */
  function Piece(content: string, offset: nat, claims: seq<int>, tables: seq<Table>, j: nat): string
    requires j < |claims| && -1 <= claims[j] < |tables|
  {
    if claims[j] == -1 then (if offset + j < |content| then [content[offset + j]] else "")
    else if claims[j] !in Seen(claims, j) then TableHtml(tables[claims[j]])
    else ""
  }

  predicate ValidClaims(claims: seq<int>, tables: seq<Table>)
  {
    forall j :: 0 <= j < |claims| ==> -1 <= claims[j] < |tables|
  }

  function PiecesText(content: string, offset: nat, claims: seq<int>, tables: seq<Table>, n: nat): string
    requires n <= |claims| && ValidClaims(claims, tables)
  {
    if n == 0 then "" else PiecesText(content, offset, claims, tables, n - 1) + Piece(content, offset, claims, tables, n - 1)
  }

  /** The text of a page, or None when an unclaimed character lies past the content (an IndexError). */
  function PageText(content: string, offset: nat, claims: seq<int>, tables: seq<Table>): Option<string>
    requires ValidClaims(claims, tables)
  {
    if Readable(content, offset, claims, |claims|) then Some(PiecesText(content, offset, claims, tables, |claims|))
    else None
  }

  /** One step of the walk: what position n appends to the text so far. */
  lemma PiecesStep(content: string, offset: nat, claims: seq<int>, tables: seq<Table>, n: nat)
    requires n < |claims| && ValidClaims(claims, tables)
    ensures var before := PiecesText(content, offset, claims, tables, n);
      PiecesText(content, offset, claims, tables, n + 1)
      == if claims[n] == -1 then before + (if offset + n < |content| then [content[offset + n]] else "")
         else if claims[n] !in Seen(claims, n) then before + TableHtml(tables[claims[n]])
         else before
  {
    var before := PiecesText(content, offset, claims, tables, n);
    if claims[n] != -1 && claims[n] in Seen(claims, n) {
      assert before + "" == before;
    }
  }

  lemma UnreadablePage(content: string, offset: nat, claims: seq<int>, tables: seq<Table>, j: nat)
    requires ValidClaims(claims, tables) && j < |claims|
    requires claims[j] == -1 && offset + j >= |content|
    ensures PageText(content, offset, claims, tables) == None
  {
  }

  lemma ReadableStep(content: string, offset: nat, claims: seq<int>, n: nat)
    requires n < |claims| && Readable(content, offset, claims, n)
    requires claims[n] == -1 ==> offset + n < |content|
    ensures Readable(content, offset, claims, n + 1)
  {
  }

  /**
   * Lines 58-65: unclaimed characters are copied, and a table's markup is
   * appended the first time one of its characters is met, which the
   * `added_tables` set records.
   */
  method RenderPage(content: string, pageOffset: nat, claims: seq<int>, tables: seq<Table>)
    returns (pageText: Option<string>)
    requires ValidClaims(claims, tables)
    ensures pageText == PageText(content, pageOffset, claims, tables)
  {
    var text := "";
    var addedTables: set<int> := {};
    for idx := 0 to |claims|
      invariant Readable(content, pageOffset, claims, idx)
      invariant text == PiecesText(content, pageOffset, claims, tables, idx)
      invariant addedTables == Seen(claims, idx)
    {
      var ok;
      text, addedTables, ok := RenderChar(content, pageOffset, claims, tables, idx, text, addedTables);
      if !ok {
        return None;
      }
    }
    pageText := Some(text);
  }

  /** One turn of the loop of lines 60-65; `ok` is false where the content index raises. */
  method RenderChar(content: string, pageOffset: nat, claims: seq<int>, tables: seq<Table>, idx: nat,
                    text: string, addedTables: set<int>)
    returns (text': string, addedTables': set<int>, ok: bool)
    requires ValidClaims(claims, tables) && idx < |claims|
    requires Readable(content, pageOffset, claims, idx)
    requires text == PiecesText(content, pageOffset, claims, tables, idx)
    requires addedTables == Seen(claims, idx)
    ensures ok ==> Readable(content, pageOffset, claims, idx + 1)
    ensures ok ==> text' == PiecesText(content, pageOffset, claims, tables, idx + 1)
    ensures ok ==> addedTables' == Seen(claims, idx + 1)
    ensures !ok ==> PageText(content, pageOffset, claims, tables) == None
  {
    var tableId := claims[idx];
    PiecesStep(content, pageOffset, claims, tables, idx);
    text', addedTables', ok := text, addedTables, true;
    if tableId == -1 {
      if pageOffset + idx >= |content| {
        UnreadablePage(content, pageOffset, claims, tables, idx);
        ok := false;
        return;
      }
      text' := text + [content[pageOffset + idx]];
    } else if tableId !in addedTables {
      var html := TableToHtml(tables[tableId]);
      text' := text + html;
      addedTables' := addedTables + {tableId};
    }
    ReadableStep(content, pageOffset, claims, idx);
  }

  // ---------------------------------------------------------------------
  // Properties of a page's text
  // ---------------------------------------------------------------------

  /** A page no table claims is its span of the content, in order. */
  lemma {:induction false} UnclaimedPageIsContent(content: string, offset: nat, claims: seq<int>, tables: seq<Table>, n: nat)
    requires n <= |claims| && ValidClaims(claims, tables)
    requires forall j :: 0 <= j < |claims| ==> claims[j] == -1
    requires offset + n <= |content|
    ensures PiecesText(content, offset, claims, tables, n) == content[offset..offset + n]
  {
    if n > 0 {
      UnclaimedPageIsContent(content, offset, claims, tables, n - 1);
      assert content[offset..offset + n] == content[offset..offset + n - 1] + [content[offset + n - 1]];
    }
  }

  /** Every table that claims a character has exactly one first-claimed position. */
  lemma RenderedOnce(claims: seq<int>, c: int, j: nat)
    requires j < |claims| && claims[j] == c && c != -1
    ensures exists f :: 0 <= f <= j && FirstClaim(claims, f) && claims[f] == c
    ensures forall f, g :: (0 <= f < |claims| && 0 <= g < |claims| && FirstClaim(claims, f) && FirstClaim(claims, g)
      && claims[f] == c && claims[g] == c) ==> f == g
  {
    var f := FirstIndex(claims, c, j);
    assert FirstClaim(claims, f);
    forall f, g | 0 <= f < g < |claims| && claims[f] == c
      ensures claims[..g][f] == c
    {
    }
  }

  /** The smallest index at which `c` occurs, searching up to `j`. */
  function FirstIndex(s: seq<int>, c: int, j: nat): (f: nat)
    requires j < |s| && s[j] == c
    ensures f <= j && s[f] == c && c !in s[..f]
  {
    if c in s[..j] then
      var q :| 0 <= q < j && s[..j][q] == c;
      assert s[q] == c;
      FirstIndex(s, c, q)
    else j
  }

  // ---------------------------------------------------------------------
  // The map
  // ---------------------------------------------------------------------

  /** The linear text: all page texts in page order (`"".join(p[2] for p in page_map)`). */
  function AllText(pm: seq<Entry>): string
  {
    if pm == [] then "" else AllText(pm[..|pm| - 1]) + pm[|pm| - 1].text
  }

  /** The text of page k, or None when reading it raises. */
  function PageTextOf(r: AnalyzeResult, k: nat): Option<string>
    requires k < |r.pages|
  {
    var tables := TablesOnPage(r.tables, k);
    var span := r.pages[k].span;
    var claims := Claims(tables, span.offset, span.length);
    assert ValidClaims(claims, tables);
    PageText(r.content, span.offset, claims, tables)
  }

  /** The texts of all pages, in page order. */
  function PageTexts(r: AnalyzeResult): (texts: seq<Option<string>>)
    ensures |texts| == |r.pages|
  {
    seq(|r.pages|, k requires 0 <= k < |r.pages| => PageTextOf(r, k))
  }

  /**
   * The entries for the pages whose texts are `texts`: page k gets its text
   * plus one space, at the offset where the previous ones end; None as soon
   * as one page cannot be read.
   */
  function BuildMap(texts: seq<Option<string>>): Option<seq<Entry>>
  {
    if texts == [] then Some([])
    else match BuildMap(texts[..|texts| - 1])
      case None => None
      case Some(pm) =>
        match texts[|texts| - 1]
        case None => None
        case Some(text) => Some(pm + [Entry(|texts| - 1, |AllText(pm)|, text + " ")])
  }

  function PageMap(r: AnalyzeResult): Option<seq<Entry>>
  {
    BuildMap(PageTexts(r))
  }

  lemma {:induction false} BuildMapNoneStays(texts: seq<Option<string>>, n: nat)
    requires n <= |texts| && BuildMap(texts[..n]) == None
    ensures BuildMap(texts) == None
    decreases |texts| - n
  {
    if n < |texts| {
      assert texts[..n + 1][..n] == texts[..n];
      BuildMapNoneStays(texts, n + 1);
    } else {
      assert texts[..n] == texts;
    }
  }

  /** Lines 42-65 for one page: its tables, its claims and its text. */
  method ReadPage(formResult: AnalyzeResult, pageNum: nat) returns (pageText: Option<string>)
    requires pageNum < |formResult.pages|
    ensures pageText == PageTextOf(formResult, pageNum)
  {
    var tablesOnPage := TablesOnPage(formResult.tables, pageNum);
    var page := formResult.pages[pageNum];
    var tableChars := ClaimChars(tablesOnPage, page.span.offset, page.span.length);
    pageText := RenderPage(formResult.content, page.span.offset, tableChars, tablesOnPage);
  }

  /** get_page_map: one entry per page, with the running offset. */
  method GetPageMap(formResult: AnalyzeResult) returns (pageMap: Option<seq<Entry>>)
    ensures pageMap == PageMap(formResult)
  {
    ghost var texts := PageTexts(formResult);
    var offset := 0;
    var entries: seq<Entry> := [];
    for pageNum := 0 to |formResult.pages|
      invariant BuildMap(texts[..pageNum]) == Some(entries)
      invariant offset == |AllText(entries)|
    {
      var pageText := ReadPage(formResult, pageNum);
      BuildMapStep(texts, pageNum, entries);
      if pageText.None? {
        BuildMapNoneStays(texts, pageNum + 1);
        return None;
      }
      var text := pageText.value + " ";
      entries := entries + [Entry(pageNum, offset, text)];
      offset := offset + |text|;
    }
    assert texts[..|formResult.pages|] == texts;
    pageMap := Some(entries);
  }

  lemma BuildMapStep(texts: seq<Option<string>>, n: nat, pm: seq<Entry>)
    requires n < |texts| && BuildMap(texts[..n]) == Some(pm)
    ensures BuildMap(texts[..n + 1])
         == match texts[n]
            case None => None
            case Some(text) => Some(pm + [Entry(n, |AllText(pm)|, text + " ")])
    ensures texts[n].Some? ==> AllText(pm + [Entry(n, |AllText(pm)|, texts[n].value + " ")])
                               == AllText(pm) + texts[n].value + " "
  {
    assert texts[..n + 1][..n] == texts[..n];
    if texts[n].Some? {
      var pm' := pm + [Entry(n, |AllText(pm)|, texts[n].value + " ")];
      assert pm'[..|pm'| - 1] == pm;
    }
  }

  // ---------------------------------------------------------------------
  // Properties of the map
  // ---------------------------------------------------------------------

  /**
   * Entry k is page k, starts where the earlier page texts end, and holds a
   * text that ends in the appended space.
   */
  predicate WellFormed(pm: seq<Entry>)
  {
    pm == [] ||
    var k := |pm| - 1;
    && WellFormed(pm[..k])
    && pm[k].pageNum == k && pm[k].offset == |AllText(pm[..k])|
    && |pm[k].text| > 0 && pm[k].text[|pm[k].text| - 1] == ' '
  }

  lemma {:induction false} WellFormedAt(pm: seq<Entry>, k: nat)
    requires WellFormed(pm) && k < |pm|
    ensures pm[k].pageNum == k && pm[k].offset == |AllText(pm[..k])|
    ensures |pm[k].text| > 0 && pm[k].text[|pm[k].text| - 1] == ' '
    decreases |pm|
  {
    if k < |pm| - 1 {
      var init := pm[..|pm| - 1];
      WellFormedAt(init, k);
      assert init[..k] == pm[..k];
    }
  }

  /** Appending the next page, placed where the text so far ends, keeps a map well formed. */
  lemma WellFormedSnoc(pm: seq<Entry>, text: string)
    requires WellFormed(pm)
    ensures WellFormed(pm + [Entry(|pm|, |AllText(pm)|, text + " ")])
  {
    var pm' := pm + [Entry(|pm|, |AllText(pm)|, text + " ")];
    assert pm'[..|pm|] == pm;
  }

  /**
   * The map built from page texts has one entry per page, each well placed
   * (see WellFormed).
   */
  lemma {:induction false} BuildMapWellFormed(texts: seq<Option<string>>)
    requires BuildMap(texts).Some?
    ensures |BuildMap(texts).value| == |texts|
    ensures WellFormed(BuildMap(texts).value)
    decreases |texts|
  {
    if texts != [] {
      var init := texts[..|texts| - 1];
      BuildMapWellFormed(init);
      WellFormedSnoc(BuildMap(init).value, texts[|texts| - 1].value);
    }
  }

  /** Entry k of the map holds the text of page k followed by one space. */
  lemma {:induction false} BuildMapTexts(texts: seq<Option<string>>, k: nat)
    requires BuildMap(texts).Some? && k < |texts|
    ensures |BuildMap(texts).value| == |texts|
    ensures texts[k].Some? && BuildMap(texts).value[k].text == texts[k].value + " "
    decreases |texts|
  {
    BuildMapWellFormed(texts);
    var n := |texts|;
    var init := texts[..n - 1];
    BuildMapWellFormed(init);
    if k < n - 1 {
      BuildMapTexts(init, k);
      assert texts[k] == init[k];
    }
  }

  lemma {:induction false} AllTextPrefixGrows(pm: seq<Entry>, i: nat, j: nat)
    requires i <= j <= |pm|
    ensures |AllText(pm[..i])| <= |AllText(pm[..j])|
    decreases j - i
  {
    if i < j {
      AllTextPrefixGrows(pm, i, j - 1);
      assert pm[..j][..j - 1] == pm[..j - 1];
    }
  }

  /** Entry k ends where entry k + 1 starts: its offset plus its length is the text up to it. */
  lemma EntryEnd(pm: seq<Entry>, k: nat)
    requires WellFormed(pm) && k < |pm|
    ensures pm[k].offset + |pm[k].text| == |AllText(pm[..k + 1])|
  {
    WellFormedAt(pm, k);
    assert pm[..k + 1][..k] == pm[..k];
  }

  /** In a well-formed map the offsets start at 0 and strictly increase. */
  lemma OffsetsIncrease(pm: seq<Entry>, i: nat, j: nat)
    requires WellFormed(pm) && i < j < |pm|
    ensures pm[0].offset == 0
    ensures pm[i].offset < pm[j].offset
  {
    WellFormedAt(pm, 0);
    assert pm[..0] == [];
    WellFormedAt(pm, i);
    WellFormedAt(pm, j);
    EntryEnd(pm, i);
    AllTextPrefixGrows(pm, i + 1, j);
  }

  /** A page map built from a result is well formed, with one entry per page, each the page's text and a space. */
  lemma PageMapWellFormed(r: AnalyzeResult, k: nat)
    requires PageMap(r).Some? && k < |r.pages|
    ensures |PageMap(r).value| == |r.pages| && WellFormed(PageMap(r).value)
    ensures PageTexts(r)[k].Some? && PageMap(r).value[k].text == PageTexts(r)[k].value + " "
  {
    BuildMapWellFormed(PageTexts(r));
    BuildMapTexts(PageTexts(r), k);
  }

}
