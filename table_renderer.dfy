/**
 * Rendering of an analysed table as an HTML string (`table_to_html`):
 * one `<tr>` per row index in [0, rowCount), the row's cells ordered by
 * column index (a stable sort), `th` for header cells and `td` otherwise,
 * span attributes only for spans above one, and escaped cell text.
 */
module TableRenderer {

  import opened PyText
  import opened Analysis

  // ---------------------------------------------------------------------
  // Grouping the cells by row
  // ---------------------------------------------------------------------

  /** The cells whose row index is `i`, in their original order. */
  function CellsInRow(cells: seq<Cell>, i: int): (r: seq<Cell>)
    ensures forall c: Cell :: c in r ==> c.rowIndex == i
    ensures forall c: Cell :: c.rowIndex == i ==> multiset(r)[c] == multiset(cells)[c]
  {
    if cells == [] then []
    else
      assert cells == [cells[0]] + cells[1..];
      (if cells[0].rowIndex == i then [cells[0]] else []) + CellsInRow(cells[1..], i)
  }

  predicate SortedByColumn(cells: seq<Cell>)
  {
    forall j, k :: 0 <= j < k < |cells| ==> cells[j].columnIndex <= cells[k].columnIndex
  }

  /** The cells of `cells` in column `col`, in order: what a stable sort must keep. */
  function InColumn(cells: seq<Cell>, col: int): seq<Cell>
  {
    if cells == [] then []
    else (if cells[0].columnIndex == col then [cells[0]] else []) + InColumn(cells[1..], col)
  }

  /** Inserts `c` in front of the first cell whose column index is not smaller. */
  function InsertByColumn(c: Cell, sorted: seq<Cell>): (r: seq<Cell>)
    ensures |r| == |sorted| + 1
    ensures multiset(r) == multiset(sorted) + multiset{c}
  {
    if sorted == [] || c.columnIndex <= sorted[0].columnIndex then [c] + sorted
    else
      assert sorted == [sorted[0]] + sorted[1..];
      [sorted[0]] + InsertByColumn(c, sorted[1..])
  }

  /** A lower bound on the column indexes of `c` and of `sorted` bounds those of the result. */
  lemma {:induction false} InsertByColumnBound(c: Cell, sorted: seq<Cell>, b: int)
    requires b <= c.columnIndex
    requires forall i :: 0 <= i < |sorted| ==> b <= sorted[i].columnIndex
    ensures forall i :: 0 <= i < |sorted| + 1 ==> b <= InsertByColumn(c, sorted)[i].columnIndex
    decreases |sorted|
  {
    if sorted != [] && c.columnIndex > sorted[0].columnIndex {
      InsertByColumnBound(c, sorted[1..], b);
      assert InsertByColumn(c, sorted) == [sorted[0]] + InsertByColumn(c, sorted[1..]);
    }
  }

  lemma {:induction false} InsertByColumnSorted(c: Cell, sorted: seq<Cell>)
    requires SortedByColumn(sorted)
    ensures SortedByColumn(InsertByColumn(c, sorted))
    decreases |sorted|
  {
    var r := InsertByColumn(c, sorted);
    if sorted == [] || c.columnIndex <= sorted[0].columnIndex {
      assert r == [c] + sorted;
      forall j, k | 0 <= j < k < |r|
        ensures r[j].columnIndex <= r[k].columnIndex
      {
        if j > 0 {
          assert r[j] == sorted[j - 1];
        }
        assert r[k] == sorted[k - 1];
      }
    } else {
      var rest := InsertByColumn(c, sorted[1..]);
      InsertByColumnSorted(c, sorted[1..]);
      InsertByColumnBound(c, sorted[1..], sorted[0].columnIndex);
      assert r == [sorted[0]] + rest;
      forall j, k | 0 <= j < k < |r|
        ensures r[j].columnIndex <= r[k].columnIndex
      {
        if j > 0 {
          assert r[j] == rest[j - 1];
        }
        assert r[k] == rest[k - 1];
      }
    }
  }

  /** sorted(cells, key=column_index): insertion sort, earlier cells first among equal keys. */
  function SortByColumn(cells: seq<Cell>): (r: seq<Cell>)
    ensures SortedByColumn(r)
    ensures multiset(r) == multiset(cells)
  {
    if cells == [] then []
    else
      assert cells == [cells[0]] + cells[1..];
      InsertByColumnSorted(cells[0], SortByColumn(cells[1..]));
      InsertByColumn(cells[0], SortByColumn(cells[1..]))
  }

  lemma {:induction false} InColumnInsert(c: Cell, sorted: seq<Cell>, col: int)
    requires SortedByColumn(sorted)
    ensures InColumn(InsertByColumn(c, sorted), col)
         == if c.columnIndex == col then [c] + InColumn(sorted, col) else InColumn(sorted, col)
    decreases |sorted|
  {
    var r := InsertByColumn(c, sorted);
    if sorted == [] || c.columnIndex <= sorted[0].columnIndex {
      assert r[0] == c && r[1..] == sorted;
      if sorted != [] && c.columnIndex != col && sorted[0].columnIndex == col {
        // c sorts strictly before sorted[0], so it cannot share its column
        assert c.columnIndex < col;
      }
    } else {
      InColumnInsert(c, sorted[1..], col);
      assert r[0] == sorted[0] && r[1..] == InsertByColumn(c, sorted[1..]);
    }
  }

  /** The sort is stable: within each column the cells keep their input order. */
  lemma {:induction false} SortByColumnStable(cells: seq<Cell>, col: int)
    ensures InColumn(SortByColumn(cells), col) == InColumn(cells, col)
    decreases |cells|
  {
    if cells != [] {
      SortByColumnStable(cells[1..], col);
      InColumnInsert(cells[0], SortByColumn(cells[1..]), col);
    }
  }

  /** The grouping comprehension: row i holds the sorted cells whose row index is i. */
  function Rows(t: Table): (rows: seq<seq<Cell>>)
    ensures |rows| == t.rowCount
  {
    seq(t.rowCount, i requires 0 <= i < t.rowCount => SortByColumn(CellsInRow(t.cells, i)))
  }

  /**
   * Row i lists, sorted by column and stably, exactly the cells whose row
   * index is i, each as often as it occurs in the table; a cell whose row
   * index lies outside [0, rowCount) is in no row.
   */
  lemma RowContents(t: Table, i: nat, c: Cell, col: int)
    requires i < t.rowCount
    ensures SortedByColumn(Rows(t)[i])
    ensures multiset(Rows(t)[i])[c] == (if c.rowIndex == i then multiset(t.cells)[c] else 0)
    ensures InColumn(Rows(t)[i], col) == InColumn(CellsInRow(t.cells, i), col)
  {
    var r := CellsInRow(t.cells, i);
    assert Rows(t)[i] == SortByColumn(r);
    SortByColumnStable(r, col);
    if c.rowIndex != i {
      assert c !in r;
    }
  }

  // ---------------------------------------------------------------------
  // The markup
  // ---------------------------------------------------------------------

  function CellTag(kind: CellKind): (tag: string)
    ensures tag == "th" <==> kind == ColumnHeader || kind == RowHeader
    ensures tag == "th" || tag == "td"
  {
    if kind == ColumnHeader || kind == RowHeader then "th" else "td"
  }

  function SpanAttributes(c: Cell): string
  {
    (if c.columnSpan > 1 then " colSpan=" + IntToString(c.columnSpan) else "")
    + (if c.rowSpan > 1 then " rowSpan=" + IntToString(c.rowSpan) else "")
  }

  function CellHtml(c: Cell): string
  {
    "<" + CellTag(c.kind) + SpanAttributes(c) + ">" + Escape(c.content) + "</" + CellTag(c.kind) + ">"
  }

  function CellsHtml(cells: seq<Cell>): string
  {
    if cells == [] then "" else CellsHtml(cells[..|cells| - 1]) + CellHtml(cells[|cells| - 1])
  }

  function RowHtml(cells: seq<Cell>): string
  {
    "<tr>" + CellsHtml(cells) + "</tr>"
  }

  function RowsHtml(rows: seq<seq<Cell>>): string
  {
    if rows == [] then "" else RowsHtml(rows[..|rows| - 1]) + RowHtml(rows[|rows| - 1])
  }

  function TableHtml(t: Table): string
  {
    "<table>" + RowsHtml(Rows(t)) + "</table>"
  }

  lemma AppendAssoc(a: string, b: string, c: string)
    ensures (a + b) + c == a + (b + c)
  {
  }

  lemma CellStep(before: string, cells: seq<Cell>, k: nat)
    requires k < |cells|
    ensures before + CellsHtml(cells[..k]) + CellHtml(cells[k]) == before + CellsHtml(cells[..k + 1])
  {
    assert cells[..k + 1][..k] == cells[..k];
    AppendAssoc(before, CellsHtml(cells[..k]), CellHtml(cells[k]));
  }

  lemma RowStep(rows: seq<seq<Cell>>, i: nat)
    requires i < |rows|
    ensures "<table>" + RowsHtml(rows[..i]) + "<tr>" + CellsHtml(rows[i][..|rows[i]|]) + "</tr>"
         == "<table>" + RowsHtml(rows[..i + 1])
  {
    var cells := rows[i];
    assert cells[..|cells|] == cells;
    assert rows[..i + 1][..i] == rows[..i];
    assert RowsHtml(rows[..i + 1]) == RowsHtml(rows[..i]) + RowHtml(cells);
    AppendAssoc("<table>" + RowsHtml(rows[..i]) + "<tr>", CellsHtml(cells), "</tr>");
    AppendAssoc("<table>" + RowsHtml(rows[..i]), "<tr>", CellsHtml(cells));
    AppendAssoc("<table>" + RowsHtml(rows[..i]), "<tr>" + CellsHtml(cells), "</tr>");
    AppendAssoc("<table>", RowsHtml(rows[..i]), RowHtml(cells));
  }

  /** table_to_html: appends the row and cell markup to `tableHtml` in two nested loops. */
  method TableToHtml(table: Table) returns (tableHtml: string)
    ensures tableHtml == TableHtml(table)
  {
    tableHtml := "<table>";
    var rows := Rows(table);
    for i := 0 to |rows|
      invariant tableHtml == "<table>" + RowsHtml(rows[..i])
    {
      var rowCells := rows[i];
      ghost var before := "<table>" + RowsHtml(rows[..i]) + "<tr>";
      tableHtml := tableHtml + "<tr>";
      for k := 0 to |rowCells|
        invariant tableHtml == before + CellsHtml(rowCells[..k])
      {
        var cell := rowCells[k];
        var tag := CellTag(cell.kind);
        var cellSpans := SpanAttributes(cell);
        var cellHtml := "<" + tag + cellSpans + ">" + Escape(cell.content) + "</" + tag + ">";
        assert cellHtml == CellHtml(cell);
        CellStep(before, rowCells, k);
        tableHtml := tableHtml + cellHtml;
      }
      RowStep(rows, i);
      tableHtml := tableHtml + "</tr>";
    }
    assert rows[..|rows|] == rows;
    tableHtml := tableHtml + "</table>";
  }

  // ---------------------------------------------------------------------
  // Properties of the markup
  // ---------------------------------------------------------------------

  /**
   * The span attributes are empty exactly when neither span exceeds one;
   * a span above one is written with its decimal value, colSpan before
   * rowSpan, and each value reads back as the span.
   */
  lemma SpanAttributesShape(c: Cell)
    ensures SpanAttributes(c) == "" <==> c.columnSpan <= 1 && c.rowSpan <= 1
    ensures c.columnSpan > 1 && c.rowSpan > 1 ==>
      SpanAttributes(c) == " colSpan=" + IntToString(c.columnSpan) + " rowSpan=" + IntToString(c.rowSpan)
    ensures c.columnSpan > 1 && c.rowSpan <= 1 ==> SpanAttributes(c) == " colSpan=" + IntToString(c.columnSpan)
    ensures c.columnSpan <= 1 && c.rowSpan > 1 ==> SpanAttributes(c) == " rowSpan=" + IntToString(c.rowSpan)
    ensures c.columnSpan > 1 && c.rowSpan <= 1 ==>
      AllDigits(SpanAttributes(c)[9..]) && ParseInt(SpanAttributes(c)[9..]) == c.columnSpan
    ensures c.columnSpan <= 1 && c.rowSpan > 1 ==>
      AllDigits(SpanAttributes(c)[9..]) && ParseInt(SpanAttributes(c)[9..]) == c.rowSpan
  {
    ParseIntOfIntToString(c.columnSpan);
    ParseIntOfIntToString(c.rowSpan);
    if c.columnSpan > 1 && c.rowSpan <= 1 {
      assert SpanAttributes(c)[9..] == IntToString(c.columnSpan);
    }
    if c.columnSpan <= 1 && c.rowSpan > 1 {
      assert SpanAttributes(c)[9..] == IntToString(c.rowSpan);
    }
  }

  /** The cell text can be read back from the markup: escaping is undone by unescaping. */
  lemma CellContentRecoverable(c: Cell)
    ensures Unescape(Escape(c.content)) == c.content
    ensures '<' !in Escape(c.content)
  {
    UnescapeEscape(c.content);
  }

  /**
   * A `<` at position k starts a tag other than `<table`: it is followed by
   * `/`, or by `t` and a character other than `a`.
   */
  predicate SafeTagAt(s: string, k: int)
    requires 0 <= k < |s|
  {
    s[k] == '<' ==> k + 2 < |s| && (s[k + 1] == '/' || (s[k + 1] == 't' && s[k + 2] != 'a'))
  }

  predicate TagsOk(s: string)
  {
    forall k :: 0 <= k < |s| ==> SafeTagAt(s, k)
  }

  lemma TagsOkConcat(a: string, b: string)
    requires TagsOk(a) && TagsOk(b)
    ensures TagsOk(a + b)
  {
    var s := a + b;
    forall k | 0 <= k < |s|
      ensures SafeTagAt(s, k)
    {
      if k < |a| {
        assert SafeTagAt(a, k);
      } else {
        assert SafeTagAt(b, k - |a|);
      }
    }
  }

  lemma NoLtTagsOk(s: string)
    requires '<' !in s
    ensures TagsOk(s)
  {
  }

  lemma NumeralNoLt(n: int)
    ensures '<' !in IntToString(n)
  {
    var d := NatToString(if n < 0 then -n else n);
    assert forall i :: 0 <= i < |d| ==> d[i] != '<';
    assert IntToString(n) == (if n < 0 then "-" + d else d);
  }

  lemma SpanAttributesNoLt(c: Cell)
    ensures '<' !in SpanAttributes(c)
  {
    NumeralNoLt(c.columnSpan);
    NumeralNoLt(c.rowSpan);
    var cs := if c.columnSpan > 1 then " colSpan=" + IntToString(c.columnSpan) else "";
    var rs := if c.rowSpan > 1 then " rowSpan=" + IntToString(c.rowSpan) else "";
    assert '<' !in cs && '<' !in rs;
    assert SpanAttributes(c) == cs + rs;
  }

  lemma CellHtmlTagsOk(c: Cell)
    ensures TagsOk(CellHtml(c))
  {
    var tag := CellTag(c.kind);
    SpanAttributesNoLt(c);
    var open := "<" + tag;
    var close := "</" + tag + ">";
    assert TagsOk(open);
    assert TagsOk(close);
    NoLtTagsOk(SpanAttributes(c));
    NoLtTagsOk(">");
    NoLtTagsOk(Escape(c.content));
    TagsOkConcat(open, SpanAttributes(c));
    TagsOkConcat(open + SpanAttributes(c), ">");
    TagsOkConcat(open + SpanAttributes(c) + ">", Escape(c.content));
    TagsOkConcat(open + SpanAttributes(c) + ">" + Escape(c.content), close);
    assert CellHtml(c) == open + SpanAttributes(c) + ">" + Escape(c.content) + close;
  }

  lemma {:induction false} CellsHtmlTagsOk(cells: seq<Cell>)
    ensures TagsOk(CellsHtml(cells))
    decreases |cells|
  {
    if cells != [] {
      CellsHtmlTagsOk(cells[..|cells| - 1]);
      CellHtmlTagsOk(cells[|cells| - 1]);
      TagsOkConcat(CellsHtml(cells[..|cells| - 1]), CellHtml(cells[|cells| - 1]));
    }
  }

  lemma {:induction false} RowsHtmlTagsOk(rows: seq<seq<Cell>>)
    ensures TagsOk(RowsHtml(rows))
    decreases |rows|
  {
    if rows != [] {
      var last := rows[|rows| - 1];
      RowsHtmlTagsOk(rows[..|rows| - 1]);
      CellsHtmlTagsOk(last);
      assert TagsOk("<tr>") && TagsOk("</tr>");
      TagsOkConcat("<tr>", CellsHtml(last));
      TagsOkConcat("<tr>" + CellsHtml(last), "</tr>");
      TagsOkConcat(RowsHtml(rows[..|rows| - 1]), RowHtml(last));
    }
  }

  lemma TagsOkHasNoTableOpen(s: string, k: int)
    requires TagsOk(s)
    ensures !OccursAt(s, "<table", k)
  {
    if 0 <= k && k + 6 <= |s| && s[k] == '<' {
      assert SafeTagAt(s, k);
      assert s[k..k + 6][1] == s[k + 1] && s[k..k + 6][2] == s[k + 2];
    } else if 0 <= k && k + 6 <= |s| {
      assert s[k..k + 6][0] == s[k];
    }
  }

  /** Behind a seven-character prefix without `<` after its start, tag-safe text adds no `<table`. */
  lemma NoTableOpenBehind(head: string, rest: string, k: int)
    requires |head| == 7 && forall j :: 0 < j < 7 ==> head[j] != '<'
    requires TagsOk(rest) && 0 < k
    ensures !OccursAt(head + rest, "<table", k)
  {
    var h := head + rest;
    if k + 6 <= |h| {
      if k < 7 {
        assert h[k..k + 6][0] == head[k];
      } else {
        assert h[k..k + 6] == rest[k - 7..k - 1];
        TagsOkHasNoTableOpen(rest, k - 7);
      }
    }
  }

  /** Tag-safe text between `<table>` and `</table>`: the only `<table` is the first. */
  lemma WrappedClosed(body: string)
    requires TagsOk(body)
    ensures RFind("<table>" + body + "</table>", "<table") == 0
    ensures RFind("<table>" + body + "</table>", "</table") == |body| + 7
  {
    var rest := body + "</table>";
    var h := "<table>" + body + "</table>";
    assert TagsOk("</table>");
    TagsOkConcat(body, "</table>");
    AppendAssoc("<table>", body, "</table>");
    assert h == "<table>" + rest;
    assert h[..6] == "<table";
    assert OccursAt(h, "<table", 0);
    forall k | 0 < k
      ensures !OccursAt(h, "<table", k)
    {
      NoTableOpenBehind("<table>", rest, k);
    }
    assert h[|h| - 8..] == "</table>";
    assert OccursAt(h, "</table", |h| - 8);
    forall k | |h| - 8 < k
      ensures !OccursAt(h, "</table", k)
    {
      if k + 7 <= |h| {
        assert h[k..k + 7][0] == h[|h| - 7] == '/';
      }
    }
  }

  /**
   * The markup of a table opens exactly one `<table`, at its start, and
   * closes it: the last `</table` comes after the last `<table`.
   */
  lemma TableHtmlClosed(t: Table)
    ensures RFind(TableHtml(t), "<table") == 0
    ensures RFind(TableHtml(t), "</table") == |TableHtml(t)| - 8
  {
    RowsHtmlTagsOk(Rows(t));
    WrappedClosed(RowsHtml(Rows(t)));
  }

}
