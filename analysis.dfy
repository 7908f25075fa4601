/**
 * The parts of a document-analysis result that the indexer reads, as plain
 * values. The analysis service itself (the long-running "prebuilt-layout"
 * request) is outside the model; its answer is an input.
 */
module Analysis {

  /** A run of characters of the full content string: [offset, offset + length). */
  datatype Span = Span(offset: nat, length: nat)

  /** The kinds of table cell the analysis reports; only the two header kinds are treated specially. */
  datatype CellKind = Content | ColumnHeader | RowHeader | StubHead | Description

  datatype Cell = Cell(
    kind: CellKind,
    rowIndex: int,
    columnIndex: int,
    rowSpan: int,
    columnSpan: int,
    content: string)

  /**
   * A table: `pageNumber` is the 1-based page of its first bounding region,
   * `spans` the runs of content it covers.
   */
  datatype Table = Table(
    rowCount: nat,
    columnCount: nat,
    pageNumber: int,
    spans: seq<Span>,
    cells: seq<Cell>)

  /** A page, reduced to its first span (the only one the indexer reads). */
  datatype Page = Page(pageNumber: int, span: Span)

  datatype AnalyzeResult = AnalyzeResult(content: string, pages: seq<Page>, tables: seq<Table>)

}
