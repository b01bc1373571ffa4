/**
 * Spreadsheet rows as the CSV parser hands them over (one record per line, keyed by
 * the header row) and the validity filter that keeps only rows fit for the menu page.
 */
module MenuRows {
  import opened JsString
  import opened JsArray

  datatype Option<T> = None | Some(value: T)

  /** One parsed row: header name to cell text. A column the row lacks is absent (JavaScript `undefined`). */
  type Row = map<string, string>

  const NameField: string := "메뉴명"
  const ThumbnailField: string := "썸네일링크"
  const IngredientsField: string := "주요재료"
  const VideoField: string := "레시피영상링크"

  /** The placeholder a sheet cell holds when there is intentionally no data. */
  const Sentinel: string := "-"

  /** `row[key]`, with `None` for `undefined`. */
  function Lookup(row: Row, key: string): Option<string> {
    if key in row then Some(row[key]) else None
  }

  /** `cell && cell.trim() !== '-'` for a cell that exists: truthy (non-empty) and not the sentinel once trimmed. */
  predicate CellUsable(cell: string) {
    cell != "" && Trim(cell) != Sentinel
  }

  /** One conjunct pair of the filter, `m[key] && m[key].trim() !== '-'`; a missing cell is `undefined`, which is falsy. */
  predicate FieldUsable(row: Row, key: string) {
    key in row && CellUsable(row[key])
  }

  /** The callback of `allRows.filter(...)`: name, thumbnail and ingredients are all usable. */
  predicate IsValidMenu(row: Row) {
    && FieldUsable(row, NameField)
    && FieldUsable(row, ThumbnailField)
    && FieldUsable(row, IngredientsField)
  }

  /** A cell is usable iff it is non-empty and its non-blank characters are not exactly one dash. */
  lemma {:induction false} CellUsableMeaning(cell: string)
    ensures CellUsable(cell) <==> cell != "" && NonBlanks(cell) != Sentinel
  {
    TrimIsDash(cell);
  }

  /** A dash padded with blanks on either side is still the sentinel, so the cell is rejected. */
  lemma {:induction false} PaddedDashRejected(left: string, right: string)
    requires AllBlank(left) && AllBlank(right)
    ensures !CellUsable(left + Sentinel + right)
  {
    NonBlanksAppend(left + Sentinel, right);
    NonBlanksAppend(left, Sentinel);
    NonBlanksOfBlank(left);
    NonBlanksOfBlank(right);
    CellUsableMeaning(left + Sentinel + right);
  }

  /** A cell of blanks only is truthy and trims to "", which is not the sentinel: it is accepted. */
  lemma {:induction false} BlankCellAccepted(cell: string)
    requires cell != "" && AllBlank(cell)
    ensures CellUsable(cell)
  {
    TrimIsEmpty(cell);
  }

  /** A lone dash and a dash padded with spaces, tabs or line breaks are all the sentinel. */
  lemma DashCellExamples()
    ensures !CellUsable("-")
    ensures !CellUsable(" - ")
    ensures !CellUsable("\t-\n")
  {
  }

  /** An empty cell and a missing column are rejected; a cell of two spaces is accepted. */
  lemma BlankCellExamples()
    ensures !CellUsable("")
    ensures !FieldUsable(map[], NameField)
    ensures CellUsable("  ")
  {
    BlankCellAccepted("  ");
  }

  /** `allRows.filter(m => IsValidMenu(m))`. */
  function FilterValid(rows: seq<Row>): seq<Row> {
    Filter(rows, IsValidMenu)
  }

  /**
   * A parsed row is on the valid list exactly when each of the name, thumbnail and
   * ingredients cells is present, non-empty, and does not consist of a single dash
   * among blanks.
   */
  lemma {:induction false} FilterValidMembership(rows: seq<Row>, r: Row)
    ensures r in FilterValid(rows) <==>
      && r in rows
      && (NameField in r && r[NameField] != "" && NonBlanks(r[NameField]) != Sentinel)
      && (ThumbnailField in r && r[ThumbnailField] != "" && NonBlanks(r[ThumbnailField]) != Sentinel)
      && (IngredientsField in r && r[IngredientsField] != "" && NonBlanks(r[IngredientsField]) != Sentinel)
  {
    FilterMembership(rows, IsValidMenu, r);
    if NameField in r { CellUsableMeaning(r[NameField]); }
    if ThumbnailField in r { CellUsableMeaning(r[ThumbnailField]); }
    if IngredientsField in r { CellUsableMeaning(r[IngredientsField]); }
  }
}
