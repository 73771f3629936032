/**
 * What the table renders, reduced to its structure: the header cells, and a
 * body that is a loading placeholder, a "no data" placeholder or one row per
 * displayed row. Class names, hover styling and markup are not modelled.
 */
module Body {
  import opened Values
  import opened Wrappers
  import opened Sorting
  import opened HeaderSort

  datatype HeaderCell =
    | SelectHeader                                          // the empty cell above the checkboxes
    | TitleCell(title: string, indicator: Option<Direction>) // a column title, with ▲/▼ when it is the sort key

  /**
   * A body row: its checkbox (present when rows are selectable, with its
   * checked state), its data cells, whether it is highlighted, and the index
   * its click handler passes on.
   */
  datatype RenderedRow = RenderedRow(checkbox: Option<bool>, cells: seq<Value>, highlighted: bool, clickIndex: nat)

  datatype TableBody =
    | LoadingRow(colSpan: nat)
    | NoDataRow(colSpan: nat)
    | Rows(rows: seq<RenderedRow>)

  /** The title cells, one per column, in column order. */
  function TitleCells(columns: seq<Column>, config: Option<SortConfig>): (r: seq<HeaderCell>)
    ensures |r| == |columns|
    ensures forall k :: 0 <= k < |columns| ==>
      r[k].TitleCell? && r[k].title == columns[k].title &&
      (r[k].indicator.Some? <==> config.Some? && config.value.key == columns[k].dataIndex) &&
      (r[k].indicator.Some? ==> r[k].indicator.value == config.value.direction)
  {
    if columns == [] then []
    else
      var c := columns[0];
      var indicator := if config.Some? && config.value.key == c.dataIndex then Some(config.value.direction) else None;
      [TitleCell(c.title, indicator)] + TitleCells(columns[1..], config)
  }

  /** The header row: a selection column first when rows are selectable. */
  function HeaderCells(columns: seq<Column>, selectable: bool, config: Option<SortConfig>): (r: seq<HeaderCell>)
    ensures |r| == |columns| + (if selectable then 1 else 0)
    ensures forall k :: 0 <= k < |r| ==> (r[k].SelectHeader? <==> selectable && k == 0)
  {
    (if selectable then [SelectHeader] else []) + TitleCells(columns, config)
  }

  /** The data cells of one row, `row[col.dataIndex]` for each column. */
  function DataCells(row: Row, columns: seq<Column>): (r: seq<Value>)
    ensures |r| == |columns|
    ensures forall k :: 0 <= k < |columns| ==> r[k] == Field(row, columns[k].dataIndex)
  {
    if columns == [] then [] else [Field(row, columns[0].dataIndex)] + DataCells(row, columns[1..])
  }

  /** The row at display position `index`: highlight and checkbox test `index` itself against the selection. */
  function RenderRow(row: Row, index: nat, columns: seq<Column>, selectable: bool, selection: seq<nat>): (r: RenderedRow)
    ensures r.checkbox.Some? <==> selectable
    ensures r.checkbox.Some? ==> r.checkbox.value == (index in selection)
    ensures r.highlighted <==> index in selection
    ensures r.clickIndex == index
    ensures |r.cells| == |columns|
  {
    var selected := index in selection;
    RenderedRow(if selectable then Some(selected) else None, DataCells(row, columns), selected, index)
  }

  function RenderRows(sorted: seq<Row>, start: nat, columns: seq<Column>, selectable: bool, selection: seq<nat>): (r: seq<RenderedRow>)
    ensures |r| == |sorted|
    ensures forall k :: 0 <= k < |sorted| ==> r[k] == RenderRow(sorted[k], start + k, columns, selectable, selection)
    decreases |sorted|
  {
    if sorted == [] then []
    else [RenderRow(sorted[0], start, columns, selectable, selection)] + RenderRows(sorted[1..], start + 1, columns, selectable, selection)
  }

  /** The body: loading first, then an empty sorted sequence, otherwise one row per displayed row. */
  function RenderBody(loading: bool, sorted: seq<Row>, columns: seq<Column>, selectable: bool, selection: seq<nat>): (r: TableBody)
    ensures r.LoadingRow? <==> loading
    ensures r.NoDataRow? <==> !loading && sorted == []
    ensures r.Rows? ==> |r.rows| == |sorted|
  {
    var span := |columns| + (if selectable then 1 else 0);
    if loading then LoadingRow(span)
    else if |sorted| == 0 then NoDataRow(span)
    else Rows(RenderRows(sorted, 0, columns, selectable, selection))
  }

  /**
   * Exactly one of the three bodies is rendered: the loading placeholder
   * whenever `loading` holds, the "no data" placeholder when not loading and
   * nothing is displayed, otherwise one row per displayed row; a placeholder
   * spans every header cell.
   */
  lemma BodyKind(loading: bool, sorted: seq<Row>, columns: seq<Column>, selectable: bool, selection: seq<nat>, config: Option<SortConfig>)
    ensures var b := RenderBody(loading, sorted, columns, selectable, selection);
      && (b.LoadingRow? <==> loading)
      && (b.NoDataRow? <==> !loading && sorted == [])
      && (b.Rows? <==> !loading && sorted != [])
      && (b.Rows? ==> |b.rows| == |sorted|)
      && (!b.Rows? ==> b.colSpan == |HeaderCells(columns, selectable, config)| == |columns| + (if selectable then 1 else 0))
  {
  }

  /**
   * Each rendered row lines up with the header: a checkbox exactly when the
   * header has the selection column, then one cell per column showing
   * `row[col.dataIndex]`; its checkbox, highlight and click handler all use
   * the display position `k`.
   */
  lemma RowsLineUpWithHeader(sorted: seq<Row>, columns: seq<Column>, selectable: bool, selection: seq<nat>, config: Option<SortConfig>, k: nat)
    requires k < |sorted|
    ensures var b := RenderBody(false, sorted, columns, selectable, selection);
      var row := b.rows[k];
      && (row.checkbox.Some? <==> selectable)
      && |row.cells| + (if selectable then 1 else 0) == |HeaderCells(columns, selectable, config)|
      && (forall c :: 0 <= c < |columns| ==> row.cells[c] == Field(sorted[k], columns[c].dataIndex))
      && row.highlighted == (k in selection)
      && (selectable ==> row.checkbox == Some(k in selection))
      && row.clickIndex == k
  {
    var rows := RenderRows(sorted, 0, columns, selectable, selection);
    assert RenderBody(false, sorted, columns, selectable, selection) == Rows(rows);
    assert rows[k] == RenderRow(sorted[k], k, columns, selectable, selection);
  }
}
