/**
 * The `DataTable` component as a controller object. Its props (`data`,
 * `columns`, `loading`, `selectable` and whether `onRowSelect` was given)
 * are fields a re-render replaces; its state (`sortConfig`, `selectedRows`)
 * is kept across renders and changed only by header and row clicks.
 */
module DataTable {
  import opened Values
  import opened Wrappers
  import opened Sorting
  import opened HeaderSort
  import opened Selection
  import opened Body

  class Table {
    var data: seq<Row>
    var columns: seq<Column>
    var loading: bool
    var selectable: bool
    var hasOnRowSelect: bool
    var sortConfig: Option<SortConfig>
    var selectedRows: seq<nat>

    /** The selection is a set: no index twice. */
    ghost predicate Valid()
      reads this
      ensures Valid() ==> forall k :: 0 <= k < |selectedRows| ==> selectedRows[k] !in selectedRows[..k]
    {
      Distinct(selectedRows)
    }

    /** Mounting: no sort and an empty selection. */
    constructor (data: seq<Row>, columns: seq<Column>, loading: bool, selectable: bool, hasOnRowSelect: bool)
      ensures Valid()
      ensures this.data == data && this.columns == columns && this.loading == loading
      ensures this.selectable == selectable && this.hasOnRowSelect == hasOnRowSelect
      ensures sortConfig == None && selectedRows == []
    {
      this.data := data;
      this.columns := columns;
      this.loading := loading;
      this.selectable := selectable;
      this.hasOnRowSelect := hasOnRowSelect;
      sortConfig := None;
      selectedRows := [];
    }

    /** A re-render with new props keeps the sort and the selection, even where indices now point at other rows. */
    method Rerender(data: seq<Row>, columns: seq<Column>, loading: bool, selectable: bool, hasOnRowSelect: bool)
      requires Valid()
      modifies this
      ensures Valid()
      ensures this.data == data && this.columns == columns && this.loading == loading
      ensures this.selectable == selectable && this.hasOnRowSelect == hasOnRowSelect
      ensures sortConfig == old(sortConfig) && selectedRows == old(selectedRows)
    {
      this.data := data;
      this.columns := columns;
      this.loading := loading;
      this.selectable := selectable;
      this.hasOnRowSelect := hasOnRowSelect;
    }

    /** `sortedData` of the current render. */
    method SortedRows() returns (r: seq<Row>)
      ensures r == DisplayOrder(data, sortConfig)
      ensures multiset(r) == multiset(data) && |r| == |data|
      ensures sortConfig.None? ==> r == data
    {
      r := SortedData(data, sortConfig);
    }

    /** `handleSort`: a click on the header of `col`. */
    method HandleSort(col: Column)
      requires Valid()
      modifies this
      ensures Valid()
      ensures sortConfig == NextSortConfig(old(sortConfig), col)
      ensures !col.sortable ==> sortConfig == old(sortConfig)
      ensures selectedRows == old(selectedRows)
      ensures data == old(data) && columns == old(columns) && loading == old(loading)
      ensures selectable == old(selectable) && hasOnRowSelect == old(hasOnRowSelect)
    {
      if !col.sortable {
        return;
      }
      if sortConfig.Some? && sortConfig.value.key == col.dataIndex {
        sortConfig := Some(SortConfig(col.dataIndex, if sortConfig.value.direction == Asc then Desc else Asc));
      } else {
        sortConfig := Some(SortConfig(col.dataIndex, Asc));
      }
    }

    /**
     * `toggleRowSelection(index)`: deselects a selected index, selects an
     * absent one only when `selectable`, and otherwise returns early. When it
     * does not return early and `onRowSelect` was given, `emitted` holds what
     * `onRowSelect` receives: `data[i]` for each selected `i`, in insertion
     * order, looked up in the unsorted `data`.
     */
    method ToggleRowSelection(index: nat) returns (emitted: Option<seq<Option<Row>>>)
      requires Valid()
      modifies this
      ensures Valid()
      ensures Toggle(old(selectedRows), index, old(selectable)).None? ==>
        selectedRows == old(selectedRows) && emitted.None?
      ensures Toggle(old(selectedRows), index, old(selectable)).Some? ==>
        selectedRows == Toggle(old(selectedRows), index, old(selectable)).value &&
        emitted == (if hasOnRowSelect then Some(Emission(data, selectedRows)) else None)
      ensures emitted.Some? ==> |emitted.value| == |selectedRows|
      ensures sortConfig == old(sortConfig)
      ensures data == old(data) && columns == old(columns) && loading == old(loading)
      ensures selectable == old(selectable) && hasOnRowSelect == old(hasOnRowSelect)
    {
      var newSelection := selectedRows;
      if index in newSelection {
        newSelection := Remove(newSelection, index);
      } else {
        if !selectable {
          return None;
        }
        newSelection := newSelection + [index];
      }
      selectedRows := newSelection;
      emitted := if hasOnRowSelect then Some(Emission(data, newSelection)) else None;
    }

    /** One render: the header row and the body of the current props and state. */
    method Render() returns (header: seq<HeaderCell>, body: TableBody)
      ensures header == HeaderCells(columns, selectable, sortConfig)
      ensures body == RenderBody(loading, DisplayOrder(data, sortConfig), columns, selectable, selectedRows)
      ensures body.LoadingRow? <==> loading
      ensures body.NoDataRow? <==> !loading && data == []
      ensures body.Rows? ==> |body.rows| == |data|
    {
      var sorted := SortedRows();
      header := HeaderCells(columns, selectable, sortConfig);
      body := RenderBody(loading, sorted, columns, selectable, selectedRows);
    }
  }

  /**
   * With no sort configured, every row reported to `onRowSelect` is the row
   * displayed, and highlighted, at the selected index.
   */
  lemma UnsortedSelectionAgrees(data: seq<Row>, columns: seq<Column>, selectable: bool, sel: seq<nat>)
    ensures forall k :: 0 <= k < |sel| && sel[k] < |data| ==>
      && Emission(data, sel)[k] == Some(DisplayOrder(data, None)[sel[k]])
      && RenderBody(false, DisplayOrder(data, None), columns, selectable, sel).rows[sel[k]].highlighted
  {
    forall k | 0 <= k < |sel| && sel[k] < |data|
      ensures RenderBody(false, data, columns, selectable, sel).rows[sel[k]].highlighted
    {
      RowsLineUpWithHeader(data, columns, selectable, sel, None, sel[k]);
    }
  }

  /** The three names of the example below, in the order `<` puts them. */
  lemma NamesInCodeUnitOrder()
    ensures StrLess(Utf16("Alice"), Utf16("Bob")) && StrLess(Utf16("Bob"), Utf16("Tanmay"))
  {
  }

  /**
   * Once sorted, they differ. Take rows B (id 3), T (id 1) and A (id 2) whose
   * names are ordered A < B < T, sorted by name ascending: A is displayed
   * first; a click on its row selects index 0 and highlights that row, but
   * `onRowSelect` receives B, the row at index 0 of the unsorted data.
   */
  lemma SelectionReportsUnsortedRow(aName: seq<CodeUnit>, bName: seq<CodeUnit>, tName: seq<CodeUnit>)
    requires StrLess(aName, bName) && StrLess(bName, tName)
    ensures var b := map["id" := Int(3), "name" := Str(bName)];
      var t := map["id" := Int(1), "name" := Str(tName)];
      var a := map["id" := Int(2), "name" := Str(aName)];
      var data := [b, t, a];
      var config := Some(SortConfig("name", Asc));
      var sel := Toggle([], 0, true).value;
      var name := Column("name", "Name", "name", true);
      && DisplayOrder(data, config) == [a, b, t]
      && sel == [0]
      && RenderBody(false, DisplayOrder(data, config), [name], true, sel).rows[0].highlighted
      && RenderBody(false, DisplayOrder(data, config), [name], true, sel).rows[0].cells[0] == Str(aName)
      && Emission(data, sel) == [Some(b)]
  {
    var b := map["id" := Int(3), "name" := Str(bName)];
    var t := map["id" := Int(1), "name" := Str(tName)];
    var a := map["id" := Int(2), "name" := Str(aName)];
    var data := [b, t, a];
    assert Field(b, "name") == Str(bName);
    assert Field(t, "name") == Str(tName);
    assert Field(a, "name") == Str(aName);
    StrLessAsymmetric(aName, bName);
    StrLessAsymmetric(bName, tName);
    assert !After(b, t, "name", Asc) && After(b, a, "name", Asc) && After(t, a, "name", Asc) by {
      StrLessTransitive(aName, bName, tName);
      StrLessAsymmetric(aName, tName);
    }
    assert data[..2][..1] == [b] && data[..2] == [b, t];
    assert [b][..0] == [];
    assert Sorted([b], "name", Asc) == [b];
    assert Sorted([b, t], "name", Asc) == [b, t];
    assert Insert([b, t], a, "name", Asc) == [a, b, t] by {
      assert [b, t][..1] == [b];
      assert Insert([b], a, "name", Asc) == [a, b] by {
        assert [b][..0] == [];
      }
    }
    assert Sorted(data, "name", Asc) == [a, b, t];
    RowsLineUpWithHeader([a, b, t], [Column("name", "Name", "name", true)], true, [0], None, 0);
  }

  /** The same with rows Bob, Tanmay and Alice: Alice is shown and highlighted first, and Bob is reported. */
  lemma SortedSelectionReportsOtherRow()
    ensures var bob := map["id" := Int(3), "name" := Str(Utf16("Bob"))];
      var tanmay := map["id" := Int(1), "name" := Str(Utf16("Tanmay"))];
      var alice := map["id" := Int(2), "name" := Str(Utf16("Alice"))];
      var data := [bob, tanmay, alice];
      var config := Some(SortConfig("name", Asc));
      var sel := Toggle([], 0, true).value;
      var name := Column("name", "Name", "name", true);
      && DisplayOrder(data, config) == [alice, bob, tanmay]
      && sel == [0]
      && RenderBody(false, DisplayOrder(data, config), [name], true, sel).rows[0].highlighted
      && RenderBody(false, DisplayOrder(data, config), [name], true, sel).rows[0].cells[0] == Str(Utf16("Alice"))
      && Emission(data, sel) == [Some(bob)]
  {
    NamesInCodeUnitOrder();
    SelectionReportsUnsortedRow(Utf16("Alice"), Utf16("Bob"), Utf16("Tanmay"));
  }
}
