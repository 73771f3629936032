/**
 * The header-click transition of the table's sort configuration
 * (`handleSort`): a two-state cycle per sortable column.
 */
module HeaderSort {
  import opened Wrappers
  import opened Sorting

  /** A column descriptor; an absent `sortable` flag is `false`. */
  datatype Column = Column(key: string, title: string, dataIndex: string, sortable: bool)

  function Flip(d: Direction): Direction {
    if d == Asc then Desc else Asc
  }

  /** The new `sortConfig` after a click on the header of `col`. */
  function NextSortConfig(config: Option<SortConfig>, col: Column): (r: Option<SortConfig>)
    ensures !col.sortable ==> r == config
    ensures col.sortable ==> r.Some? && r.value.key == col.dataIndex
    ensures col.sortable && config.Some? && config.value.key == col.dataIndex ==>
      r.value.direction != config.value.direction
    ensures col.sortable && !(config.Some? && config.value.key == col.dataIndex) ==>
      r.value.direction == Asc
  {
    if !col.sortable then config
    else if config.Some? && config.value.key == col.dataIndex then
      Some(SortConfig(col.dataIndex, Flip(config.value.direction)))
    else
      Some(SortConfig(col.dataIndex, Asc))
  }

  /** The configuration after `n` clicks on `col`. */
  function Clicks(config: Option<SortConfig>, col: Column, n: nat): Option<SortConfig> {
    if n == 0 then config else NextSortConfig(Clicks(config, col, n - 1), col)
  }

  /** Once a sort is configured, no click returns the table to the unsorted state. */
  lemma NeverUnsorted(config: Option<SortConfig>, col: Column)
    requires config.Some?
    ensures NextSortConfig(config, col).Some?
  {
  }

  /**
   * From no sort, n >= 1 clicks on a sortable column sort by that column,
   * ascending after an odd number of clicks and descending after an even one.
   */
  lemma {:induction false} ClicksAlternate(col: Column, n: nat)
    requires col.sortable && n >= 1
    ensures Clicks(None, col, n) == Some(SortConfig(col.dataIndex, if n % 2 == 1 then Asc else Desc))
  {
    if n > 1 {
      ClicksAlternate(col, n - 1);
    }
  }

  /** Three clicks on one sortable column from no sort: ascending, descending, ascending. */
  lemma ThreeClicks(col: Column)
    requires col.sortable
    ensures Clicks(None, col, 1) == Some(SortConfig(col.dataIndex, Asc))
    ensures Clicks(None, col, 2) == Some(SortConfig(col.dataIndex, Desc))
    ensures Clicks(None, col, 3) == Some(SortConfig(col.dataIndex, Asc))
  {
    ClicksAlternate(col, 1);
    ClicksAlternate(col, 2);
    ClicksAlternate(col, 3);
  }

  /** Two clicks on a column that is already the sort key restore the configuration. */
  lemma TwoClicksRestore(config: Option<SortConfig>, col: Column)
    requires config.Some? && config.value.key == col.dataIndex
    ensures Clicks(config, col, 2) == config
  {
    assert Clicks(config, col, 1) == NextSortConfig(config, col);
  }
}
