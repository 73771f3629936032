/**
 * Row selection (`toggleRowSelection`): the selected row indices kept as a
 * JavaScript `Set<number>`, and the rows reported to `onRowSelect`.
 *
 * A `Set` iterates in insertion order, so the selection is modelled as a
 * sequence of distinct indices: `add` appends, `delete` removes the one
 * occurrence and keeps the order of the rest.
 */
module Selection {
  import opened Values
  import opened Wrappers

  /** No index occurs twice: the sequence is the iteration order of a `Set`. */
  predicate Distinct(s: seq<nat>) {
    forall i, j :: 0 <= i < j < |s| ==> s[i] != s[j]
  }

  /** `Set.prototype.delete`: every occurrence of `x` goes, the rest keep their order. */
  function Remove(s: seq<nat>, x: nat): (r: seq<nat>)
    ensures x !in r
    ensures forall y :: y != x ==> (y in r <==> y in s)
    ensures Distinct(s) ==> Distinct(r)
    ensures |r| <= |s|
  {
    if s == [] then []
    else if s[0] == x then Remove(s[1..], x)
    else
      var rest := Remove(s[1..], x);
      assert Distinct(s) ==> s[0] !in s[1..] && Distinct(s[1..]);
      [s[0]] + rest
  }

  /**
   * The selection after a click on row `index`; `None` when the handler
   * returns early (the row is not selected and selection is disabled).
   */
  function Toggle(sel: seq<nat>, index: nat, selectable: bool): (r: Option<seq<nat>>)
    ensures index in sel ==> r.Some? && index !in r.value && forall y :: y != index ==> (y in r.value <==> y in sel)
    ensures index !in sel && selectable ==> r.Some? && r.value == sel + [index]
    ensures index !in sel && !selectable ==> r.None?
    ensures Distinct(sel) && r.Some? ==> Distinct(r.value)
  {
    if index in sel then Some(Remove(sel, index))
    else if !selectable then None
    else Some(sel + [index])
  }

  /** `data[i]`: a position past the end reads `undefined`, here `None`. */
  function Lookup(data: seq<Row>, i: nat): (r: Option<Row>)
    ensures r.Some? <==> i < |data|
    ensures r.Some? ==> r.value == data[i]
  {
    if i < |data| then Some(data[i]) else None
  }

  /** `Array.from(selection).map((i) => data[i])`: the rows reported to `onRowSelect`, in insertion order. */
  function Emission(data: seq<Row>, sel: seq<nat>): (r: seq<Option<Row>>)
    ensures |r| == |sel|
    ensures forall k :: 0 <= k < |sel| ==> r[k] == Lookup(data, sel[k])
  {
    if sel == [] then [] else [Lookup(data, sel[0])] + Emission(data, sel[1..])
  }

  // ---------------------------------------------------------------------
  // Properties of the toggle

  /** Removing an index that is not selected changes nothing. */
  lemma {:induction false} RemoveAbsent(s: seq<nat>, x: nat)
    requires x !in s
    ensures Remove(s, x) == s
  {
    if s != [] {
      RemoveAbsent(s[1..], x);
      assert s == [s[0]] + s[1..];
    }
  }

  /** Removing the index at position `k` of a selection takes out exactly that position. */
  lemma {:induction false} RemoveAt(s: seq<nat>, k: nat)
    requires Distinct(s) && k < |s|
    ensures Remove(s, s[k]) == s[..k] + s[k + 1..]
  {
    if k == 0 {
      RemoveAbsent(s[1..], s[0]);
    } else {
      RemoveAt(s[1..], k - 1);
      assert s[1..][..k - 1] == s[1..k];
      assert s[1..][k..] == s[k + 1..];
      assert [s[0]] + s[1..k] == s[..k];
    }
  }

  /** Removing the index just added restores the selection exactly. */
  lemma RemoveAppended(s: seq<nat>, x: nat)
    requires Distinct(s) && x !in s
    ensures Remove(s + [x], x) == s
  {
    var t := s + [x];
    assert t[|s|] == x;
    RemoveAt(t, |s|);
    assert t[..|s|] == s;
  }

  /** With selection enabled, a click on a row and then on the same row leaves the same set of indices. */
  lemma ToggleTwice(sel: seq<nat>, index: nat)
    requires Distinct(sel)
    ensures Toggle(sel, index, true).Some?
    ensures Toggle(Toggle(sel, index, true).value, index, true).Some?
    ensures var t := Toggle(Toggle(sel, index, true).value, index, true).value;
      Distinct(t) && forall y :: y in t <==> y in sel
    ensures index !in sel ==> Toggle(Toggle(sel, index, true).value, index, true).value == sel
  {
    if index !in sel {
      RemoveAppended(sel, index);
    }
  }

  /** A second click can move a re-added index to the end of the insertion order. */
  lemma ToggleTwiceMayReorder()
    ensures Toggle([1, 2], 1, true) == Some([2])
    ensures Toggle([2], 1, true) == Some([2, 1])
  {
    assert 1 in [1, 2] && [1, 2][1..] == [2];
    assert Remove([1, 2], 1) == Remove([2], 1);
    assert [2][1..] == [];
    assert Remove([2], 1) == [2] + Remove([], 1) == [2];
    assert 1 !in [2] && [2] + [1] == [2, 1];
  }

  /** With selection disabled nothing can be selected from an empty selection, and a selected row can still be deselected. */
  lemma DisabledSelection(sel: seq<nat>, index: nat)
    ensures Toggle([], index, false).None?
    ensures index in sel ==> Toggle(sel, index, false).Some? && index !in Toggle(sel, index, false).value
  {
  }
}
