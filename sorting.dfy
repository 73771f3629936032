/**
 * The table's sort: the comparator of `sortedData`, the stable sort the
 * JavaScript runtime applies to a copy of the rows, and the derivation of
 * the displayed order from the optional sort configuration.
 *
 * The specification of the sort is `Sorted`, a functional insertion sort
 * that puts each row after every row it does not compare greater than.
 * `InsertionSort` does the same in place on an array, and the lemmas below
 * prove that the result is ordered, a permutation of the input and stable.
 */
module Sorting {
  import opened Values
  import opened Wrappers

  datatype Direction = Asc | Desc

  /** The `{ key, direction }` object held in `sortConfig`. */
  datatype SortConfig = SortConfig(key: string, direction: Direction)

  /** The comparator passed to `sort`: -1, 1 or 0 from `<` and `>` on `row[key]`, sign flipped for descending. */
  function Compare(a: Row, b: Row, key: string, dir: Direction): (r: int)
    ensures r == -1 || r == 0 || r == 1
  {
    if Less(Field(a, key), Field(b, key)) then (if dir == Asc then -1 else 1)
    else if Less(Field(b, key), Field(a, key)) then (if dir == Asc then 1 else -1)
    else 0
  }

  /** The comparator says `a` belongs after `b`. */
  predicate After(a: Row, b: Row, key: string, dir: Direction) {
    Compare(a, b, key, dir) > 0
  }

  /** Ordered by the comparator: no row belongs after a later one. */
  predicate IsSorted(s: seq<Row>, key: string, dir: Direction) {
    forall i, j :: 0 <= i < j < |s| ==> !After(s[i], s[j], key, dir)
  }

  /** The rows of `s` whose field `key` holds `v`, in the order of `s`. */
  function KeyRun(s: seq<Row>, key: string, v: Value): seq<Row> {
    if s == [] then []
    else KeyRun(s[..|s| - 1], key, v) + (if Field(s[|s| - 1], key) == v then [s[|s| - 1]] else [])
  }

  /** Every group of rows with one key value appears in the same relative order in `r` as in `s`. */
  ghost predicate IsStableFor(r: seq<Row>, s: seq<Row>, key: string) {
    forall v :: KeyRun(r, key, v) == KeyRun(s, key, v)
  }

  /** Places `x` into sorted `p` after every row that does not belong after `x`. */
  function Insert(p: seq<Row>, x: Row, key: string, dir: Direction): (r: seq<Row>)
    ensures |r| == |p| + 1
  {
    if p == [] then [x]
    else if After(p[|p| - 1], x, key, dir) then Insert(p[..|p| - 1], x, key, dir) + [p[|p| - 1]]
    else p + [x]
  }

  /** The stable sort of `s` under the comparator. */
  function Sorted(s: seq<Row>, key: string, dir: Direction): (r: seq<Row>)
    ensures |r| == |s|
  {
    if s == [] then [] else Insert(Sorted(s[..|s| - 1], key, dir), s[|s| - 1], key, dir)
  }

  /** `sortedData`: the rows themselves without a configuration, otherwise their stable sort. */
  function DisplayOrder(data: seq<Row>, config: Option<SortConfig>): (r: seq<Row>)
    ensures |r| == |data|
    ensures config.None? ==> r == data
  {
    match config
    case None => data
    case Some(c) => Sorted(data, c.key, c.direction)
  }

  // ---------------------------------------------------------------------
  // The comparator

  /** The comparator returns 0 exactly when the two keys are the same value. */
  lemma CompareZero(a: Row, b: Row, key: string, dir: Direction)
    ensures Compare(a, b, key, dir) == 0 <==> Field(a, key) == Field(b, key)
  {
    LessTrichotomy(Field(a, key), Field(b, key));
    LessIrreflexive(Field(a, key));
  }

  /** Swapping the arguments flips the comparator's sign. */
  lemma CompareAntisymmetric(a: Row, b: Row, key: string, dir: Direction)
    ensures Compare(a, b, key, dir) == -Compare(b, a, key, dir)
  {
    if Less(Field(a, key), Field(b, key)) {
      LessAsymmetric(Field(a, key), Field(b, key));
    }
  }

  /** "Does not belong after" is transitive. */
  lemma NotAfterTransitive(a: Row, b: Row, c: Row, key: string, dir: Direction)
    requires !After(a, b, key, dir) && !After(b, c, key, dir)
    ensures !After(a, c, key, dir)
  {
    var x, y, z := Field(a, key), Field(b, key), Field(c, key);
    LessTrichotomy(x, y);
    LessTrichotomy(y, z);
    LessTrichotomy(x, z);
    if Less(x, y) && Less(y, z) {
      LessTransitive(x, y, z);
    }
    if Less(y, x) && Less(z, y) {
      LessTransitive(z, y, x);
    }
    if Less(x, z) {
      LessAsymmetric(x, z);
    }
    if Less(z, x) {
      LessAsymmetric(z, x);
    }
  }

  /** For either direction, "does not belong after" means the keys are in that direction's order. */
  lemma NotAfterMeansOrdered(a: Row, b: Row, key: string, dir: Direction)
    ensures !After(a, b, key, dir) <==>
      (if dir == Asc then !Less(Field(b, key), Field(a, key)) else !Less(Field(a, key), Field(b, key)))
  {
    if Less(Field(a, key), Field(b, key)) {
      LessAsymmetric(Field(a, key), Field(b, key));
    }
  }

  // ---------------------------------------------------------------------
  // Properties of the specification sort

  lemma {:induction false} InsertPermutation(p: seq<Row>, x: Row, key: string, dir: Direction)
    ensures multiset(Insert(p, x, key, dir)) == multiset(p) + multiset{x}
    decreases |p|
  {
    if p != [] && After(p[|p| - 1], x, key, dir) {
      InsertPermutation(p[..|p| - 1], x, key, dir);
      assert p == p[..|p| - 1] + [p[|p| - 1]];
    }
  }

  /** Every row of an insertion is a row of `p` or `x`. */
  lemma InsertMembers(p: seq<Row>, x: Row, key: string, dir: Direction)
    ensures forall e :: e in Insert(p, x, key, dir) ==> e in p || e == x
  {
    InsertPermutation(p, x, key, dir);
    forall e | e in Insert(p, x, key, dir)
      ensures e in p || e == x
    {
      assert e in multiset(Insert(p, x, key, dir));
    }
  }

  /** Appending a row that no earlier row belongs after keeps a sequence sorted. */
  lemma SortedSnoc(q: seq<Row>, y: Row, key: string, dir: Direction)
    requires IsSorted(q, key, dir)
    requires forall i :: 0 <= i < |q| ==> !After(q[i], y, key, dir)
    ensures IsSorted(q + [y], key, dir)
  {
    var r := q + [y];
    forall i, j | 0 <= i < j < |r|
      ensures !After(r[i], r[j], key, dir)
    {
      assert r[i] == q[i];
      if j < |q| {
        assert r[j] == q[j];
      }
    }
  }

  lemma {:induction false} InsertSorted(p: seq<Row>, x: Row, key: string, dir: Direction)
    requires IsSorted(p, key, dir)
    ensures IsSorted(Insert(p, x, key, dir), key, dir)
    decreases |p|
  {
    if p == [] {
      return;
    }
    var last, init := p[|p| - 1], p[..|p| - 1];
    if After(last, x, key, dir) {
      var q := Insert(init, x, key, dir);
      assert IsSorted(init, key, dir) by {
        forall i, j | 0 <= i < j < |init|
          ensures !After(init[i], init[j], key, dir)
        {
          assert init[i] == p[i] && init[j] == p[j];
        }
      }
      InsertSorted(init, x, key, dir);
      InsertMembers(init, x, key, dir);
      forall i | 0 <= i < |q|
        ensures !After(q[i], last, key, dir)
      {
        assert q[i] in q;
        if q[i] == x {
          CompareAntisymmetric(x, last, key, dir);
        } else {
          var k :| 0 <= k < |init| && init[k] == q[i];
          assert p[k] == q[i];
        }
      }
      SortedSnoc(q, last, key, dir);
    } else {
      forall i | 0 <= i < |p|
        ensures !After(p[i], x, key, dir)
      {
        if i < |p| - 1 {
          NotAfterTransitive(p[i], last, x, key, dir);
        }
      }
      SortedSnoc(p, x, key, dir);
    }
  }

  lemma KeyRunAppend(s: seq<Row>, x: Row, key: string, v: Value)
    ensures KeyRun(s + [x], key, v) == KeyRun(s, key, v) + (if Field(x, key) == v then [x] else [])
  {
    assert (s + [x])[..|s + [x]| - 1] == s;
  }

  /** Two rows with different keys cannot both belong to one key's run, so their runs commute. */
  lemma RunsCommute(a: seq<Row>, xs: seq<Row>, ls: seq<Row>)
    requires xs == [] || ls == []
    ensures a + xs + ls == a + ls + xs
  {
  }

  lemma {:induction false} InsertStable(p: seq<Row>, x: Row, key: string, dir: Direction, v: Value)
    ensures KeyRun(Insert(p, x, key, dir), key, v)
         == KeyRun(p, key, v) + (if Field(x, key) == v then [x] else [])
    decreases |p|
  {
    var xs := if Field(x, key) == v then [x] else [];
    if p == [] {
      KeyRunAppend([], x, key, v);
      assert [] + [x] == [x];
    } else if After(p[|p| - 1], x, key, dir) {
      var last, init := p[|p| - 1], p[..|p| - 1];
      var ls := if Field(last, key) == v then [last] else [];
      var q := Insert(init, x, key, dir);
      assert Insert(p, x, key, dir) == q + [last];
      InsertStable(init, x, key, dir, v);
      assert KeyRun(q, key, v) == KeyRun(init, key, v) + xs;
      KeyRunAppend(q, last, key, v);
      assert KeyRun(q + [last], key, v) == KeyRun(init, key, v) + xs + ls;
      assert p == init + [last];
      KeyRunAppend(init, last, key, v);
      assert KeyRun(p, key, v) == KeyRun(init, key, v) + ls;
      CompareZero(last, x, key, dir);
      RunsCommute(KeyRun(init, key, v), xs, ls);
    } else {
      KeyRunAppend(p, x, key, v);
    }
  }

  /** The sort is a permutation of its input. */
  lemma {:induction false} SortedPermutation(s: seq<Row>, key: string, dir: Direction)
    ensures multiset(Sorted(s, key, dir)) == multiset(s)
  {
    if s != [] {
      SortedPermutation(s[..|s| - 1], key, dir);
      InsertPermutation(Sorted(s[..|s| - 1], key, dir), s[|s| - 1], key, dir);
      assert s == s[..|s| - 1] + [s[|s| - 1]];
    }
  }

  /** The sort orders its output by the comparator. */
  lemma {:induction false} SortedIsSorted(s: seq<Row>, key: string, dir: Direction)
    ensures IsSorted(Sorted(s, key, dir), key, dir)
  {
    if s != [] {
      SortedIsSorted(s[..|s| - 1], key, dir);
      InsertSorted(Sorted(s[..|s| - 1], key, dir), s[|s| - 1], key, dir);
    }
  }

  /** The sort is stable: rows with equal keys keep their input order, in either direction. */
  lemma {:induction false} SortedIsStable(s: seq<Row>, key: string, dir: Direction)
    ensures IsStableFor(Sorted(s, key, dir), s, key)
  {
    forall v
      ensures KeyRun(Sorted(s, key, dir), key, v) == KeyRun(s, key, v)
    {
      SortedIsStableAt(s, key, dir, v);
    }
  }

  lemma {:induction false} SortedIsStableAt(s: seq<Row>, key: string, dir: Direction, v: Value)
    ensures KeyRun(Sorted(s, key, dir), key, v) == KeyRun(s, key, v)
  {
    if s != [] {
      SortedIsStableAt(s[..|s| - 1], key, dir, v);
      InsertStable(Sorted(s[..|s| - 1], key, dir), s[|s| - 1], key, dir, v);
    }
  }

  /**
   * What the table displays: the rows themselves when no sort is configured;
   * otherwise a permutation of them, non-decreasing on the key for "asc",
   * non-increasing for "desc", with equal keys in input order.
   */
  lemma DisplayOrderCorrect(data: seq<Row>, config: Option<SortConfig>)
    ensures config.None? ==> DisplayOrder(data, config) == data
    ensures multiset(DisplayOrder(data, config)) == multiset(data)
    ensures config.Some? && config.value.direction == Asc ==>
      forall i, j :: 0 <= i < j < |data| ==>
        !Less(Field(DisplayOrder(data, config)[j], config.value.key), Field(DisplayOrder(data, config)[i], config.value.key))
    ensures config.Some? && config.value.direction == Desc ==>
      forall i, j :: 0 <= i < j < |data| ==>
        !Less(Field(DisplayOrder(data, config)[i], config.value.key), Field(DisplayOrder(data, config)[j], config.value.key))
    ensures config.Some? ==> IsStableFor(DisplayOrder(data, config), data, config.value.key)
  {
    if config.Some? {
      var key, dir := config.value.key, config.value.direction;
      var r := Sorted(data, key, dir);
      SortedPermutation(data, key, dir);
      SortedIsSorted(data, key, dir);
      SortedIsStable(data, key, dir);
      assert |r| == |multiset(r)| == |data|;
      forall i, j | 0 <= i < j < |data|
        ensures !After(r[i], r[j], key, dir)
      {
      }
      forall i, j | 0 <= i < j < |data|
        ensures if dir == Asc then !Less(Field(r[j], key), Field(r[i], key)) else !Less(Field(r[i], key), Field(r[j], key))
      {
        NotAfterMeansOrdered(r[i], r[j], key, dir);
      }
    }
  }

  /**
   * Descending is not the reverse of ascending: for two rows with equal keys
   * both directions keep the input order.
   */
  lemma DescendingIsNotReversedAscending(a: Row, b: Row, key: string)
    requires Field(a, key) == Field(b, key)
    ensures Sorted([a, b], key, Desc) == [a, b]
    ensures Sorted([a, b], key, Asc) == [a, b]
  {
  }

  // ---------------------------------------------------------------------
  // The in-place sort and the `sortedData` derivation

  /** Insertion at position `j`, when every row from `j` on belongs after `x` and the one before does not. */
  lemma {:induction false} InsertAt(p: seq<Row>, x: Row, j: nat, key: string, dir: Direction)
    requires j <= |p|
    requires forall k :: j <= k < |p| ==> After(p[k], x, key, dir)
    requires j == 0 || !After(p[j - 1], x, key, dir)
    ensures Insert(p, x, key, dir) == p[..j] + [x] + p[j..]
    decreases |p|
  {
    if j < |p| {
      var init := p[..|p| - 1];
      InsertAt(init, x, j, key, dir);
      assert init[..j] == p[..j];
      assert init[j..] + [p[|p| - 1]] == p[j..];
    } else if p != [] {
      assert p[..j] == p;
    }
  }

  /** One step of the in-place sort: moves `a[i]` left past every row of the sorted prefix that belongs after it. */
  method InsertInPlace(a: array<Row>, i: nat, key: string, dir: Direction)
    requires i < a.Length
    modifies a
    ensures a[..i + 1] == Insert(old(a[..i]), old(a[i]), key, dir)
    ensures a[i + 1..] == old(a[i + 1..])
  {
    ghost var p := a[..i];
    ghost var o := a[..];
    var x := a[i];
    var j := i;
    while j > 0 && Compare(a[j - 1], x, key, dir) > 0
      invariant 0 <= j <= i
      invariant forall k :: 0 <= k < j ==> a[k] == p[k]
      invariant forall k :: j < k <= i ==> a[k] == p[k - 1]
      invariant forall k :: i < k < a.Length ==> a[k] == o[k]
      invariant forall k :: j <= k < i ==> After(p[k], x, key, dir)
    {
      a[j] := a[j - 1];
      j := j - 1;
    }
    a[j] := x;
    InsertAt(p, x, j, key, dir);
    ShiftedPrefix(a[..], o, p, x, j, i);
  }

  /** After the shift, the prefix holds `p` with `x` placed at position `j`, and the suffix after `i` is as it was in `o`. */
  lemma ShiftedPrefix(b: seq<Row>, o: seq<Row>, p: seq<Row>, x: Row, j: nat, i: nat)
    requires j <= i == |p| < |b| == |o|
    requires forall k :: 0 <= k < j ==> b[k] == p[k]
    requires b[j] == x
    requires forall k :: j < k <= i ==> b[k] == p[k - 1]
    requires forall k :: i < k < |b| ==> b[k] == o[k]
    ensures b[..i + 1] == p[..j] + [x] + p[j..]
    ensures b[i + 1..] == o[i + 1..]
  {
  }

  /** The sort of a prefix one longer is the insertion of the next row into the sort of the prefix. */
  lemma SortedPrefixStep(s: seq<Row>, i: nat, key: string, dir: Direction)
    requires i < |s|
    ensures Sorted(s[..i + 1], key, dir) == Insert(Sorted(s[..i], key, dir), s[i], key, dir)
  {
    assert s[..i + 1][..i] == s[..i];
  }

  /** `Array.prototype.sort` with the table's comparator: a stable in-place sort. */
  method InsertionSort(a: array<Row>, key: string, dir: Direction)
    modifies a
    ensures a[..] == Sorted(old(a[..]), key, dir)
  {
    ghost var s := a[..];
    var i := 0;
    while i < a.Length
      invariant 0 <= i <= a.Length
      invariant a[..i] == Sorted(s[..i], key, dir)
      invariant a[i..] == s[i..]
    {
      ghost var before := a[..];
      assert before[i] == s[i] && before[i + 1..] == s[i + 1..] by {
        assert before[i..][0] == before[i] && s[i..][0] == s[i];
        assert before[i..][1..] == before[i + 1..] && s[i..][1..] == s[i + 1..];
      }
      InsertInPlace(a, i, key, dir);
      SortedPrefixStep(s, i, key, dir);
      i := i + 1;
    }
    assert s[..a.Length] == s;
  }

  /** `sortedData`: `data` itself without a sort, otherwise a sorted copy; `data` is never modified. */
  method SortedData(data: seq<Row>, config: Option<SortConfig>) returns (r: seq<Row>)
    ensures r == DisplayOrder(data, config)
    ensures config.None? ==> r == data
    ensures multiset(r) == multiset(data) && |r| == |data|
    ensures config.Some? ==> IsSorted(r, config.value.key, config.value.direction)
    ensures config.Some? ==> IsStableFor(r, data, config.value.key)
  {
    if config.None? {
      return data;
    }
    var copy := new Row[|data|](i requires 0 <= i < |data| => data[i]);
    assert copy[..] == data;
    InsertionSort(copy, config.value.key, config.value.direction);
    r := copy[..];
    assert |r| == |data|;
    SortedPermutation(data, config.value.key, config.value.direction);
    SortedIsSorted(data, config.value.key, config.value.direction);
    SortedIsStable(data, config.value.key, config.value.direction);
  }
}
