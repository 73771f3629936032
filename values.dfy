/**
 * Cell values of a DataTable row and the order the table sorts them by.
 *
 * A row is a record from field names to scalar values (a number or a
 * string). Reading a field the row does not have yields `Undefined`.
 * A string value is held as JavaScript holds it, as a sequence of UTF-16
 * code units. Within one kind the order is the one JavaScript's `<` gives:
 * numeric for numbers, lexicographic by code unit for strings. Across kinds
 * the model fixes one deterministic order (Undefined, then numbers, then
 * strings).
 */
module Values {

  /** One UTF-16 code unit. */
  type CodeUnit = c: int | 0 <= c < 0x1_0000

  datatype Value = Undefined | Int(n: int) | Str(s: seq<CodeUnit>)

  type Row = map<string, Value>

  /** `row[key]`, with a missing field read as `Undefined`. */
  function Field(row: Row, key: string): (r: Value)
    ensures key in row ==> r == row[key]
    ensures key !in row ==> r == Undefined
  {
    if key in row then row[key] else Undefined
  }

  /**
   * The UTF-16 encoding of a string: a character of the Basic Multilingual
   * Plane is one code unit, any other a surrogate pair.
   */
  function Utf16(s: string): (r: seq<CodeUnit>)
    ensures |s| <= |r| <= 2 * |s|
    ensures (forall k :: 0 <= k < |s| ==> (s[k] as int) < 0x1_0000) ==>
      |r| == |s| && forall k :: 0 <= k < |s| ==> r[k] == s[k] as int
  {
    if s == [] then []
    else
      var c := s[0] as int;
      var units := if c < 0x1_0000 then [c] else [0xD800 + (c - 0x1_0000) / 0x400, 0xDC00 + (c - 0x1_0000) % 0x400];
      units + Utf16(s[1..])
  }

  /** `x < y` on strings: a proper prefix is smaller, otherwise the first differing code unit decides. */
  predicate StrLess(x: seq<CodeUnit>, y: seq<CodeUnit>)
    ensures StrLess(x, y) ==> x != y && |y| > 0
    decreases |x|
  {
    if |y| == 0 then false
    else if |x| == 0 then true
    else if x[0] != y[0] then x[0] < y[0]
    else StrLess(x[1..], y[1..])
  }

  function Kind(v: Value): nat {
    match v
    case Undefined => 0
    case Int(_) => 1
    case Str(_) => 2
  }

  /** `a < b` on two cell values. */
  predicate Less(a: Value, b: Value)
    ensures Less(a, b) ==> a != b
    ensures Kind(a) != Kind(b) ==> (Less(a, b) <==> Kind(a) < Kind(b))
  {
    match (a, b)
    case (Int(x), Int(y)) => x < y
    case (Str(x), Str(y)) => StrLess(x, y)
    case _ => Kind(a) < Kind(b)
  }

  lemma StrLessIrreflexive(x: seq<CodeUnit>)
    ensures !StrLess(x, x)
  {
  }

  lemma {:induction false} StrLessTransitive(x: seq<CodeUnit>, y: seq<CodeUnit>, z: seq<CodeUnit>)
    requires StrLess(x, y) && StrLess(y, z)
    ensures StrLess(x, z)
    decreases |x|
  {
    if |x| > 0 && x[0] == y[0] && y[0] == z[0] {
      StrLessTransitive(x[1..], y[1..], z[1..]);
    }
  }

  /** Two different strings are always ordered one way or the other. */
  lemma {:induction false} StrLessTrichotomy(x: seq<CodeUnit>, y: seq<CodeUnit>)
    ensures x == y || StrLess(x, y) || StrLess(y, x)
    decreases |x|
  {
    if |x| > 0 && |y| > 0 && x[0] == y[0] {
      StrLessTrichotomy(x[1..], y[1..]);
      if x[1..] == y[1..] {
        assert x == [x[0]] + x[1..] && y == [y[0]] + y[1..];
      }
    }
  }

  lemma StrLessAsymmetric(x: seq<CodeUnit>, y: seq<CodeUnit>)
    requires StrLess(x, y)
    ensures !StrLess(y, x)
  {
  }

  /** `Less` is a strict total order on cell values. */
  lemma LessIrreflexive(a: Value)
    ensures !Less(a, a)
  {
  }

  lemma LessTransitive(a: Value, b: Value, c: Value)
    requires Less(a, b) && Less(b, c)
    ensures Less(a, c)
  {
    if a.Str? && b.Str? && c.Str? {
      StrLessTransitive(a.s, b.s, c.s);
    }
  }

  lemma LessTrichotomy(a: Value, b: Value)
    ensures a == b || Less(a, b) || Less(b, a)
  {
    if a.Str? && b.Str? {
      StrLessTrichotomy(a.s, b.s);
    }
  }

  lemma LessAsymmetric(a: Value, b: Value)
    requires Less(a, b)
    ensures !Less(b, a)
  {
    if Less(b, a) {
      LessTransitive(a, b, a);
      LessIrreflexive(a);
    }
  }

  /**
   * `StrLess` is the lexicographic order: `x` is a proper prefix of `y`, or
   * at the first position where they differ `x` has the smaller code unit.
   */
  lemma {:induction false} StrLessIsLexicographic(x: seq<CodeUnit>, y: seq<CodeUnit>)
    ensures StrLess(x, y) <==>
      (|x| < |y| && x == y[..|x|]) ||
      (exists k :: 0 <= k < |x| && k < |y| && x[..k] == y[..k] && x[k] < y[k])
    decreases |x|
  {
    if |x| > 0 && |y| > 0 && x[0] == y[0] {
      StrLessIsLexicographic(x[1..], y[1..]);
      if exists k :: 0 <= k < |x| && k < |y| && x[..k] == y[..k] && x[k] < y[k] {
        var k :| 0 <= k < |x| && k < |y| && x[..k] == y[..k] && x[k] < y[k];
        assert k > 0;
        assert x[1..][..k - 1] == y[1..][..k - 1] by {
          assert x[1..][..k - 1] == x[..k][1..] && y[1..][..k - 1] == y[..k][1..];
        }
        assert x[1..][k - 1] < y[1..][k - 1];
      }
      if exists k :: 0 <= k < |x| - 1 && k < |y| - 1 && x[1..][..k] == y[1..][..k] && x[1..][k] < y[1..][k] {
        var k :| 0 <= k < |x| - 1 && k < |y| - 1 && x[1..][..k] == y[1..][..k] && x[1..][k] < y[1..][k];
        assert x[..k + 1] == [x[0]] + x[1..][..k] && y[..k + 1] == [y[0]] + y[1..][..k];
        assert x[k + 1] < y[k + 1];
      }
      if |x| < |y| && x == y[..|x|] {
        assert x[1..] == y[1..][..|x| - 1];
      }
      if |x| - 1 < |y| - 1 && x[1..] == y[1..][..|x| - 1] {
        assert x == [x[0]] + x[1..] && y[..|x|] == [y[0]] + y[1..][..|x| - 1];
      }
    } else if |x| > 0 && |y| > 0 {
      assert x[..0] == y[..0];
    }
  }

  /**
   * Strings compare by UTF-16 code unit, not by character: a character
   * outside the Basic Multilingual Plane begins with a surrogate (0xD83D for
   * U+1F600), which sorts before U+FF01 although the character itself is larger.
   */
  lemma CodeUnitOrderExample()
    ensures Less(Str(Utf16("\U{1F600}")), Str(Utf16("\U{FF01}")))
    ensures '\U{FF01}' < '\U{1F600}'
  {
  }
}
