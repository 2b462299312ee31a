/** Python's `sorted` over the distinct values of a collection, for any
    strict total order: an insertion sort as a function (the specification
    used by the report functions) and a selection of minima as a method
    (used where the source sorts a set of names or the keys of a
    dictionary). */
module Sorting {

  ghost predicate IsStrictTotalOrder<T(!new)>(lt: (T, T) -> bool) {
    && (forall x :: !lt(x, x))
    && (forall x, y, z :: lt(x, y) && lt(y, z) ==> lt(x, z))
    && (forall x, y :: x == y || lt(x, y) || lt(y, x))
  }

  /** Strictly ascending, hence free of duplicates. */
  ghost predicate Ascending<T>(s: seq<T>, lt: (T, T) -> bool) {
    forall i, j :: 0 <= i < j < |s| ==> lt(s[i], s[j])
  }

  function Elements<T>(s: seq<T>): set<T> {
    set x | x in s
  }

  /** Inserts x at its place in an ascending sequence, unless it is there already. */
  function Insert<T(==, !new)>(s: seq<T>, x: T, lt: (T, T) -> bool): (r: seq<T>)
    requires IsStrictTotalOrder(lt) && Ascending(s, lt)
    ensures Ascending(r, lt)
    ensures Elements(r) == Elements(s) + {x}
  {
    if s == [] then [x]
    else if x == s[0] then s
    else if lt(x, s[0]) then
      assert forall e :: e in Elements(s) ==> e == s[0] || lt(s[0], e);
      [x] + s
    else
      var rest := Insert(s[1..], x, lt);
      assert Elements(s) == {s[0]} + Elements(s[1..]);
      assert forall e :: e in Elements(rest) ==> lt(s[0], e);
      assert forall j :: 0 <= j < |rest| ==> rest[j] in Elements(rest);
      [s[0]] + rest
  }

  /** `sorted(set(s))`: the distinct values of s in ascending order. */
  function SortedDistinct<T(==, !new)>(s: seq<T>, lt: (T, T) -> bool): (r: seq<T>)
    requires IsStrictTotalOrder(lt)
    ensures Ascending(r, lt)
    ensures Elements(r) == Elements(s)
  {
    if s == [] then []
    else
      assert s == s[..|s| - 1] + [s[|s| - 1]];
      assert Elements(s) == Elements(s[..|s| - 1]) + {s[|s| - 1]};
      Insert(SortedDistinct(s[..|s| - 1], lt), s[|s| - 1], lt)
  }

  lemma NoElements<T>(s: seq<T>)
    ensures Elements(s) == {} <==> s == []
  {
    if s != [] { assert s[0] in Elements(s); }
  }

  /** Two ascending sequences holding the same values are the same sequence:
      a sorted enumeration of a finite set is unique. */
  lemma {:induction false} AscendingUnique<T(!new)>(a: seq<T>, b: seq<T>, lt: (T, T) -> bool)
    requires IsStrictTotalOrder(lt)
    requires Ascending(a, lt) && Ascending(b, lt)
    requires Elements(a) == Elements(b)
    ensures a == b
  {
    NoElements(a);
    NoElements(b);
    if a != [] && b != [] {
      assert a[0] == b[0] by {
        assert forall e :: e in Elements(a) ==> e == a[0] || lt(a[0], e);
        assert forall e :: e in Elements(b) ==> e == b[0] || lt(b[0], e);
        assert b[0] in Elements(a) && a[0] in Elements(b);
      }
      assert Elements(a[1..]) == Elements(a) - {a[0]} by {
        assert a == [a[0]] + a[1..];
        forall k | 1 <= k < |a| ensures a[k] != a[0] { assert lt(a[0], a[k]); }
      }
      assert Elements(b[1..]) == Elements(b) - {b[0]} by {
        assert b == [b[0]] + b[1..];
        forall k | 1 <= k < |b| ensures b[k] != b[0] { assert lt(b[0], b[k]); }
      }
      AscendingUnique(a[1..], b[1..], lt);
      assert a == [a[0]] + a[1..] && b == [b[0]] + b[1..];
    }
  }

  ghost predicate IsLeast<T>(m: T, s: set<T>, lt: (T, T) -> bool) {
    m in s && forall y :: y in s && y != m ==> lt(m, y)
  }

  lemma {:induction false} LeastExists<T(!new)>(s: set<T>, lt: (T, T) -> bool)
    requires IsStrictTotalOrder(lt) && s != {}
    ensures exists m :: IsLeast(m, s, lt)
    decreases s
  {
    var x :| x in s;
    if s == {x} {
      assert IsLeast(x, s, lt);
    } else {
      LeastExists(s - {x}, lt);
      var m :| IsLeast(m, s - {x}, lt);
      if lt(x, m) {
        forall y | y in s && y != x ensures lt(x, y) {
          if y != m { assert lt(m, y); }
        }
        assert IsLeast(x, s, lt);
      } else {
        assert IsLeast(m, s, lt);
      }
    }
  }

  /** `sorted(keys)`: repeatedly takes the least value not yet taken. */
  method SortSet<T(==, !new)>(s: set<T>, lt: (T, T) -> bool) returns (r: seq<T>)
    requires IsStrictTotalOrder(lt)
    ensures Ascending(r, lt)
    ensures Elements(r) == s
  {
    r := [];
    var rest := s;
    while rest != {}
      invariant Ascending(r, lt)
      invariant Elements(r) + rest == s
      invariant forall i, y :: 0 <= i < |r| && y in rest ==> lt(r[i], y)
      decreases rest
    {
      LeastExists(rest, lt);
      var m :| m in rest && forall y :: y in rest && y != m ==> lt(m, y);
      assert Elements(r + [m]) == Elements(r) + {m};
      r := r + [m];
      rest := rest - {m};
    }
  }
}
