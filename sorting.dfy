/**
 * Sequences kept in ascending order under a strict total order, built by insertion.
 * Used for the lexicographic field order of scans and for the size ranking of files.
 */
module Sorting {

  /** `less` is irreflexive, transitive and relates any two distinct values. */
  ghost predicate StrictTotalOrder<T(!new)>(less: (T, T) -> bool)
  {
    && (forall x :: !less(x, x))
    && (forall x, y, z :: less(x, y) && less(y, z) ==> less(x, z))
    && (forall x, y :: x != y ==> less(x, y) || less(y, x))
  }

  /** Every element comes strictly before every later one. */
  predicate SortedBy<T>(s: seq<T>, less: (T, T) -> bool)
  {
    forall i, j :: 0 <= i < j < |s| ==> less(s[i], s[j])
  }

  function Elements<T>(s: seq<T>): set<T>
  {
    set x | x in s
  }

  /** Puts `x` into the sorted sequence `s` at its place; a value already present is not repeated. */
  function InsertBy<T(==)>(s: seq<T>, x: T, less: (T, T) -> bool): seq<T>
  {
    if s == [] then [x]
    else if x == s[0] then s
    else if less(x, s[0]) then [x] + s
    else [s[0]] + InsertBy(s[1..], x, less)
  }

  lemma {:induction false} InsertByCorrect<T(!new)>(s: seq<T>, x: T, less: (T, T) -> bool)
    requires StrictTotalOrder(less)
    requires SortedBy(s, less)
    ensures SortedBy(InsertBy(s, x, less), less)
    ensures Elements(InsertBy(s, x, less)) == Elements(s) + {x}
  {
    if s == [] {
    } else if x == s[0] {
    } else if less(x, s[0]) {
      var r := [x] + s;
      forall i, j | 0 <= i < j < |r| ensures less(r[i], r[j]) {
        if i == 0 && j > 1 {
          assert less(s[0], s[j - 1]);
        }
      }
    } else {
      assert less(s[0], x);
      InsertByCorrect(s[1..], x, less);
      var tail := InsertBy(s[1..], x, less);
      var r := [s[0]] + tail;
      assert s == [s[0]] + s[1..];
      assert Elements(s) == {s[0]} + Elements(s[1..]);
      assert Elements(r) == {s[0]} + Elements(tail);
      forall i, j | 0 <= i < j < |r| ensures less(r[i], r[j]) {
        if i == 0 {
          assert r[j] in Elements(tail);
          if r[j] != x {
            TailElements(s, less);
            FirstIsLeast(s, r[j], less);
          }
        }
      }
    }
  }

  /** The first element of a sorted sequence comes before every other element. */
  lemma FirstIsLeast<T(!new)>(s: seq<T>, x: T, less: (T, T) -> bool)
    requires SortedBy(s, less)
    requires x in Elements(s)
    ensures x == s[0] || less(s[0], x)
  {
    var k :| 0 <= k < |s| && s[k] == x;
  }

  /** Dropping the head of a sorted sequence drops exactly that element from its set. */
  lemma TailElements<T(!new)>(s: seq<T>, less: (T, T) -> bool)
    requires StrictTotalOrder(less)
    requires SortedBy(s, less) && s != []
    ensures Elements(s[1..]) == Elements(s) - {s[0]}
  {
    forall k | 0 <= k < |s| - 1 ensures s[1..][k] != s[0] {
      assert less(s[0], s[k + 1]);
    }
    assert s == [s[0]] + s[1..];
  }

  /** A sequence sorted strictly has no repeated element, so its length is the size of its set. */
  lemma {:induction false} SortedLength<T(!new)>(s: seq<T>, less: (T, T) -> bool)
    requires StrictTotalOrder(less)
    requires SortedBy(s, less)
    ensures |Elements(s)| == |s|
  {
    if s != [] {
      SortedLength(s[1..], less);
      TailElements(s, less);
      assert s[0] in Elements(s);
    }
  }

  /** Two strictly sorted sequences with the same elements are the same sequence. */
  lemma {:induction false} SortedUnique<T(!new)>(a: seq<T>, b: seq<T>, less: (T, T) -> bool)
    requires StrictTotalOrder(less)
    requires SortedBy(a, less) && SortedBy(b, less)
    requires Elements(a) == Elements(b)
    ensures a == b
    decreases |a|
  {
    SortedLength(a, less);
    SortedLength(b, less);
    if a != [] {
      assert a[0] in Elements(a) && b[0] in Elements(b);
      FirstIsLeast(a, b[0], less);
      FirstIsLeast(b, a[0], less);
      assert a[0] == b[0];
      TailElements(a, less);
      TailElements(b, less);
      SortedUnique(a[1..], b[1..], less);
      assert a == [a[0]] + a[1..] && b == [b[0]] + b[1..];
    }
  }

  /** The strictly sorted sequence of the elements of a finite set. */
  ghost function SortedSeqOf<T(!new)>(s: set<T>, less: (T, T) -> bool): (r: seq<T>)
    requires StrictTotalOrder(less)
    ensures SortedBy(r, less) && Elements(r) == s
    decreases s
  {
    if s == {} then []
    else
      var x :| x in s;
      var rest := SortedSeqOf(s - {x}, less);
      InsertByCorrect(rest, x, less);
      InsertBy(rest, x, less)
  }
}
