/**
 * The history of one (key, field) pair of the in-memory database: every write and
 * delete ever made to it, ordered by the timestamp the caller gave. Reads "as of"
 * a timestamp look at the newest version written at or before it, so old values
 * stay readable at old timestamps and writes may arrive out of timestamp order.
 */
module FieldHistory {
  import opened Wrappers

  /** A value written at `at` (visible until the absolute `expiry`, if any), or a delete marker. */
  datatype Version =
    | Write(at: int, value: string, expiry: Option<int>)
    | Tombstone(at: int)

  type History = seq<Version>

  predicate Ordered(h: History)
  {
    forall i, j :: 0 <= i < j < |h| ==> h[i].at <= h[j].at
  }

  /** No version of `h` was written after `t`. */
  predicate NothingAfter(h: History, t: int)
  {
    forall i :: 0 <= i < |h| ==> h[i].at <= t
  }

  /** No version of `h` was written in the interval (`lo`, `hi`]. */
  predicate NothingBetween(h: History, lo: int, hi: int)
  {
    forall i :: 0 <= i < |h| ==> h[i].at <= lo || hi < h[i].at
  }

  /**
   * The number of versions of an ordered history written at or before `t`; also
   * the position at which a version stamped `t` is inserted, after every version
   * that carries the same timestamp.
   */
  function Split(h: History, t: int): (n: nat)
    ensures n <= |h|
  {
    if h == [] || h[|h| - 1].at <= t then |h| else Split(h[..|h| - 1], t)
  }

  /** The version that governs reads at `t`: the newest written at or before `t`. */
  function Latest(h: History, t: int): Option<Version>
  {
    var n := Split(h, t);
    if n == 0 then None else Some(h[n - 1])
  }

  /** What a version shows at `t`: a write's value until its expiry (half-open), a delete nothing. */
  function Visible(v: Version, t: int): Option<string>
  {
    match v
    case Tombstone(_) => None
    case Write(_, value, expiry) => if expiry.None? || t < expiry.value then Some(value) else None
  }

  /** `get_at`: the value of the field at `t`, or None if absent, deleted or expired then. */
  function ValueAt(h: History, t: int): Option<string>
  {
    match Latest(h, t)
    case None => None
    case Some(v) => Visible(v, t)
  }

  /** The history after recording `v`: placed after every version at or before `v.at`. */
  function Inserted(h: History, v: Version): History
  {
    var n := Split(h, v.at);
    h[..n] + [v] + h[n..]
  }

  /** In an ordered history, `Split` separates the versions at or before `t` from the later ones. */
  lemma {:induction false} SplitIsBoundary(h: History, t: int)
    requires Ordered(h)
    ensures forall i :: 0 <= i < Split(h, t) ==> h[i].at <= t
    ensures forall i :: Split(h, t) <= i < |h| ==> t < h[i].at
  {
    if h != [] && t < h[|h| - 1].at {
      SplitIsBoundary(h[..|h| - 1], t);
    }
  }

  /** Any boundary between versions at or before `t` and later ones is the one `Split` finds. */
  lemma {:induction false} SplitUnique(h: History, t: int, n: nat)
    requires n <= |h|
    requires forall i :: 0 <= i < n ==> h[i].at <= t
    requires forall i :: n <= i < |h| ==> t < h[i].at
    ensures Split(h, t) == n
  {
    if n < |h| {
      SplitUnique(h[..|h| - 1], t, n);
    }
  }

  /** A later timestamp never splits a history earlier. */
  lemma {:induction false} SplitMonotone(h: History, t1: int, t2: int)
    requires t1 <= t2
    ensures Split(h, t1) <= Split(h, t2)
  {
    if h != [] && t2 < h[|h| - 1].at {
      SplitMonotone(h[..|h| - 1], t1, t2);
    }
  }

  lemma InsertedOrdered(h: History, v: Version)
    requires Ordered(h)
    ensures Ordered(Inserted(h, v))
    ensures |Inserted(h, v)| == |h| + 1
  {
    SplitIsBoundary(h, v.at);
  }

  /**
   * Reads after recording `v`: before `v.at` nothing changes; from `v.at` on, `v`
   * governs unless the version governing before was written strictly after `v.at`
   * (so a write stamped like an existing one wins over it).
   */
  lemma LatestAfterInsert(h: History, v: Version, t: int)
    requires Ordered(h)
    ensures Latest(Inserted(h, v), t) ==
      if t < v.at then Latest(h, t)
      else if Latest(h, t).Some? && v.at < Latest(h, t).value.at then Latest(h, t)
      else Some(v)
  {
    var n := Split(h, v.at);
    var m := Split(h, t);
    var h' := Inserted(h, v);
    if t < v.at {
      SplitBeforeInsert(h, v, t);
    } else {
      SplitFromInsert(h, v, t);
      SplitMonotone(h, v.at, t);
      SplitIsBoundary(h, v.at);
      if m == n {
        assert h'[m] == v;
      } else {
        assert h'[m] == h[m - 1];
        assert v.at < h[m - 1].at;
      }
    }
  }

  /** A read before `v.at` sees the same prefix of the history once `v` is inserted. */
  lemma SplitBeforeInsert(h: History, v: Version, t: int)
    requires Ordered(h) && t < v.at
    ensures Split(Inserted(h, v), t) == Split(h, t)
    ensures forall i :: 0 <= i < Split(h, t) ==> Inserted(h, v)[i] == h[i]
  {
    SplitIsBoundary(h, t);
    SplitIsBoundary(h, v.at);
    SplitMonotone(h, t, v.at);
    SplitUnique(Inserted(h, v), t, Split(h, t));
  }

  /** A read at or after `v.at` sees one more version once `v` is inserted. */
  lemma SplitFromInsert(h: History, v: Version, t: int)
    requires Ordered(h) && v.at <= t
    ensures Split(Inserted(h, v), t) == Split(h, t) + 1
  {
    SplitIsBoundary(h, t);
    SplitIsBoundary(h, v.at);
    SplitMonotone(h, v.at, t);
    SplitUnique(Inserted(h, v), t, Split(h, t) + 1);
  }

  /** With no version written after `v.at`, `v` decides every read from `v.at` on. */
  lemma ValueAfterNewestInsert(h: History, v: Version, t: int)
    requires Ordered(h) && NothingAfter(h, v.at)
    ensures ValueAt(Inserted(h, v), t) == if t < v.at then ValueAt(h, t) else Visible(v, t)
  {
    LatestAfterInsert(h, v, t);
    SplitIsBoundary(h, t);
  }

  /** A version written at or before `t` with no version in (`v.at`, `t`] decides the read at `t`. */
  lemma ValueAfterInsert(h: History, v: Version, t: int)
    requires Ordered(h) && v.at <= t && NothingBetween(h, v.at, t)
    ensures ValueAt(Inserted(h, v), t) == Visible(v, t)
  {
    LatestAfterInsert(h, v, t);
    SplitIsBoundary(h, t);
  }

  /** Binary search for `Split`. */
  method FindSplit(h: History, t: int) returns (n: nat)
    requires Ordered(h)
    ensures n == Split(h, t)
  {
    var lo, hi := 0, |h|;
    while lo < hi
      invariant 0 <= lo <= hi <= |h|
      invariant forall i :: 0 <= i < lo ==> h[i].at <= t
      invariant forall i :: hi <= i < |h| ==> t < h[i].at
    {
      var mid := (lo + hi) / 2;
      if h[mid].at <= t {
        lo := mid + 1;
      } else {
        hi := mid;
      }
    }
    SplitUnique(h, t, lo);
    n := lo;
  }

  /** The read of a field's history at `t`. */
  method ReadAt(h: History, t: int) returns (r: Option<string>)
    requires Ordered(h)
    ensures r == ValueAt(h, t)
  {
    var n := FindSplit(h, t);
    if n == 0 {
      r := None;
    } else {
      r := Visible(h[n - 1], t);
    }
  }

  /** Records `v` in its timestamp position. */
  method Insert(h: History, v: Version) returns (h': History)
    requires Ordered(h)
    ensures h' == Inserted(h, v) && Ordered(h')
  {
    var n := FindSplit(h, v.at);
    h' := h[..n] + [v] + h[n..];
    InsertedOrdered(h, v);
  }
}
