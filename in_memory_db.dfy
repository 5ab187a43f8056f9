/**
 * The in-memory database: a key -> field -> value store whose every write and
 * delete carries a timestamp, with TTL entries, prefix scans in field order,
 * and backups restored with their remaining TTL re-based onto the restore time.
 */
module InMemoryDatabase {
  import opened Wrappers
  import opened Strings
  import opened Sorting
  import opened FieldHistory
  import opened TemporalStore

  /** The timestamp at which the operations without a timestamp act. */
  const Untimed := 0

  /** Every version in the store was written by an operation without a timestamp. */
  ghost predicate UntimedOnly(data: Data)
  {
    forall k, f, i :: k in data && f in data[k] && 0 <= i < |data[k][f]| ==> data[k][f][i].at == Untimed
  }

  class InMemoryDB {
    /** key -> field -> every version ever recorded, ordered by timestamp. */
    var data: Data
    /** Every `backup_at` snapshot, in call order. */
    var backups: seq<Backup>

    ghost predicate Valid()
      reads this
    {
      WellFormed(data)
    }

    /** `__init__`: an empty database with no backups. */
    constructor()
      ensures Valid() && data == map[] && backups == []
    {
      data := map[];
      backups := [];
    }

    // -------------------------------------------------------------------------
    // Timestamped operations
    // -------------------------------------------------------------------------

    /** `get_at`: the value live at `t`, or None if never written, deleted or expired. */
    method GetAt(t: int, k: string, f: string) returns (r: Option<string>)
      requires Valid()
      ensures r == Lookup(data, t, k, f)
    {
      if k in data && f in data[k] {
        r := ReadAt(data[k][f], t);
      } else {
        r := None;
      }
    }

    /** Records version `v` of `k`/`f`; shared by the writes and the delete. */
    method Store(k: string, f: string, v: Version)
      requires Valid()
      modifies this
      ensures Valid()
      ensures data == Record(old(data), k, f, v) && backups == old(backups)
    {
      var h := if k in data && f in data[k] then data[k][f] else [];
      var h' := Insert(h, v);
      var fields := if k in data then data[k] else map[];
      RecordFrame(data, k, f, v, 0, k, f);
      data := data[k := fields[f := h']];
    }

    /** `put_at`: a permanent write of `value` from `t` on. */
    method PutAt(t: int, k: string, f: string, value: string)
      requires Valid()
      modifies this
      ensures Valid()
      ensures data == Record(old(data), k, f, Write(t, value, None)) && backups == old(backups)
    {
      Store(k, f, Write(t, value, None));
    }

    /** `put_at_with_ttl`: a write of `value` live on [`t`, `t + ttl`). */
    method PutAtWithTtl(t: int, k: string, f: string, value: string, ttl: int)
      requires Valid()
      modifies this
      ensures Valid()
      ensures data == Record(old(data), k, f, Write(t, value, Some(t + ttl))) && backups == old(backups)
    {
      Store(k, f, Write(t, value, Some(t + ttl)));
    }

    /**
     * `delete_at`: true exactly when the field is live at `t`, and then the field
     * is hidden from `t` on; otherwise nothing changes.
     */
    method DeleteAt(t: int, k: string, f: string) returns (deleted: bool)
      requires Valid()
      modifies this
      ensures Valid()
      ensures deleted <==> Lookup(old(data), t, k, f).Some?
      ensures data == (if deleted then Record(old(data), k, f, Tombstone(t)) else old(data))
      ensures backups == old(backups)
    {
      var current := GetAt(t, k, f);
      deleted := current.Some?;
      if deleted {
        Store(k, f, Tombstone(t));
      }
    }

    /**
     * `scan_with_prefix_at`: `field(value)` for every field of `k` that starts with
     * `prefix` and is live at `t`, in ascending field order.
     */
    method ScanWithPrefixAt(t: int, k: string, prefix: string) returns (r: seq<string>)
      requires Valid()
      ensures r == ScanSpec(data, t, k, prefix)
    {
      LessIsStrictTotalOrder();
      var fields := if k in data then data[k] else map[];
      var names, values := LiveNames(fields, t, prefix);
      assert Elements(names) == LiveFields(data, t, k, prefix);
      SortedUnique(names, ScanOrder(data, t, k, prefix), Less);
      r := Entries(names, values);
    }

    /** `scan_at`: every field of `k` live at `t`, in ascending field order. */
    method ScanAt(t: int, k: string) returns (r: seq<string>)
      requires Valid()
      ensures r == ScanSpec(data, t, k, "")
    {
      r := ScanWithPrefixAt(t, k, "");
    }

    /** `backup_at`: records the live entries at `t` with the TTL each has left. */
    method BackupAt(t: int)
      requires Valid()
      modifies this
      ensures Valid()
      ensures backups == old(backups) + [Backup(t, Snapshot(old(data), t))] && data == old(data)
    {
      backups := backups + [Backup(t, Snapshot(data, t))];
    }

    /** Finds the backup `restore_at` uses: greatest timestamp <= `r`, latest recorded on ties. */
    method FindClosest(r: int) returns (i: Option<nat>)
      ensures i == Closest(backups, r)
    {
      i := None;
      for j := 0 to |backups|
        invariant i == Closest(backups[..j], r)
      {
        assert backups[..j + 1][..j] == backups[..j];
        if backups[j].at <= r && (i.None? || backups[i.value].at <= backups[j].at) {
          i := Some(j);
        }
      }
      assert backups[..|backups|] == backups;
    }

    /**
     * `restore_at`: the database becomes the chosen backup re-based onto `t` (TTL
     * entries now end at `t` + their saved remaining time), or empty if no backup
     * is old enough; the backups themselves are kept.
     */
    method RestoreAt(t: int, r: int)
      requires Valid()
      modifies this
      ensures Valid()
      ensures data == RestoredData(old(backups), t, r) && backups == old(backups)
    {
      var i := FindClosest(r);
      RestoredWellFormed(backups, t, r);
      if i.Some? {
        data := Rebase(backups[i.value].entries, t);
      } else {
        data := map[];
      }
    }

    // -------------------------------------------------------------------------
    // Operations without a timestamp
    // -------------------------------------------------------------------------

    /** `get`. */
    method Get(k: string, f: string) returns (r: Option<string>)
      requires Valid()
      ensures r == Lookup(data, Untimed, k, f)
    {
      r := GetAt(Untimed, k, f);
    }

    /** `put`. */
    method Put(k: string, f: string, value: string)
      requires Valid()
      modifies this
      ensures Valid()
      ensures data == Record(old(data), k, f, Write(Untimed, value, None)) && backups == old(backups)
    {
      PutAt(Untimed, k, f, value);
    }

    /** `delete`: true exactly when the field exists. */
    method Delete(k: string, f: string) returns (deleted: bool)
      requires Valid()
      modifies this
      ensures Valid()
      ensures deleted <==> Lookup(old(data), Untimed, k, f).Some?
      ensures data == (if deleted then Record(old(data), k, f, Tombstone(Untimed)) else old(data))
      ensures backups == old(backups)
    {
      deleted := DeleteAt(Untimed, k, f);
    }

    /** `scan`. */
    method Scan(k: string) returns (r: seq<string>)
      requires Valid()
      ensures r == ScanSpec(data, Untimed, k, "")
    {
      r := ScanAt(Untimed, k);
    }

    /** `scan_with_prefix`. */
    method ScanWithPrefix(k: string, prefix: string) returns (r: seq<string>)
      requires Valid()
      ensures r == ScanSpec(data, Untimed, k, prefix)
    {
      r := ScanWithPrefixAt(Untimed, k, prefix);
    }
  }

  /**
   * The names of the fields that start with `prefix` and are live at `t`, in
   * ascending order, and the value of each at `t`.
   */
  method LiveNames(fields: Fields, t: int, prefix: string) returns (names: seq<string>, values: map<string, string>)
    requires forall f :: f in fields ==> Ordered(fields[f])
    ensures SortedBy(names, Less)
    ensures Elements(names) == set f | f in fields && StartsWith(f, prefix) && ValueAt(fields[f], t).Some?
    ensures values.Keys == Elements(names)
    ensures forall f :: f in values ==> f in fields && Some(values[f]) == ValueAt(fields[f], t)
  {
    LessIsStrictTotalOrder();
    var rest := fields.Keys;
    names := [];
    values := map[];
    while rest != {}
      invariant rest <= fields.Keys
      invariant SortedBy(names, Less)
      invariant Elements(names) ==
        set f | f in fields.Keys - rest && StartsWith(f, prefix) && ValueAt(fields[f], t).Some?
      invariant values.Keys == Elements(names)
      invariant forall f :: f in values ==> f in fields && Some(values[f]) == ValueAt(fields[f], t)
      decreases rest
    {
      var f :| f in rest;
      rest := rest - {f};
      if StartsWith(f, prefix) {
        var v := ReadAt(fields[f], t);
        if v.Some? {
          InsertByCorrect(names, f, Less);
          names := InsertBy(names, f, Less);
          values := values[f := v.value];
        }
      }
    }
  }

  /** `field(value)` for each name in order. */
  method Entries(names: seq<string>, values: map<string, string>) returns (r: seq<string>)
    requires values.Keys == Elements(names)
    ensures |r| == |names|
    ensures forall j :: 0 <= j < |names| ==> names[j] in values && r[j] == FieldEntry(names[j], values[names[j]])
  {
    r := [];
    for i := 0 to |names|
      invariant |r| == i
      invariant forall j :: 0 <= j < i ==> names[j] in values && r[j] == FieldEntry(names[j], values[names[j]])
    {
      assert names[i] in Elements(names);
      r := r + [FieldEntry(names[i], values[names[i]])];
    }
  }

  /**
   * Through the operations without a timestamp the store behaves as a plain map:
   * `get` after `put` returns the value put, other fields are untouched, and the
   * store stays untimed.
   */
  lemma UntimedPutThenGet(data: Data, k: string, f: string, v: string, k2: string, f2: string)
    requires WellFormed(data) && UntimedOnly(data)
    ensures var after := Record(data, k, f, Write(Untimed, v, None));
      && UntimedOnly(after)
      && Lookup(after, Untimed, k, f) == Some(v)
      && ((k2, f2) != (k, f) ==> Lookup(after, Untimed, k2, f2) == Lookup(data, Untimed, k2, f2))
  {
    UntimedRecord(data, k, f, Write(Untimed, v, None));
    PutAtVisibleFrom(data, Untimed, k, f, v, Untimed);
    RecordFrame(data, k, f, Write(Untimed, v, None), Untimed, k2, f2);
  }

  /** `get` after a successful `delete` returns None; other fields are untouched. */
  lemma UntimedDeleteThenGet(data: Data, k: string, f: string, k2: string, f2: string)
    requires WellFormed(data) && UntimedOnly(data)
    ensures var after := Record(data, k, f, Tombstone(Untimed));
      && UntimedOnly(after)
      && Lookup(after, Untimed, k, f) == None
      && ((k2, f2) != (k, f) ==> Lookup(after, Untimed, k2, f2) == Lookup(data, Untimed, k2, f2))
  {
    UntimedRecord(data, k, f, Tombstone(Untimed));
    ValueAfterNewestInsert(HistoryOf(data, k, f), Tombstone(Untimed), Untimed);
    RecordFrame(data, k, f, Tombstone(Untimed), Untimed, k2, f2);
  }

  /** Recording an untimed version keeps the store untimed, with nothing after `Untimed`. */
  lemma UntimedRecord(data: Data, k: string, f: string, v: Version)
    requires UntimedOnly(data) && v.at == Untimed
    ensures NothingAfter(HistoryOf(data, k, f), Untimed)
    ensures UntimedOnly(Record(data, k, f, v))
  {
    var h := HistoryOf(data, k, f);
    SplitUnique(h, v.at, |h|);
    assert Inserted(h, v) == h + [v];
  }
}
