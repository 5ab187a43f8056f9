/**
 * The state of the in-memory database as values: key -> field -> history, the
 * reads, writes and scans "as of" a timestamp, and the backup snapshots with
 * their TTL re-basing on restore. The class in module InMemoryDatabase holds
 * this state and its methods are proved against these functions.
 */
module TemporalStore {
  import opened Wrappers
  import opened Strings
  import opened Sorting
  import opened FieldHistory

  type Fields = map<string, History>
  type Data = map<string, Fields>

  /** A field as a backup keeps it: its value and, for a TTL entry, the time it had left. */
  datatype Saved = Saved(value: string, remaining: Option<int>)

  /** One `backup_at` call: its timestamp and the live entries, key -> field -> saved entry. */
  datatype Backup = Backup(at: int, entries: map<string, map<string, Saved>>)

  ghost predicate WellFormed(data: Data)
  {
    forall k, f :: k in data && f in data[k] ==> Ordered(data[k][f])
  }

  function HistoryOf(data: Data, k: string, f: string): History
  {
    if k in data && f in data[k] then data[k][f] else []
  }

  /** `get_at(t, k, f)`. */
  function Lookup(data: Data, t: int, k: string, f: string): Option<string>
  {
    ValueAt(HistoryOf(data, k, f), t)
  }

  /** The database after recording version `v` of field `f` under key `k`. */
  function Record(data: Data, k: string, f: string, v: Version): Data
  {
    var fields := if k in data then data[k] else map[];
    data[k := fields[f := Inserted(HistoryOf(data, k, f), v)]]
  }

  // ---------------------------------------------------------------------------
  // Writes, reads and deletes of one field
  // ---------------------------------------------------------------------------

  /** A field never written is absent at every timestamp. */
  lemma NeverWrittenIsAbsent(data: Data, t: int, k: string, f: string)
    requires k !in data || f !in data[k]
    ensures Lookup(data, t, k, f) == None
  {
  }

  /** Recording a version keeps every history ordered, and touches no other field or key. */
  lemma RecordFrame(data: Data, k: string, f: string, v: Version, t: int, k2: string, f2: string)
    requires WellFormed(data)
    ensures WellFormed(Record(data, k, f, v))
    ensures (k2, f2) != (k, f) ==> Lookup(Record(data, k, f, v), t, k2, f2) == Lookup(data, t, k2, f2)
    ensures k2 in Record(data, k, f, v) <==> k2 in data || k2 == k
  {
    forall k', f' | k' in Record(data, k, f, v) && f' in Record(data, k, f, v)[k']
      ensures Ordered(Record(data, k, f, v)[k'][f'])
    {
      if k' == k && f' == f {
        InsertedOrdered(HistoryOf(data, k, f), v);
      }
    }
  }

  /**
   * `put_at(t, k, f, v)` on a field with no version after `t`: reads before `t` are
   * unchanged (absent on a fresh field), reads at or after `t` return `v`; two
   * writes with the same timestamp leave the later call's value.
   */
  lemma PutAtVisibleFrom(data: Data, t: int, k: string, f: string, v: string, t': int)
    requires WellFormed(data)
    requires NothingAfter(HistoryOf(data, k, f), t)
    ensures Lookup(Record(data, k, f, Write(t, v, None)), t', k, f) ==
      if t' < t then Lookup(data, t', k, f) else Some(v)
  {
    ValueAfterNewestInsert(HistoryOf(data, k, f), Write(t, v, None), t');
  }

  /**
   * On a fresh field, `put_at(t1, v1)` then `put_at(t2, v2)` with `t1 < t2`: absent
   * before `t1`, `v1` on [`t1`, `t2`), `v2` from `t2` on.
   */
  lemma OverwriteKeepsHistory(data: Data, k: string, f: string, t1: int, v1: string, t2: int, v2: string, t': int)
    requires WellFormed(data)
    requires k !in data || f !in data[k]
    requires t1 < t2
    ensures var after := Record(Record(data, k, f, Write(t1, v1, None)), k, f, Write(t2, v2, None));
      Lookup(after, t', k, f) == if t' < t1 then None else if t' < t2 then Some(v1) else Some(v2)
  {
    var once := Record(data, k, f, Write(t1, v1, None));
    RecordFrame(data, k, f, Write(t1, v1, None), t', k, f);
    PutAtVisibleFrom(data, t1, k, f, v1, t');
    PutAtVisibleFrom(once, t2, k, f, v2, t');
  }

  /**
   * `put_at_with_ttl(t, k, f, v, ttl)` on a field with no version after `t`: from `t`
   * on the value is visible exactly on [`t`, `t + ttl`), and after that the field is
   * absent even if an older permanent write exists.
   */
  lemma TtlWindow(data: Data, t: int, k: string, f: string, v: string, ttl: int, t': int)
    requires WellFormed(data)
    requires NothingAfter(HistoryOf(data, k, f), t)
    ensures Lookup(Record(data, k, f, Write(t, v, Some(t + ttl))), t', k, f) ==
      if t' < t then Lookup(data, t', k, f)
      else if t' < t + ttl then Some(v)
      else None
  {
    ValueAfterNewestInsert(HistoryOf(data, k, f), Write(t, v, Some(t + ttl)), t');
  }

  /** A TTL of 0 is never visible from `t` on; a TTL of 1 is visible at `t` only. */
  lemma TtlZeroAndOne(data: Data, t: int, k: string, f: string, v: string, t': int)
    requires WellFormed(data)
    requires NothingAfter(HistoryOf(data, k, f), t)
    requires t <= t'
    ensures Lookup(Record(data, k, f, Write(t, v, Some(t + 0))), t', k, f) == None
    ensures Lookup(Record(data, k, f, Write(t, v, Some(t + 1))), t', k, f) == if t' == t then Some(v) else None
  {
    TtlWindow(data, t, k, f, v, 0, t');
    TtlWindow(data, t, k, f, v, 1, t');
  }

  /**
   * A version recorded at `v.at`, even after versions with later timestamps were
   * recorded, decides the reads at every `t' >= v.at` up to the next later-stamped
   * version, and changes no read before `v.at`.
   */
  lemma WriteGovernsUntilNextVersion(data: Data, k: string, f: string, v: Version, t': int)
    requires WellFormed(data)
    ensures t' < v.at ==> Lookup(Record(data, k, f, v), t', k, f) == Lookup(data, t', k, f)
    ensures v.at <= t' && NothingBetween(HistoryOf(data, k, f), v.at, t') ==>
      Lookup(Record(data, k, f, v), t', k, f) == Visible(v, t')
  {
    LatestAfterInsert(HistoryOf(data, k, f), v, t');
    if v.at <= t' && NothingBetween(HistoryOf(data, k, f), v.at, t') {
      ValueAfterInsert(HistoryOf(data, k, f), v, t');
    }
  }

  /**
   * `delete_at(t, k, f)` reports whether the field is live at `t`; a successful
   * delete hides the field from `t` up to the next later-stamped write, and leaves
   * every read before `t` as it was.
   */
  lemma DeleteHidesFrom(data: Data, t: int, k: string, f: string, t': int)
    requires WellFormed(data)
    ensures t' < t ==> Lookup(Record(data, k, f, Tombstone(t)), t', k, f) == Lookup(data, t', k, f)
    ensures t <= t' && NothingBetween(HistoryOf(data, k, f), t, t') ==>
      Lookup(Record(data, k, f, Tombstone(t)), t', k, f) == None
  {
    WriteGovernsUntilNextVersion(data, k, f, Tombstone(t), t');
  }

  /**
   * A read after a TTL entry has expired finds nothing: it does not fall back to an
   * older permanent write of the same field.
   */
  lemma ExpiredStaysAbsent(data: Data, t: int, k: string, f: string, v: string, e: int, t': int)
    requires WellFormed(data)
    requires NothingAfter(HistoryOf(data, k, f), t)
    requires t <= t' && e <= t'
    ensures Lookup(Record(data, k, f, Write(t, v, Some(e))), t', k, f) == None
  {
    ValueAfterNewestInsert(HistoryOf(data, k, f), Write(t, v, Some(e)), t');
  }

  // ---------------------------------------------------------------------------
  // Scans
  // ---------------------------------------------------------------------------

  /** `field + "(" + value + ")"`, the text of one scan result. */
  function FieldEntry(f: string, v: string): string
  {
    f + "(" + v + ")"
  }

  /** The fields of key `k` that start with `prefix` and are live at `t`. */
  ghost function LiveFields(data: Data, t: int, k: string, prefix: string): set<string>
  {
    if k in data then set f | f in data[k] && StartsWith(f, prefix) && ValueAt(data[k][f], t).Some? else {}
  }

  /** The live, prefixed fields of `k` at `t` in ascending code-point order. */
  ghost function ScanOrder(data: Data, t: int, k: string, prefix: string): (fs: seq<string>)
    ensures SortedBy(fs, Less) && Elements(fs) == LiveFields(data, t, k, prefix)
  {
    LessIsStrictTotalOrder();
    SortedSeqOf(LiveFields(data, t, k, prefix), Less)
  }

  /** `scan_with_prefix_at(t, k, prefix)`; `scan_at(t, k)` is the empty prefix. */
  ghost function ScanSpec(data: Data, t: int, k: string, prefix: string): seq<string>
  {
    var fs := ScanOrder(data, t, k, prefix);
    seq(|fs|, i requires 0 <= i < |fs| =>
      assert fs[i] in Elements(fs);
      FieldEntry(fs[i], Lookup(data, t, k, fs[i]).value))
  }

  /**
   * A scan lists each live field starting with `prefix` once, as `field(value)` with
   * its value at `t`, in strictly ascending field order, and nothing else.
   */
  lemma ScanListsLiveFields(data: Data, t: int, k: string, prefix: string)
    ensures var r := ScanSpec(data, t, k, prefix);
      && (forall f :: f in LiveFields(data, t, k, prefix) <==>
            k in data && f in data[k] && StartsWith(f, prefix) && Lookup(data, t, k, f).Some?)
      && |r| == |LiveFields(data, t, k, prefix)|
      && exists fs: seq<string> ::
           && |fs| == |r|
           && SortedBy(fs, Less)
           && Elements(fs) == LiveFields(data, t, k, prefix)
           && forall i :: 0 <= i < |r| ==> r[i] == FieldEntry(fs[i], Lookup(data, t, k, fs[i]).value)
  {
    var fs := ScanOrder(data, t, k, prefix);
    LessIsStrictTotalOrder();
    SortedLength(fs, Less);
  }

  /** A missing key, or a key none of whose fields is live at `t`, scans to []. */
  lemma ScanOfNothingLive(data: Data, t: int, k: string, prefix: string)
    requires forall f :: k in data && f in data[k] ==> ValueAt(data[k][f], t).None?
    ensures ScanSpec(data, t, k, prefix) == []
  {
    assert LiveFields(data, t, k, prefix) == {};
    var fs := ScanOrder(data, t, k, prefix);
    LessIsStrictTotalOrder();
    SortedLength(fs, Less);
  }

  /** The empty prefix matches every field: `scan_with_prefix_at(t, k, "")` is `scan_at(t, k)`. */
  lemma EmptyPrefixMatchesAll(data: Data, t: int, k: string)
    ensures LiveFields(data, t, k, "") ==
      if k in data then set f | f in data[k] && ValueAt(data[k][f], t).Some? else {}
  {
  }

  // ---------------------------------------------------------------------------
  // Backups and restores
  // ---------------------------------------------------------------------------

  /** The time a live TTL entry has left at `b`; None for a permanent one. */
  function RemainingAt(h: History, b: int): Option<int>
  {
    match Latest(h, b)
    case Some(Write(_, _, Some(e))) => Some(e - b)
    case _ => None
  }

  /** `backup_at(b)`: every field live at `b`, with its value and the TTL it has left. */
  function Snapshot(data: Data, b: int): map<string, map<string, Saved>>
  {
    map k | k in data ::
      map f | f in data[k] && ValueAt(data[k][f], b).Some? ::
        Saved(ValueAt(data[k][f], b).value, RemainingAt(data[k][f], b))
  }

  /** A saved entry brought back at `t`: permanent stays permanent, a TTL now ends at `t + remaining`. */
  function Revive(s: Saved, t: int): Version
  {
    Write(t, s.value, if s.remaining.None? then None else Some(t + s.remaining.value))
  }

  /** The whole database a restore at `t` installs from a snapshot. */
  function Rebase(entries: map<string, map<string, Saved>>, t: int): Data
  {
    map k | k in entries :: map f | f in entries[k] :: [Revive(entries[k][f], t)]
  }

  /** The backup `restore_at(_, r)` uses: greatest timestamp <= r, the latest recorded on ties. */
  function Closest(backups: seq<Backup>, r: int): (i: Option<nat>)
    ensures i.Some? ==> i.value < |backups|
  {
    if backups == [] then None
    else
      var last := |backups| - 1;
      var before := Closest(backups[..last], r);
      if backups[last].at <= r && (before.None? || backups[before.value].at <= backups[last].at)
      then Some(last) else before
  }

  /** `restore_at(t, r)`: the chosen backup re-based onto `t`, or an empty database if none. */
  function RestoredData(backups: seq<Backup>, t: int, r: int): Data
  {
    match Closest(backups, r)
    case None => map[]
    case Some(i) => Rebase(backups[i].entries, t)
  }

  /**
   * A snapshot at `b` holds exactly the fields live at `b` (an entry expiring at `b`
   * is left out), with their value, and with expiry - `b` for a TTL entry and no
   * TTL for a permanent one.
   */
  lemma SnapshotKeepsLive(data: Data, b: int, k: string, f: string)
    requires k in data
    ensures var snap := Snapshot(data, b);
      && k in snap
      && (f in snap[k] <==> Lookup(data, b, k, f).Some?)
      && (f in snap[k] ==>
            && Some(snap[k][f].value) == Lookup(data, b, k, f)
            && match Latest(HistoryOf(data, k, f), b)
               case Some(Write(_, _, Some(e))) => snap[k][f].remaining == Some(e - b) && 0 < e - b
               case _ => snap[k][f].remaining == None)
  {
  }

  /** The chosen backup is the latest-recorded one among those with the greatest timestamp <= `r`. */
  lemma {:induction false} ClosestIsNearestNotAfter(backups: seq<Backup>, r: int)
    ensures Closest(backups, r).None? <==> forall j :: 0 <= j < |backups| ==> r < backups[j].at
    ensures Closest(backups, r).Some? ==>
      var i := Closest(backups, r).value;
      && backups[i].at <= r
      && (forall j :: 0 <= j < |backups| && backups[j].at <= r ==> backups[j].at <= backups[i].at)
      && (forall j :: i < j < |backups| ==> r < backups[j].at || backups[j].at < backups[i].at)
  {
    if backups != [] {
      var last := |backups| - 1;
      ClosestIsNearestNotAfter(backups[..last], r);
      assert forall j :: 0 <= j < last ==> backups[..last][j] == backups[j];
    }
  }

  /**
   * After `restore_at(t, r)`, from `t` on a field reads as its saved entry with the
   * TTL re-based onto `t`, and a field not in the chosen backup (or every field, if
   * no backup is old enough) is absent. Reads before `t` see nothing.
   */
  lemma RestoreReads(backups: seq<Backup>, t: int, r: int, k: string, f: string, t': int)
    ensures Lookup(RestoredData(backups, t, r), t', k, f) ==
      match Closest(backups, r)
      case None => None
      case Some(i) =>
        var entries := backups[i].entries;
        if t' < t || k !in entries || f !in entries[k] then None
        else if entries[k][f].remaining.None? || t' < t + entries[k][f].remaining.value
        then Some(entries[k][f].value)
        else None
  {
    match Closest(backups, r)
    case None =>
    case Some(i) =>
      var entries := backups[i].entries;
      if k in entries && f in entries[k] {
        assert HistoryOf(RestoredData(backups, t, r), k, f) == [Revive(entries[k][f], t)];
      }
  }

  /** Backups and restores keep every history ordered. */
  lemma RestoredWellFormed(backups: seq<Backup>, t: int, r: int)
    ensures WellFormed(RestoredData(backups, t, r))
  {
  }

  /**
   * Backing up at `b` and restoring that backup at `b` reproduces every read from
   * `b` on, when nothing was written after `b`: values and absolute expiry
   * instants come back unchanged.
   */
  lemma BackupRestoreRoundTrip(data: Data, b: int, k: string, f: string, t': int)
    requires WellFormed(data)
    requires forall k1, f1 :: k1 in data && f1 in data[k1] ==> NothingAfter(data[k1][f1], b)
    requires b <= t'
    ensures Lookup(Rebase(Snapshot(data, b), b), t', k, f) == Lookup(data, t', k, f)
  {
    var h := HistoryOf(data, k, f);
    if k in data && f in data[k] {
      SplitUnique(h, b, |h|);
      SplitUnique(h, t', |h|);
      assert Latest(h, t') == Latest(h, b);
      var snap := Snapshot(data, b);
      if f in snap[k] {
        assert HistoryOf(Rebase(snap, b), k, f) == [Revive(snap[k][f], b)];
      }
    }
  }

  /**
   * The scenario of the module documentation: a session with TTL 50 written at 100,
   * a backup at 120, a new field at 130, a restore at 200 of the backup <= 120:
   * the session lives until 230 and the new field is gone.
   */
  lemma SessionScenario()
    ensures
      var d1 := Record(map[], "user1", "session", Write(100, "abc123", Some(100 + 50)));
      var backups := [Backup(120, Snapshot(d1, 120))];
      var d2 := Record(d1, "user1", "new_field", Write(130, "new_value", None));
      var d3 := RestoredData(backups, 200, 120);
      && Lookup(d1, 120, "user1", "session") == Some("abc123")
      && Lookup(d2, 200, "user1", "new_field") == Some("new_value")
      && Lookup(d3, 220, "user1", "session") == Some("abc123")
      && Lookup(d3, 230, "user1", "session") == None
      && Lookup(d3, 200, "user1", "new_field") == None
  {
    var d1 := Record(map[], "user1", "session", Write(100, "abc123", Some(100 + 50)));
    var backups := [Backup(120, Snapshot(d1, 120))];
    assert HistoryOf(d1, "user1", "session") == [Write(100, "abc123", Some(150))];
    assert HistoryOf(d1, "user1", "new_field") == [];
    PutAtVisibleFrom(d1, 130, "user1", "new_field", "new_value", 200);
    assert Closest(backups, 120) == Some(0);
    assert Lookup(d1, 120, "user1", "session") == Some("abc123");
    SnapshotKeepsLive(d1, 120, "user1", "session");
    RestoreReads(backups, 200, 120, "user1", "session", 220);
    RestoreReads(backups, 200, 120, "user1", "session", 230);
    RestoreReads(backups, 200, 120, "user1", "new_field", 200);
  }
}
