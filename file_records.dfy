/**
 * The file table of the shared cloud storage as values: who owns what, how much
 * of a user's allowance their files use, the file table after a merge or a
 * restore, and the "largest n files" ranking. The class in module
 * CloudFileStorage holds this state and its methods are proved against these
 * functions.
 */
module FileRecords {
  import opened Wrappers
  import opened Strings
  import opened Sorting

  /** A stored file: its size, and its owner (None for a file added by the admin). */
  datatype FileInfo = FileInfo(size: int, owner: Option<string>)

  type Files = map<string, FileInfo>

  // ---------------------------------------------------------------------------
  // Storage used by a user
  // ---------------------------------------------------------------------------

  /** What a file counts against user `u`'s allowance. */
  function Share(info: FileInfo, u: string): int
  {
    if info.owner == Some(u) then info.size else 0
  }

  /** The total size of the files named in `names` that `u` owns. */
  ghost function UsedOver(names: set<string>, files: Files, u: string): int
    requires names <= files.Keys
    decreases names
  {
    if names == {} then 0
    else
      var n :| n in names;
      Share(files[n], u) + UsedOver(names - {n}, files, u)
  }

  /** The storage `u`'s files use. */
  ghost function Used(files: Files, u: string): int
  {
    UsedOver(files.Keys, files, u)
  }

  /** The sum does not depend on the order in which names are taken. */
  lemma {:induction false} UsedOverPick(names: set<string>, files: Files, u: string, m: string)
    requires names <= files.Keys && m in names
    ensures UsedOver(names, files, u) == Share(files[m], u) + UsedOver(names - {m}, files, u)
    decreases names
  {
    var n :| n in names && UsedOver(names, files, u) == Share(files[n], u) + UsedOver(names - {n}, files, u);
    if n != m {
      UsedOverPick(names - {n}, files, u, m);
      UsedOverPick(names - {m}, files, u, n);
      assert names - {n} - {m} == names - {m} - {n};
    }
  }

  /** Two tables that charge `a` (in `g`) as much as `b` and `c` together (in `f`), name by name, sum the same way. */
  lemma {:induction false} UsedOverSum(names: set<string>, g: Files, a: string, f: Files, b: string, c: string)
    requires names <= g.Keys && names <= f.Keys
    requires forall n :: n in names ==> Share(g[n], a) == Share(f[n], b) + Share(f[n], c)
    ensures UsedOver(names, g, a) == UsedOver(names, f, b) + UsedOver(names, f, c)
    decreases names
  {
    if names != {} {
      var n :| n in names && UsedOver(names, g, a) == Share(g[n], a) + UsedOver(names - {n}, g, a);
      UsedOverPick(names, f, b, n);
      UsedOverPick(names, f, c, n);
      UsedOverSum(names - {n}, g, a, f, b, c);
    }
  }

  /** Two tables that charge `a` (in `g`) as much as `b` (in `f`), name by name, sum to the same usage. */
  lemma {:induction false} UsedOverSame(names: set<string>, g: Files, a: string, f: Files, b: string)
    requires names <= g.Keys && names <= f.Keys
    requires forall n :: n in names ==> Share(g[n], a) == Share(f[n], b)
    ensures UsedOver(names, g, a) == UsedOver(names, f, b)
    decreases names
  {
    if names != {} {
      var n :| n in names && UsedOver(names, g, a) == Share(g[n], a) + UsedOver(names - {n}, g, a);
      UsedOverPick(names, f, b, n);
      UsedOverSame(names - {n}, g, a, f, b);
    }
  }

  /** Adding a file charges its size to its owner and nothing to anyone else. */
  lemma UsedAdded(files: Files, name: string, info: FileInfo)
    requires name !in files
    ensures forall u {:trigger Used(files[name := info], u)} ::
      Used(files[name := info], u) == Used(files, u) + Share(info, u)
  {
    var after := files[name := info];
    forall u ensures Used(after, u) == Used(files, u) + Share(info, u) {
      UsedOverPick(after.Keys, after, u, name);
      assert after.Keys - {name} == files.Keys;
      UsedOverSame(files.Keys, after, u, files, u);
    }
  }

  /** Removing a file gives its size back to its owner and changes nobody else's usage. */
  lemma UsedRemoved(files: Files, name: string)
    requires name in files
    ensures forall u {:trigger Used(files - {name}, u)} ::
      Used(files - {name}, u) == Used(files, u) - Share(files[name], u)
  {
    var after := files - {name};
    forall u ensures Used(after, u) == Used(files, u) - Share(files[name], u) {
      UsedOverPick(files.Keys, files, u, name);
      assert files.Keys - {name} == after.Keys;
      UsedOverSame(after.Keys, after, u, files, u);
    }
  }

  /** A user who owns no file uses nothing. */
  lemma UsedNoneOwned(files: Files, u: string)
    requires forall n :: n in files ==> files[n].owner != Some(u)
    ensures Used(files, u) == 0
  {
    var none := map n | n in files :: FileInfo(files[n].size, None);
    UsedOverSum(files.Keys, files, u, none, u, u);
    UsedOverSum(files.Keys, none, u, none, u, u);
  }

  // ---------------------------------------------------------------------------
  // Merging two users
  // ---------------------------------------------------------------------------

  /** The table after `merge_users(u1, u2)`: every file of `u2` now belongs to `u1`. */
  function MergedFiles(files: Files, u1: string, u2: string): Files
  {
    map n | n in files :: if files[n].owner == Some(u2) then FileInfo(files[n].size, Some(u1)) else files[n]
  }

  /**
   * After a merge `u1` uses what both used before, `u2` uses nothing, every other
   * user's usage is unchanged, and the same files with the same sizes exist.
   */
  lemma MergeAccounting(files: Files, u1: string, u2: string, w: string)
    requires u1 != u2
    ensures var merged := MergedFiles(files, u1, u2);
      && merged.Keys == files.Keys
      && (forall n :: n in files ==> merged[n].size == files[n].size)
      && Used(merged, u1) == Used(files, u1) + Used(files, u2)
      && Used(merged, u2) == 0
      && (w != u1 && w != u2 ==> Used(merged, w) == Used(files, w))
  {
    var merged := MergedFiles(files, u1, u2);
    UsedOverSum(files.Keys, merged, u1, files, u1, u2);
    UsedNoneOwned(merged, u2);
    if w != u1 && w != u2 {
      UsedOverSame(files.Keys, merged, w, files, w);
    }
  }

  // ---------------------------------------------------------------------------
  // Backup and restore of one user's files
  // ---------------------------------------------------------------------------

  /** `backup(u)`: name -> size of every file `u` owns. */
  function OwnedBy(files: Files, u: string): map<string, int>
  {
    map n | n in files && files[n].owner == Some(u) :: files[n].size
  }

  /** Every file not owned by `u`, admin files included. */
  function Others(files: Files, u: string): Files
  {
    map n | n in files && files[n].owner != Some(u) :: files[n]
  }

  /** Name `n` is held by a file that `u` does not own (an admin file or another user's). */
  predicate HeldByOther(files: Files, u: string, n: string)
  {
    n in files && files[n].owner != Some(u)
  }

  /**
   * `restore(u)` from `saved`: `u`'s present files are dropped, and each saved file
   * comes back owned by `u` unless its name is now held by someone else.
   */
  function RestoredFiles(files: Files, u: string, saved: map<string, int>): Files
  {
    map n | n in files.Keys + saved.Keys && (HeldByOther(files, u, n) || n in saved) ::
      if HeldByOther(files, u, n) then files[n] else FileInfo(saved[n], Some(u))
  }

  /** The number of saved files a restore brings back. */
  function RestoredCount(files: Files, u: string, saved: map<string, int>): nat
  {
    |set n | n in saved && !HeldByOther(files, u, n)|
  }

  /**
   * A table holding the others' files unchanged plus each saved file whose name
   * they leave free, owned by `u`, is the restored table, and it holds that many
   * more files than the others' files do.
   */
  lemma RestoredFromParts(files: Files, u: string, saved: map<string, int>, result: Files)
    requires forall n :: n in result <==> n in Others(files, u) || n in saved
    requires forall n :: n in Others(files, u) ==> result[n] == Others(files, u)[n]
    requires forall n :: n in result && n !in Others(files, u) ==> result[n] == FileInfo(saved[n], Some(u))
    ensures result == RestoredFiles(files, u, saved)
    ensures |result| - |Others(files, u)| == RestoredCount(files, u, saved)
  {
    assert result.Keys == RestoredFiles(files, u, saved).Keys;
    RestoredSize(files, u, saved, result);
  }

  /** The restored names are the others' names plus, disjointly, the saved names they leave free. */
  lemma RestoredSize(files: Files, u: string, saved: map<string, int>, result: Files)
    requires forall n :: n in result <==> n in Others(files, u) || n in saved
    ensures |result| - |Others(files, u)| == RestoredCount(files, u, saved)
  {
    var others := Others(files, u);
    var back := set n | n in saved && !HeldByOther(files, u, n);
    assert result.Keys == others.Keys + back;
    assert others.Keys * back == {};
  }

  /**
   * After a restore, a name is present exactly when another owner (or the admin)
   * holds it, unchanged, or it was saved and now belongs to `u` with its saved
   * size; `u` has no other file.
   */
  lemma RestoreContents(files: Files, u: string, saved: map<string, int>, n: string)
    ensures var after := RestoredFiles(files, u, saved);
      && (n in after <==> (n in files && files[n].owner != Some(u)) || n in saved)
      && (n in files && files[n].owner != Some(u) ==> after[n] == files[n])
      && (n in saved && (n !in files || files[n].owner == Some(u)) ==> after[n] == FileInfo(saved[n], Some(u)))
      && (n in after && after[n].owner == Some(u) ==> n in saved)
  {
  }

  /** A restore changes no other user's usage. */
  lemma RestoreLeavesOthers(files: Files, u: string, saved: map<string, int>, w: string)
    requires w != u
    ensures Used(RestoredFiles(files, u, saved), w) == Used(files, w)
  {
    UsedSubset(Others(files, u), files, w);
    UsedSubset(Others(files, u), RestoredFiles(files, u, saved), w);
  }

  /** Files that `w` does not own can be added or removed without changing `w`'s usage. */
  lemma {:induction false} UsedSubset(small: Files, big: Files, w: string)
    requires small.Keys <= big.Keys
    requires forall n :: n in small ==> big[n] == small[n]
    requires forall n :: n in big && n !in small ==> big[n].owner != Some(w)
    ensures Used(small, w) == Used(big, w)
    decreases big.Keys
  {
    if n :| n in big && n !in small {
      UsedRemoved(big, n);
      assert (big - {n}).Keys < big.Keys;
      UsedSubset(small, big - {n}, w);
    } else {
      assert small.Keys == big.Keys;
      UsedOverSame(small.Keys, small, w, big, w);
    }
  }

  /** Restoring without a backup (or from an empty one) deletes all of `u`'s files and brings none back. */
  lemma RestoreWithoutBackup(files: Files, u: string)
    ensures RestoredFiles(files, u, map[]) == Others(files, u)
    ensures OwnedBy(RestoredFiles(files, u, map[]), u) == map[]
    ensures RestoredCount(files, u, map[]) == 0
  {
    assert RestoredFiles(files, u, map[]) == Others(files, u);
    var none: map<string, int> := map[];
    assert (set n | n in none && !HeldByOther(files, u, n)) == {};
  }

  /** Restoring right after a backup changes nothing and reports every backed-up file. */
  lemma BackupRestoreRoundTrip(files: Files, u: string)
    ensures RestoredFiles(files, u, OwnedBy(files, u)) == files
    ensures RestoredCount(files, u, OwnedBy(files, u)) == |OwnedBy(files, u)|
  {
    var saved := OwnedBy(files, u);
    assert (set n | n in saved && !HeldByOther(files, u, n)) == saved.Keys;
  }

  /** After a restore `u` owns exactly the restored files: the backup of the result is the saved files that came back. */
  lemma RestoreThenBackup(files: Files, u: string, saved: map<string, int>)
    ensures OwnedBy(RestoredFiles(files, u, saved), u) ==
      map n | n in saved && !HeldByOther(files, u, n) :: saved[n]
    ensures |OwnedBy(RestoredFiles(files, u, saved), u)| == RestoredCount(files, u, saved)
  {
    var owned := OwnedBy(RestoredFiles(files, u, saved), u);
    assert owned.Keys == set n | n in saved && !HeldByOther(files, u, n);
  }

  // ---------------------------------------------------------------------------
  // The allowance bookkeeping every operation keeps
  // ---------------------------------------------------------------------------

  /**
   * Every owner is a user, and each user's remaining allowance is their capacity
   * minus the size of the files they own.
   */
  ghost predicate Accounted(files: Files, capacity: map<string, int>, remaining: map<string, int>)
  {
    && remaining.Keys == capacity.Keys
    && (forall n :: n in files && files[n].owner.Some? ==> files[n].owner.value in capacity)
    && (forall u {:trigger Used(files, u)} :: u in capacity ==> remaining[u] == capacity[u] - Used(files, u))
  }

  /** An admin file is charged to nobody. */
  lemma AddAdminFileKeepsAccounts(files: Files, capacity: map<string, int>, remaining: map<string, int>, name: string, size: int)
    requires Accounted(files, capacity, remaining) && name !in files
    ensures Accounted(files[name := FileInfo(size, None)], capacity, remaining)
  {
    UsedAdded(files, name, FileInfo(size, None));
  }

  /** A user's file is charged to that user alone. */
  lemma AddUserFileKeepsAccounts(files: Files, capacity: map<string, int>, remaining: map<string, int>, u: string, name: string, size: int)
    requires Accounted(files, capacity, remaining) && name !in files && u in capacity
    ensures Accounted(files[name := FileInfo(size, Some(u))], capacity, remaining[u := remaining[u] - size])
  {
    UsedAdded(files, name, FileInfo(size, Some(u)));
  }

  /** Deleting a file gives its size back to its owner. */
  lemma DeleteKeepsAccounts(files: Files, capacity: map<string, int>, remaining: map<string, int>, name: string)
    requires Accounted(files, capacity, remaining) && name in files
    ensures files[name].owner.Some? ==>
      var u := files[name].owner.value;
      Accounted(files - {name}, capacity, remaining[u := remaining[u] + files[name].size])
    ensures files[name].owner.None? ==> Accounted(files - {name}, capacity, remaining)
  {
    UsedRemoved(files, name);
  }

  /** A new user owns nothing, so their whole capacity remains. */
  lemma AddUserKeepsAccounts(files: Files, capacity: map<string, int>, remaining: map<string, int>, u: string, cap: int)
    requires Accounted(files, capacity, remaining) && u !in capacity
    ensures Accounted(files, capacity[u := cap], remaining[u := cap])
  {
    UsedNoneOwned(files, u);
  }

  /** After a merge `u1` has both capacities and both remaining allowances, and `u2` is gone. */
  lemma MergeKeepsAccounts(files: Files, capacity: map<string, int>, remaining: map<string, int>, u1: string, u2: string)
    requires Accounted(files, capacity, remaining) && u1 != u2 && u1 in capacity && u2 in capacity
    ensures Accounted(MergedFiles(files, u1, u2),
      (capacity - {u2})[u1 := capacity[u1] + capacity[u2]],
      (remaining - {u2})[u1 := remaining[u1] + remaining[u2]])
  {
    forall w | w in capacity {
      MergeAccounting(files, u1, u2, w);
    }
  }

  /**
   * After a restore `u` is charged for exactly the files they now own: what the
   * restore releases (the size of the dropped files less that of the restored
   * ones) goes back to `u`'s remaining allowance.
   */
  lemma RestoreKeepsAccounts(files: Files, capacity: map<string, int>, remaining: map<string, int>, u: string,
                             saved: map<string, int>, after: Files, released: int)
    requires Accounted(files, capacity, remaining) && u in capacity
    requires after == RestoredFiles(files, u, saved)
    requires released == Used(files, u) - Used(after, u)
    ensures remaining[u] + released == capacity[u] - Used(after, u)
    ensures Accounted(after, capacity, remaining[u := remaining[u] + released])
  {
    forall w | w in capacity && w != u {
      RestoreLeavesOthers(files, u, saved, w);
    }
  }

  // ---------------------------------------------------------------------------
  // The largest files
  // ---------------------------------------------------------------------------

  /** A file as `get_largest_n` lists it. */
  datatype Listed = Listed(name: string, size: int)

  /** Larger files first; equal sizes in ascending name order. */
  predicate RankBefore(a: Listed, b: Listed)
  {
    a.size > b.size || (a.size == b.size && Less(a.name, b.name))
  }

  lemma RankBeforeIsStrictTotalOrder()
    ensures StrictTotalOrder(RankBefore)
  {
    forall a: Listed, b: Listed, c: Listed | RankBefore(a, b) && RankBefore(b, c)
      ensures RankBefore(a, c)
    {
      if a.size == b.size == c.size {
        LessTransitive(a.name, b.name, c.name);
      }
    }
    forall a: Listed ensures !RankBefore(a, a) {
      LessIrreflexive(a.name);
    }
    forall a: Listed, b: Listed | a != b
      ensures RankBefore(a, b) || RankBefore(b, a)
    {
      if a.size == b.size {
        LessTotal(a.name, b.name);
      }
    }
  }

  /** `name(size)`, the text of one listed file. */
  function Render(l: Listed): string
  {
    l.name + "(" + IntToDecimal(l.size) + ")"
  }

  /** Every file with its size. */
  function Listing(files: Files): set<Listed>
  {
    set n | n in files :: Listed(n, files[n].size)
  }

  /** All files, largest first, ties by name. */
  ghost function Ranking(files: Files): (r: seq<Listed>)
    ensures SortedBy(r, RankBefore) && Elements(r) == Listing(files)
  {
    RankBeforeIsStrictTotalOrder();
    SortedSeqOf(Listing(files), RankBefore)
  }

  /** `get_largest_n(n)`: the first `n` of the ranking, rendered; [] when `n <= 0`. */
  ghost function LargestSpec(files: Files, n: int): seq<string>
  {
    var ranked := Ranking(files);
    var m := if n <= 0 then 0 else if n < |ranked| then n else |ranked|;
    seq(m, i requires 0 <= i < m => Render(ranked[i]))
  }

  /** There is one listing per file. */
  lemma {:induction false} ListingSize(files: Files)
    ensures |Listing(files)| == |files|
    decreases |files|
  {
    if files != map[] {
      var k :| k in files;
      var rest := files - {k};
      ListingSize(rest);
      forall l | l in Listing(files) ensures l in Listing(rest) || l == Listed(k, files[k].size) {
        if l.name != k {
          assert l.name in rest;
        }
      }
      forall l | l in Listing(rest) ensures l in Listing(files) {
        assert l.name in files;
      }
      assert Listing(files) == Listing(rest) + {Listed(k, files[k].size)};
      assert Listed(k, files[k].size) !in Listing(rest);
    }
  }

  /**
   * The ranking lists every file once with its size, largest first and equal
   * sizes by name.
   */
  lemma RankingFacts(files: Files)
    ensures var r := Ranking(files);
      && |r| == |files|
      && (forall i :: 0 <= i < |r| ==> r[i].name in files && files[r[i].name].size == r[i].size)
      && (forall n :: n in files ==> Listed(n, files[n].size) in r)
      && (forall i, j :: 0 <= i < j < |r| ==>
            r[i].size > r[j].size || (r[i].size == r[j].size && Less(r[i].name, r[j].name)))
  {
    var r := Ranking(files);
    RankBeforeIsStrictTotalOrder();
    SortedLength(r, RankBefore);
    ListingSize(files);
    forall i | 0 <= i < |r|
      ensures r[i].name in files && files[r[i].name].size == r[i].size
    {
      assert r[i] in Elements(r);
    }
    forall n | n in files ensures Listed(n, files[n].size) in r {
      assert Listed(n, files[n].size) in Listing(files);
    }
  }

  /**
   * `get_largest_n(n)` returns min(n, number of files) entries (none when
   * `n <= 0`), rendered in ranking order, and no file left out ranks before
   * one that is listed.
   */
  lemma LargestNFacts(files: Files, n: int)
    ensures var r := Ranking(files);
      var out := LargestSpec(files, n);
      && |out| == (if n <= 0 then 0 else if n < |files| then n else |files|)
      && (forall i :: 0 <= i < |out| ==> out[i] == Render(r[i]))
      && (forall i, j :: 0 <= i < |out| <= j < |r| ==> RankBefore(r[i], r[j]))
  {
    RankingFacts(files);
  }
}
