/**
 * The shared cloud file storage: files added by the admin or by users with a
 * storage allowance, the largest files listed by size, users merged into one,
 * and one backup per user that a restore brings back.
 */
module CloudFileStorage {
  import opened Wrappers
  import opened Strings
  import opened Sorting
  import opened FileRecords

  class FileStorage {
    /** name -> size and owner of every stored file. */
    var files: Files
    /** The storage allowance each user was given (summed by merges). */
    var capacity: map<string, int>
    /** What each user may still store. */
    var remaining: map<string, int>
    /** The latest backup of each user: name -> size of the files they owned. */
    var backups: map<string, map<string, int>>

    /**
     * Every owner is a user, every backup belongs to a user, and each user's
     * remaining allowance is their capacity minus the size of their files.
     */
    ghost predicate Valid()
      reads this
    {
      Accounted(files, capacity, remaining) && backups.Keys <= capacity.Keys
    }

    /** `__init__`: no files, no users, no backups. */
    constructor()
      ensures Valid()
      ensures files == map[] && capacity == map[] && remaining == map[] && backups == map[]
    {
      files := map[];
      capacity := map[];
      remaining := map[];
      backups := map[];
    }

    /** `add_file`: an admin file, charged to nobody; false if the name is taken. */
    method AddFile(name: string, size: int) returns (added: bool)
      requires Valid()
      modifies this
      ensures Valid()
      ensures added <==> name !in old(files)
      ensures files == if added then old(files)[name := FileInfo(size, None)] else old(files)
      ensures capacity == old(capacity) && remaining == old(remaining) && backups == old(backups)
    {
      if name in files {
        return false;
      }
      AddAdminFileKeepsAccounts(files, capacity, remaining, name, size);
      files := files[name := FileInfo(size, None)];
      added := true;
    }

    /** `delete_file`: false if absent; otherwise the file goes and its owner gets its size back. */
    method DeleteFile(name: string) returns (deleted: bool)
      requires Valid()
      modifies this
      ensures Valid()
      ensures deleted <==> name in old(files)
      ensures files == old(files) - {name}
      ensures remaining ==
        if deleted && old(files)[name].owner.Some? then
          var u := old(files)[name].owner.value;
          old(remaining)[u := old(remaining)[u] + old(files)[name].size]
        else old(remaining)
      ensures capacity == old(capacity) && backups == old(backups)
    {
      if name !in files {
        return false;
      }
      var info := files[name];
      DeleteKeepsAccounts(files, capacity, remaining, name);
      files := files - {name};
      if info.owner.Some? {
        var u := info.owner.value;
        remaining := remaining[u := remaining[u] + info.size];
      }
      deleted := true;
    }

    /** `get_file_size`: the size of the named file, None if there is none. */
    method GetFileSize(name: string) returns (size: Option<int>)
      ensures size.Some? <==> name in files
      ensures size.Some? ==> size.value == files[name].size
    {
      if name in files {
        size := Some(files[name].size);
      } else {
        size := None;
      }
    }

    /**
     * `get_largest_n`: `name(size)` of the `n` largest files, larger first and
     * equal sizes by name; [] when `n <= 0`.
     */
    method GetLargestN(n: int) returns (r: seq<string>)
      ensures r == LargestSpec(files, n)
    {
      if n <= 0 {
        return [];
      }
      var ranked := RankFiles(files);
      r := RenderFirst(ranked, if n < |ranked| then n else |ranked|);
    }

    /** `add_user`: a new user with allowance `cap`; false if the user exists. */
    method AddUser(u: string, cap: int) returns (added: bool)
      requires Valid()
      modifies this
      ensures Valid()
      ensures added <==> u !in old(capacity)
      ensures capacity == if added then old(capacity)[u := cap] else old(capacity)
      ensures remaining == if added then old(remaining)[u := cap] else old(remaining)
      ensures files == old(files) && backups == old(backups)
    {
      if u in capacity {
        return false;
      }
      AddUserKeepsAccounts(files, capacity, remaining, u, cap);
      capacity := capacity[u := cap];
      remaining := remaining[u := cap];
      added := true;
    }

    /**
     * `add_file_by`: None if the user does not exist, the name is taken, or the
     * file is larger than what the user has left; otherwise the file is stored
     * for the user and the allowance left is returned.
     */
    method AddFileBy(u: string, name: string, size: int) returns (left: Option<int>)
      requires Valid()
      modifies this
      ensures Valid()
      ensures left.None? <==> u !in old(capacity) || name in old(files) || size > old(remaining)[u]
      ensures left.Some? ==>
        && left.value == old(remaining)[u] - size
        && u in capacity
        && left.value == capacity[u] - Used(files, u)
        && files == old(files)[name := FileInfo(size, Some(u))]
        && remaining == old(remaining)[u := left.value]
      ensures left.None? ==> files == old(files) && remaining == old(remaining)
      ensures capacity == old(capacity) && backups == old(backups)
    {
      if u !in capacity || name in files || size > remaining[u] {
        return None;
      }
      AddUserFileKeepsAccounts(files, capacity, remaining, u, name, size);
      files := files[name := FileInfo(size, Some(u))];
      remaining := remaining[u := remaining[u] - size];
      left := Some(remaining[u]);
    }

    /**
     * `merge_users`: false if the users are the same or either is missing;
     * otherwise `u1` takes over `u2`'s files, capacity and remaining allowance,
     * and `u2` (with their backup) is removed.
     */
    method MergeUsers(u1: string, u2: string) returns (merged: bool)
      requires Valid()
      modifies this
      ensures Valid()
      ensures merged <==> u1 != u2 && u1 in old(capacity) && u2 in old(capacity)
      ensures merged ==>
        && files == MergedFiles(old(files), u1, u2)
        && capacity == (old(capacity) - {u2})[u1 := old(capacity)[u1] + old(capacity)[u2]]
        && remaining == (old(remaining) - {u2})[u1 := old(remaining)[u1] + old(remaining)[u2]]
        && backups == old(backups) - {u2}
      ensures !merged ==>
        files == old(files) && capacity == old(capacity) && remaining == old(remaining) && backups == old(backups)
    {
      if u1 == u2 || u1 !in capacity || u2 !in capacity {
        return false;
      }
      Absorb(u1, u2);
      merged := true;
    }

    /** `u1` takes over `u2`'s files, capacity and remaining allowance; `u2` and their backup go. */
    method Absorb(u1: string, u2: string)
      requires Valid() && u1 != u2 && u1 in capacity && u2 in capacity
      modifies this
      ensures Valid()
      ensures files == MergedFiles(old(files), u1, u2)
      ensures capacity == (old(capacity) - {u2})[u1 := old(capacity)[u1] + old(capacity)[u2]]
      ensures remaining == (old(remaining) - {u2})[u1 := old(remaining)[u1] + old(remaining)[u2]]
      ensures backups == old(backups) - {u2}
    {
      var pooled := (capacity - {u2})[u1 := capacity[u1] + capacity[u2]];
      var left := (remaining - {u2})[u1 := remaining[u1] + remaining[u2]];
      MergeKeepsAccounts(files, capacity, remaining, u1, u2);
      var moved := Reassign(files, u1, u2);
      assert Accounted(moved, pooled, left);
      files, capacity, remaining, backups := moved, pooled, left, backups - {u2};
    }

    /** `backup`: None if the user is missing; otherwise saves the user's files (replacing any earlier backup) and counts them. */
    method Backup(u: string) returns (count: Option<int>)
      requires Valid()
      modifies this
      ensures Valid()
      ensures count.None? <==> u !in old(capacity)
      ensures count.Some? ==> count.value == |OwnedBy(old(files), u)| && backups == old(backups)[u := OwnedBy(old(files), u)]
      ensures count.None? ==> backups == old(backups)
      ensures files == old(files) && capacity == old(capacity) && remaining == old(remaining)
    {
      if u !in capacity {
        return None;
      }
      var saved := OwnedBy(files, u);
      backups := backups[u := saved];
      count := Some(|saved|);
    }

    /**
     * `restore`: None if the user is missing; otherwise the user's files are
     * replaced by their backup (none if there is no backup), skipping names
     * another owner now holds, and the number of files brought back is returned.
     */
    method Restore(u: string) returns (count: Option<int>)
      requires Valid()
      modifies this
      ensures Valid()
      ensures count.None? <==> u !in old(capacity)
      ensures count.Some? ==>
        var saved := if u in old(backups) then old(backups)[u] else map[];
        && files == RestoredFiles(old(files), u, saved)
        && count.value == RestoredCount(old(files), u, saved)
        && u in remaining
        && remaining == old(remaining)[u := remaining[u]]
      ensures count.None? ==> files == old(files) && remaining == old(remaining)
      ensures capacity == old(capacity) && backups == old(backups)
    {
      if u !in capacity {
        return None;
      }
      var saved := if u in backups then backups[u] else map[];
      var restored := Reinstate(u, saved);
      count := Some(restored);
    }

    /**
     * Replaces `u`'s files by the saved ones whose names are free; only `u`'s
     * remaining allowance changes, to what `Valid` fixes for the new files.
     */
    method Reinstate(u: string, saved: map<string, int>) returns (restored: nat)
      requires Valid() && u in capacity
      modifies this
      ensures Valid()
      ensures files == RestoredFiles(old(files), u, saved)
      ensures restored == RestoredCount(old(files), u, saved)
      ensures u in remaining && remaining == old(remaining)[u := remaining[u]]
      ensures capacity == old(capacity) && backups == old(backups)
    {
      var after, released;
      after, released, restored := RestoreFiles(files, u, saved);
      var credited := remaining[u := remaining[u] + released];
      RestoreKeepsAccounts(files, capacity, remaining, u, saved, after, released);
      Commit(after, credited);
    }

    /** Installs a new file table and allowance map that agree with the capacities. */
    method Commit(after: Files, credited: map<string, int>)
      requires Accounted(after, capacity, credited) && backups.Keys <= capacity.Keys
      modifies this
      ensures Valid()
      ensures files == after && remaining == credited
      ensures capacity == old(capacity) && backups == old(backups)
    {
      files, remaining := after, credited;
    }
  }

  /**
   * `u`'s files replaced by the saved ones whose names are free: the new table,
   * the net storage this gives back to `u`, and how many files came back.
   */
  method RestoreFiles(files: Files, u: string, saved: map<string, int>) returns (after: Files, released: int, restored: nat)
    ensures after == RestoredFiles(files, u, saved)
    ensures released == Used(files, u) - Used(after, u)
    ensures restored == RestoredCount(files, u, saved)
  {
    var kept, freed := DropOwned(files, u);
    var charged, added;
    after, charged, added := BringBack(kept, u, saved);
    RestoredFromParts(files, u, saved, after);
    restored := added;
    released := freed - charged;
  }

  /** Gives every file of `u2` to `u1`, one file at a time. */
  method Reassign(files: Files, u1: string, u2: string) returns (moved: Files)
    ensures moved == MergedFiles(files, u1, u2)
  {
    var target := MergedFiles(files, u1, u2);
    moved := files;
    var todo := set m | m in files && files[m].owner == Some(u2);
    while todo != {}
      invariant todo <= files.Keys
      invariant moved.Keys == files.Keys
      invariant forall m :: m in files ==> moved[m] == if m in todo then files[m] else target[m]
      decreases todo
    {
      var m :| m in todo;
      todo := todo - {m};
      moved := moved[m := FileInfo(moved[m].size, Some(u1))];
    }
  }

  /** Drops every file of `u`, adding up the storage this frees. */
  method DropOwned(files: Files, u: string) returns (kept: Files, freed: int)
    ensures kept == Others(files, u)
    ensures freed == Used(files, u)
  {
    var others := Others(files, u);
    kept := files;
    freed := 0;
    var mine := set m | m in files && files[m].owner == Some(u);
    while mine != {}
      invariant mine <= kept.Keys
      invariant kept.Keys == others.Keys + mine
      invariant forall m :: m in kept ==> kept[m] == files[m]
      invariant freed == Used(files, u) - Used(kept, u)
      decreases mine
    {
      var m :| m in mine;
      mine := mine - {m};
      UsedRemoved(kept, m);
      freed := freed + kept[m].size;
      kept := kept - {m};
    }
    assert kept == others;
    UsedNoneOwned(kept, u);
  }

  /**
   * Adds each saved file whose name is free as a file of `u`, counting them and
   * adding up their sizes.
   */
  method BringBack(files: Files, u: string, saved: map<string, int>) returns (result: Files, charged: int, added: nat)
    requires forall n :: n in files ==> files[n].owner != Some(u)
    ensures forall n :: n in result <==> n in files || n in saved
    ensures forall n :: n in files ==> result[n] == files[n]
    ensures forall n :: n in result && n !in files ==> result[n] == FileInfo(saved[n], Some(u))
    ensures added == |result| - |files|
    ensures charged == Used(result, u)
  {
    result := files;
    charged := 0;
    added := 0;
    UsedNoneOwned(files, u);
    var todo := saved.Keys;
    while todo != {}
      invariant todo <= saved.Keys
      invariant forall n :: n in result <==> n in files || (n in saved && n !in todo)
      invariant forall n :: n in files ==> result[n] == files[n]
      invariant forall n :: n in result && n !in files ==> result[n] == FileInfo(saved[n], Some(u))
      invariant added == |result| - |files|
      invariant charged == Used(result, u)
      decreases todo
    {
      var m :| m in todo;
      todo := todo - {m};
      if m !in result {
        UsedAdded(result, m, FileInfo(saved[m], Some(u)));
        result := result[m := FileInfo(saved[m], Some(u))];
        charged := charged + saved[m];
        added := added + 1;
      }
    }
  }

  /** Ranks every file of `files` by inserting its listing into a sorted sequence. */
  method RankFiles(files: Files) returns (ranked: seq<Listed>)
    ensures ranked == Ranking(files)
  {
    RankBeforeIsStrictTotalOrder();
    var rest := files.Keys;
    ranked := [];
    while rest != {}
      invariant rest <= files.Keys
      invariant SortedBy(ranked, RankBefore)
      invariant Elements(ranked) == set m | m in files.Keys - rest :: Listed(m, files[m].size)
      decreases rest
    {
      var m :| m in rest;
      rest := rest - {m};
      InsertByCorrect(ranked, Listed(m, files[m].size), RankBefore);
      ranked := InsertBy(ranked, Listed(m, files[m].size), RankBefore);
    }
    assert Elements(ranked) == Listing(files);
    SortedUnique(ranked, Ranking(files), RankBefore);
  }

  /** Renders the first `count` listings of `ranked`. */
  method RenderFirst(ranked: seq<Listed>, count: nat) returns (r: seq<string>)
    requires count <= |ranked|
    ensures r == seq(count, i requires 0 <= i < count => Render(ranked[i]))
  {
    r := [];
    for i := 0 to count
      invariant |r| == i
      invariant forall j :: 0 <= j < i ==> r[j] == Render(ranked[j])
    {
      r := r + [Render(ranked[i])];
    }
  }
}
