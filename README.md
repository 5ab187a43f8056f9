# In-memory database and cloud file storage, modelled in Dafny

This project models two small storage systems and proves what their
documentation and tests promise about them.

**`InMemoryDB`** (q1/impl.py) maps a key to fields, and each field to a
string value.
- Every write and delete carries a timestamp. A read "as of" a timestamp
  sees the newest version written at or before it.
- A write with a time-to-live is visible on the half-open window
  [t, t + ttl).
- Scans list `field(value)` for the live fields of a key, optionally those
  starting with a prefix, in ascending field order.
- `backup_at` saves the live entries, each with the TTL it has left.
  `restore_at(t, r)` installs the backup with the greatest timestamp ≤ r.
  A TTL entry then ends at t plus the TTL it had left.

The model keeps, per field, the whole history of versions ordered by
timestamp, so a read at any timestamp is answered exactly.

**`FileStorage`** (q2/impl.py) stores named files with sizes.
- Files come from the admin (charged to nobody) or from users, who have a
  storage allowance.
- It lists the largest files: larger first, equal sizes by name.
- A merge of two users gives the first user the second's files, capacity
  and remaining allowance.
- Each user has at most one backup of their own files. A restore brings
  those files back, except names another owner now holds, and deletes the
  user's other files.

The model keeps the allowance each user has left as state. A class
invariant ties it to the capacity minus the size of the files the user
owns, and every operation is proved to preserve that invariant.

Both core files are imperative classes, so each becomes a Dafny `class`:
- `InMemoryDatabase.InMemoryDB`, with the fields `data` and `backups`;
- `CloudFileStorage.FileStorage`, with the fields `files`, `capacity`,
  `remaining` and `backups`.

Their methods are proved against pure functions of the state, defined in
`TemporalStore` and `FileRecords`. The lemmas about those functions state
the promised properties.

The modules, in dependency order:

| module | file | contents |
|---|---|---|
| `Wrappers` | wrappers.dfy | `Option` |
| `Sorting` | sorting.dfy | strictly sorted sequences, insertion, uniqueness of the sorted order |
| `Strings` | strings.dfy | Python's string order, `startswith`, `str(int)` |
| `FieldHistory` | field_history.dfy | one field's timestamped versions: binary search, insertion, the read at a timestamp |
| `TemporalStore` | temporal_store.dfy | the database as values: reads, writes, scans, snapshots, restores |
| `InMemoryDatabase` | in_memory_db.dfy | the `InMemoryDB` class |
| `FileRecords` | file_records.dfy | the file table as values: usage sums, merge, backup and restore, ranking |
| `CloudFileStorage` | file_storage.dfy | the `FileStorage` class |

## Model

| member | source | states |
|---|---|---|
| `InMemoryDatabase.InMemoryDB.constructor` | q1/impl.py:61-64 | a new database holds no data and no backups |
| `InMemoryDatabase.InMemoryDB.GetAt` | q1/impl.py:148-161 | the read at `t` is the value of the newest version written at or before `t`. It is None if that version is a delete or an expired TTL write, or if the field was never written |
| `InMemoryDatabase.InMemoryDB.PutAt` | q1/impl.py:163-174 | the new state is the old one with a permanent version at `t` recorded in the field's history. Other fields and the backups are unchanged, and histories stay ordered |
| `InMemoryDatabase.InMemoryDB.PutAtWithTtl` | q1/impl.py:224-236 | the new state records a version at `t` with absolute expiry `t + ttl` |
| `InMemoryDatabase.InMemoryDB.DeleteAt` | q1/impl.py:176-189 | returns true exactly when the field is live at `t`. Then a delete marker at `t` is recorded; otherwise nothing changes |
| `InMemoryDatabase.InMemoryDB.ScanWithPrefixAt` | q1/impl.py:207-222 | the result is the scan specification: `field(value)` for each field of the key that starts with the prefix and is live at `t`, sorted by field |
| `InMemoryDatabase.InMemoryDB.ScanAt` | q1/impl.py:191-205 | the scan with the empty prefix |
| `InMemoryDatabase.InMemoryDB.BackupAt` | q1/impl.py:242-255 | appends a backup stamped `t` holding the snapshot of the live entries at `t`; the data is unchanged |
| `InMemoryDatabase.InMemoryDB.FindClosest` | q1/impl.py:257-270 | the loop finds the same backup as the recursive definition of the closest backup |
| `InMemoryDatabase.InMemoryDB.RestoreAt` | q1/impl.py:257-270 | the data becomes the chosen backup re-based onto `t`, or empty when no backup is old enough; the backups are kept |
| `InMemoryDatabase.InMemoryDB.Get` | q1/impl.py:70-82 | `get` is the read at the untimed timestamp |
| `InMemoryDatabase.InMemoryDB.Put` | q1/impl.py:84-94 | `put` records a permanent write at the untimed timestamp |
| `InMemoryDatabase.InMemoryDB.Delete` | q1/impl.py:96-108 | `delete` is true exactly when the field exists, and then removes it |
| `InMemoryDatabase.InMemoryDB.Scan` | q1/impl.py:114-126 | `scan` is the untimed scan with the empty prefix |
| `InMemoryDatabase.InMemoryDB.ScanWithPrefix` | q1/impl.py:128-142 | `scan_with_prefix` is the untimed prefix scan |
| `InMemoryDatabase.LiveNames` | q1/impl.py:207-222 | collects exactly the live fields with the prefix, strictly sorted, each with its value at `t` |
| `InMemoryDatabase.Entries` | q1/impl.py:207-222 | renders each name, in order, as `field(value)` |
| `InMemoryDatabase.UntimedPutThenGet` | q1/impl.py:70-94 | through the untimed operations the store acts as a plain map: `get` after `put` returns the value, and other fields are untouched |
| `InMemoryDatabase.UntimedDeleteThenGet` | q1/impl.py:70-108 | `get` after a successful `delete` returns None, and other fields are untouched |
| `InMemoryDatabase.UntimedRecord` | q1/impl.py:84-108 | untimed writes and deletes keep every version at the untimed timestamp, so each one is the newest |
| `FieldHistory.FindSplit` | q1/impl.py:148-161 | the binary search returns the number of versions written at or before `t` |
| `FieldHistory.ReadAt` | q1/impl.py:148-161 | the read of one history at `t` |
| `FieldHistory.Insert` | q1/impl.py:163-174 | puts a version after every version with a timestamp at or before its own, and keeps the history ordered |
| `FieldHistory.SplitIsBoundary` | q1/impl.py:148-161 | the split count separates the versions at or before `t` from the later ones |
| `FieldHistory.SplitUnique` | q1/impl.py:148-161 | any such boundary is the split count |
| `FieldHistory.SplitMonotone` | q1/impl.py:148-161 | a later timestamp never sees fewer versions |
| `FieldHistory.InsertedOrdered` | q1/impl.py:163-174 | insertion keeps the history ordered and adds exactly one version |
| `FieldHistory.LatestAfterInsert` | q1/impl.py:163-174 | after an insert, the version governing `t` is unchanged before the new version's timestamp. From it on, it is the new version, unless the old governing version is stamped later; a write with an equal stamp wins |
| `FieldHistory.SplitBeforeInsert` | q1/impl.py:163-174 | a read before the new version's timestamp sees the same prefix of the history |
| `FieldHistory.SplitFromInsert` | q1/impl.py:163-174 | a read at or after the new version's timestamp sees one more version |
| `FieldHistory.ValueAfterNewestInsert` | q1/impl.py:163-174 | with nothing written after it, a new version decides every read from its timestamp on and changes none before |
| `FieldHistory.ValueAfterInsert` | q1/impl.py:163-174 | a version with no later version up to `t` decides the read at `t` |
| `TemporalStore.NeverWrittenIsAbsent` | q1/impl.py:148-161 | a field never written reads as None at every timestamp |
| `TemporalStore.RecordFrame` | q1/impl.py:163-189 | recording a version keeps histories ordered, changes no other field's reads, and adds only its own key |
| `TemporalStore.PutAtVisibleFrom` | q1/impl.py:163-174 | after `put_at(t)`, reads before `t` are unchanged and reads from `t` on return the value |
| `TemporalStore.OverwriteKeepsHistory` | q1/test/test_level3.py:152-165 | two writes at `t1 < t2` on a fresh field give None before `t1`, the first value on [t1, t2) and the second from `t2` on |
| `TemporalStore.TtlWindow` | q1/impl.py:224-236 | a TTL write is visible exactly on [t, t + ttl) and absent afterwards, even over an older permanent write |
| `TemporalStore.TtlZeroAndOne` | q1/test/test_level3.py:223-234 | a TTL of 0 is never visible; a TTL of 1 is visible only at `t` |
| `TemporalStore.WriteGovernsUntilNextVersion` | q1/test/test_level3.py:187-199 | a version, even one recorded after later-stamped versions, changes no read before its stamp, and decides reads until the next later-stamped version |
| `TemporalStore.DeleteHidesFrom` | q1/impl.py:176-189 | a delete at `t` hides the field from `t` until the next later-stamped write, and changes no earlier read |
| `TemporalStore.ExpiredStaysAbsent` | q1/test/test_level3.py:172-185 | once a TTL write expires, reads find nothing and do not fall back to an older permanent write |
| `TemporalStore.ScanOrder` | q1/impl.py:191-222 | the fields a scan lists are strictly sorted and are exactly the live fields with the prefix |
| `TemporalStore.ScanListsLiveFields` | q1/impl.py:207-222 | a scan has one entry per live prefixed field, as `field(value)` with its value at `t`, in strictly ascending field order |
| `TemporalStore.ScanOfNothingLive` | q1/test/test_level3.py:201-221 | a missing key, or one with no live field, scans to [] |
| `TemporalStore.EmptyPrefixMatchesAll` | q1/impl.py:128-142 | the empty prefix selects every live field, so a prefix scan with "" is the plain scan |
| `TemporalStore.Closest` | q1/impl.py:257-270 | the chosen backup, if any, is an index into the backup list |
| `TemporalStore.SnapshotKeepsLive` | q1/impl.py:242-255 | a snapshot holds exactly the fields live at `b` with their values. A TTL entry keeps its positive remaining time (expiry − b); a permanent entry keeps none |
| `TemporalStore.ClosestIsNearestNotAfter` | test/test_level4.py:342-362 | there is no backup exactly when every backup is stamped after `r`. Otherwise the chosen one has the greatest stamp ≤ `r`, and it is the latest recorded among equal stamps |
| `TemporalStore.RestoreReads` | q1/impl.py:257-270 | after `restore_at(t, r)`, from `t` on a field reads as its saved value until `t` + its remaining TTL (forever if permanent). Fields not in the backup, and every field when no backup qualifies, read as None |
| `TemporalStore.RestoredWellFormed` | q1/impl.py:257-270 | a restore leaves every history ordered |
| `TemporalStore.BackupRestoreRoundTrip` | q1/impl.py:242-270 | when nothing was written after `b`, restoring a backup taken at `b` at time `b` reproduces every read from `b` on |
| `TemporalStore.SessionScenario` | q1/impl.py:34-42 | the documented session example: a session with TTL 50 at 100, a backup at 120, a new field at 130, and a restore at 200. The session lives until 230, and the new field is gone |
| `CloudFileStorage.FileStorage.constructor` | q2/impl.py:58-61 | a new storage has no files, users or backups |
| `CloudFileStorage.FileStorage.AddFile` | q2/impl.py:67-79 | true exactly when the name is free; the file is then stored as an admin file and charged to nobody |
| `CloudFileStorage.FileStorage.DeleteFile` | q2/impl.py:81-92 | true exactly when the file exists. It is then removed, and its owner, if any, gets its size back |
| `CloudFileStorage.FileStorage.GetFileSize` | q2/impl.py:94-105 | the size of the named file, and None exactly when it does not exist |
| `CloudFileStorage.FileStorage.GetLargestN` | q2/impl.py:111-124 | the result is the first `n` files of the ranking (larger first, equal sizes by name) as `name(size)`; [] when `n <= 0` |
| `CloudFileStorage.FileStorage.AddUser` | q2/impl.py:130-142 | true exactly when the user is new, who then has their whole capacity left |
| `CloudFileStorage.FileStorage.AddFileBy` | q2/impl.py:144-158 | None exactly when the user is missing, the name is taken, or the size exceeds what the user has left. Otherwise the file is stored for the user, and the result is the allowance left, capacity minus usage |
| `CloudFileStorage.FileStorage.MergeUsers` | q2/impl.py:160-173 | false exactly when the users are equal or either is missing. Otherwise the first user takes the second's files, capacity and remaining allowance, and the second user and their backup go |
| `CloudFileStorage.FileStorage.Absorb` | q2/impl.py:160-173 | the merge itself, keeping the allowance invariant |
| `CloudFileStorage.FileStorage.Backup` | q2/impl.py:179-191 | None exactly when the user is missing. Otherwise it replaces the user's backup with the names and sizes of the files they own, and returns how many there are |
| `CloudFileStorage.FileStorage.Restore` | q2/impl.py:193-207 | None exactly when the user is missing. Otherwise the files become the restored table (from an empty backup if there is none), and the result is the number of files brought back. Only that user's allowance changes |
| `CloudFileStorage.FileStorage.Reinstate` | q2/impl.py:193-207 | the restore itself, crediting the user with what the new files free and keeping the allowance invariant |
| `CloudFileStorage.RankFiles` | q2/impl.py:111-124 | insertion of every file builds the ranking |
| `CloudFileStorage.RenderFirst` | q2/impl.py:111-124 | renders the first `count` listings in order |
| `CloudFileStorage.Reassign` | q2/impl.py:160-173 | the loop gives every file of the second user to the first |
| `CloudFileStorage.DropOwned` | q2/impl.py:193-207 | removing the user's files leaves everyone else's and frees exactly the user's usage |
| `CloudFileStorage.BringBack` | q2/impl.py:193-207 | adds each saved file whose name is free, owned by the user; returns what the user now uses and how many files were added |
| `CloudFileStorage.RestoreFiles` | q2/impl.py:193-207 | computes the restored table, the storage the user gets back, and the restored count |
| `FileRecords.UsedOverPick` | q2/impl.py:144-158 | a user's usage is the same sum whichever file is taken first |
| `FileRecords.UsedOverSum` | q2/impl.py:160-173 | tables that charge one user what two users paid, name by name, sum to the two usages |
| `FileRecords.UsedOverSame` | q2/impl.py:160-173 | tables that charge the same per name give the same usage |
| `FileRecords.UsedAdded` | q2/impl.py:144-158 | adding a file charges its size to its owner and nothing to anyone else |
| `FileRecords.UsedRemoved` | q2/impl.py:81-92 | removing a file gives its size back to its owner only |
| `FileRecords.UsedNoneOwned` | q2/impl.py:130-142 | a user who owns no file uses nothing |
| `FileRecords.MergeAccounting` | q2/impl.py:160-173 | after a merge the same files with the same sizes exist. The first user uses what both used, the second nothing, and others are unchanged |
| `FileRecords.RestoredFromParts` | q2/impl.py:193-207 | the others' files plus the free saved names make up the restored table, and its extra entries are the restored count |
| `FileRecords.RestoredSize` | q2/impl.py:193-207 | the restored count is how many names the restored table has beyond the others' files |
| `FileRecords.RestoreContents` | q2/impl.py:193-207 | after a restore, a name is present exactly when another owner holds it, unchanged, or it was saved. A saved name comes back with its saved size, owned by the user, who has no other file |
| `FileRecords.RestoreLeavesOthers` | q2/test/test_level4.py:128-155 | a restore changes no other user's usage |
| `FileRecords.UsedSubset` | q2/impl.py:193-207 | files a user does not own can be added or removed without changing that user's usage |
| `FileRecords.RestoreWithoutBackup` | q2/test/test_level4.py:71-83 | restoring without a backup deletes all the user's files, and returns 0 |
| `FileRecords.BackupRestoreRoundTrip` | q2/impl.py:179-207 | a restore right after a backup changes nothing, and reports every backed-up file |
| `FileRecords.RestoreThenBackup` | q2/impl.py:179-207 | after a restore the user owns exactly the saved files that came back, and as many as the restore reports |
| `FileRecords.AddAdminFileKeepsAccounts` | q2/impl.py:67-79 | an admin file keeps every allowance |
| `FileRecords.AddUserFileKeepsAccounts` | q2/impl.py:144-158 | a user's file lowers that user's allowance by its size and keeps the invariant |
| `FileRecords.DeleteKeepsAccounts` | q2/test/test_level3.py:210-224 | deleting a user's file raises the owner's allowance by its size; an admin file changes none |
| `FileRecords.AddUserKeepsAccounts` | q2/impl.py:130-142 | a new user's allowance is their capacity |
| `FileRecords.MergeKeepsAccounts` | q2/test/test_level3.py:131-154 | after a merge the first user's capacity and remaining allowance are the two users' sums, and the invariant holds |
| `FileRecords.RestoreKeepsAccounts` | q2/test/test_level4.py:180-198 | after a restore the user's allowance is capacity minus the restored files' size, and the invariant holds |
| `FileRecords.RankBeforeIsStrictTotalOrder` | q2/impl.py:111-124 | "larger first, equal sizes by name" is a strict total order on listings |
| `FileRecords.Ranking` | q2/impl.py:111-124 | the ranking is strictly sorted and holds exactly every file with its size |
| `FileRecords.ListingSize` | q2/impl.py:111-124 | there is one listing per file |
| `FileRecords.RankingFacts` | q2/test/test_level2.py:68-86 | the ranking lists each file once with its size, larger sizes first and equal sizes by name |
| `FileRecords.LargestNFacts` | q2/impl.py:111-124 | `get_largest_n(n)` returns min(n, file count) entries, none when `n <= 0`, in ranking order. No file left out ranks before a listed one |
| `Sorting.InsertByCorrect` | q2/impl.py:111-124 | inserting into a strictly sorted sequence keeps it sorted and adds exactly the new element |
| `Sorting.FirstIsLeast` | q2/impl.py:111-124 | the head of a sorted sequence comes before every other element |
| `Sorting.TailElements` | q2/impl.py:111-124 | dropping the head drops exactly that element |
| `Sorting.SortedLength` | q2/impl.py:111-124 | a strictly sorted sequence has no repeats |
| `Sorting.SortedUnique` | q1/impl.py:114-126 | two strictly sorted sequences with the same elements are equal, so the scan and ranking orders are unique |
| `Sorting.SortedSeqOf` | q1/impl.py:114-126 | every finite set has a strictly sorted enumeration |
| `Strings.LessIrreflexive` | q1/impl.py:114-126 | no string comes before itself in code-point order |
| `Strings.LessTransitive` | q1/impl.py:114-126 | code-point order is transitive |
| `Strings.LessTotal` | q1/impl.py:114-126 | any two distinct strings are ordered |
| `Strings.LessIsStrictTotalOrder` | q1/impl.py:114-126 | the order scans sort by is a strict total order |
| `Strings.NatToDecimalRoundTrip` | q2/impl.py:111-124 | the decimal text of a size is a non-empty run of digits, with no leading zero unless the size is 0, that reads back as the size |
| `Strings.IntToDecimalShape` | q2/test/test_level2.py:149-161 | the text of a negative size is a minus sign followed by digits, the first of them not zero, and it reads back as the size |

## Left out

- **Inputs and outputs.** Python's dynamic typing and argument validation are not modelled. Keys, fields, values and file names are strings, and sizes, capacities, timestamps and TTLs are unbounded integers.
- **Threads.** Concurrency does not arise: every operation runs to completion.
- **The untimed operations.** `get`, `put`, `delete`, `scan` and `scan_with_prefix` act at the fixed timestamp `Untimed` (0). What happens when untimed and timed calls are mixed on one database is not specified; this model gives the answer timestamp 0 gives.
- **Restored entries.** Each restored entry is stamped with the restore timestamp `t`, so a read before `t` after a restore finds nothing. The older history is discarded, because the restore replaces the database state.
- DeleteAt: when the field is not live at `t`, `delete_at` returns false and records nothing. A delete marker is only recorded when the call returns true. This is observable: after a failed `delete_at(100)` on a field never written, a later call `put_at(50, v)` makes `get_at(120)` return `v`. A marker recorded unconditionally would hide it. The docstring ("False if it didn't exist") is read as a delete that did nothing, and no test exercises the case.
- **`InMemoryDatabase.InMemoryDB.RestoreAt` with no backup.** When no backup is old enough, the database becomes empty, as test/test_level4.py:195-206 expects.
- **Backups in `InMemoryDB`.** The class keeps every backup in call order. Two backups with the same timestamp are both kept, and a restore uses the later one.
- **`CloudFileStorage.FileStorage.Restore` and capacity.** A restore does not check the user's capacity. The restored files are charged even when they exceed it, so the allowance left can go negative; nothing in the source rejects this case.
- **`CloudFileStorage.FileStorage.Restore` and admin files.** A saved name that an admin file now holds is not restored either. The docstring speaks of a file "owned by different user"; the model treats the admin, who owns files charged to nobody, as a different owner. `FileRecords.RestoreContents` states this name by name.
- **Merges and backups.** `CloudFileStorage.FileStorage.MergeUsers` removes the second user's backup along with the user. The first user's backup is kept unchanged.
- **`CloudFileStorage.FileStorage.MergeUsers` and q2/test/test_level3.py:189-208.** That test expects the merged user to have 1000 left after both users filled their 1000-byte allowances. The docstring's "reassigning all of user2's files" and q2/test/test_level3.py:131-154 give capacity 2000 and 0 left, and this is what the model does. That test's last assertion does not hold in the model.
- **Parsing.** The formatted strings (`field(value)` and `name(size)`) are produced but never parsed back.
- **Ordering of strings.** Python compares strings by code point. The model compares `char` values the same way. Unicode normalisation and surrogate pairs are not modelled.
