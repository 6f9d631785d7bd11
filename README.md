# d2hl: a verified model of the inventory, checksum and merge stages

d2hl finds files with identical content below a directory and replaces
every copy after the first with a hardlink to the first. A run has three
stages, and this project models them in Dafny:

1. **Inventory.** `filepath.Walk` calls `treeinfo.process` on every entry.
   `process` rejects leftover `*.tmpdedupe` files from an interrupted run. It
   counts every regular file, and queues a path only when its inode has not
   been seen before.
2. **Checksum.** Every queued path is dispatched once to a worker. The worker
   reads the file, digests it, and appends the path to the bucket of that
   digest. Unreadable files are dropped.
3. **Merge.** `dedupe` visits the buckets of two or more paths and stats the
   first path for its size. It replaces every later path with a hardlink to
   the first: rename to `name.tmpdedupe`, link, then remove the temporary
   name. It adds the size to the savings and one to `DupeCount` per replaced
   path. A dry run skips the filesystem steps but still counts.

The model has these parts:
- The run state `treeinfo` is the class `TreeState.TreeInfo`. Its fields
  `Sums`, `Inodes`, `DupeCount`, `FileCount` and `pathlist` are updated in
  place.
- The filesystem is the class `Files.FileSystem`. It holds a map from path to
  inode, a map from inode to content, and a set `denied` of refused calls.
  `Stat`, `Rename`, `Link` and `Remove` fail when a path is missing or a
  name is taken. They also fail when their call is in `denied`, which stands
  for every other reason the system can refuse: permissions, a read-only
  filesystem, a link across mount points, a full link count. A failure
  changes nothing. As in rename(2), renaming a name onto another name of the
  same inode succeeds and changes nothing.
- Reading a file is the parameter `read`.
- Hashing is the uninterpreted parameter `hash`.
- The walk is the sequence of entries it reports (`visits`).
- Every `panic` and `check(err)` is an `Err`/`Fail` result that ends the run.
  Whatever a failed merge has already done stays done: no rollback.

Each imperative method is proved against a pure function:
- `process` against `Inventory.Step`, and a walk against `Inventory.Walk`.
- The checksum loop against the fold `Checksum.Checksummed`.
- The merge against the set sums `Merge.Savings` and `Merge.Dupes`, the
  filesystem frame `Merge.MergedOn`, and `Merge.Swap`, which says how one
  rename-link-remove ends. A failed merge is stated by `Merge.FailedIn`: the
  buckets merged before the failing one stay merged, and that bucket stops
  where its stat or its replacement failed. `Merge.NothingLost` adds that
  every bucket path still reaches its file, and every name no bucket
  touches is as before.

Lemmas then prove what the program promises about those functions.

Module layout:

| file | module | contents |
|---|---|---|
| `files.dfy` | `Files` | Paths, errors and the filesystem class |
| `tally.dfy` | `Tally` | Sums over finite sets. Go ranges over a map in no fixed order, so totals are stated as sums over the set of keys. |
| `inventory.dfy` | `Inventory` | `process` as a function on the inventory, and walk lemmas |
| `checksum.dfy` | `Checksum` | Bucket append, the fold over the queue, and its lemmas |
| `treeinfo.dfy` | `TreeState` | The `treeinfo` class with `NewTI`, `process` and the worker body |
| `merge.dfy` | `Merge` | `dedupe` and the rename-link-remove step, with their accounting |
| `pipeline.dfy` | `Pipeline` | `main`'s sequence of walk, dispatch loop and dedupe |
| `scenarios.dfy` | `Scenarios` | Small concrete trees worked through the model |

## Model

| member | source | states |
|---|---|---|
| Files.TempName | main.go:135 | The temporary name is `name` followed by `.tmpdedupe`: it starts with `name` and ends with the suffix the walk treats as fatal. |
| Files.TempNameInjective | main.go:135 | Distinct paths have distinct temporary names, so two replacements never share one. |
| Files.FileSystem.Stat | main.go:125-127 | Stat succeeds exactly when the path exists and the call is not refused. The size is the length of its inode's content; otherwise the error is `StatFailed`. |
| Files.FileSystem.Rename | main.go:136-137 | Rename succeeds exactly when the source exists and the call is not refused. When the target already names the source's inode, nothing changes. Otherwise the target names the source's inode, the source is gone, and nothing else changes. A failure changes nothing. |
| Files.FileSystem.Link | main.go:138-139 | Link succeeds exactly when the existing path is there, the new name is free and the call is not refused. The new name then names the same inode and nothing else changes; a failure changes nothing. |
| Files.FileSystem.Remove | main.go:140-141 | Remove succeeds exactly when the path exists and the call is not refused. It drops only that name; a failure changes nothing. |
| Inventory.Step | main.go:47-73 | Step fails exactly on a walk error, which it passes through unchanged, or on a regular `.tmpdedupe` path, with no state change. A non-regular entry changes nothing. A regular file raises the file count by one and adds its inode; its path is appended to the queue exactly when the inode was new. |
| Inventory.Walk | main.go:166-167 | A walk that succeeds never lowers the file count and never forgets an inode. A walk with no regular entry leaves the inventory as it was. |
| Inventory.StepKeepsWellFormed | main.go:59-71 | One call of `process` keeps the inventory invariant: queue no longer than the file count, no two queued paths with one inode, the inode set equal to the queued inodes, no queued temporary names. |
| Inventory.WalkKeepsWellFormed | main.go:47-73 | A whole successful walk keeps that invariant. In particular, pathlist is never longer than FileCount and no two queued paths share an inode. |
| Inventory.WalkFailsIff | main.go:48-58 | A walk fails exactly when some entry is a walk error or a regular `.tmpdedupe` file. |
| Inventory.WalkCountsRegular | main.go:52-59 | After a successful walk, FileCount is the number of regular entries, queued or not. |
| Inventory.WalkRecordsInodes | main.go:65-70 | After a successful walk, the inode set is exactly the inodes of the regular entries. |
| Inventory.WalkQueueOrigin | main.go:65-71 | A walk only appends to the queue. Each appended path is a regular entry of the walk, with that entry's inode. |
| Inventory.QueuedPathsDistinct | main.go:65-71 | In a walk that reports each path with one inode, no path is queued twice. |
| TreeState.TreeInfo.constructor | main.go:38-45 | `NewTI` has empty `Sums` and `Inodes`, zero counters and an empty `pathlist`, and satisfies the invariant. |
| TreeState.TreeInfo.Process | main.go:47-73 | The class method does what `Inventory.Step` says and keeps the invariant. On an error, `FileCount`, `Inodes` and `pathlist` are unchanged. |
| TreeState.TreeInfo.ChecksumFile | main.go:92-110 | An unreadable path changes no bucket. A readable path is appended to the bucket of its digest (see `Checksum.Append`). |
| Checksum.Append | main.go:109 | The path goes at the end of exactly its digest's bucket. A missing bucket is created holding just the path, and every other bucket is unchanged. |
| Checksum.Record | main.go:93-109 | A file that cannot be opened or read leaves the buckets as they were. A readable file ends up in the bucket of its content's digest. |
| Checksum.Checksummed | main.go:181-185 | The worker body applied to each dispatched path in turn. When no dispatched path is readable, the buckets are as they were. |
| Checksum.AppendPopulation | main.go:109 | An append adds exactly one path to the total held by all buckets. |
| Checksum.AppendDisjoint | main.go:109 | Appending a path that no bucket holds keeps every path in at most one bucket, once. |
| Checksum.ChecksummedKeepsPrefix | main.go:109 | Checksumming more paths never removes or reorders a bucket's earlier entries. |
| Checksum.ChecksummedOrigin | main.go:93-109 | A bucket holds only paths that were already there, or readable dispatched paths whose content has that bucket's digest. |
| Checksum.ChecksummedPlaces | main.go:93-109 | Every readable dispatched path is in the bucket of its digest. |
| Checksum.ChecksummedPopulation | main.go:93-109 | The buckets gain exactly one entry per readable dispatched path. |
| Checksum.ChecksummedDisjoint | main.go:181-185 | Each path is dispatched once and none is held beforehand, so every path ends up in at most one bucket, once. |
| Checksum.ChecksummedNonEmpty | main.go:109 | No bucket is ever empty. |
| Checksum.ChecksummedSnoc | main.go:181-185 | Sending one more path is the same as checksumming the longer list. |
| Pipeline.WalkTree | main.go:166-167 | `process` runs on each entry in turn and stops at the first error. The state becomes what `Inventory.Walk` computes, or the walk's error is returned. |
| Pipeline.ChecksumAll | main.go:181-185 | Every queued path is sent once, in queue order. The buckets become the fold of the worker body over `pathlist`. |
| Pipeline.PipelineReady | main.go:55-109 | After a successful, consistent walk and the checksum stage, no path is in two buckets or twice in one, and no bucket path carries the temporary suffix. |
| Pipeline.PipelineDupes | main.go:109-144 | The duplicate count of the buckets built from the queue is the number of readable queued paths minus the number of distinct digests. |
| Pipeline.Run | main.go:156-187 | A failing walk stops the run with no bucket, no duplicate and no change on disk. Otherwise the inventory is the walk's and the buckets are the queue checksummed in order. The merge succeeds exactly when every bucket is mergeable, and then totals its savings and duplicates and changes the filesystem as `Merge.Dedupe` states. A real run that fails stops in one bucket with the buckets merged before it left merged, as `Merge.FailedIn` says. However a real run ends, every bucket path still reaches its file and every name no bucket touches is as before. |
| Merge.Dupes | main.go:144 | The duplicates counted over all buckets: one per path after the first of each bucket. Never negative. |
| Merge.Savings | main.go:143 | The bytes counted over all buckets: the first path's size once per later path. Never negative. |
| Merge.SwapPasses | main.go:135-141 | Rename, link, remove succeed exactly when `name` exists, no call is refused, the temporary name does not already name `name`'s inode, and `first` is there to link. Then `name` names `first`'s inode, the temporary name is gone, and nothing else changed. |
| Merge.SwapFailureKeepsFile | main.go:135-141 | When one of the three calls fails, no name other than `name` and its temporary name changes, at most the temporary name is added, and `name`'s inode is still named by `name` or its temporary name. A refused rename changes nothing. |
| Merge.ReplaceWithLink | main.go:135-141 | The three calls end, in success or failure, with the outcome and names that `Merge.Swap` gives. |
| Merge.AccumulatedIsProduct | main.go:143 | Adding the size once per replaced path gives the number of replaced paths times the size. |
| Merge.Replaced | main.go:128-141 | The names after the later paths of a bucket were replaced one by one. The canonical path, while it exists, keeps its inode. |
| Merge.ReplacedAt | main.go:128-141 | After the first `n` paths of a bucket are replaced one by one, each of them names the canonical inode. Their temporary names are gone, and every other path keeps its inode. |
| Merge.ReplacedMerges | main.go:128-141 | The same, stated as the bucket-prefix merge `PartlyMerged`. |
| Merge.SwapOnReplaced | main.go:128-141 | Replacing path `i` after the paths before it succeeds exactly when `i` was replaceable in the names as they were before the bucket. It then extends the replaced prefix by one. |
| Merge.MergeNext | main.go:129-141 | One later path of a bucket is handled. A dry run changes nothing and passes. A real run passes exactly when the path is replaceable, extends the replaced prefix by one, and otherwise ends as the failed `Swap` does. |
| Merge.ReplaceRest | main.go:128-145 | The inner loop. It succeeds exactly in a dry run or when every later path is replaceable. It returns the size once per later path and raises `DupeCount` by their number; a real run leaves the names as `Replaced`. A failure stops at the first path that is not replaceable, with the names its failed replacement left. |
| Merge.MergeBucket | main.go:121-145 | A bucket of at most one path changes nothing. Otherwise the bucket merges exactly when its first path can be stat-ed and, in a real run, every later one is replaceable. It returns (n-1) times the first path's size, adds n-1 to `DupeCount`, and in a real run merges the whole bucket. A failed stat changes nothing; a failed replacement stops the bucket at that path. |
| Merge.Untouched | main.go:119-145 | A path of a bucket not yet merged, and its temporary name, are neither a replaced path of a merged bucket nor the temporary name of one. |
| Merge.UntouchedBucket | main.go:119-145 | Merging other buckets leaves this bucket's paths, and so its mergeability and its savings, as they were. |
| Merge.MergedKeepsAll | main.go:119-145 | After buckets are merged, every name no bucket touches is as before, the only new names are touched ones, and every bucket path still reaches its file. |
| Merge.FailedRoundKeepsAll | main.go:128-141 | When a bucket stops at a failed replacement after earlier buckets merged, every name no bucket touches is still as before, and every bucket path still reaches its file, possibly under its temporary name. |
| Merge.KeptAfterStop | main.go:128-141 | After such a stop, every bucket path still reaches its file: by its own inode, by the canonical inode, or under its temporary name. |
| Merge.EarlierMergesStay | main.go:119-141 | No rollback: when a real run fails in one bucket, every path of a bucket merged before it still names that bucket's canonical inode, and its temporary name is still gone. |
| Merge.OtherBucketKept | main.go:119-145 | Merging one bucket keeps every earlier-merged bucket merged. |
| Merge.MergedOnStep | main.go:119-145 | Merging one more bucket extends the merged set of digests by it. |
| Merge.DedupeRound | main.go:119-145 | One iteration over `ti.Sums` succeeds exactly when that bucket is mergeable in the original tree. It contributes that bucket's savings and duplicates and extends the merged frame. A failed real round stops as `Merge.FailedIn` says, with the earlier rounds' merges in place, and every bucket path still reaches its file. |
| Merge.Dedupe | main.go:116-148 | Dedupe succeeds exactly when every bucket is mergeable. It returns the sum over buckets of (n-1) times the first path's size, and raises `DupeCount` by the sum of (n-1); both totals also hold in a dry run. A dry run changes no name. A real run that succeeds leaves every replaced path naming its canonical inode, with its temporary name gone and every other path unchanged. A real run that fails stops in one bucket, with the buckets merged before it left merged, as `Merge.FailedIn` says; every bucket path still reaches its file and no untouched name changes. |
| Merge.DupesArePopulationLessBuckets | main.go:143-144 | With non-empty buckets, the duplicate count is the number of paths held minus the number of buckets. |
| Merge.NothingToMerge | main.go:121-123 | Buckets of at most one path contribute no savings and no duplicates. |
| Merge.BucketSavingsBounds | main.go:126-144 | A bucket's savings are at least zero and at most its duplicate count times the largest file size. |
| Merge.SavingsBounds | main.go:116-148 | Total savings are at least zero and at most `DupeCount` times the largest file size. |
| Merge.BucketOrderFree | main.go:124-144 | Reordering a bucket whose paths all have one size changes neither its duplicate count nor its savings. |
| Merge.TotalsOrderFree | main.go:119-144 | The totals over all buckets do not depend on the order within buckets, as long as each bucket's paths have one size. |
| Scenarios.HardlinkedPairQueuedOnce | main.go:65-71 | `d` and `e` share an inode and `f` has another. All three are counted, and only `d` and `f` are queued. |
| Scenarios.HardlinkedPairMerged | main.go:124-141 | With `d` and `e` on inode 7 and `f` on inode 8, merging the bucket `[d, f]` leaves all three on inode 7. Merging `[f, d]` leaves `d` and `f` on inode 8 and `e` on inode 7. |
| Scenarios.LeftoverStopsWalk | main.go:55-58 | A leftover `x.tmpdedupe` ends the walk with an error, whatever precedes it. |
| Scenarios.WalkABC | main.go:47-73 | Walking `a`, `b`, `c` on three inodes queues all three, in order. |
| Scenarios.TwoEqualOneDistinctBuckets | main.go:92-110 | `a` and `b` hold equal content and `c` different content. Dispatched in order, they give one bucket `[a, b]` and one bucket `[c]`. |
| Scenarios.TwoEqualOneDistinctTotals | main.go:121-145 | Whether that bucket is `[a, b]` or `[b, a]`, with `a` and `b` of one size the buckets count one duplicate and save the size of `a`. |
| Scenarios.MergeableABC | main.go:125-141 | Those buckets can be merged while `a`, `b` and `c` exist, no call is refused and `b.tmpdedupe` does not already name `b`'s inode. |
| Scenarios.MergedABC | main.go:135-141 | Whichever of `a` and `b` comes first, after the merge both name that path's inode, and `c` is unchanged. |
| Scenarios.SameInodeTempStops | main.go:136-139 | With `b.tmpdedupe` already naming `b`'s inode, the rename does nothing and the link fails on the taken name `b`, with nothing changed. |
| Scenarios.RefusedLinkLeavesTemp | main.go:136-139 | A refused link leaves `b`'s file under `b.tmpdedupe`. |
| Scenarios.PriorTempOverwritten | main.go:135-141 | A `b.tmpdedupe` that is already there, not as a regular file, is replaced by the rename of `b`. The merge succeeds and nothing names its inode any more. |
| Scenarios.RunABC | main.go:156-187 | What `Run` promises for that tree gives success, one duplicate, the size of `a` as savings, and `a` and `b` on one inode. |
| Scenarios.MergeTwoEqualOneDistinct | main.go:156-187 | The whole run over `a`, `b`, `c` on a filesystem where they exist with `a` and `b` of one size and nothing is refused: it succeeds, reports one duplicate and the size of `a`, and leaves `a` and `b` on one inode. |

## Left out

- The goroutine worker pool, the unbuffered channel, `sync.WaitGroup` and
  `sync.RWMutex` (main.go:89-91, 108-110, 175-186) are not modelled.
  Checksumming is the sequential fold in dispatch order, so each bucket
  lists its paths in queue order. In the program the order is the workers'
  completion order, so which path becomes canonical depends on the
  schedule. The totals do not depend on it when every path of a bucket has
  one size (`Merge.TotalsOrderFree`). Paths with one digest but different
  sizes would give different savings in different orders.
- SHA-1 and its hex rendering (main.go:98-104) are the parameter `hash`.
  Opening and reading a file are the parameter `read`. Equal digests are
  taken to mean equal content, as in the program; bytes are never compared.
- Pipeline.Run: the walk `visits`, the reads `read` and the filesystem `fs`
  are independent inputs. Nothing ties what the walk reported and what was
  read to the names and contents the merge then finds, as one snapshot of
  a tree would. So `Run` cannot conclude that paths the walk saw as
  hardlinked end on one inode; `Scenarios.HardlinkedPairMerged` states that
  on the filesystem side alone.
- `filepath.Walk` is given as the sequence of entries it reports. Its
  traversal order and the real system calls are not modelled.
- Files.FileSystem.Link, Files.FileSystem.Rename, Files.FileSystem.Remove,
  Files.FileSystem.Stat: the reasons a call is refused are not told apart.
  A refused call is one member of `denied`, fixed for the whole run.
- Merge.NothingLost: it covers bucket paths and names no bucket touches.
  A name that exists before the merge and is the temporary name of a
  bucket path is not covered. The walk stops at such a name only when it
  is a regular file, so a symlink `p.tmpdedupe` reaches the merge, and the
  rename of `p` replaces it, as `os.Rename` does
  (`Scenarios.PriorTempOverwritten`). The model has no file types. A
  directory in that place makes the real rename fail, but the model's
  `Rename` replaces whatever the target names.
- The `syscall.Stat_t` assertion (main.go:60-63) is left out: every regular
  entry carries an inode number.
- Not modelled because they only produce output: flags and the
  `--quiet`/`--verbose` check (main.go:21-27, 151-155), progress bars,
  `humanize.Bytes`, verbose and dry-run printing, and `String()`
  (main.go:75-81).
- Merge.Dedupe: savings are an unbounded integer. The Go `int64` overflow is
  not modelled.
- Merge.Dedupe: requires `MergeReady`, meaning no path is in two buckets or
  twice in one and no bucket path ends in `.tmpdedupe`. The Go function
  accepts any map. The walk and checksum stages establish the property
  (`Pipeline.PipelineReady`), so a map that breaks it cannot reach `dedupe`.
  Merge.MergeBucket, Merge.ReplaceRest and Merge.MergeNext require the same
  of their bucket.
- Pipeline.Run: requires a consistent walk, one that reports a path with the
  same inode each time, as a snapshot of the tree does. Without it the model
  cannot relate queued paths to inodes.
- Files.FileSystem.Remove: the inode's content stays in the content map after
  its last name is removed. Reclaiming the space is not modelled, so savings
  are stated as the program counts them.
- `main.go` has no dotfile filter and no minimum-size filter, checks no
  size in the walk, and digests with SHA-1; the model does the same.
- A second run over a merged tree is not modelled. `Merge.NothingToMerge`
  states only that buckets of at most one path yield zero savings and zero
  duplicates.
