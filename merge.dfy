/** The merge stage, `dedupe` (main.go:116-148): in every bucket of two or
    more paths the first is canonical and each other path is replaced by a
    hardlink to it through rename, link, remove; savings and the duplicate
    count advance per replaced path, also in dry-run mode, where the
    filesystem is left alone. */
module Merge {
  import opened Files
  import opened Tally
  import opened Checksum
  import opened TreeState

  /** Size of the file at `p`, as os.Stat reports it (0 when absent). */
  ghost function SizeOf(names: map<Path, Inode>, data: map<Inode, Content>, p: Path): nat {
    if p in names && names[p] in data then |data[names[p]]| else 0
  }

  /** Paths of one bucket that get replaced. */
  function BucketDupes(b: seq<Path>): nat {
    if |b| <= 1 then 0 else |b| - 1
  }

  /** Bytes one bucket frees: the canonical size once per replaced path. */
  ghost function BucketSavings(b: seq<Path>, names: map<Path, Inode>, data: map<Inode, Content>): int {
    if |b| <= 1 then 0 else (|b| - 1) * SizeOf(names, data, b[0])
  }

  ghost function DupesOf(sums: Buckets): Digest -> int {
    d => if d in sums then BucketDupes(sums[d]) else 0
  }

  ghost function SavingsOf(sums: Buckets, names: map<Path, Inode>, data: map<Inode, Content>): Digest -> int {
    d => if d in sums then BucketSavings(sums[d], names, data) else 0
  }

  /** Total paths replaced over all buckets: what `DupeCount` gains. */
  ghost function Dupes(sums: Buckets): (r: int)
    ensures r >= 0
  {
    SumNonNegative(sums.Keys, DupesOf(sums));
    Sum(sums.Keys, DupesOf(sums))
  }

  /** Total bytes freed over all buckets: what `dedupe` returns. */
  ghost function Savings(sums: Buckets, names: map<Path, Inode>, data: map<Inode, Content>): (r: int)
    ensures r >= 0
  {
    SumNonNegative(sums.Keys, SavingsOf(sums, names, data));
    Sum(sums.Keys, SavingsOf(sums, names, data))
  }

  /** `p` can be replaced by a link: it exists, none of the three calls on
      it is refused, and its temporary name does not already name the same
      inode (in which case the rename would do nothing and the link would
      find `p` still taken). */
  ghost predicate Replaceable(names: map<Path, Inode>, denied: set<Fault>, p: Path) {
    && p in names
    && NoRename(p) !in denied && NoLink(p) !in denied && NoRemove(TempName(p)) !in denied
    && !(TempName(p) in names && names[TempName(p)] == names[p])
  }

  /** What a bucket needs on disk to merge without a fatal error: the
      canonical file for its stat, and in a real run every other path for
      its replacement. */
  ghost predicate BucketMergeable(b: seq<Path>, names: map<Path, Inode>, denied: set<Fault>, dryrun: bool) {
    || |b| <= 1
    || (&& b[0] in names && NoStat(b[0]) !in denied
        && (dryrun || forall j | 1 <= j < |b| :: Replaceable(names, denied, b[j])))
  }

  ghost predicate Mergeable(sums: Buckets, keys: set<Digest>, names: map<Path, Inode>, denied: set<Fault>, dryrun: bool) {
    forall d | d in keys && d in sums :: BucketMergeable(sums[d], names, denied, dryrun)
  }

  /** What the earlier stages guarantee about the buckets: no path is held
      twice and none carries the temporary suffix. */
  ghost predicate MergeReady(sums: Buckets) {
    && Disjoint(sums)
    && forall d, i | d in sums && 0 <= i < |sums[d]| :: !HasSuffix(sums[d][i], TempSuffix)
  }

  /** `p` is one of the paths `b[1..n)`. */
  ghost predicate ReplacedBelow(b: seq<Path>, n: int, p: Path) {
    exists j | 1 <= j < n && j < |b| :: p == b[j]
  }

  /** `p` is the temporary name of one of the paths `b[1..n)`. */
  ghost predicate TempBelow(b: seq<Path>, n: int, p: Path) {
    exists j | 1 <= j < n && j < |b| :: p == TempName(b[j])
  }

  /** `p` is one of the first `n` replaced paths of bucket `b`, or the
      temporary name of one. */
  ghost predicate TouchesBelow(b: seq<Path>, n: int, p: Path) {
    ReplacedBelow(b, n, p) || TempBelow(b, n, p)
  }

  ghost predicate TouchedBy(sums: Buckets, keys: set<Digest>, p: Path) {
    exists d | d in keys && d in sums :: TouchesBelow(sums[d], |sums[d]|, p)
  }

  /** The filesystem after the first `n` paths of bucket `b` were replaced:
      each names the canonical file's inode, its temporary name is gone, no
      name was added, and every name not touched is as before. */
  ghost predicate PartlyMerged(b: seq<Path>, n: int, before: map<Path, Inode>, after: map<Path, Inode>) {
    && 0 < |b|
    && b[0] in before
    && after.Keys <= before.Keys
    && (forall j | 1 <= j < n && j < |b| ::
          b[j] in after && after[b[j]] == before[b[0]] && TempName(b[j]) !in after)
    && (forall p | p in before && !TouchesBelow(b, n, p) :: p in after && after[p] == before[p])
  }

  /** The filesystem after the buckets `keys` were merged. */
  ghost predicate MergedOn(sums: Buckets, keys: set<Digest>, before: map<Path, Inode>, after: map<Path, Inode>) {
    && after.Keys <= before.Keys
    && (forall d, j | d in keys && d in sums && 1 <= j < |sums[d]| ::
          sums[d][0] in before && sums[d][j] in after && after[sums[d][j]] == before[sums[d][0]]
          && TempName(sums[d][j]) !in after)
    && (forall p | p in before && !TouchedBy(sums, keys, p) :: p in after && after[p] == before[p])
  }

  /** Path `j` of bucket `b` still reaches a file with its content: it names
      its own inode or the canonical one, or its own inode survives under
      its temporary name. */
  ghost predicate Kept(b: seq<Path>, j: int, before: map<Path, Inode>, after: map<Path, Inode>) {
    && 1 <= j < |b| && b[j] in before
    && (|| (b[j] in after && after[b[j]] == before[b[j]])
        || (b[0] in before && b[j] in after && after[b[j]] == before[b[0]])
        || (TempName(b[j]) in after && after[TempName(b[j])] == before[b[j]]))
  }

  /** What holds of the names however the merge ended: the only names added
      are temporary names of bucket paths, every name no bucket touches is
      as before, and every bucket path that existed is kept. It says nothing
      about a name a merge does touch without it being a bucket path: a
      temporary name that already existed is overwritten by the rename. */
  ghost predicate NothingLost(sums: Buckets, before: map<Path, Inode>, after: map<Path, Inode>) {
    && (forall p | p in after && p !in before :: TouchedBy(sums, sums.Keys, p))
    && (forall p | p in before && !TouchedBy(sums, sums.Keys, p) :: p in after && after[p] == before[p])
    && (forall d, j | d in sums && 1 <= j < |sums[d]| && sums[d][j] in before :: Kept(sums[d], j, before, after))
  }

  /** How the names end and whether it succeeds when `name` is replaced by
      a link to `first` (main.go:135-141): rename `name` to its temporary
      name, link `first` as `name`, remove the temporary name, stopping at
      the first call that fails. */
  datatype Effect = Effect(outcome: Outcome, names: map<Path, Inode>)

  ghost function Swap(names: map<Path, Inode>, denied: set<Fault>, name: Path, first: Path): Effect {
    var t := TempName(name);
    if name !in names || NoRename(name) in denied then
      Effect(Fail(RenameFailed(name, t)), names)
    else
      var moved := if t in names && names[t] == names[name] then names else (names - {name})[t := names[name]];
      if first !in moved || name in moved || NoLink(name) in denied then
        Effect(Fail(LinkFailed(first, name)), moved)
      else
        var linked := moved[name := moved[first]];
        if t !in linked || NoRemove(t) in denied then
          Effect(Fail(RemoveFailed(t)), linked)
        else
          Effect(Pass, linked - {t})
  }

  /** The replacement succeeds exactly when `name` exists, no call is
      refused, the rename is not a no-op and `first` is there to link;
      afterwards `name` carries the inode of `first`, the temporary name is
      gone and nothing else changed. */
  lemma SwapPasses(names: map<Path, Inode>, denied: set<Fault>, name: Path, first: Path)
    ensures var t := TempName(name);
            Swap(names, denied, name, first).outcome.Pass? <==>
              && name in names && NoRename(name) !in denied && NoLink(name) !in denied && NoRemove(t) !in denied
              && !(t in names && names[t] == names[name])
              && ((first in names && first != name) || first == t)
    ensures var t := TempName(name);
            Swap(names, denied, name, first).outcome.Pass? && first != t ==>
              Swap(names, denied, name, first).names == (names - {t})[name := names[first]]
    ensures var t := TempName(name);
            Swap(names, denied, name, first).outcome.Pass? && first == t ==>
              Swap(names, denied, name, first).names == (names - {t})[name := names[name]]
  {
    var t := TempName(name);
    assert t != name;
  }

  /** A failed replacement keeps the file of `name`: every name other than
      `name` and its temporary name is untouched, at most the temporary name is added,
      and the inode `name` had is still named by `name` or by the temporary
      name. A refused or impossible rename changes nothing. */
  lemma SwapFailureKeepsFile(names: map<Path, Inode>, denied: set<Fault>, name: Path, first: Path)
    requires Swap(names, denied, name, first).outcome.Fail?
    ensures var e, t := Swap(names, denied, name, first), TempName(name);
            forall p | p != name && p != t :: (p in e.names <==> p in names) && (p in names ==> e.names[p] == names[p])
    ensures var e, t := Swap(names, denied, name, first), TempName(name);
            e.names.Keys <= names.Keys + {t}
    ensures var e, t := Swap(names, denied, name, first), TempName(name);
            name in names ==> (name in e.names && e.names[name] == names[name]) || (t in e.names && e.names[t] == names[name])
    ensures var e := Swap(names, denied, name, first);
            name !in names || NoRename(name) in denied ==> e.names == names
  {
    var t := TempName(name);
    assert t != name;
  }

  /** ReplaceWithLink (main.go:135-141) ends as `Swap` describes. */
  method ReplaceWithLink(fs: FileSystem, name: Path, first: Path) returns (r: Outcome)
    requires fs.Valid()
    modifies fs`names
    ensures fs.Valid()
    ensures Effect(r, fs.names) == Swap(old(fs.names), fs.denied, name, first)
  {
    var tmp := TempName(name);
    assert tmp != name;
    var e := fs.Rename(name, tmp);
    if e.Fail? {
      return e;
    }
    e := fs.Link(first, name);
    if e.Fail? {
      return e;
    }
    e := fs.Remove(tmp);
    r := e;
  }

  /** `size` added up `n` times, as the inner loop accumulates savings. */
  function Accumulated(n: nat, size: int): int {
    if n == 0 then 0 else Accumulated(n - 1, size) + size
  }

  /** The running total after `n` replaced paths is `n` times the size. */
  lemma {:induction false} AccumulatedIsProduct(n: nat, size: int)
    ensures Accumulated(n, size) == n * size
  {
    if n > 0 {
      AccumulatedIsProduct(n - 1, size);
    }
  }

  /** A real run over bucket `b` stopped at path `i`: every path before it
      could be replaced, `i` could not, and `after` with error `e` is what
      the failed replacement of `i` left of the names. */
  ghost predicate StoppedAt(b: seq<Path>, i: int, before: map<Path, Inode>, denied: set<Fault>,
                            after: map<Path, Inode>, e: Error) {
    && 1 <= i < |b| && b[0] in before
    && (forall j | 1 <= j < i :: Replaceable(before, denied, b[j]))
    && !Replaceable(before, denied, b[i])
    && Swap(Replaced(b, i, before), denied, b[i], b[0]) == Effect(Fail(e), after)
  }

  /** A real run of `dedupe` that failed in bucket `d`: the buckets `done`
      had been merged, turning `before` into `mid`, and bucket `d` then
      either failed the stat of its first path, leaving `mid` as it was, or
      stopped where `StoppedAt` says. Nothing is rolled back. */
  ghost predicate FailedIn(sums: Buckets, d: Digest, done: set<Digest>, before: map<Path, Inode>,
                           mid: map<Path, Inode>, denied: set<Fault>, after: map<Path, Inode>, e: Error) {
    && d in sums && d !in done && 1 < |sums[d]|
    && MergedOn(sums, done, before, mid)
    && (|| (&& (sums[d][0] !in mid || NoStat(sums[d][0]) in denied)
            && after == mid && e == StatFailed(sums[d][0]))
        || exists i :: StoppedAt(sums[d], i, mid, denied, after, e))
  }

  /** One bucket of `dedupe` (main.go:121-145). A bucket of at most one path
      does nothing. Otherwise the first path is stat-ed for its size, and
      each later path is replaced by a link to it (or only counted, in a dry
      run); savings grow by the canonical size and the duplicate count by
      one per replaced path. A failed stat changes nothing; a failed
      replacement stops the bucket where `StoppedAt` says. */
  method MergeBucket(ti: TreeInfo, fs: FileSystem, b: seq<Path>, dryrun: bool) returns (r: Result<int>)
    requires fs.Valid()
    requires forall i, j | 0 <= i < j < |b| :: b[i] != b[j]
    requires forall i | 0 <= i < |b| :: !HasSuffix(b[i], TempSuffix)
    modifies ti`DupeCount, fs`names
    ensures fs.Valid()
    ensures r.Ok? <==> BucketMergeable(b, old(fs.names), fs.denied, dryrun)
    ensures r.Ok? ==> r.value == BucketSavings(b, old(fs.names), fs.data)
    ensures r.Ok? ==> ti.DupeCount == old(ti.DupeCount) + BucketDupes(b)
    ensures dryrun || |b| <= 1 ==> fs.names == old(fs.names)
    ensures r.Ok? && !dryrun && |b| > 1 ==> PartlyMerged(b, |b|, old(fs.names), fs.names)
    ensures r.Err? ==> 1 < |b|
    ensures r.Err? && 1 < |b| ==>
              if b[0] in old(fs.names) && NoStat(b[0]) !in fs.denied
              then !dryrun && exists i :: StoppedAt(b, i, old(fs.names), fs.denied, fs.names, r.error)
              else fs.names == old(fs.names) && r.error == StatFailed(b[0])
  {
    if |b| <= 1 {
      return Ok(0);
    }
    var first := b[0];
    var st := fs.Stat(first);
    if st.Err? {
      return Err(st.error);
    }
    var size := st.value;
    assert size == SizeOf(old(fs.names), fs.data, first);
    r := ReplaceRest(ti, fs, b, size, dryrun);
    AccumulatedIsProduct(|b| - 1, size);
    if r.Ok? && !dryrun {
      ReplacedMerges(b, |b|, old(fs.names));
    }
  }

  /** The inner loop of one bucket (main.go:128-144): every path after the
      first is replaced by a link to the first (in a real run), and each one
      adds `size` to the savings and one to the duplicate count. It stops at
      the first path that cannot be replaced. */
  method ReplaceRest(ti: TreeInfo, fs: FileSystem, b: seq<Path>, size: int, dryrun: bool) returns (r: Result<int>)
    requires fs.Valid()
    requires 1 < |b| && b[0] in fs.names
    requires forall i, j | 0 <= i < j < |b| :: b[i] != b[j]
    requires forall i | 0 <= i < |b| :: !HasSuffix(b[i], TempSuffix)
    modifies ti`DupeCount, fs`names
    ensures fs.Valid()
    ensures r.Ok? <==> dryrun || forall j | 1 <= j < |b| :: Replaceable(old(fs.names), fs.denied, b[j])
    ensures r.Ok? ==> r.value == Accumulated(|b| - 1, size)
    ensures r.Ok? ==> ti.DupeCount == old(ti.DupeCount) + (|b| - 1)
    ensures dryrun ==> fs.names == old(fs.names)
    ensures r.Ok? && !dryrun ==> fs.names == Replaced(b, |b|, old(fs.names))
    ensures r.Err? ==> !dryrun && exists i :: StoppedAt(b, i, old(fs.names), fs.denied, fs.names, r.error)
  {
    ghost var names0 := fs.names;
    var saved := 0;
    var i := 1;
    while i < |b|
      invariant 1 <= i <= |b|
      invariant fs.Valid()
      invariant saved == Accumulated(i - 1, size)
      invariant ti.DupeCount == old(ti.DupeCount) + (i - 1)
      invariant b[0] in names0
      invariant !dryrun ==> forall j | 1 <= j < i :: Replaceable(names0, fs.denied, b[j])
      invariant dryrun ==> fs.names == names0
      invariant !dryrun ==> fs.names == Replaced(b, i, names0)
    {
      var m := MergeNext(fs, b, i, names0, dryrun);
      if m.Fail? {
        assert StoppedAt(b, i, names0, fs.denied, fs.names, m.error);
        return Err(m.error);
      }
      saved := saved + size;
      ti.DupeCount := ti.DupeCount + 1;
      i := i + 1;
    }
    return Ok(saved);
  }

  /** The names after the paths `b[1..n)` were replaced, one after the
      other, by links to `b[0]`, as the inner loop does it. */
  ghost function Replaced(b: seq<Path>, n: nat, before: map<Path, Inode>): (r: map<Path, Inode>)
    requires 1 <= n <= |b| && b[0] in before
    ensures b[0] in r ==> r[b[0]] == before[b[0]]
    decreases n
  {
    if n == 1 then before
    else (Replaced(b, n - 1, before) - {TempName(b[n - 1])})[b[n - 1] := before[b[0]]]
  }

  /** Path by path, `Replaced` is what the merge promises: a path among
      `b[1..n)` names the canonical inode, the temporary name of one is
      gone, and every other path keeps its inode. */
  lemma {:induction false} ReplacedAt(b: seq<Path>, n: nat, before: map<Path, Inode>, p: Path)
    requires 1 <= n <= |b| && b[0] in before
    requires forall x | 0 <= x < |b| :: !HasSuffix(b[x], TempSuffix)
    requires forall j | 1 <= j < n :: b[j] in before
    ensures p in Replaced(b, n, before) <==> p in before && !TempBelow(b, n, p)
    ensures p in Replaced(b, n, before) ==>
              Replaced(b, n, before)[p] == if ReplacedBelow(b, n, p) then before[b[0]] else before[p]
    decreases n
  {
    if n == 1 {
      assert !TempBelow(b, n, p) && !ReplacedBelow(b, n, p);
    } else {
      ReplacedAt(b, n - 1, before, p);
      var k := n - 1;
      assert TempBelow(b, n, p) <==> TempBelow(b, k, p) || p == TempName(b[k]);
      assert ReplacedBelow(b, n, p) <==> ReplacedBelow(b, k, p) || p == b[k];
      if p == b[k] {
        assert !TempBelow(b, n, p) by {
          forall x | 1 <= x < n
            ensures p != TempName(b[x])
          {
            assert HasSuffix(TempName(b[x]), TempSuffix);
          }
        }
      }
    }
  }

  /** Replacing, one by one, paths that all exist merges the bucket prefix:
      each replaced path names the canonical inode, no temporary name is
      left, and every other name is as before. */
  lemma ReplacedMerges(b: seq<Path>, n: nat, before: map<Path, Inode>)
    requires 1 <= n <= |b| && b[0] in before
    requires forall x | 0 <= x < |b| :: !HasSuffix(b[x], TempSuffix)
    requires forall j | 1 <= j < n :: b[j] in before
    ensures PartlyMerged(b, n, before, Replaced(b, n, before))
  {
    var after := Replaced(b, n, before);
    forall p | p in after
      ensures p in before
    {
      ReplacedAt(b, n, before, p);
    }
    forall j | 1 <= j < n
      ensures b[j] in after && after[b[j]] == before[b[0]] && TempName(b[j]) !in after
    {
      ReplacedAt(b, n, before, b[j]);
      ReplacedAt(b, n, before, TempName(b[j]));
      assert ReplacedBelow(b, n, b[j]) && TempBelow(b, n, TempName(b[j]));
    }
    forall p | p in before && !TouchesBelow(b, n, p)
      ensures p in after && after[p] == before[p]
    {
      ReplacedAt(b, n, before, p);
      assert !TempBelow(b, n, p) && !ReplacedBelow(b, n, p);
    }
  }

  /** Replacing path `i` after the paths before it were replaced succeeds
      exactly when `i` is replaceable in the names as they were before the
      bucket, and then extends `Replaced` by one path. */
  lemma SwapOnReplaced(b: seq<Path>, i: int, before: map<Path, Inode>, denied: set<Fault>)
    requires 1 <= i < |b| && b[0] in before
    requires forall x, y | 0 <= x < y < |b| :: b[x] != b[y]
    requires forall x | 0 <= x < |b| :: !HasSuffix(b[x], TempSuffix)
    requires forall j | 1 <= j < i :: b[j] in before
    ensures Swap(Replaced(b, i, before), denied, b[i], b[0]).outcome.Pass? <==> Replaceable(before, denied, b[i])
    ensures Swap(Replaced(b, i, before), denied, b[i], b[0]).outcome.Pass? ==>
              Swap(Replaced(b, i, before), denied, b[i], b[0]).names == Replaced(b, i + 1, before)
  {
    var names := Replaced(b, i, before);
    var t := TempName(b[i]);
    ReplacedAt(b, i, before, b[0]);
    ReplacedAt(b, i, before, b[i]);
    ReplacedAt(b, i, before, t);
    assert !HasSuffix(b[0], TempSuffix) && !HasSuffix(b[i], TempSuffix) && HasSuffix(t, TempSuffix);
    assert !TempBelow(b, i, t) by {
      forall j | 1 <= j < i
        ensures t != TempName(b[j])
      {
        TempNameInjective(b[i], b[j]);
      }
    }
    SwapPasses(names, denied, b[i], b[0]);
  }

  /** Path `i` of a bucket whose paths before it are already handled: a dry
      run only reports it; a real run replaces it, which succeeds exactly
      when that path was replaceable from the start, and otherwise leaves
      the names as the failed `Swap` does. */
  method MergeNext(fs: FileSystem, b: seq<Path>, i: int, ghost before: map<Path, Inode>, dryrun: bool) returns (r: Outcome)
    requires fs.Valid()
    requires 1 <= i < |b| && b[0] in before
    requires forall x, y | 0 <= x < y < |b| :: b[x] != b[y]
    requires forall x | 0 <= x < |b| :: !HasSuffix(b[x], TempSuffix)
    requires !dryrun ==> forall j | 1 <= j < i :: b[j] in before
    requires dryrun ==> fs.names == before
    requires !dryrun ==> fs.names == Replaced(b, i, before)
    modifies fs`names
    ensures fs.Valid()
    ensures r.Pass? <==> dryrun || Replaceable(before, fs.denied, b[i])
    ensures !dryrun ==> Effect(r, fs.names) == Swap(old(fs.names), fs.denied, b[i], b[0])
    ensures dryrun ==> fs.names == before
    ensures r.Pass? && !dryrun ==> fs.names == Replaced(b, i + 1, before)
  {
    if dryrun {
      return Pass;
    }
    SwapOnReplaced(b, i, before, fs.denied);
    r := ReplaceWithLink(fs, b[i], b[0]);
  }

  /** A bucket not yet merged is untouched by the merged ones: its paths
      and their temporary names are none of their replaced paths (buckets
      are disjoint, and no bucket path has the suffix) and none of their
      temporary names (distinct paths have distinct temporary names). */
  lemma Untouched(sums: Buckets, keys: set<Digest>, d: Digest, k: int)
    requires MergeReady(sums)
    requires d in sums && d !in keys && 0 <= k < |sums[d]|
    ensures !TouchedBy(sums, keys, sums[d][k])
    ensures !TouchedBy(sums, keys, TempName(sums[d][k]))
  {
    var p := sums[d][k];
    var t := TempName(p);
    forall e | e in keys && e in sums
      ensures !TouchesBelow(sums[e], |sums[e]|, p) && !TouchesBelow(sums[e], |sums[e]|, t)
    {
      forall j | 1 <= j < |sums[e]|
        ensures p != sums[e][j] && p != TempName(sums[e][j])
        ensures t != sums[e][j] && t != TempName(sums[e][j])
      {
        assert !HasSuffix(p, TempSuffix) && !HasSuffix(sums[e][j], TempSuffix);
        TempNameInjective(p, sums[e][j]);
      }
    }
  }

  /** Merging keys `done` leaves the bucket `d` as it was on disk: same
      presence and same inode for each of its paths and their temporary
      names, hence the same mergeability and the same savings. */
  lemma UntouchedBucket(sums: Buckets, done: set<Digest>, d: Digest, before: map<Path, Inode>,
                        mid: map<Path, Inode>, data: map<Inode, Content>, denied: set<Fault>, dryrun: bool)
    requires MergeReady(sums)
    requires d in sums && d !in done
    requires MergedOn(sums, done, before, mid)
    ensures forall k | 0 <= k < |sums[d]| ::
              (sums[d][k] in mid <==> sums[d][k] in before)
              && (sums[d][k] in before ==> mid[sums[d][k]] == before[sums[d][k]])
    ensures BucketMergeable(sums[d], mid, denied, dryrun) <==> BucketMergeable(sums[d], before, denied, dryrun)
    ensures BucketSavings(sums[d], mid, data) == BucketSavings(sums[d], before, data)
  {
    forall k | 0 <= k < |sums[d]|
      ensures (sums[d][k] in mid <==> sums[d][k] in before)
              && (sums[d][k] in before ==> mid[sums[d][k]] == before[sums[d][k]])
      ensures Replaceable(mid, denied, sums[d][k]) <==> Replaceable(before, denied, sums[d][k])
    {
      Untouched(sums, done, d, k);
    }
  }

  /** Once the buckets `keys` are merged, every bucket path and every name
      no bucket touches still reaches its file. */
  lemma MergedKeepsAll(sums: Buckets, keys: set<Digest>, before: map<Path, Inode>, after: map<Path, Inode>)
    requires MergeReady(sums)
    requires MergedOn(sums, keys, before, after)
    ensures NothingLost(sums, before, after)
  {
    forall p | p in before && !TouchedBy(sums, sums.Keys, p)
      ensures p in after && after[p] == before[p]
    {
      assert !TouchedBy(sums, keys, p);
    }
    forall d, j | d in sums && 1 <= j < |sums[d]| && sums[d][j] in before
      ensures Kept(sums[d], j, before, after)
    {
      if d !in keys {
        Untouched(sums, keys, d, j);
      }
    }
  }

  /** When the merge of bucket `d` stops at path `i` after the buckets
      `done` were merged, every bucket path and every name no bucket
      touches still reaches its file. */
  lemma FailedRoundKeepsAll(sums: Buckets, done: set<Digest>, d: Digest, before: map<Path, Inode>,
                            mid: map<Path, Inode>, denied: set<Fault>, after: map<Path, Inode>, i: int, e: Error)
    requires MergeReady(sums)
    requires d in sums && d !in done
    requires MergedOn(sums, done, before, mid)
    requires StoppedAt(sums[d], i, mid, denied, after, e)
    ensures NothingLost(sums, before, after)
  {
    var b := sums[d];
    var t := TempName(b[i]);
    SwapFailureKeepsFile(Replaced(b, i, mid), denied, b[i], b[0]);
    forall p | p in after && p != t
      ensures p in before
    {
      ReplacedAt(b, i, mid, p);
    }
    forall p | p in after && p !in before
      ensures TouchedBy(sums, sums.Keys, p)
    {
      assert p == t && TempBelow(b, |b|, p);
    }
    forall p | p in before && !TouchedBy(sums, sums.Keys, p)
      ensures p in after && after[p] == before[p]
    {
      assert !TouchedBy(sums, done, p) && !TouchesBelow(b, |b|, p);
      ReplacedAt(b, i, mid, p);
    }
    forall c, j | c in sums && 1 <= j < |sums[c]| && sums[c][j] in before
      ensures Kept(sums[c], j, before, after)
    {
      KeptAfterStop(sums, done, d, before, mid, denied, after, i, e, c, j);
    }
  }

  /** Path `j` of bucket `c` is kept when the merge of bucket `d` stops at
      path `i`. */
  lemma KeptAfterStop(sums: Buckets, done: set<Digest>, d: Digest, before: map<Path, Inode>,
                      mid: map<Path, Inode>, denied: set<Fault>, after: map<Path, Inode>, i: int, e: Error,
                      c: Digest, j: int)
    requires MergeReady(sums)
    requires d in sums && d !in done
    requires MergedOn(sums, done, before, mid)
    requires StoppedAt(sums[d], i, mid, denied, after, e)
    requires c in sums && 1 <= j < |sums[c]| && sums[c][j] in before
    ensures Kept(sums[c], j, before, after)
  {
    var b := sums[d];
    var q := sums[c][j];
    var t := TempName(b[i]);
    SwapFailureKeepsFile(Replaced(b, i, mid), denied, b[i], b[0]);
    assert !HasSuffix(q, TempSuffix) && HasSuffix(t, TempSuffix);
    if c != d {
      forall x | 1 <= x < |b|
        ensures q != b[x] && q != TempName(b[x])
      {
        assert HasSuffix(TempName(b[x]), TempSuffix);
      }
      ReplacedAt(b, i, mid, q);
      if c !in done {
        Untouched(sums, done, c, j);
      }
    } else {
      Untouched(sums, done, d, j);
      ReplacedAt(b, i, mid, q);
      if j < i {
        Untouched(sums, done, d, 0);
        assert ReplacedBelow(b, i, q);
      } else {
        assert !ReplacedBelow(b, i, q);
      }
    }
  }

  /** No rollback: when a real run fails in bucket `d`, path `j` of a
      bucket `c` merged before it still names the canonical inode, and its
      temporary name is still gone. */
  lemma EarlierMergesStay(sums: Buckets, d: Digest, done: set<Digest>, before: map<Path, Inode>,
                          mid: map<Path, Inode>, denied: set<Fault>, after: map<Path, Inode>, e: Error,
                          c: Digest, j: int)
    requires MergeReady(sums)
    requires FailedIn(sums, d, done, before, mid, denied, after, e)
    requires c in done && c in sums && 1 <= j < |sums[c]|
    ensures sums[c][0] in before && sums[c][j] in after && after[sums[c][j]] == before[sums[c][0]]
    ensures TempName(sums[c][j]) !in after
  {
    if exists i :: StoppedAt(sums[d], i, mid, denied, after, e) {
      var i :| StoppedAt(sums[d], i, mid, denied, after, e);
      var b := sums[d];
      var q := sums[c][j];
      var t := TempName(b[i]);
      SwapFailureKeepsFile(Replaced(b, i, mid), denied, b[i], b[0]);
      assert !HasSuffix(q, TempSuffix) && HasSuffix(t, TempSuffix) && HasSuffix(TempName(q), TempSuffix);
      forall x | 1 <= x < |b|
        ensures q != b[x] && q != TempName(b[x]) && TempName(q) != TempName(b[x])
      {
        assert HasSuffix(TempName(b[x]), TempSuffix);
        TempNameInjective(q, b[x]);
      }
      ReplacedAt(b, i, mid, q);
      ReplacedAt(b, i, mid, TempName(q));
    }
  }

  /** Merging one more bucket extends the merged key set by it. */
  lemma MergedOnStep(sums: Buckets, done: set<Digest>, d: Digest,
                     before: map<Path, Inode>, mid: map<Path, Inode>, after: map<Path, Inode>)
    requires MergeReady(sums)
    requires d in sums && d !in done
    requires MergedOn(sums, done, before, mid)
    requires |sums[d]| <= 1 ==> after == mid
    requires |sums[d]| > 1 ==> PartlyMerged(sums[d], |sums[d]|, mid, after)
    ensures MergedOn(sums, done + {d}, before, after)
  {
    var b := sums[d];
    assert after.Keys <= before.Keys;
    forall e, j | e in done + {d} && e in sums && 1 <= j < |sums[e]|
      ensures sums[e][0] in before && sums[e][j] in after && after[sums[e][j]] == before[sums[e][0]]
              && TempName(sums[e][j]) !in after
    {
      if e == d {
        Untouched(sums, done, d, 0);
      } else {
        OtherBucketKept(sums, done, d, before, mid, after, e, j);
      }
    }
    forall p | p in before && !TouchedBy(sums, done + {d}, p)
      ensures p in after && after[p] == before[p]
    {
      assert !TouchedBy(sums, done, p);
      assert !TouchesBelow(b, |b|, p);
    }
  }

  /** A bucket merged in an earlier round stays merged while bucket `d` is. */
  lemma OtherBucketKept(sums: Buckets, done: set<Digest>, d: Digest,
                        before: map<Path, Inode>, mid: map<Path, Inode>, after: map<Path, Inode>, e: Digest, j: int)
    requires MergeReady(sums)
    requires d in sums && d !in done
    requires MergedOn(sums, done, before, mid)
    requires |sums[d]| <= 1 ==> after == mid
    requires |sums[d]| > 1 ==> PartlyMerged(sums[d], |sums[d]|, mid, after)
    requires e in done && e in sums && 1 <= j < |sums[e]|
    ensures sums[e][0] in before && sums[e][j] in after && after[sums[e][j]] == before[sums[e][0]]
            && TempName(sums[e][j]) !in after
  {
    var b := sums[d];
    var p := sums[e][j];
    if |b| > 1 {
      forall x | 1 <= x < |b|
        ensures p != b[x] && p != TempName(b[x])
      {
        assert !HasSuffix(p, TempSuffix);
      }
      assert !TouchesBelow(b, |b|, p);
    }
  }

  /** One round of `dedupe`: bucket `d`, not merged yet, is merged against
      the names as they stood before the first round (`names0`), and what
      the earlier rounds `done` established extends to `done + {d}`; if the
      round fails, it fails as `FailedIn` says, with the earlier rounds'
      merges left in place. */
  method DedupeRound(ti: TreeInfo, fs: FileSystem, d: Digest, ghost done: set<Digest>,
                     ghost names0: map<Path, Inode>, dryrun: bool) returns (r: Result<int>)
    requires fs.Valid()
    requires MergeReady(ti.Sums)
    requires d in ti.Sums && d !in done
    requires dryrun ==> fs.names == names0
    requires !dryrun ==> MergedOn(ti.Sums, done, names0, fs.names)
    modifies ti`DupeCount, fs`names
    ensures fs.Valid()
    ensures r.Ok? <==> BucketMergeable(ti.Sums[d], names0, fs.denied, dryrun)
    ensures r.Ok? ==> r.value == SavingsOf(ti.Sums, names0, fs.data)(d)
    ensures r.Ok? ==> ti.DupeCount == old(ti.DupeCount) + DupesOf(ti.Sums)(d)
    ensures dryrun ==> fs.names == names0
    ensures r.Ok? && !dryrun ==> MergedOn(ti.Sums, done + {d}, names0, fs.names)
    ensures r.Err? && !dryrun ==> FailedIn(ti.Sums, d, done, names0, old(fs.names), fs.denied, fs.names, r.error)
    ensures r.Err? && !dryrun ==> NothingLost(ti.Sums, names0, fs.names)
  {
    var names := ti.Sums[d];
    ghost var mid := fs.names;
    if !dryrun {
      UntouchedBucket(ti.Sums, done, d, names0, mid, fs.data, fs.denied, dryrun);
    }
    assert BucketMergeable(names, mid, fs.denied, dryrun) <==> BucketMergeable(names, names0, fs.denied, dryrun);
    assert BucketSavings(names, mid, fs.data) == BucketSavings(names, names0, fs.data);
    forall i, j | 0 <= i < j < |names|
      ensures names[i] != names[j]
    {
    }
    r := MergeBucket(ti, fs, names, dryrun);
    if r.Ok? && !dryrun {
      MergedOnStep(ti.Sums, done, d, names0, mid, fs.names);
    }
    if r.Err? && !dryrun {
      if names[0] in mid && NoStat(names[0]) !in fs.denied {
        ghost var i :| StoppedAt(names, i, mid, fs.denied, fs.names, r.error);
        FailedRoundKeepsAll(ti.Sums, done, d, names0, mid, fs.denied, fs.names, i, r.error);
      } else {
        MergedKeepsAll(ti.Sums, done, names0, mid);
      }
    }
  }

  /** `dedupe` (main.go:116-148). Buckets are visited in an unspecified
      order, as a map is ranged over. Given buckets as the earlier stages
      leave them, the run fails exactly when a bucket is not mergeable; on
      success it returns the canonical size summed over every replaced path,
      raises the duplicate count by the number of replaced paths, and, in a
      real run, leaves every replaced path naming its canonical file's inode
      with its temporary name gone and every other name as it was. A real
      run that fails stops in one bucket as `FailedIn` says, with every
      bucket merged before it left merged; however a real run ends, every
      bucket path and every name no bucket touches still reaches its file.
      A dry run changes no name. */
  method Dedupe(ti: TreeInfo, fs: FileSystem, dryrun: bool) returns (r: Result<int>)
    requires fs.Valid()
    requires MergeReady(ti.Sums)
    modifies ti`DupeCount, fs`names
    ensures fs.Valid()
    ensures r.Ok? <==> Mergeable(ti.Sums, ti.Sums.Keys, old(fs.names), fs.denied, dryrun)
    ensures r.Ok? ==> r.value == Savings(ti.Sums, old(fs.names), fs.data)
    ensures r.Ok? ==> ti.DupeCount == old(ti.DupeCount) + Dupes(ti.Sums)
    ensures dryrun ==> fs.names == old(fs.names)
    ensures r.Ok? && !dryrun ==> MergedOn(ti.Sums, ti.Sums.Keys, old(fs.names), fs.names)
    ensures r.Err? && !dryrun ==>
              exists d, done, mid :: FailedIn(ti.Sums, d, done, old(fs.names), mid, fs.denied, fs.names, r.error)
    ensures !dryrun ==> NothingLost(ti.Sums, old(fs.names), fs.names)
  {
    var savings := 0;
    var todo := ti.Sums.Keys;
    ghost var done: set<Digest> := {};
    while todo != {}
      invariant todo + done == ti.Sums.Keys && todo !! done
      invariant fs.Valid()
      invariant savings == Sum(done, SavingsOf(ti.Sums, old(fs.names), fs.data))
      invariant ti.DupeCount == old(ti.DupeCount) + Sum(done, DupesOf(ti.Sums))
      invariant Mergeable(ti.Sums, done, old(fs.names), fs.denied, dryrun)
      invariant dryrun ==> fs.names == old(fs.names)
      invariant !dryrun ==> MergedOn(ti.Sums, done, old(fs.names), fs.names)
      decreases todo
    {
      var d :| d in todo;
      ghost var mid := fs.names;
      var b := DedupeRound(ti, fs, d, done, old(fs.names), dryrun);
      if b.Err? {
        assert !dryrun ==> FailedIn(ti.Sums, d, done, old(fs.names), mid, fs.denied, fs.names, b.error);
        return Err(b.error);
      }
      SumInsert(done, d, SavingsOf(ti.Sums, old(fs.names), fs.data));
      SumInsert(done, d, DupesOf(ti.Sums));
      savings := savings + b.value;
      todo := todo - {d};
      done := done + {d};
    }
    assert done == ti.Sums.Keys;
    if !dryrun {
      MergedKeepsAll(ti.Sums, done, old(fs.names), fs.names);
    }
    return Ok(savings);
  }

  /** When every bucket holds at least one path, the duplicate count is the
      number of paths held minus the number of distinct digests. */
  lemma DupesArePopulationLessBuckets(sums: Buckets)
    requires forall d | d in sums :: |sums[d]| > 0
    ensures Dupes(sums) == Population(sums) - |sums.Keys|
  {
    SumLessOne(sums.Keys, LengthOf(sums), DupesOf(sums));
  }

  /** A bucket with at most one path frees nothing and counts no duplicate;
      a map made only of such buckets yields zero savings and zero
      duplicates. */
  lemma NothingToMerge(sums: Buckets, names: map<Path, Inode>, data: map<Inode, Content>)
    requires forall d | d in sums :: |sums[d]| <= 1
    ensures Dupes(sums) == 0 && Savings(sums, names, data) == 0
  {
    SumZero(sums.Keys, DupesOf(sums));
    SumZero(sums.Keys, SavingsOf(sums, names, data));
  }

  /** One bucket frees between nothing and its duplicate count times the
      largest file size. */
  lemma BucketSavingsBounds(b: seq<Path>, names: map<Path, Inode>, data: map<Inode, Content>, maxSize: nat)
    requires forall p | p in names && names[p] in data :: |data[names[p]]| <= maxSize
    ensures 0 <= BucketSavings(b, names, data) <= BucketDupes(b) * maxSize
  {
    if |b| > 1 {
      var k: nat, size: nat := |b| - 1, SizeOf(names, data, b[0]);
      assert size <= maxSize;
      assert k * maxSize - k * size == k * (maxSize - size);
    }
  }

  /** Savings are never negative, and never more than the duplicate count
      times the largest canonical size. */
  lemma SavingsBounds(sums: Buckets, names: map<Path, Inode>, data: map<Inode, Content>, maxSize: nat)
    requires forall p | p in names && names[p] in data :: |data[names[p]]| <= maxSize
    ensures 0 <= Savings(sums, names, data) <= Dupes(sums) * maxSize
  {
    var dupes, savings := DupesOf(sums), SavingsOf(sums, names, data);
    var g: Digest -> int := d => dupes(d) * maxSize - savings(d);
    forall d | d in sums.Keys
      ensures savings(d) >= 0 && g(d) >= 0
    {
      BucketSavingsBounds(sums[d], names, data, maxSize);
    }
    SumNonNegative(sums.Keys, savings);
    SumNonNegative(sums.Keys, g);
    SumScaleDiff(sums.Keys, dupes, savings, g, maxSize);
  }

  /** Every path of bucket `b` has the size of its first path. */
  ghost predicate Uniform(b: seq<Path>, names: map<Path, Inode>, data: map<Inode, Content>) {
    forall j | 0 <= j < |b| :: SizeOf(names, data, b[j]) == SizeOf(names, data, b[0])
  }

  /** Reordering a bucket whose paths all have one size changes neither
      its duplicate count nor its savings, whichever path comes first. */
  lemma BucketOrderFree(b: seq<Path>, c: seq<Path>, names: map<Path, Inode>, data: map<Inode, Content>)
    requires multiset(b) == multiset(c)
    requires Uniform(b, names, data)
    ensures BucketDupes(c) == BucketDupes(b)
    ensures BucketSavings(c, names, data) == BucketSavings(b, names, data)
  {
    assert |b| == |multiset(b)| == |multiset(c)| == |c|;
    if |c| > 1 {
      assert c[0] in multiset(b);
      var k :| 0 <= k < |b| && b[k] == c[0];
    }
  }

  /** The totals do not depend on the order in which the workers appended
      to each bucket, as long as every bucket's paths have one size. */
  lemma TotalsOrderFree(sums: Buckets, other: Buckets, names: map<Path, Inode>, data: map<Inode, Content>)
    requires sums.Keys == other.Keys
    requires forall d | d in sums :: multiset(sums[d]) == multiset(other[d]) && Uniform(sums[d], names, data)
    ensures Dupes(other) == Dupes(sums)
    ensures Savings(other, names, data) == Savings(sums, names, data)
  {
    forall d | d in sums.Keys
      ensures DupesOf(other)(d) == DupesOf(sums)(d)
      ensures SavingsOf(other, names, data)(d) == SavingsOf(sums, names, data)(d)
    {
      BucketOrderFree(sums[d], other[d], names, data);
    }
    SumCongruent(sums.Keys, DupesOf(other), DupesOf(sums));
    SumCongruent(sums.Keys, SavingsOf(other, names, data), SavingsOf(sums, names, data));
  }
}
