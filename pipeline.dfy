/** The three stages as `main` sequences them (main.go:156-187): walk the
    tree through `process`, send every queued path once to the checksum
    workers, then merge. */
module Pipeline {
  import opened Files
  import opened Inventory
  import opened Checksum
  import opened TreeState
  import opened Merge

  /** `filepath.Walk(root, ti.process)` (main.go:166): `process` on each
      entry in walk order, stopping at the first error. */
  method WalkTree(ti: TreeInfo, visits: seq<Visit>) returns (e: Outcome)
    requires ti.Valid()
    modifies ti`FileCount, ti`Inodes, ti`pathlist, ti`queued
    ensures ti.Valid()
    ensures Walk(old(ti.Scanned()), visits).Ok? ==> e.Pass? && ti.Scanned() == Walk(old(ti.Scanned()), visits).value
    ensures Walk(old(ti.Scanned()), visits).Err? ==> e == Fail(Walk(old(ti.Scanned()), visits).error)
  {
    var i := 0;
    while i < |visits|
      invariant 0 <= i <= |visits|
      invariant ti.Valid()
      invariant Walk(old(ti.Scanned()), visits) == Walk(ti.Scanned(), visits[i..])
    {
      assert visits[i..][0] == visits[i] && visits[i..][1..] == visits[i + 1..];
      e := ti.Process(visits[i]);
      if e.Fail? {
        return;
      }
      i := i + 1;
    }
    assert visits[i..] == [];
    e := Pass;
  }

  /** The dispatch loop (main.go:181-185) together with the workers'
      appends: each queued path is checksummed exactly once, in queue order. */
  method ChecksumAll(ti: TreeInfo, read: Path -> Option<Content>, hash: Content -> Digest)
    modifies ti`Sums
    ensures ti.Sums == Checksummed(old(ti.Sums), ti.pathlist, read, hash)
  {
    var i := 0;
    while i < |ti.pathlist|
      invariant 0 <= i <= |ti.pathlist|
      invariant ti.Sums == Checksummed(old(ti.Sums), ti.pathlist[..i], read, hash)
    {
      ChecksummedSnoc(old(ti.Sums), ti.pathlist[..i], ti.pathlist[i], read, hash);
      assert ti.pathlist[..i + 1] == ti.pathlist[..i] + [ti.pathlist[i]];
      ti.ChecksumFile(ti.pathlist[i], read, hash);
      i := i + 1;
    }
    assert ti.pathlist[..i] == ti.pathlist;
  }

  /** The buckets built from a successful, consistent walk are ready to
      merge: no path is held twice and none carries the temporary suffix. */
  lemma PipelineReady(vs: seq<Visit>, read: Path -> Option<Content>, hash: Content -> Digest)
    requires Consistent(vs)
    requires Walk(Start, vs).Ok?
    ensures MergeReady(Checksummed(map[], Paths(Walk(Start, vs).value.queue), read, hash))
  {
    var q := Walk(Start, vs).value.queue;
    var ps := Paths(q);
    var r := Checksummed(map[], ps, read, hash);
    StartWellFormed();
    WalkKeepsWellFormed(Start, vs);
    QueuedPathsDistinct(vs);
    ChecksummedDisjoint(map[], ps, read, hash);
    ChecksummedOrigin(map[], ps, read, hash);
    forall d, i | d in r && 0 <= i < |r[d]|
      ensures !HasSuffix(r[d][i], TempSuffix)
    {
      assert r[d][i] in r[d];
      assert r[d][i] in ps;
      var k :| 0 <= k < |ps| && ps[k] == r[d][i];
      assert q[k] in q;
    }
  }

  /** Hashing the paths `ps` into empty buckets yields as many duplicates
      as readable paths beyond the first of each digest. */
  lemma PipelineDupes(ps: seq<Path>, read: Path -> Option<Content>, hash: Content -> Digest)
    ensures Dupes(Checksummed(map[], ps, read, hash))
            == CountReadable(ps, read) - |Checksummed(map[], ps, read, hash).Keys|
  {
    var none: Buckets := map[];
    assert none.Keys == {};
    var sums := Checksummed(none, ps, read, hash);
    ChecksummedNonEmpty(none, ps, read, hash);
    ChecksummedPopulation(none, ps, read, hash);
    DupesArePopulationLessBuckets(sums);
  }

  /** A whole run over the walk `visits`, with `read` standing for reading
      a file and `hash` for its digest. A walk that meets an error or a
      leftover temporary file stops the run before any hashing or merging.
      Otherwise the inventory is the walk's, the buckets are the queued
      paths checksummed in order, the duplicate count is the number of
      readable queued paths less the number of distinct digests, and the
      merge behaves as `Dedupe` promises. The walk, the reads and the
      filesystem are independent inputs: nothing ties `visits` or `read` to
      `fs.names` and `fs.data`. */
  method Run(visits: seq<Visit>, read: Path -> Option<Content>, hash: Content -> Digest,
             fs: FileSystem, dryrun: bool) returns (r: Result<int>, ti: TreeInfo)
    requires fs.Valid()
    requires Consistent(visits)
    modifies fs`names
    ensures fresh(ti) && ti.Valid() && fs.Valid()
    ensures Walk(Start, visits).Err? ==>
              && r == Err(Walk(Start, visits).error) && fs.names == old(fs.names)
              && ti.Sums == map[] && ti.DupeCount == 0
    ensures Walk(Start, visits).Ok? ==>
              var scan := Walk(Start, visits).value;
              var sums := Checksummed(map[], Paths(scan.queue), read, hash);
              && ti.Scanned() == scan
              && ti.Sums == sums
              && (r.Ok? <==> Mergeable(sums, sums.Keys, old(fs.names), fs.denied, dryrun))
              && (r.Ok? ==> r.value == Savings(sums, old(fs.names), fs.data))
              && (r.Ok? ==> ti.DupeCount == Dupes(sums) == CountReadable(ti.pathlist, read) - |sums.Keys|)
              && (dryrun ==> fs.names == old(fs.names))
              && (r.Ok? && !dryrun ==> MergedOn(sums, sums.Keys, old(fs.names), fs.names))
              && (r.Err? && !dryrun ==>
                    exists d, done, mid :: FailedIn(sums, d, done, old(fs.names), mid, fs.denied, fs.names, r.error))
              && (!dryrun ==> NothingLost(sums, old(fs.names), fs.names))
  {
    ti := new TreeInfo();
    var e := WalkTree(ti, visits);
    if e.Fail? {
      r := Err(e.error);
      return;
    }
    ghost var scan := ti.Scanned();
    assert ti.pathlist == Paths(scan.queue);
    ChecksumAll(ti, read, hash);
    PipelineReady(visits, read, hash);
    PipelineDupes(ti.pathlist, read, hash);
    r := Dedupe(ti, fs, dryrun);
  }
}
