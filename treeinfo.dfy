/** The run state `treeinfo` (main.go:29-45) and its two methods that change
    it in place: `process`, the walk callback (main.go:47-73), and
    `checksum`, whose per-path body appends to a digest bucket
    (main.go:92-110). */
module TreeState {
  import opened Files
  import opened Inventory
  import opened Checksum

  /** Pairs each queued path with the inode it was queued under. */
  function Zip(ps: seq<Path>, inos: seq<Inode>): (q: seq<Candidate>)
    requires |ps| == |inos|
    ensures |q| == |ps|
    ensures forall k | 0 <= k < |q| :: q[k] == Candidate(ps[k], inos[k])
    ensures Paths(q) == ps
  {
    if ps == [] then [] else [Candidate(ps[0], inos[0])] + Zip(ps[1..], inos[1..])
  }

  lemma ZipSnoc(ps: seq<Path>, inos: seq<Inode>, p: Path, ino: Inode)
    requires |ps| == |inos|
    ensures Zip(ps + [p], inos + [ino]) == Zip(ps, inos) + [Candidate(p, ino)]
  {
    var a, b := Zip(ps + [p], inos + [ino]), Zip(ps, inos) + [Candidate(p, ino)];
    assert |a| == |b|;
    forall k | 0 <= k < |a|
      ensures a[k] == b[k]
    {
    }
  }

  class TreeInfo {
    var Sums: Buckets
    var Inodes: set<Inode>
    var DupeCount: nat
    var FileCount: nat
    /** The paths queued for checksumming; a package-level slice in the
        program, kept with the rest of the run state here. */
    var pathlist: seq<Path>
    /** The inode each entry of `pathlist` had when it was queued. */
    ghost var queued: seq<Inode>

    /** The inventory held by this state, as a value. */
    ghost function Scanned(): Scan
      reads this
      requires |queued| == |pathlist|
    {
      Scan(FileCount, Inodes, Zip(pathlist, queued))
    }

    ghost predicate Valid()
      reads this
    {
      |queued| == |pathlist| && WellFormed(Scanned())
    }

    /** NewTI: empty buckets and inode set, zero counters, nothing queued. */
    constructor ()
      ensures Valid()
      ensures Sums == map[] && Inodes == {} && DupeCount == 0 && FileCount == 0 && pathlist == []
      ensures Scanned() == Start
    {
      Sums := map[];
      Inodes := {};
      DupeCount := 0;
      FileCount := 0;
      pathlist := [];
      queued := [];
    }

    /** The walk callback. A walk error is passed back and a leftover
        temporary file is fatal, both before anything changes; any other
        regular file is counted, and queued only if its inode is new. */
    method Process(v: Visit) returns (r: Outcome)
      requires Valid()
      modifies this`FileCount, this`Inodes, this`pathlist, this`queued
      ensures Valid()
      ensures Step(old(Scanned()), v).Ok? ==> r.Pass? && Scanned() == Step(old(Scanned()), v).value
      ensures Step(old(Scanned()), v).Err? ==>
                r == Fail(Step(old(Scanned()), v).error)
                && FileCount == old(FileCount) && Inodes == old(Inodes) && pathlist == old(pathlist)
    {
      ghost var s0 := Scanned();
      match v
      case VisitError(p, why) =>
        return Fail(WalkFailed(p, why));
      case Visit(p, info) =>
        if !info.regular {
          return Pass;
        }
        if HasSuffix(p, TempSuffix) {
          return Fail(LeftoverTemp(p));
        }
        FileCount := FileCount + 1;
        if info.ino in Inodes {
          return Pass;
        }
        ZipSnoc(pathlist, queued, p, info.ino);
        Inodes := Inodes + {info.ino};
        pathlist := pathlist + [p];
        queued := queued + [info.ino];
        assert Scanned() == Step(s0, v).value;
        StepKeepsWellFormed(s0, v);
        return Pass;
    }

    /** One path taken from the work queue: read it, digest it, and append
        it to the bucket of its digest. `read` stands for opening and reading
        the file (None when either fails) and `hash` for the digest. */
    method ChecksumFile(path: Path, read: Path -> Option<Content>, hash: Content -> Digest)
      modifies this`Sums
      ensures Sums == Record(old(Sums), path, read(path), hash)
    {
      var content := read(path);
      if content.None? {
        return;
      }
      var s := hash(content.value);
      Sums := Sums[s := (if s in Sums then Sums[s] else []) + [path]];
    }
  }
}
