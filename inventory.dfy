/** The inventory stage: the directory walk calls `process` once per entry
    (main.go:47-73). This module states what one call does to the run's
    inventory, as a value, and what a whole walk builds. The class in
    treeinfo.dfy performs the same steps in place. */
module Inventory {
  import opened Files

  /** What the walk reports about an entry: whether it is a regular file,
      and its inode number. */
  datatype FileInfo = FileInfo(regular: bool, ino: Inode)

  /** One call of the walk callback: an entry, or the error the walk met
      at `path`. */
  datatype Visit =
    | Visit(path: Path, info: FileInfo)
    | VisitError(path: Path, reason: string)

  /** A queued path together with the inode it had when it was queued. */
  datatype Candidate = Candidate(path: Path, ino: Inode)

  /** The inventory part of the run state: regular files seen, inodes seen,
      and the paths queued for checksumming. */
  datatype Scan = Scan(fileCount: nat, inodes: set<Inode>, queue: seq<Candidate>)

  /** The state of a fresh run. */
  const Start: Scan := Scan(0, {}, [])

  function Paths(q: seq<Candidate>): (ps: seq<Path>)
    ensures |ps| == |q|
    ensures forall k | 0 <= k < |q| :: ps[k] == q[k].path
  {
    if q == [] then [] else [q[0].path] + Paths(q[1..])
  }

  /** The entries that end the walk: an error passed in by the walk, and a
      regular file left behind by an interrupted merge. */
  predicate Fatal(v: Visit) {
    v.VisitError? || (v.info.regular && HasSuffix(v.path, TempSuffix))
  }

  predicate IsRegular(v: Visit) {
    v.Visit? && v.info.regular
  }

  /** One call of `process`. */
  function Step(s: Scan, v: Visit): (r: Result<Scan>)
    ensures r.Err? <==> Fatal(v)
    ensures v.VisitError? ==> r == Err(WalkFailed(v.path, v.reason))
    ensures r.Err? && v.Visit? ==> r.error == LeftoverTemp(v.path)
    ensures r.Ok? && !IsRegular(v) ==> r.value == s
    ensures r.Ok? && IsRegular(v) ==>
              && r.value.fileCount == s.fileCount + 1
              && r.value.inodes == s.inodes + {v.info.ino}
              && r.value.queue == s.queue + (if v.info.ino in s.inodes then [] else [Candidate(v.path, v.info.ino)])
  {
    match v
    case VisitError(p, why) => Err(WalkFailed(p, why))
    case Visit(p, info) =>
      if !info.regular then Ok(s)
      else if HasSuffix(p, TempSuffix) then Err(LeftoverTemp(p))
      else if info.ino in s.inodes then Ok(s.(fileCount := s.fileCount + 1))
      else Ok(Scan(s.fileCount + 1, s.inodes + {info.ino}, s.queue + [Candidate(p, info.ino)]))
  }

  /** A walk: `process` on each visit in turn, stopping at the first error. */
  function Walk(s: Scan, vs: seq<Visit>): (r: Result<Scan>)
    ensures r.Ok? ==> s.fileCount <= r.value.fileCount && s.inodes <= r.value.inodes
    ensures r.Ok? && CountRegular(vs) == 0 ==> r.value == s
    decreases |vs|
  {
    if vs == [] then Ok(s)
    else match Step(s, vs[0])
      case Err(e) => Err(e)
      case Ok(s') => Walk(s', vs[1..])
  }

  function CountRegular(vs: seq<Visit>): nat {
    if vs == [] then 0 else (if IsRegular(vs[0]) then 1 else 0) + CountRegular(vs[1..])
  }

  /** The invariant of the inventory: no two queued paths share an inode,
      the inode set is exactly the queued inodes, no queued path carries the
      temporary suffix, and the queue is no longer than the count of regular
      files. */
  ghost predicate WellFormed(s: Scan) {
    && |s.queue| <= s.fileCount
    && (forall i, j | 0 <= i < j < |s.queue| :: s.queue[i].ino != s.queue[j].ino)
    && s.inodes == (set c | c in s.queue :: c.ino)
    && (forall c | c in s.queue :: !HasSuffix(c.path, TempSuffix))
  }

  lemma StartWellFormed()
    ensures WellFormed(Start)
  {
  }

  lemma StepKeepsWellFormed(s: Scan, v: Visit)
    requires WellFormed(s)
    requires Step(s, v).Ok?
    ensures WellFormed(Step(s, v).value)
  {
    var t := Step(s, v).value;
    if IsRegular(v) && v.info.ino !in s.inodes {
      var c := Candidate(v.path, v.info.ino);
      assert t.queue == s.queue + [c];
      assert (set x | x in s.queue + [c] :: x.ino) == (set x | x in s.queue :: x.ino) + {c.ino};
      forall i | 0 <= i < |s.queue|
        ensures t.queue[i].ino != c.ino
      {
        assert s.queue[i] in s.queue;
      }
    }
  }

  /** Over any walk from a well-formed state the invariant holds; in
      particular the queue never exceeds the regular-file count and never
      holds two paths with the same inode. */
  lemma {:induction false} WalkKeepsWellFormed(s: Scan, vs: seq<Visit>)
    requires WellFormed(s)
    requires Walk(s, vs).Ok?
    ensures WellFormed(Walk(s, vs).value)
    decreases |vs|
  {
    if vs != [] {
      StepKeepsWellFormed(s, vs[0]);
      WalkKeepsWellFormed(Step(s, vs[0]).value, vs[1..]);
    }
  }

  /** A walk fails exactly when it meets a fatal entry. */
  lemma {:induction false} WalkFailsIff(s: Scan, vs: seq<Visit>)
    ensures Walk(s, vs).Err? <==> exists i | 0 <= i < |vs| :: Fatal(vs[i])
    decreases |vs|
  {
    if vs != [] {
      WalkFailsIff(if Step(s, vs[0]).Ok? then Step(s, vs[0]).value else s, vs[1..]);
      if exists i | 0 <= i < |vs[1..]| :: Fatal(vs[1..][i]) {
        var i :| 0 <= i < |vs[1..]| && Fatal(vs[1..][i]);
        assert Fatal(vs[i + 1]);
      }
      if exists i | 0 <= i < |vs| :: Fatal(vs[i]) {
        var i :| 0 <= i < |vs| && Fatal(vs[i]);
        if i > 0 {
          assert Fatal(vs[1..][i - 1]);
        }
      }
    }
  }

  /** Every regular entry of a successful walk is counted, queued or not. */
  lemma {:induction false} WalkCountsRegular(s: Scan, vs: seq<Visit>)
    requires Walk(s, vs).Ok?
    ensures Walk(s, vs).value.fileCount == s.fileCount + CountRegular(vs)
    decreases |vs|
  {
    if vs != [] {
      WalkCountsRegular(Step(s, vs[0]).value, vs[1..]);
    }
  }

  /** After a successful walk the inode set holds the inode of every regular
      entry, and nothing else was added. */
  lemma {:induction false} WalkRecordsInodes(s: Scan, vs: seq<Visit>)
    requires Walk(s, vs).Ok?
    ensures Walk(s, vs).value.inodes ==
              s.inodes + (set i | 0 <= i < |vs| && IsRegular(vs[i]) :: vs[i].info.ino)
    decreases |vs|
  {
    if vs != [] {
      var s' := Step(s, vs[0]).value;
      WalkRecordsInodes(s', vs[1..]);
      var rest := set i | 0 <= i < |vs[1..]| && IsRegular(vs[1..][i]) :: vs[1..][i].info.ino;
      var all := set i | 0 <= i < |vs| && IsRegular(vs[i]) :: vs[i].info.ino;
      assert all == (if IsRegular(vs[0]) then {vs[0].info.ino} else {}) + rest by {
        forall x | x in all
          ensures x in (if IsRegular(vs[0]) then {vs[0].info.ino} else {}) + rest
        {
          var i :| 0 <= i < |vs| && IsRegular(vs[i]) && vs[i].info.ino == x;
          if i > 0 {
            assert vs[1..][i - 1] == vs[i];
          }
        }
        forall x | x in rest
          ensures x in all
        {
          var i :| 0 <= i < |vs[1..]| && IsRegular(vs[1..][i]) && vs[1..][i].info.ino == x;
          assert vs[i + 1] == vs[1..][i];
        }
      }
    }
  }

  /** A walk only appends to the queue, and each path it appends comes from a
      regular entry of the walk, queued with that entry's inode. */
  lemma {:induction false} WalkQueueOrigin(s: Scan, vs: seq<Visit>)
    requires Walk(s, vs).Ok?
    ensures var q := Walk(s, vs).value.queue;
            && |s.queue| <= |q| && q[..|s.queue|] == s.queue
            && forall k | |s.queue| <= k < |q| ::
                 exists i | 0 <= i < |vs| :: vs[i] == Visit(q[k].path, FileInfo(true, q[k].ino))
    decreases |vs|
  {
    if vs != [] {
      var s' := Step(s, vs[0]).value;
      WalkQueueOrigin(s', vs[1..]);
      var q := Walk(s, vs).value.queue;
      assert q[..|s.queue|] == s.queue by {
        assert q[..|s'.queue|][..|s.queue|] == s'.queue[..|s.queue|];
      }
      forall k | |s.queue| <= k < |q|
        ensures exists i | 0 <= i < |vs| :: vs[i] == Visit(q[k].path, FileInfo(true, q[k].ino))
      {
        if k < |s'.queue| {
          assert s'.queue[k] == q[k];
          assert vs[0] == Visit(q[k].path, FileInfo(true, q[k].ino));
        } else {
          var i :| 0 <= i < |vs[1..]| && vs[1..][i] == Visit(q[k].path, FileInfo(true, q[k].ino));
          assert vs[i + 1] == vs[1..][i];
        }
      }
    }
  }

  /** A walk is consistent when an entry reported twice reports the same
      inode, as a single snapshot of the tree does. */
  ghost predicate Consistent(vs: seq<Visit>) {
    forall i, j | 0 <= i < |vs| && 0 <= j < |vs| && vs[i].Visit? && vs[j].Visit? && vs[i].path == vs[j].path ::
      vs[i].info.ino == vs[j].info.ino
  }

  /** In a consistent walk from the start, the queued paths are pairwise
      distinct: distinct inodes imply distinct paths. */
  lemma QueuedPathsDistinct(vs: seq<Visit>)
    requires Consistent(vs)
    requires Walk(Start, vs).Ok?
    ensures var q := Walk(Start, vs).value.queue;
            forall i, j | 0 <= i < j < |q| :: q[i].path != q[j].path
  {
    var q := Walk(Start, vs).value.queue;
    StartWellFormed();
    WalkKeepsWellFormed(Start, vs);
    WalkQueueOrigin(Start, vs);
    forall i, j | 0 <= i < j < |q|
      ensures q[i].path != q[j].path
    {
      var a :| 0 <= a < |vs| && vs[a] == Visit(q[i].path, FileInfo(true, q[i].ino));
      var b :| 0 <= b < |vs| && vs[b] == Visit(q[j].path, FileInfo(true, q[j].ino));
      assert q[i].ino != q[j].ino;
    }
  }
}
