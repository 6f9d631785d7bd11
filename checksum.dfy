/** The checksum stage: every queued path is read, its content digested,
    and the path appended to the bucket of that digest (main.go:92-110).
    The workers run concurrently in the program; here the stage is the
    sequential fold over the queue in dispatch order (main.go:181-185). */
module Checksum {
  import opened Files
  import opened Tally

  /** Digest -> paths with that digest, in the order they were recorded. */
  type Buckets = map<Digest, seq<Path>>

  /** `sums[d] = append(sums[d], p)`: a missing key reads as the empty list. */
  function Append(sums: Buckets, d: Digest, p: Path): (r: Buckets)
    ensures r.Keys == sums.Keys + {d}
    ensures d in sums ==> r[d] == sums[d] + [p]
    ensures d !in sums ==> r[d] == [p]
    ensures forall k | k in sums && k != d :: r[k] == sums[k]
  {
    sums[d := (if d in sums then sums[d] else []) + [p]]
  }

  /** The body of the worker loop for one path: a file that cannot be opened
      or read (`content` is None) is dropped. */
  function Record(sums: Buckets, p: Path, content: Option<Content>, hash: Content -> Digest): (r: Buckets)
    ensures content.None? ==> r == sums
    ensures content.Some? ==> hash(content.value) in r && p in r[hash(content.value)]
  {
    match content
    case None => sums
    case Some(c) => Append(sums, hash(c), p)
  }

  /** Every path of `paths`, in order, recorded into `sums`. */
  function Checksummed(sums: Buckets, paths: seq<Path>, read: Path -> Option<Content>, hash: Content -> Digest): (r: Buckets)
    ensures CountReadable(paths, read) == 0 ==> r == sums
    decreases |paths|
  {
    if paths == [] then sums
    else Checksummed(Record(sums, paths[0], read(paths[0]), hash), paths[1..], read, hash)
  }

  predicate Readable(read: Path -> Option<Content>, p: Path) {
    read(p).Some?
  }

  function CountReadable(paths: seq<Path>, read: Path -> Option<Content>): nat {
    if paths == [] then 0 else (if Readable(read, paths[0]) then 1 else 0) + CountReadable(paths[1..], read)
  }

  /** Bucket length, as a function over digests. */
  ghost function LengthOf(sums: Buckets): Digest -> int {
    d => if d in sums then |sums[d]| else 0
  }

  /** Number of paths held by all buckets together. */
  ghost function Population(sums: Buckets): int {
    Sum(sums.Keys, LengthOf(sums))
  }

  /** No path is held twice, in one bucket or across two. */
  ghost predicate Disjoint(sums: Buckets) {
    forall d, e, i, j | d in sums && e in sums && 0 <= i < |sums[d]| && 0 <= j < |sums[e]| && (d != e || i != j) ::
      sums[d][i] != sums[e][j]
  }

  ghost predicate Holds(sums: Buckets, p: Path) {
    exists d | d in sums :: p in sums[d]
  }

  /** Appending adds exactly one path to the population. */
  lemma AppendPopulation(sums: Buckets, d: Digest, p: Path)
    ensures Population(Append(sums, d, p)) == Population(sums) + 1
  {
    var r := Append(sums, d, p);
    var K := sums.Keys;
    if d in sums {
      assert r.Keys == K;
      SumRemove(K, d, LengthOf(r));
      SumCongruent(K - {d}, LengthOf(r), LengthOf(sums));
      SumRemove(K, d, LengthOf(sums));
    } else {
      SumInsert(K, d, LengthOf(r));
      SumCongruent(K, LengthOf(r), LengthOf(sums));
    }
  }

  /** Appending a path that no bucket holds keeps the buckets disjoint. */
  lemma AppendDisjoint(sums: Buckets, d: Digest, p: Path)
    requires Disjoint(sums)
    requires !Holds(sums, p)
    ensures Disjoint(Append(sums, d, p))
  {
    var r := Append(sums, d, p);
    forall a, b, i, j | a in r && b in r && 0 <= i < |r[a]| && 0 <= j < |r[b]| && (a != b || i != j)
      ensures r[a][i] != r[b][j]
    {
      if a == d && i == |r[a]| - 1 {
        if b in sums && j < |sums[b]| {
          assert r[b][j] == sums[b][j];
          assert r[b][j] in sums[b];
        }
      } else if b == d && j == |r[b]| - 1 {
        if a in sums && i < |sums[a]| {
          assert r[a][i] == sums[a][i];
          assert r[a][i] in sums[a];
        }
      } else {
        assert r[a][i] == sums[a][i] && r[b][j] == sums[b][j];
      }
    }
  }

  /** The buckets held before the stage keep their entries, at the front. */
  lemma {:induction false} ChecksummedKeepsPrefix(sums: Buckets, paths: seq<Path>, read: Path -> Option<Content>, hash: Content -> Digest)
    ensures var r := Checksummed(sums, paths, read, hash);
            forall d | d in sums :: d in r && |sums[d]| <= |r[d]| && r[d][..|sums[d]|] == sums[d]
    decreases |paths|
  {
    if paths != [] {
      var p := paths[0];
      var s' := Record(sums, p, read(p), hash);
      ChecksummedKeepsPrefix(s', paths[1..], read, hash);
      var r := Checksummed(s', paths[1..], read, hash);
      forall d | d in sums
        ensures d in r && |sums[d]| <= |r[d]| && r[d][..|sums[d]|] == sums[d]
      {
        assert s'[d][..|sums[d]|] == sums[d];
        assert r[d][..|s'[d]|][..|sums[d]|] == s'[d][..|sums[d]|];
      }
    }
  }

  /** Each path found in a bucket is one held before, or a readable path of
      `paths` whose content has that bucket's digest: unreadable paths add
      nothing and no path lands under a foreign digest. */
  lemma {:induction false} ChecksummedOrigin(sums: Buckets, paths: seq<Path>, read: Path -> Option<Content>, hash: Content -> Digest)
    ensures var r := Checksummed(sums, paths, read, hash);
            forall d, p | d in r && p in r[d] ::
              (d in sums && p in sums[d]) || (p in paths && Readable(read, p) && hash(read(p).value) == d)
    decreases |paths|
  {
    if paths != [] {
      var p := paths[0];
      var s' := Record(sums, p, read(p), hash);
      ChecksummedOrigin(s', paths[1..], read, hash);
      var r := Checksummed(s', paths[1..], read, hash);
      forall d, x | d in r && x in r[d]
        ensures (d in sums && x in sums[d]) || (x in paths && Readable(read, x) && hash(read(x).value) == d)
      {
        if d in s' && x in s'[d] {
          if !(d in sums && x in sums[d]) {
            assert x == p;
          }
        } else {
          assert x in paths[1..];
        }
      }
    }
  }

  /** Every readable path lands in the bucket of its digest. */
  lemma {:induction false} ChecksummedPlaces(sums: Buckets, paths: seq<Path>, read: Path -> Option<Content>, hash: Content -> Digest)
    ensures var r := Checksummed(sums, paths, read, hash);
            forall p | p in paths && Readable(read, p) :: hash(read(p).value) in r && p in r[hash(read(p).value)]
    decreases |paths|
  {
    if paths != [] {
      var p := paths[0];
      var s' := Record(sums, p, read(p), hash);
      ChecksummedPlaces(s', paths[1..], read, hash);
      var r := Checksummed(s', paths[1..], read, hash);
      forall x | x in paths && Readable(read, x)
        ensures hash(read(x).value) in r && x in r[hash(read(x).value)]
      {
        var d := hash(read(x).value);
        if x == p {
          ChecksummedKeepsPrefix(s', paths[1..], read, hash);
          assert s'[d][|s'[d]| - 1] == p;
          assert r[d][|s'[d]| - 1] == p;
        } else {
          assert x in paths[1..];
        }
      }
    }
  }

  /** The stage adds one entry per readable path. */
  lemma {:induction false} ChecksummedPopulation(sums: Buckets, paths: seq<Path>, read: Path -> Option<Content>, hash: Content -> Digest)
    ensures Population(Checksummed(sums, paths, read, hash)) == Population(sums) + CountReadable(paths, read)
    decreases |paths|
  {
    if paths != [] {
      var p := paths[0];
      if Readable(read, p) {
        AppendPopulation(sums, hash(read(p).value), p);
      }
      ChecksummedPopulation(Record(sums, p, read(p), hash), paths[1..], read, hash);
    }
  }

  /** Dispatching each path once, with no path already held, leaves every
      path in at most one bucket, once. */
  lemma {:induction false} ChecksummedDisjoint(sums: Buckets, paths: seq<Path>, read: Path -> Option<Content>, hash: Content -> Digest)
    requires Disjoint(sums)
    requires forall i, j | 0 <= i < j < |paths| :: paths[i] != paths[j]
    requires forall p | p in paths :: !Holds(sums, p)
    ensures Disjoint(Checksummed(sums, paths, read, hash))
    decreases |paths|
  {
    if paths != [] {
      var p := paths[0];
      var s' := Record(sums, p, read(p), hash);
      if Readable(read, p) {
        AppendDisjoint(sums, hash(read(p).value), p);
      }
      forall x | x in paths[1..]
        ensures !Holds(s', x)
      {
        var k :| 0 <= k < |paths[1..]| && paths[1..][k] == x;
        assert paths[k + 1] == x && x != p;
        assert x in paths && !Holds(sums, x);
        forall d | d in s'
          ensures x !in s'[d]
        {
          assert !(d in sums && x in sums[d]);
        }
      }
      ChecksummedDisjoint(s', paths[1..], read, hash);
    }
  }

  /** Buckets are never empty: a key is created together with its first path. */
  lemma {:induction false} ChecksummedNonEmpty(sums: Buckets, paths: seq<Path>, read: Path -> Option<Content>, hash: Content -> Digest)
    requires forall d | d in sums :: |sums[d]| > 0
    ensures var r := Checksummed(sums, paths, read, hash);
            forall d | d in r :: |r[d]| > 0
    decreases |paths|
  {
    if paths != [] {
      var s' := Record(sums, paths[0], read(paths[0]), hash);
      assert Checksummed(sums, paths, read, hash) == Checksummed(s', paths[1..], read, hash);
      ChecksummedNonEmpty(s', paths[1..], read, hash);
    }
  }

  /** Recording one more path after a fold is the fold over the longer list;
      this is how the dispatch loop, which sends one path at a time, builds
      the same buckets. */
  lemma {:induction false} ChecksummedSnoc(sums: Buckets, paths: seq<Path>, p: Path,
                                           read: Path -> Option<Content>, hash: Content -> Digest)
    ensures Checksummed(sums, paths + [p], read, hash) == Record(Checksummed(sums, paths, read, hash), p, read(p), hash)
    decreases |paths|
  {
    if paths != [] {
      assert (paths + [p])[1..] == paths[1..] + [p];
      ChecksummedSnoc(Record(sums, paths[0], read(paths[0]), hash), paths[1..], p, read, hash);
    }
  }
}
