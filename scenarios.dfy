/** Small concrete trees, worked through the model: a hardlinked pair, a
    leftover temporary file, and two equal files beside a distinct one. */
module Scenarios {
  import opened Files
  import opened Tally
  import opened Inventory
  import opened Checksum
  import opened Merge
  import opened TreeState
  import opened Pipeline

  /** `d` and `e` are one inode, `f` another with the same content: only one
      of the pair is queued, both are counted. */
  lemma HardlinkedPairQueuedOnce()
    ensures Walk(Start, [Visit("d", FileInfo(true, 7)), Visit("e", FileInfo(true, 7)), Visit("f", FileInfo(true, 8))])
            == Ok(Scan(3, {7, 8}, [Candidate("d", 7), Candidate("f", 8)]))
  {
    var d, e, f := Visit("d", FileInfo(true, 7)), Visit("e", FileInfo(true, 7)), Visit("f", FileInfo(true, 8));
    assert !HasSuffix("d", TempSuffix) && !HasSuffix("e", TempSuffix) && !HasSuffix("f", TempSuffix);
    var s1 := Step(Start, d).value;
    assert s1.fileCount == 1 && s1.inodes == {7} && s1.queue == [Candidate("d", 7)];
    var s2 := Step(s1, e).value;
    assert s2.fileCount == 2 && s2.inodes == {7} && s2.queue == [Candidate("d", 7)];
    var s3 := Step(s2, f).value;
    assert s3.fileCount == 3 && s3.inodes == {7, 8} && s3.queue == [Candidate("d", 7), Candidate("f", 8)];
    assert Walk(s2, [f]) == Ok(s3);
    assert [d, e, f][1..] == [e, f] && [e, f][1..] == [f];
  }

  /** A leftover `x.tmpdedupe` ends the walk with a fatal error, whatever
      comes before it. */
  lemma LeftoverStopsWalk(before: seq<Visit>)
    requires forall i | 0 <= i < |before| :: !Fatal(before[i])
    ensures Walk(Start, before + [Visit("x.tmpdedupe", FileInfo(true, 3))]).Err?
  {
    var vs := before + [Visit("x.tmpdedupe", FileInfo(true, 3))];
    assert HasSuffix("x.tmpdedupe", TempSuffix);
    assert Fatal(vs[|before|]);
    WalkFailsIff(Start, vs);
  }

  /** Reading `a` and `b` gives one content and `c` another, which hash
      to different digests. */
  ghost predicate ReadsABC(read: Path -> Option<Content>, hash: Content -> Digest) {
    && read("a").Some? && read("b") == read("a") && read("c").Some?
    && hash(read("a").value) != hash(read("c").value)
  }

  /** For `a` and `b` holding one content and `c` another: one bucket of
      two paths and one of one. */
  lemma TwoEqualOneDistinctBuckets(read: Path -> Option<Content>, hash: Content -> Digest)
    requires ReadsABC(read, hash)
    ensures var hx, hy := hash(read("a").value), hash(read("c").value);
            Checksummed(map[], ["a", "b", "c"], read, hash) == map[hx := ["a", "b"], hy := ["c"]]
  {
    var hx, hy := hash(read("a").value), hash(read("c").value);
    var sums := map[hx := ["a", "b"], hy := ["c"]];
    var s1 := map[hx := ["a"]];
    var s2 := map[hx := ["a", "b"]];
    assert Record(map[], "a", read("a"), hash) == s1;
    assert ["a"] + ["b"] == ["a", "b"];
    assert Record(s1, "b", read("b"), hash) == s2;
    assert Record(s2, "c", read("c"), hash) == sums;
    assert Checksummed(s2, ["c"], read, hash) == sums;
    assert ["a", "b", "c"][1..] == ["b", "c"] && ["b", "c"][1..] == ["c"];
  }

  const VisitsABC: seq<Visit> := [Visit("a", FileInfo(true, 1)), Visit("b", FileInfo(true, 2)), Visit("c", FileInfo(true, 3))]

  /** Walking `a`, `b`, `c` (three inodes) queues all three. */
  lemma WalkABC()
    ensures Consistent(VisitsABC)
    ensures Walk(Start, VisitsABC) == Ok(Scan(3, {1, 2, 3}, [Candidate("a", 1), Candidate("b", 2), Candidate("c", 3)]))
    ensures Paths(Walk(Start, VisitsABC).value.queue) == ["a", "b", "c"]
  {
    var a, b, c := VisitsABC[0], VisitsABC[1], VisitsABC[2];
    assert !HasSuffix("a", TempSuffix) && !HasSuffix("b", TempSuffix) && !HasSuffix("c", TempSuffix);
    var s1 := Step(Start, a).value;
    assert s1.queue == [Candidate("a", 1)];
    var s2 := Step(s1, b).value;
    assert s2.queue == [Candidate("a", 1), Candidate("b", 2)];
    var s3 := Step(s2, c).value;
    assert s3.queue == [Candidate("a", 1), Candidate("b", 2), Candidate("c", 3)];
    assert s3.inodes == {1, 2, 3};
    assert Walk(s2, [c]) == Ok(s3);
    assert VisitsABC[1..] == [b, c] && [b, c][1..] == [c];
    assert Paths(s3.queue) == ["a", "b", "c"];
  }

  /** The buckets of that tree: `a` and `b` under one digest, in either
      order, `c` under another. */
  function SumsABC(hx: Digest, hy: Digest, pair: seq<Path>): Buckets {
    map[hx := pair, hy := ["c"]]
  }

  /** Merging those buckets counts one duplicate and saves the size of
      `a`, whichever of `a` and `b` the workers appended first, as long as
      `a` and `b` have one size. */
  lemma TwoEqualOneDistinctTotals(hx: Digest, hy: Digest, pair: seq<Path>,
                                  names: map<Path, Inode>, data: map<Inode, Content>)
    requires hx != hy
    requires pair == ["a", "b"] || pair == ["b", "a"]
    requires SizeOf(names, data, "a") == SizeOf(names, data, "b")
    ensures Dupes(SumsABC(hx, hy, pair)) == 1
    ensures Savings(SumsABC(hx, hy, pair), names, data) == SizeOf(names, data, "a")
  {
    var sums := SumsABC(hx, hy, pair);
    assert sums.Keys == {hx, hy};
    assert sums.Keys - {hx} == {hy};
    SumRemove(sums.Keys, hx, DupesOf(sums));
    SumRemove(sums.Keys, hx, SavingsOf(sums, names, data));
    SumRemove({hy}, hy, DupesOf(sums));
    SumRemove({hy}, hy, SavingsOf(sums, names, data));
    assert {hy} - {hy} == {};
  }

  /** Both buckets of that tree can be merged once `a`, `b` and `c` exist
      and no call is refused, unless `b.tmpdedupe` already names the inode
      of `b`. */
  lemma MergeableABC(hx: Digest, hy: Digest, names: map<Path, Inode>)
    requires "a" in names && "b" in names && "c" in names
    requires "b.tmpdedupe" in names ==> names["b.tmpdedupe"] != names["b"]
    ensures var sums := SumsABC(hx, hy, ["a", "b"]); Mergeable(sums, sums.Keys, names, {}, false)
  {
    var sums := SumsABC(hx, hy, ["a", "b"]);
    assert TempName("b") == "b.tmpdedupe";
    assert Replaceable(names, {}, "b");
    forall d | d in sums.Keys && d in sums
      ensures BucketMergeable(sums[d], names, {}, false)
    {
      assert d == hx || d == hy;
    }
  }

  /** Once both buckets are merged, `a` and `b` name the inode of whichever
      of the two came first in its bucket, and `c` is as it was. */
  lemma MergedABC(hx: Digest, hy: Digest, pair: seq<Path>, before: map<Path, Inode>, after: map<Path, Inode>)
    requires hx != hy
    requires pair == ["a", "b"] || pair == ["b", "a"]
    requires MergedOn(SumsABC(hx, hy, pair), SumsABC(hx, hy, pair).Keys, before, after)
    requires "a" in before && "b" in before && "c" in before
    ensures "a" in after && "b" in after && "c" in after
    ensures after["a"] == after["b"] == before[pair[0]] && after["c"] == before["c"]
  {
    var sums := SumsABC(hx, hy, pair);
    forall p | p == pair[0] || p == "c"
      ensures !TouchedBy(sums, sums.Keys, p)
    {
      forall d | d in sums
        ensures !TouchesBelow(sums[d], |sums[d]|, p)
      {
        assert |TempName(sums[d][|sums[d]| - 1])| > 1;
      }
    }
    assert sums[hx] == pair && sums[hx][1] in after && after[sums[hx][1]] == before[pair[0]];
  }

  /** `d` and `e` are hardlinked (inode 7), `f` is a copy (inode 8), and
      only `d` and `f` were queued. Merged with `d` first, all three name
      inode 7; with `f` first, `d` joins `f` on inode 8 while `e` keeps
      inode 7, so the pair and the copy still use two inodes. */
  lemma HardlinkedPairMerged(pair: seq<Path>, after: map<Path, Inode>)
    requires pair == ["d", "f"] || pair == ["f", "d"]
    requires MergedOn(map["h" := pair], {"h"}, map["d" := 7, "e" := 7, "f" := 8], after)
    ensures after.Keys == {"d", "e", "f"}
    ensures pair == ["d", "f"] ==> after["d"] == 7 && after["e"] == 7 && after["f"] == 7
    ensures pair == ["f", "d"] ==> after["d"] == 8 && after["e"] == 7 && after["f"] == 8
  {
    var sums := map["h" := pair];
    assert |TempName(pair[1])| == 11;
    forall p | p == pair[0] || p == "e"
      ensures !TouchedBy(sums, {"h"}, p)
    {
      assert !TouchesBelow(sums["h"], 2, p);
    }
    assert pair[0] in after && pair[1] in after && "e" in after;
  }

  /** The rename is a no-op when `b.tmpdedupe` already names the inode of
      `b`; the link then finds `b` taken, and the run stops with nothing
      changed. */
  lemma SameInodeTempStops()
    ensures var names := map["a" := 1, "b" := 2, "b.tmpdedupe" := 2];
            Swap(names, {}, "b", "a") == Effect(Fail(LinkFailed("a", "b")), names)
  {
    assert TempName("b") == "b.tmpdedupe";
  }

  /** A refused link (say, across filesystems) leaves `b`'s file under its
      temporary name. */
  lemma RefusedLinkLeavesTemp()
    ensures Swap(map["a" := 1, "b" := 2], {NoLink("b")}, "b", "a")
            == Effect(Fail(LinkFailed("a", "b")), map["a" := 1, "b.tmpdedupe" := 2])
  {
    assert TempName("b") == "b.tmpdedupe";
    assert (map["a" := 1, "b" := 2] - {"b"})["b.tmpdedupe" := 2] == map["a" := 1, "b.tmpdedupe" := 2];
  }

  /** A `b.tmpdedupe` that is there before the merge and is no regular
      file (a symlink, which the walk skips) is replaced by the rename of
      `b`: the merge succeeds, and afterwards no name refers to inode 3. */
  lemma PriorTempOverwritten()
    ensures Swap(map["a" := 1, "b" := 2, "b.tmpdedupe" := 3], {}, "b", "a")
            == Effect(Pass, map["a" := 1, "b" := 1])
  {
    assert TempName("b") == "b.tmpdedupe";
    var moved := map["a" := 1, "b.tmpdedupe" := 2];
    assert (map["a" := 1, "b" := 2, "b.tmpdedupe" := 3] - {"b"})["b.tmpdedupe" := 2] == moved;
    assert moved["b" := 1] - {"b.tmpdedupe"} == map["a" := 1, "b" := 1];
  }

  /** What the contract of `Run` gives for that tree: the run succeeds,
      reports one duplicate and the size of `a` as savings, and leaves `a`
      and `b` naming one inode. */
  lemma RunABC(read: Path -> Option<Content>, hash: Content -> Digest, r: Result<int>, sums: Buckets,
               dupes: nat, before: map<Path, Inode>, after: map<Path, Inode>, data: map<Inode, Content>)
    requires ReadsABC(read, hash)
    requires "a" in before && "b" in before && "c" in before
    requires SizeOf(before, data, "a") == SizeOf(before, data, "b")
    requires "b.tmpdedupe" in before ==> before["b.tmpdedupe"] != before["b"]
    requires Walk(Start, VisitsABC).Ok? ==>
               var scan := Walk(Start, VisitsABC).value;
               var sums' := Checksummed(map[], Paths(scan.queue), read, hash);
               && sums == sums'
               && (r.Ok? <==> Mergeable(sums', sums'.Keys, before, {}, false))
               && (r.Ok? ==> r.value == Savings(sums', before, data))
               && (r.Ok? ==> dupes == Dupes(sums'))
               && (r.Ok? ==> MergedOn(sums', sums'.Keys, before, after))
    ensures r == Ok(SizeOf(before, data, "a")) && dupes == 1
    ensures "a" in after && "b" in after && after["a"] == after["b"]
  {
    var hx, hy := hash(read("a").value), hash(read("c").value);
    WalkABC();
    TwoEqualOneDistinctBuckets(read, hash);
    assert sums == SumsABC(hx, hy, ["a", "b"]);
    MergeableABC(hx, hy, before);
    TwoEqualOneDistinctTotals(hx, hy, ["a", "b"], before, data);
    MergedABC(hx, hy, ["a", "b"], before, after);
  }

  /** The whole run over that tree, with `a` and `b` read as one content
      and `c` as another, on any filesystem where `a`, `b` and `c` exist
      with `a` and `b` of one size, no call is refused and no
      `b.tmpdedupe` shares the inode of `b`: it succeeds, reports one
      duplicate and the size of `a` as savings, and leaves `a` and `b`
      naming one inode. */
  method MergeTwoEqualOneDistinct(fs: FileSystem, read: Path -> Option<Content>, hash: Content -> Digest)
    returns (r: Result<int>, ti: TreeInfo)
    requires ReadsABC(read, hash)
    requires fs.Valid() && fs.denied == {}
    requires "a" in fs.names && "b" in fs.names && "c" in fs.names
    requires SizeOf(fs.names, fs.data, "a") == SizeOf(fs.names, fs.data, "b")
    requires "b.tmpdedupe" in fs.names ==> fs.names["b.tmpdedupe"] != fs.names["b"]
    modifies fs`names
    ensures r == Ok(SizeOf(old(fs.names), fs.data, "a")) && ti.DupeCount == 1
    ensures "a" in fs.names && "b" in fs.names && fs.names["a"] == fs.names["b"]
  {
    WalkABC();
    r, ti := Run(VisitsABC, read, hash, fs, false);
    RunABC(read, hash, r, ti.Sums, ti.DupeCount, old(fs.names), fs.names, fs.data);
  }
}
