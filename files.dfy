/** Shared vocabulary of the deduplicator: paths, inodes, file contents,
    digests, the fatal errors of a run, and the abstract filesystem that the
    merge stage changes. */
module Files {

  type Path = string
  type Inode = nat
  type Content = seq<bv8>
  /** A content digest as the program keys its buckets: the hex rendering of
      the hash, so a string. */
  type Digest = string

  /** Suffix of the temporary name a duplicate carries while it is replaced. */
  const TempSuffix: string := ".tmpdedupe"

  predicate HasSuffix(s: string, suffix: string) {
    |suffix| <= |s| && s[|s| - |suffix|..] == suffix
  }

  /** The temporary name `name.tmpdedupe` used by the rename step. */
  function TempName(name: Path): (t: Path)
    ensures HasSuffix(t, TempSuffix)
    ensures |t| == |name| + |TempSuffix| && t[..|name|] == name
  {
    var t := name + TempSuffix;
    assert t[|t| - |TempSuffix|..] == TempSuffix;
    t
  }

  /** Distinct paths have distinct temporary names. */
  lemma TempNameInjective(a: Path, b: Path)
    ensures TempName(a) == TempName(b) ==> a == b
  {
    if TempName(a) == TempName(b) {
      assert a == TempName(a)[..|a|] == TempName(b)[..|b|] == b;
    }
  }

  /** Every condition the program treats as fatal (a returned walk error or a panic). */
  datatype Error =
    | WalkFailed(path: Path, reason: string)
    | LeftoverTemp(path: Path)
    | StatFailed(path: Path)
    | RenameFailed(source: Path, target: Path)
    | LinkFailed(existing: Path, link: Path)
    | RemoveFailed(path: Path)

  datatype Outcome = Pass | Fail(error: Error)

  datatype Result<T> = Ok(value: T) | Err(error: Error)

  datatype Option<T> = None | Some(value: T)

  /** A call the operating system refuses for a reason other than a missing
      or an already taken name: a denied permission, a read-only
      filesystem, a link across filesystems, a full link count. Each names
      the path the refused call is about. */
  datatype Fault = NoStat(path: Path) | NoRename(path: Path) | NoLink(path: Path) | NoRemove(path: Path)

  /** The part of a filesystem the merge stage sees: directory entries naming
      inodes, and the content stored in each inode. Hardlinked paths name the
      same inode. `denied` lists the calls that fail whatever the names. */
  class FileSystem {
    var names: map<Path, Inode>
    const data: map<Inode, Content>
    const denied: set<Fault>

    /** Every name refers to an inode that holds content. */
    ghost predicate Valid()
      reads this
    {
      forall p | p in names :: names[p] in data
    }

    constructor (names0: map<Path, Inode>, data0: map<Inode, Content>, denied0: set<Fault>)
      requires forall p | p in names0 :: names0[p] in data0
      ensures Valid() && names == names0 && data == data0 && denied == denied0
    {
      names := names0;
      data := data0;
      denied := denied0;
    }

    /** Size in bytes of the file at `p` (os.Stat); fails when nothing is
        there or the call is refused. */
    method Stat(p: Path) returns (r: Result<nat>)
      requires Valid()
      ensures r.Ok? <==> p in names && NoStat(p) !in denied
      ensures r.Ok? ==> r.value == |data[names[p]]|
      ensures r.Err? ==> r.error == StatFailed(p)
    {
      if p in names && NoStat(p) !in denied {
        r := Ok(|data[names[p]]|);
      } else {
        r := Err(StatFailed(p));
      }
    }

    /** os.Rename: moves the entry `source` to `target`, replacing whatever
        `target` named. As rename(2) has it, when both already name the
        same inode nothing changes. */
    method Rename(source: Path, target: Path) returns (r: Outcome)
      requires Valid()
      modifies this`names
      ensures Valid()
      ensures r.Pass? <==> source in old(names) && NoRename(source) !in denied
      ensures r.Pass? && target in old(names) && old(names)[target] == old(names)[source] ==>
                names == old(names)
      ensures r.Pass? && !(target in old(names) && old(names)[target] == old(names)[source]) ==>
                names == (old(names) - {source})[target := old(names)[source]]
      ensures r.Fail? ==> names == old(names) && r.error == RenameFailed(source, target)
    {
      if source !in names || NoRename(source) in denied {
        return Fail(RenameFailed(source, target));
      }
      if !(target in names && names[target] == names[source]) {
        names := (names - {source})[target := names[source]];
      }
      r := Pass;
    }

    /** os.Link: makes `link` a new name for the inode of `existing`; fails when
        `existing` is missing, `link` is already taken or the call is refused. */
    method Link(existing: Path, link: Path) returns (r: Outcome)
      requires Valid()
      modifies this`names
      ensures Valid()
      ensures r.Pass? <==> existing in old(names) && link !in old(names) && NoLink(link) !in denied
      ensures r.Pass? ==> names == old(names)[link := old(names)[existing]]
      ensures r.Fail? ==> names == old(names) && r.error == LinkFailed(existing, link)
    {
      if existing !in names || link in names || NoLink(link) in denied {
        return Fail(LinkFailed(existing, link));
      }
      names := names[link := names[existing]];
      r := Pass;
    }

    /** os.Remove: drops the entry `p`. The inode's content stays in `data`;
        it is unreachable once no name refers to it. */
    method Remove(p: Path) returns (r: Outcome)
      requires Valid()
      modifies this`names
      ensures Valid()
      ensures r.Pass? <==> p in old(names) && NoRemove(p) !in denied
      ensures r.Pass? ==> names == old(names) - {p}
      ensures r.Fail? ==> names == old(names) && r.error == RemoveFailed(p)
    {
      if p !in names || NoRemove(p) in denied {
        return Fail(RemoveFailed(p));
      }
      names := names - {p};
      r := Pass;
    }
  }
}
