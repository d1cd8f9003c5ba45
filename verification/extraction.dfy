/** `extractDocument`, which is the same code in both archive modules: each
    archive member is written to `outpath + "/" + name`, after `os.mkdir` has
    been called on each of the name's proper directory prefixes in turn. */
module Extraction {
  import opened Outcomes
  import opened Paths
  import opened Os
  import opened Zip

  /** The disk an extraction has reached, and the exception that stopped it. */
  datatype Run = Run(disk: Disk, err: Option<Error>)

  /** `curpath` after the inner loop has appended each of `dirs` to `base`. */
  function Descend(base: Path, dirs: seq<string>): Path
  {
    if dirs == [] then base
    else Descend(base, dirs[..|dirs| - 1]) + [Sep] + dirs[|dirs| - 1]
  }

  /** The directories extracting `name` under `out` creates, shortest first:
      `out` followed by each proper prefix of the name's segments. */
  function DirsToCreate(out: Path, name: string): seq<Path>
  {
    var segs := Split(name);
    seq(|segs| - 1, k requires 0 <= k < |segs| - 1 => Descend(out, segs[..k + 1]))
  }

  /** Where the member's bytes go: `outpath + "/" + file_path`. */
  function Target(out: Path, name: string): Path
  {
    out + [Sep] + name
  }

  /** True of the paths an extraction into `out` may create. */
  predicate Under(out: Path, p: Path)
  {
    out + [Sep] <= p
  }

  /** One directory-creation step: the strict `os.mkdir`, or, with `existOk`,
      a step that leaves a directory that is already there alone. */
  function MakeDir(d: Disk, p: Path, existOk: bool): (r: Result<Disk>)
    ensures !existOk ==> r == d.Mkdir(p)
    ensures existOk && p in d.dirs ==> r == Ok(d)
    ensures existOk && p !in d.dirs ==> r == d.Mkdir(p)
    ensures r.Ok? ==> r.value.files == d.files && r.value.dirs == d.dirs + {p}
  {
    if existOk && p in d.dirs then Ok(d) else d.Mkdir(p)
  }

  /** The directory steps for `paths` in order, stopping at the first exception. */
  function MkdirAll(d: Disk, paths: seq<Path>, existOk: bool): Run
  {
    if paths == [] then Run(d, None)
    else
      var prev := MkdirAll(d, paths[..|paths| - 1], existOk);
      if prev.err.Some? then prev
      else match MakeDir(prev.disk, paths[|paths| - 1], existOk)
        case Ok(d') => Run(d', None)
        case Err(e) => Run(prev.disk, Some(e))
  }

  /** One iteration of the outer loop: the member's directories, then its file. */
  function ExtractEntry(d: Disk, out: Path, e: Entry, existOk: bool): Run
  {
    var m := MkdirAll(d, DirsToCreate(out, e.name), existOk);
    if m.err.Some? then m
    else match m.disk.Write(Target(out, e.name), e.data)
      case Ok(d') => Run(d', None)
      case Err(x) => Run(m.disk, Some(x))
  }

  /** The whole loop over the members in archive order, stopping at the
      first exception with whatever was created before it left on disk. */
  function ExtractAll(d: Disk, out: Path, entries: seq<Entry>, existOk: bool): Run
  {
    if entries == [] then Run(d, None)
    else
      var prev := ExtractAll(d, out, entries[..|entries| - 1], existOk);
      if prev.err.Some? then prev
      else ExtractEntry(prev.disk, out, entries[|entries| - 1], existOk)
  }

  /** The members as the loop of `extractDocument` sees them: each name of
      `namelist()`, in order, with the bytes `read(name)` gives for it. */
  function ReadAll(archive: seq<Entry>): (r: seq<Entry>)
    ensures |r| == |archive|
    ensures forall i :: 0 <= i < |r| ==> r[i].name == archive[i].name
  {
    seq(|archive|, i requires 0 <= i < |archive| => Entry(archive[i].name, ReadMember(archive, archive[i].name).value))
  }

  /** `extractDocument(filename, outpath)` for the members of the opened
      archive, in `namelist()` order. With `existOk` false this is the code
      as written; with `existOk` true a directory that is already there is
      skipped instead of handed to `os.mkdir`. */
  method ExtractDocument(fs: FileSystem, archive: seq<Entry>, outpath: Path, existOk: bool) returns (err: Option<Error>)
    requires fs.Valid()
    modifies fs
    ensures fs.Valid()
    ensures Run(fs.State(), err) == ExtractAll(old(fs.State()), outpath, ReadAll(archive), existOk)
  {
    ghost var start := fs.State();
    ghost var entries := ReadAll(archive);
    for i := 0 to |archive|
      invariant fs.Valid()
      invariant ExtractAll(start, outpath, entries[..i], existOk) == Run(fs.State(), None)
    {
      var filePath := archive[i].name;
      var data := ReadMember(archive, filePath).value;
      ReadAllAt(archive, i);
      ghost var before := fs.State();
      var dirs := Split(filePath);
      if |dirs| > 1 {
        dirs := dirs[..|dirs| - 1];
        err := CreateDirs(fs, outpath, filePath, dirs, existOk);
        if err.Some? {
          EntryFails(start, outpath, entries, i, existOk, Run(fs.State(), err));
          return;
        }
      } else {
        assert DirsToCreate(outpath, filePath) == [];
      }
      EntryWrite(before, outpath, entries[i], existOk, fs.State());
      err := fs.WriteFile(outpath + "/" + filePath, data);
      if err.Some? {
        EntryFails(start, outpath, entries, i, existOk, Run(fs.State(), err));
        return;
      }
      ExtractStep(start, outpath, entries, i, existOk, Run(fs.State(), None));
    }
    assert entries[..|entries|] == entries;
    err := None;
  }

  /** The inner loop of `extractDocument` for the member `name`: `dirs` is
      its split name without the last piece, and each step extends
      `curpath` by one piece and hands it to `os.mkdir`. */
  method CreateDirs(fs: FileSystem, outpath: Path, name: string, dirs: seq<string>, existOk: bool)
    returns (err: Option<Error>)
    requires fs.Valid()
    requires |Split(name)| > 1 && dirs == Split(name)[..|Split(name)| - 1]
    modifies fs
    ensures fs.Valid()
    ensures Run(fs.State(), err) == MkdirAll(old(fs.State()), DirsToCreate(outpath, name), existOk)
  {
    ghost var before := fs.State();
    ghost var mkdirs := DirsToCreate(outpath, name);
    DirsToCreateDescend(outpath, name, dirs);
    var curpath := outpath;
    for j := 0 to |dirs|
      invariant fs.Valid()
      invariant curpath == Descend(outpath, dirs[..j])
      invariant MkdirAll(before, mkdirs[..j], existOk) == Run(fs.State(), None)
    {
      DescendStep(outpath, dirs, j);
      MkdirAllStep(before, mkdirs, j, existOk);
      curpath := curpath + "/" + dirs[j];
      if existOk && curpath in fs.dirs {
        err := None;
      } else {
        err := fs.Mkdir(curpath);
      }
      if err.Some? {
        MkdirAllStops(before, mkdirs, j + 1, existOk);
        return;
      }
    }
    assert mkdirs[..|dirs|] == mkdirs;
    err := None;
  }

  /** The inner loop's `curpath` values are the member's directories. */
  lemma DirsToCreateDescend(out: Path, name: string, dirs: seq<string>)
    requires |Split(name)| > 1 && dirs == Split(name)[..|Split(name)| - 1]
    ensures |DirsToCreate(out, name)| == |dirs|
    ensures forall j :: 0 <= j < |dirs| ==> DirsToCreate(out, name)[j] == Descend(out, dirs[..j + 1])
  {
    var segs := Split(name);
    forall j | 0 <= j < |dirs| ensures DirsToCreate(out, name)[j] == Descend(out, dirs[..j + 1]) {
      assert dirs[..j + 1] == segs[..j + 1];
    }
  }

  /** Appending `dir_name` number `j` to `curpath`. */
  lemma DescendStep(base: Path, dirs: seq<string>, j: nat)
    requires j < |dirs|
    ensures Descend(base, dirs[..j]) + "/" + dirs[j] == Descend(base, dirs[..j + 1])
  {
    assert "/" == [Sep];
    assert dirs[..j + 1][..j] == dirs[..j];
    assert dirs[..j + 1][j] == dirs[j];
  }

  /** Once the member's directories are through, the member's outcome is the write's. */
  lemma EntryWrite(d: Disk, out: Path, e: Entry, existOk: bool, m: Disk)
    requires MkdirAll(d, DirsToCreate(out, e.name), existOk) == Run(m, None)
    ensures ExtractEntry(d, out, e, existOk) == match m.Write(out + "/" + e.name, e.data)
      case Ok(d') => Run(d', None)
      case Err(x) => Run(m, Some(x))
  {
    assert Target(out, e.name) == out + "/" + e.name;
  }

  /** A member that went through extends the run by one member. */
  lemma ExtractStep(d: Disk, out: Path, entries: seq<Entry>, i: nat, existOk: bool, r: Run)
    requires i < |entries| && ExtractAll(d, out, entries[..i], existOk).err.None?
    requires ExtractEntry(ExtractAll(d, out, entries[..i], existOk).disk, out, entries[i], existOk) == r
    ensures ExtractAll(d, out, entries[..i + 1], existOk) == r
  {
    assert entries[..i + 1][..i] == entries[..i];
  }

  /** One more directory step, from a run that has not raised. */
  lemma MkdirAllStep(d: Disk, paths: seq<Path>, j: nat, existOk: bool)
    requires j < |paths| && MkdirAll(d, paths[..j], existOk).err.None?
    ensures MkdirAll(d, paths[..j + 1], existOk) == match MakeDir(MkdirAll(d, paths[..j], existOk).disk, paths[j], existOk)
      case Ok(d') => Run(d', None)
      case Err(e) => Run(MkdirAll(d, paths[..j], existOk).disk, Some(e))
  {
    assert paths[..j + 1][..j] == paths[..j];
  }

  /** The loop stops at member `i` with the outcome of that member. */
  lemma EntryFails(d: Disk, out: Path, entries: seq<Entry>, i: nat, existOk: bool, r: Run)
    requires i < |entries| && ExtractAll(d, out, entries[..i], existOk).err.None?
    requires r.err.Some? && ExtractEntry(ExtractAll(d, out, entries[..i], existOk).disk, out, entries[i], existOk) == r
    ensures ExtractAll(d, out, entries, existOk) == r
  {
    assert entries[..i + 1][..i] == entries[..i];
    ExtractAllStops(d, out, entries, i + 1, existOk);
  }

  // ---- the directory prefixes ----

  lemma {:induction false} DescendJoin(base: Path, dirs: seq<string>)
    requires |dirs| >= 1
    ensures Descend(base, dirs) == base + [Sep] + JoinSegs(dirs)
    decreases |dirs|
  {
    var n := |dirs|;
    if n > 1 {
      DescendJoin(base, dirs[..n - 1]);
      JoinSegsAppend(dirs[..n - 1], [dirs[n - 1]]);
      assert dirs[..n - 1] + [dirs[n - 1]] == dirs;
    }
  }

  /** Directory `k` of a member is `out` plus the first `k + 1` segments,
      and the rest of the segments lead from it to the target. */
  lemma DirsToCreateAt(out: Path, name: string, k: nat)
    requires k < |Split(name)| - 1
    ensures DirsToCreate(out, name)[k] == out + [Sep] + JoinSegs(Split(name)[..k + 1])
    ensures DirsToCreate(out, name)[k] + [Sep] + JoinSegs(Split(name)[k + 1..]) == Target(out, name)
    ensures Under(out, DirsToCreate(out, name)[k])
  {
    var segs := Split(name);
    var dk := DirsToCreate(out, name)[k];
    assert dk == Descend(out, segs[..k + 1]);
    DescendJoin(out, segs[..k + 1]);
    var front, back := JoinSegs(segs[..k + 1]), JoinSegs(segs[k + 1..]);
    assert dk == out + [Sep] + front;
    JoinSegsAppend(segs[..k + 1], segs[k + 1..]);
    assert segs[..k + 1] + segs[k + 1..] == segs;
    JoinSplit(name);
    assert front + [Sep] + back == name;
    assert dk + [Sep] + back == out + [Sep] + (front + [Sep] + back);
  }

  /** An entry of N segments asks for exactly N - 1 directories, the proper
      prefixes of its target, shortest first; each lies under `out`. */
  lemma DirsToCreateShape(out: Path, name: string)
    ensures |DirsToCreate(out, name)| == |Split(name)| - 1
    ensures forall k :: 0 <= k < |DirsToCreate(out, name)| ==>
      DirsToCreate(out, name)[k] == out + [Sep] + JoinSegs(Split(name)[..k + 1])
    ensures forall k :: 0 <= k < |DirsToCreate(out, name)| ==>
      DirsToCreate(out, name)[k] + [Sep] + JoinSegs(Split(name)[k + 1..]) == Target(out, name)
    ensures forall k :: 0 <= k < |DirsToCreate(out, name)| ==> Under(out, DirsToCreate(out, name)[k])
  {
    forall k | 0 <= k < |DirsToCreate(out, name)|
      ensures DirsToCreate(out, name)[k] == out + [Sep] + JoinSegs(Split(name)[..k + 1])
      ensures DirsToCreate(out, name)[k] + [Sep] + JoinSegs(Split(name)[k + 1..]) == Target(out, name)
      ensures Under(out, DirsToCreate(out, name)[k])
    {
      DirsToCreateAt(out, name, k);
    }
  }

  /** The first directory of a nested name is its top-level segment under `out`. */
  lemma FirstDir(out: Path, name: string)
    requires |Split(name)| > 1
    ensures DirsToCreate(out, name)[0] == out + [Sep] + Split(name)[0]
  {
    DirsToCreateShape(out, name);
    assert Split(name)[..1] == [Split(name)[0]];
  }

  /** A name without "/" creates no directory: the member is only written. */
  lemma SingleSegmentNoMkdir(d: Disk, out: Path, e: Entry, existOk: bool)
    requires Sep !in e.name
    ensures DirsToCreate(out, e.name) == []
    ensures ExtractEntry(d, out, e, existOk)
         == match d.Write(Target(out, e.name), e.data)
            case Ok(d') => Run(d', None)
            case Err(x) => Run(d, Some(x))
  {
    SplitNoSep(e.name);
  }

  // ---- stopping at the first exception ----

  lemma {:induction false} MkdirAllStops(d: Disk, paths: seq<Path>, k: nat, existOk: bool)
    requires k <= |paths| && MkdirAll(d, paths[..k], existOk).err.Some?
    ensures MkdirAll(d, paths, existOk) == MkdirAll(d, paths[..k], existOk)
    decreases |paths| - k
  {
    if k < |paths| {
      assert paths[..k + 1][..k] == paths[..k];
      MkdirAllStops(d, paths, k + 1, existOk);
    } else {
      assert paths[..k] == paths;
    }
  }

  lemma {:induction false} ExtractAllStops(d: Disk, out: Path, entries: seq<Entry>, k: nat, existOk: bool)
    requires k <= |entries| && ExtractAll(d, out, entries[..k], existOk).err.Some?
    ensures ExtractAll(d, out, entries, existOk) == ExtractAll(d, out, entries[..k], existOk)
    decreases |entries| - k
  {
    if k < |entries| {
      assert entries[..k + 1][..k] == entries[..k];
      ExtractAllStops(d, out, entries, k + 1, existOk);
    } else {
      assert entries[..k] == entries;
    }
  }

  /** A member extracted into an `outpath` that is a regular file, or lies
      below one, raises NotADirectoryError at its first `os.mkdir` or at the
      `open`, and changes nothing. */
  lemma EntryBelowFile(d: Disk, out: Path, e: Entry, existOk: bool, k: nat)
    requires d.Valid()
    requires 0 < k <= |out| && (k == |out| || out[k] == Sep) && out[..k] in d.files
    ensures ExtractEntry(d, out, e, existOk).err.Some?
    ensures ExtractEntry(d, out, e, existOk).err.value.NotADirectory?
    ensures ExtractEntry(d, out, e, existOk).disk == d
  {
    var dirs := DirsToCreate(out, e.name);
    if |Split(e.name)| > 1 {
      FirstDir(out, e.name);
      var p0 := dirs[0];
      assert p0[k] == Sep && p0[..k] == out[..k];
      BelowFile(d, p0, [], k);
      assert dirs[..1] == [p0];
      MkdirOne(d, p0, existOk);
      MkdirAllStops(d, dirs, 1, existOk);
    } else {
      assert dirs == [];
      var t := Target(out, e.name);
      assert t[k] == Sep && t[..k] == out[..k];
      BelowFile(d, t, e.data, k);
    }
  }

  /** Extraction into an `outpath` that is a regular file, or lies below one,
      raises NotADirectoryError for the first member, strict or not, and
      leaves the disk as it was. */
  lemma ExtractBelowFile(d: Disk, out: Path, entries: seq<Entry>, existOk: bool, k: nat)
    requires d.Valid() && entries != []
    requires 0 < k <= |out| && (k == |out| || out[k] == Sep) && out[..k] in d.files
    ensures ExtractAll(d, out, entries, existOk).err.Some?
    ensures ExtractAll(d, out, entries, existOk).err.value.NotADirectory?
    ensures ExtractAll(d, out, entries, existOk).disk == d
  {
    assert entries[..1][..0] == [];
    EntryBelowFile(d, out, entries[0], existOk, k);
    ExtractAllStops(d, out, entries, 1, existOk);
  }

  // ---- what an entry does to the disk ----

  /** Directory steps only add directories, and a strict run that succeeds
      added exactly its paths, none of which existed before. */
  lemma {:induction false} MkdirAllEffect(d: Disk, paths: seq<Path>, existOk: bool)
    ensures MkdirAll(d, paths, existOk).disk.files == d.files
    ensures d.dirs <= MkdirAll(d, paths, existOk).disk.dirs <= d.dirs + set p | p in paths
    ensures MkdirAll(d, paths, existOk).err.None? ==>
      MkdirAll(d, paths, existOk).disk.dirs == d.dirs + set p | p in paths
    ensures MkdirAll(d, paths, existOk).err.None? && !existOk ==>
      forall p :: p in paths ==> !d.Exists(p)
    decreases |paths|
  {
    if paths != [] {
      var n := |paths|;
      MkdirAllEffect(d, paths[..n - 1], existOk);
      var init := paths[..n - 1];
      assert paths == init + [paths[n - 1]];
      assert (set p | p in paths) == (set p | p in init) + {paths[n - 1]};
    }
  }

  /** Only the member's target file changes; it holds the member's bytes
      once the entry is through. */
  lemma EntryEffect(d: Disk, out: Path, e: Entry, existOk: bool)
    ensures ExtractEntry(d, out, e, existOk).err.None? ==>
      ExtractEntry(d, out, e, existOk).disk.files == d.files[Target(out, e.name) := e.data]
    ensures ExtractEntry(d, out, e, existOk).err.Some? ==>
      ExtractEntry(d, out, e, existOk).disk.files == d.files
    ensures d.dirs <= ExtractEntry(d, out, e, existOk).disk.dirs
            <= d.dirs + set p | p in DirsToCreate(out, e.name)
    ensures ExtractEntry(d, out, e, existOk).err.None? ==>
      ExtractEntry(d, out, e, existOk).disk.dirs == d.dirs + set p | p in DirsToCreate(out, e.name)
    ensures ExtractEntry(d, out, e, existOk).err.None? && !existOk ==>
      forall p :: p in DirsToCreate(out, e.name) ==> !d.Exists(p)
  {
    MkdirAllEffect(d, DirsToCreate(out, e.name), existOk);
  }

  /** Directories created by earlier members are still there later. */
  lemma {:induction false} DirsPersist(d: Disk, out: Path, entries: seq<Entry>, k: nat, existOk: bool)
    requires k <= |entries|
    ensures ExtractAll(d, out, entries[..k], existOk).disk.dirs <= ExtractAll(d, out, entries, existOk).disk.dirs
    decreases |entries| - k
  {
    if k < |entries| {
      var n := |entries|;
      DirsPersist(d, out, entries[..n - 1], k, existOk);
      assert entries[..n - 1][..k] == entries[..k];
      var prev := ExtractAll(d, out, entries[..n - 1], existOk);
      if prev.err.None? {
        EntryEffect(prev.disk, out, entries[n - 1], existOk);
      }
    } else {
      assert entries[..k] == entries;
    }
  }

  /** A finished extraction leaves each member's bytes in its target, for
      every member not overwritten by a later one of the same name. */
  lemma {:induction false} ExtractAllContents(d: Disk, out: Path, entries: seq<Entry>, existOk: bool, i: nat)
    requires i < |entries|
    requires forall j :: i < j < |entries| ==> entries[j].name != entries[i].name
    requires ExtractAll(d, out, entries, existOk).err.None?
    ensures Target(out, entries[i].name) in ExtractAll(d, out, entries, existOk).disk.files
    ensures ExtractAll(d, out, entries, existOk).disk.files[Target(out, entries[i].name)] == entries[i].data
    decreases |entries|
  {
    var n := |entries|;
    var init := entries[..n - 1];
    var prev := ExtractAll(d, out, init, existOk);
    assert prev.err.None?;
    assert ExtractAll(d, out, entries, existOk) == ExtractEntry(prev.disk, out, entries[n - 1], existOk);
    EntryEffect(prev.disk, out, entries[n - 1], existOk);
    if i < n - 1 {
      assert init[i] == entries[i];
      assert forall j :: i < j < |init| ==> init[j] == entries[j];
      ExtractAllContents(d, out, init, existOk, i);
      TargetInjective(out, entries[i].name, entries[n - 1].name);
    }
  }

  /** Member `i` as the loop reads it. */
  lemma ReadAllAt(archive: seq<Entry>, i: nat)
    requires i < |archive|
    ensures ReadMember(archive, archive[i].name).Some?
    ensures ReadAll(archive)[i] == Entry(archive[i].name, ReadMember(archive, archive[i].name).value)
  {
  }

  /** With all names different, each member is read back as it is. */
  lemma ReadAllDistinct(archive: seq<Entry>)
    requires forall i, j :: 0 <= i < j < |archive| ==> archive[i].name != archive[j].name
    ensures ReadAll(archive) == archive
  {
    forall i | 0 <= i < |archive| ensures ReadAll(archive)[i] == archive[i] {
      ReadMemberUnique(archive, i);
    }
  }

  /** Two members of one name are both read as the second. */
  lemma DuplicateNameRead(n: string, x: Bytes, y: Bytes)
    ensures ReadAll([Entry(n, x), Entry(n, y)]) == [Entry(n, y), Entry(n, y)]
  {
    var a := [Entry(n, x), Entry(n, y)];
    assert a[..1] == [Entry(n, x)];
    assert ReadMember(a, n) == Some(y);
  }

  /** A finished extraction of an archive leaves in each member's target the
      bytes `read` gives for its name, those of the last member of that name. */
  lemma ExtractedContents(d: Disk, out: Path, archive: seq<Entry>, existOk: bool, i: nat)
    requires i < |archive|
    requires ExtractAll(d, out, ReadAll(archive), existOk).err.None?
    ensures Target(out, archive[i].name) in ExtractAll(d, out, ReadAll(archive), existOk).disk.files
    ensures ExtractAll(d, out, ReadAll(archive), existOk).disk.files[Target(out, archive[i].name)]
         == ReadMember(archive, archive[i].name).value
  {
    var name := archive[i].name;
    var r := ReadAll(archive);
    ReadMemberLast(archive, i);
    var j := LastIndex(archive, i);
    ReadAllAt(archive, j);
    assert forall k :: j < k < |r| ==> r[k].name != r[j].name;
    ExtractAllContents(d, out, r, existOk, j);
  }

  /** What extraction asks for depends on the member names alone. */
  lemma {:induction false} SameNames(out: Path, a: seq<Entry>, b: seq<Entry>)
    requires |a| == |b| && forall i :: 0 <= i < |a| ==> a[i].name == b[i].name
    ensures AllTargets(out, a) == AllTargets(out, b)
    ensures AllDirs(out, a) == AllDirs(out, b)
    decreases |a|
  {
    if a != [] {
      var n := |a|;
      var a', b' := a[..n - 1], b[..n - 1];
      assert forall i :: 0 <= i < |a'| ==> a'[i].name == b'[i].name by {
        forall i | 0 <= i < |a'| ensures a'[i].name == b'[i].name { assert a'[i] == a[i] && b'[i] == b[i]; }
      }
      SameNames(out, a', b');
    }
  }

  /** Different members have different targets. */
  lemma TargetInjective(out: Path, a: string, b: string)
    ensures Target(out, a) == Target(out, b) ==> a == b
  {
    assert Target(out, a)[|out| + 1..] == a;
    assert Target(out, b)[|out| + 1..] == b;
  }

  /** Nothing outside `out + "/"` is created, removed or rewritten. */
  lemma {:induction false} ExtractStaysUnder(d: Disk, out: Path, entries: seq<Entry>, existOk: bool, p: Path)
    requires !Under(out, p)
    ensures (p in ExtractAll(d, out, entries, existOk).disk.files) == (p in d.files)
    ensures p in d.files ==> ExtractAll(d, out, entries, existOk).disk.files[p] == d.files[p]
    ensures (p in ExtractAll(d, out, entries, existOk).disk.dirs) == (p in d.dirs)
    decreases |entries|
  {
    if entries != [] {
      var n := |entries|;
      ExtractStaysUnder(d, out, entries[..n - 1], existOk, p);
      var prev := ExtractAll(d, out, entries[..n - 1], existOk);
      if prev.err.None? {
        var e := entries[n - 1];
        EntryEffect(prev.disk, out, e, existOk);
        DirsToCreateShape(out, e.name);
        assert p != Target(out, e.name);
        assert p !in DirsToCreate(out, e.name);
      }
    }
  }

  // ---- strict mkdir ----

  /** With the strict `os.mkdir`, a member succeeds only if none of its
      directories existed before. */
  lemma StrictEntryNeedsFreshDirs(d: Disk, out: Path, e: Entry, p: Path)
    requires p in DirsToCreate(out, e.name) && d.Exists(p)
    ensures ExtractEntry(d, out, e, false).err.Some?
  {
    EntryEffect(d, out, e, false);
  }

  /** A nested member that went through leaves its top-level directory behind. */
  lemma TopDirCreated(d: Disk, out: Path, entries: seq<Entry>, i: nat)
    requires i < |entries| && |Split(entries[i].name)| > 1
    requires ExtractAll(d, out, entries[..i + 1], false).err.None?
    ensures out + [Sep] + Split(entries[i].name)[0] in ExtractAll(d, out, entries[..i + 1], false).disk.dirs
  {
    assert entries[..i + 1][..i] == entries[..i];
    FirstDir(out, entries[i].name);
    EntryEffect(ExtractAll(d, out, entries[..i], false).disk, out, entries[i], false);
  }

  /** Two members below the same top-level directory make the strict
      extraction raise: the second `os.mkdir` of that directory fails. */
  lemma SharedTopDirFails(d: Disk, out: Path, entries: seq<Entry>, i: nat, j: nat)
    requires i < j < |entries|
    requires |Split(entries[i].name)| > 1 && |Split(entries[j].name)| > 1
    requires Split(entries[i].name)[0] == Split(entries[j].name)[0]
    ensures ExtractAll(d, out, entries, false).err.Some?
  {
    var pre := ExtractAll(d, out, entries[..j], false);
    if pre.err.Some? {
      ExtractAllStops(d, out, entries, j, false);
    } else {
      var prefix := entries[..j];
      assert prefix[..i + 1] == entries[..i + 1];
      if ExtractAll(d, out, entries[..i + 1], false).err.Some? {
        ExtractAllStops(d, out, prefix, i + 1, false);
      } else {
        var top := out + [Sep] + Split(entries[i].name)[0];
        TopDirCreated(d, out, entries, i);
        DirsPersist(d, out, prefix, i + 1, false);
        FirstDir(out, entries[j].name);
        StrictEntryNeedsFreshDirs(pre.disk, out, entries[j], top);
        EntryFails(d, out, entries, j, false, ExtractEntry(pre.disk, out, entries[j], false));
      }
    }
  }

  // ---- directory creation that tolerates existing directories ----

  /** Every directory extracting `entries` into `out` asks for. */
  function AllDirs(out: Path, entries: seq<Entry>): set<Path>
  {
    if entries == [] then {}
    else
      var ds := DirsToCreate(out, entries[|entries| - 1].name);
      AllDirs(out, entries[..|entries| - 1]) + set p | p in ds
  }

  /** Every file extracting `entries` into `out` writes. */
  function AllTargets(out: Path, entries: seq<Entry>): set<Path>
  {
    if entries == [] then {}
    else AllTargets(out, entries[..|entries| - 1]) + {Target(out, entries[|entries| - 1].name)}
  }

  /** The output directory exists and holds nothing yet. */
  ghost predicate FreshOut(d: Disk, out: Path)
  {
    out in d.dirs && forall p :: Under(out, p) ==> !d.Exists(p)
  }

  /** The directory a member's `k`-th directory is created in: `out` for the
      first, the one before it otherwise. */
  lemma DirsToCreateParent(out: Path, name: string, k: nat)
    requires k < |DirsToCreate(out, name)|
    ensures DirName(DirsToCreate(out, name)[k]) == if k == 0 then out else DirsToCreate(out, name)[k - 1]
    ensures DirsToCreate(out, name)[k] != ""
  {
    var segs := Split(name);
    SplitPieces(name);
    var x := Descend(out, segs[..k]);
    assert DirsToCreate(out, name)[k] == Descend(out, segs[..k + 1]);
    assert segs[..k + 1][..k] == segs[..k];
    assert segs[..k + 1][k] == segs[k];
    assert DirsToCreate(out, name)[k] == x + [Sep] + segs[k];
    DirNameChild(x, segs[k]);
  }

  /** A member's file is written inside its last directory, or in `out`. */
  lemma TargetParent(out: Path, name: string)
    ensures DirName(Target(out, name)) ==
      if |DirsToCreate(out, name)| == 0 then out else DirsToCreate(out, name)[|DirsToCreate(out, name)| - 1]
  {
    var segs := Split(name);
    var n := |segs|;
    SplitPieces(name);
    assert |DirsToCreate(out, name)| == n - 1;
    if n == 1 {
      JoinSplit(name);
      assert Sep !in segs[0];
      DirNameChild(out, name);
    } else {
      DirsToCreateAt(out, name, n - 2);
      assert segs[n - 1..] == [segs[n - 1]];
      JoinSegsSingle(segs[n - 1]);
      DirNameChild(DirsToCreate(out, name)[n - 2], segs[n - 1]);
    }
  }

  /** With `existOk`, the directory steps of a member go through as long as
      none of its directories is a regular file. */
  lemma {:induction false} TolerantDirs(d: Disk, out: Path, name: string, k: nat)
    requires out in d.dirs && k <= |DirsToCreate(out, name)|
    requires forall q :: q in DirsToCreate(out, name) ==> q !in d.files
    ensures MkdirAll(d, DirsToCreate(out, name)[..k], true).err.None?
    decreases k
  {
    if k > 0 {
      var ds := DirsToCreate(out, name);
      TolerantDirs(d, out, name, k - 1);
      var prev := MkdirAll(d, ds[..k - 1], true).disk;
      MkdirAllEffect(d, ds[..k - 1], true);
      DirsToCreateParent(out, name, k - 1);
      if k > 1 {
        assert ds[k - 2] in ds[..k - 1];
      }
      assert ds[k - 1] in ds;
      TolerantStep(prev, ds[k - 1]);
      MkdirAllStep(d, ds, k - 1, true);
    }
  }

  /** A tolerant directory step goes through where no file is in the way. */
  lemma TolerantStep(d: Disk, p: Path)
    requires p != "" && p !in d.files && d.ParentIsDir(p)
    ensures MakeDir(d, p, true).Ok?
  {
  }

  /** With `existOk`, a member goes through as long as none of its
      directories is a regular file and its file is not a directory. */
  lemma TolerantEntry(d: Disk, out: Path, e: Entry)
    requires out in d.dirs
    requires forall q :: q in DirsToCreate(out, e.name) ==> q !in d.files
    requires Target(out, e.name) !in d.dirs && Target(out, e.name) !in DirsToCreate(out, e.name)
    ensures ExtractEntry(d, out, e, true).err.None?
  {
    var ds := DirsToCreate(out, e.name);
    TolerantDirs(d, out, e.name, |ds|);
    assert ds[..|ds|] == ds;
    MkdirAllEffect(d, ds, true);
    TargetParent(out, e.name);
  }

  /** Extraction that tolerates existing directories, into a fresh output
      directory, never raises as long as no member's name is a directory
      prefix of another's; it creates nothing under `out` but the members'
      directories and files. */
  lemma {:induction false} TolerantExtractSucceeds(d: Disk, out: Path, entries: seq<Entry>)
    requires FreshOut(d, out)
    requires AllTargets(out, entries) !! AllDirs(out, entries)
    ensures ExtractAll(d, out, entries, true).err.None?
    ensures out in ExtractAll(d, out, entries, true).disk.dirs
    ensures forall p :: Under(out, p) && p in ExtractAll(d, out, entries, true).disk.dirs ==> p in AllDirs(out, entries)
    ensures forall p :: Under(out, p) && p in ExtractAll(d, out, entries, true).disk.files ==> p in AllTargets(out, entries)
    decreases |entries|
  {
    if entries != [] {
      var n := |entries|;
      var init := entries[..n - 1];
      var e := entries[n - 1];
      TolerantExtractSucceeds(d, out, init);
      var prev := ExtractAll(d, out, init, true);
      var ds := DirsToCreate(out, e.name);
      DirsToCreateShape(out, e.name);
      forall q | q in ds ensures q !in prev.disk.files {
        assert q in AllDirs(out, entries);
      }
      assert Under(out, Target(out, e.name));
      assert Target(out, e.name) in AllTargets(out, entries);
      TolerantEntry(prev.disk, out, e);
      EntryEffect(prev.disk, out, e, true);
    }
  }

  /** ... and then every member's bytes are in its target, the last of
      several members of the same name winning. */
  lemma TolerantExtractWritesAll(d: Disk, out: Path, entries: seq<Entry>, i: nat)
    requires FreshOut(d, out)
    requires AllTargets(out, entries) !! AllDirs(out, entries)
    requires i < |entries|
    requires forall j :: i < j < |entries| ==> entries[j].name != entries[i].name
    ensures Target(out, entries[i].name) in ExtractAll(d, out, entries, true).disk.files
    ensures ExtractAll(d, out, entries, true).disk.files[Target(out, entries[i].name)] == entries[i].data
  {
    TolerantExtractSucceeds(d, out, entries);
    ExtractAllContents(d, out, entries, true, i);
  }

  // ---- two members in one directory ----

  /** The directories of `a/n` under `out`: just `out/a`. */
  lemma OneDirName(out: Path, a: string, n: string)
    requires Sep !in a && Sep !in n
    ensures DirsToCreate(out, a + [Sep] + n) == [out + [Sep] + a]
    ensures Target(out, a + [Sep] + n) == out + [Sep] + a + [Sep] + n
  {
    SplitConcat(a, n);
    SplitNoSep(n);
    TwoPieces(out, a + [Sep] + n, a, n);
    DescendOne(out, a);
  }

  lemma TwoPieces(out: Path, name: string, a: string, n: string)
    requires Split(name) == [a] + [n]
    ensures DirsToCreate(out, name) == [Descend(out, [a])]
  {
    assert Split(name)[..1] == [a];
  }

  lemma DescendOne(base: Path, a: string)
    ensures Descend(base, [a]) == base + [Sep] + a
  {
    assert [a][..0] == [];
  }

  /** A single directory step. */
  lemma MkdirOne(d: Disk, p: Path, existOk: bool)
    ensures MkdirAll(d, [p], existOk) == match MakeDir(d, p, existOk)
      case Ok(d') => Run(d', None)
      case Err(e) => Run(d, Some(e))
  {
    assert [p][..0] == [];
  }

  /** `a/x` into an empty `out` creates `out/a` and writes `out/a/x`. */
  lemma FirstSharedMember(out: Path, a: string, x: string, dataX: Bytes, existOk: bool)
    requires Sep !in a && Sep !in x
    ensures ExtractEntry(Disk(map[], {out}), out, Entry(a + [Sep] + x, dataX), existOk)
         == Run(Disk(map[out + [Sep] + a + [Sep] + x := dataX], {out, out + [Sep] + a}), None)
  {
    var oa := out + [Sep] + a;
    OneDirName(out, a, x);
    FreshChildDir(out, a, existOk);
    MkdirOne(Disk(map[], {out}), oa, existOk);
    FreshChildFile(out, a, x, dataX);
  }

  /** `out/a` can be made in an `out` holding nothing. */
  lemma FreshChildDir(out: Path, a: string, existOk: bool)
    requires Sep !in a
    ensures MakeDir(Disk(map[], {out}), out + [Sep] + a, existOk) == Ok(Disk(map[], {out, out + [Sep] + a}))
  {
    var oa := out + [Sep] + a;
    var d := Disk(map[], {out});
    DirNameChild(out, a);
    assert oa != out && oa != "";
    assert !d.Exists(oa) && d.ParentIsDir(oa);
    assert d.dirs + {oa} == {out, oa};
  }

  /** `out/a/x` can be written once `out/a` is there. */
  lemma FreshChildFile(out: Path, a: string, x: string, data: Bytes)
    requires Sep !in x
    ensures Disk(map[], {out, out + [Sep] + a}).Write(out + [Sep] + a + [Sep] + x, data)
         == Ok(Disk(map[out + [Sep] + a + [Sep] + x := data], {out, out + [Sep] + a}))
  {
    var oa := out + [Sep] + a;
    var m := Disk(map[], {out, oa});
    DirNameChild(oa, x);
    assert |oa + [Sep] + x| > |oa| && |oa| > |out|;
    assert oa + [Sep] + x !in m.dirs;
    assert m.files[oa + [Sep] + x := data] == map[oa + [Sep] + x := data];
  }

  /** `a/y` after it: `out/a` is already there. */
  lemma SecondSharedMember(out: Path, a: string, x: string, y: string, dataX: Bytes, dataY: Bytes, existOk: bool)
    requires Sep !in a && Sep !in y
    ensures ExtractEntry(Disk(map[out + [Sep] + a + [Sep] + x := dataX], {out, out + [Sep] + a}), out, Entry(a + [Sep] + y, dataY), existOk)
         == if existOk then Run(Disk(map[out + [Sep] + a + [Sep] + x := dataX, out + [Sep] + a + [Sep] + y := dataY], {out, out + [Sep] + a}), None)
            else Run(Disk(map[out + [Sep] + a + [Sep] + x := dataX], {out, out + [Sep] + a}), Some(FileExists(out + [Sep] + a)))
  {
    var oa := out + [Sep] + a;
    OneDirName(out, a, y);
    DirNameChild(oa, y);
    var d1 := Disk(map[oa + [Sep] + x := dataX], {out, oa});
    MkdirOne(d1, oa, existOk);
    assert d1.Mkdir(oa) == Err(FileExists(oa));
    assert oa + [Sep] + y != oa && oa + [Sep] + y != out;
  }

  /** Two members `a/x` and `a/y` extracted into an empty `out`: the strict
      `os.mkdir` raises FileExistsError for `out/a` on the second member,
      after the first has been written; tolerating the existing directory
      writes both. */
  lemma SharedDirRun(out: Path, a: string, x: string, y: string, dataX: Bytes, dataY: Bytes)
    requires Sep !in a && Sep !in x && Sep !in y
    ensures ExtractAll(Disk(map[], {out}), out, [Entry(a + [Sep] + x, dataX), Entry(a + [Sep] + y, dataY)], false)
         == Run(Disk(map[out + [Sep] + a + [Sep] + x := dataX], {out, out + [Sep] + a}), Some(FileExists(out + [Sep] + a)))
    ensures ExtractAll(Disk(map[], {out}), out, [Entry(a + [Sep] + x, dataX), Entry(a + [Sep] + y, dataY)], true)
         == Run(Disk(map[out + [Sep] + a + [Sep] + x := dataX, out + [Sep] + a + [Sep] + y := dataY], {out, out + [Sep] + a}), None)
  {
    var e1, e2 := Entry(a + [Sep] + x, dataX), Entry(a + [Sep] + y, dataY);
    var entries := [e1, e2];
    var d := Disk(map[], {out});
    assert entries[..1] == [e1] && [e1][..0] == [];
    forall existOk: bool
      ensures ExtractAll(d, out, entries, existOk)
           == ExtractEntry(ExtractEntry(d, out, e1, existOk).disk, out, e2, existOk)
    {
      FirstSharedMember(out, a, x, dataX, existOk);
      assert ExtractAll(d, out, [e1], existOk) == ExtractEntry(d, out, e1, existOk);
    }
    FirstSharedMember(out, a, x, dataX, false);
    FirstSharedMember(out, a, x, dataX, true);
    SecondSharedMember(out, a, x, y, dataX, dataY, false);
    SecondSharedMember(out, a, x, y, dataX, dataY, true);
  }

  /** The instance `a/x.txt`, `a/y.txt` into `out`. */
  lemma SharedDirExample()
    ensures ExtractAll(Disk(map[], {"out"}), "out", [Entry("a" + [Sep] + "x.txt", [1]), Entry("a" + [Sep] + "y.txt", [2])], false).err
         == Some(FileExists("out" + [Sep] + "a"))
    ensures ExtractAll(Disk(map[], {"out"}), "out", [Entry("a" + [Sep] + "x.txt", [1]), Entry("a" + [Sep] + "y.txt", [2])], true).err
         == None
  {
    SharedDirRun("out", "a", "x.txt", "y.txt", [1], [2]);
  }
}
