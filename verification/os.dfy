/** The filesystem as the archive code sees it through `os.path.exists`,
    `os.path.isfile`, `open` and `os.mkdir`: regular files with their bytes,
    and a set of directories. */
module Os {
  import opened Outcomes
  import opened Paths

  type Byte = bv8
  type Bytes = seq<Byte>

  /** A snapshot of the filesystem. */
  datatype Disk = Disk(files: map<Path, Bytes>, dirs: set<Path>) {

    /** `os.path.exists(p)`: a file or a directory is there. */
    predicate Exists(p: Path) { p in files || p in dirs }

    /** `os.path.isfile(p)`. */
    predicate IsFile(p: Path) { p in files }

    /** The directory `p` would be created in is there; a bare name lives in
        the current directory, which always exists. */
    predicate ParentIsDir(p: Path) { DirName(p) == "" || DirName(p) in dirs }

    /** A tree: nothing at the empty path, no path both a file and a directory,
        and every entry inside an existing directory. */
    ghost predicate Valid()
    {
      && "" !in files && "" !in dirs
      && (forall p :: p in files ==> p !in dirs)
      && (forall p :: p in files ==> ParentIsDir(p))
      && (forall p :: p in dirs ==> ParentIsDir(p))
    }

    /** Resolving the directory path `q` one component at a time, from the
        top: None when every component is a directory, otherwise whether the
        first component that is not a directory is a regular file. */
    function FirstNonDir(q: Path): (r: Option<bool>)
      ensures r.None? ==> q == "" || q in dirs
      ensures r == Some(true) ==> exists k :: 0 < k <= |q| && (k == |q| || q[k] == Sep) && q[..k] in files
      decreases |q|
    {
      if q == "" then None
      else match FirstNonDir(DirName(q))
        case Some(isFile) =>
          AncestorOfParent(q, DirName(q));
          Some(isFile)
        case None =>
          assert q[..|q|] == q;
          if q in dirs then None else Some(q in files)
    }

    /** The exception a system call (`os.stat`, `os.mkdir`, `open`) raises
        for a path that resolves to nothing: ENOTDIR when the first component
        of its parent that is not a directory is a regular file, ENOENT
        otherwise. */
    function LookupError(p: Path): (r: Error)
      ensures r == NotADirectory(p) || r == NotFound(p)
      ensures r == NotADirectory(p) ==> exists k :: 0 < k < |p| && p[k] == Sep && p[..k] in files
    {
      if FirstNonDir(DirName(p)) == Some(true) then
        AncestorOfParent(p, DirName(p));
        NotADirectory(p)
      else NotFound(p)
    }

    /** The error `os.mkdir(p)` or `open(p, "wb")` raises for a place that
        cannot hold a new entry, checked after the entry itself. */
    function ParentError(p: Path): (r: Option<Error>)
      ensures r.None? <==> p != "" && ParentIsDir(p)
      ensures r.Some? ==> r.value == LookupError(p)
    {
      if p != "" && ParentIsDir(p) then None
      else Some(LookupError(p))
    }

    /** The input `xml.sax` obtains for the system id `p`: the bytes of a
        regular file; anything else is handed to `urllib.request.urlopen`,
        which raises ValueError for a plain path, since it has no URL scheme. */
    function SaxSource(p: Path): (r: Result<Bytes>)
      ensures r.Ok? <==> IsFile(p)
      ensures r.Ok? ==> r.value == files[p]
      ensures r.Err? ==> r.error == ValueError(p)
    {
      if p in files then Ok(files[p])
      else Err(ValueError(p))
    }

    /** `os.mkdir(p)`: strict, so it raises when anything is already at `p`. */
    function Mkdir(p: Path): (r: Result<Disk>)
      ensures r.Ok? <==> p != "" && !Exists(p) && ParentIsDir(p)
      ensures r.Ok? ==> r.value == Disk(files, dirs + {p})
      ensures p != "" && Exists(p) ==> r == Err(FileExists(p))
    {
      if p == "" then Err(NotFound(p))
      else if Exists(p) then Err(FileExists(p))
      else match ParentError(p)
        case Some(e) => Err(e)
        case None => Ok(Disk(files, dirs + {p}))
    }

    /** `open(p, "wb").write(data)`: creates or truncates a regular file. */
    function Write(p: Path, data: Bytes): (r: Result<Disk>)
      ensures r.Ok? <==> p != "" && p !in dirs && ParentIsDir(p)
      ensures r.Ok? ==> r.value == Disk(files[p := data], dirs)
    {
      if p == "" then Err(NotFound(p))
      else if p in dirs then Err(IsADirectory(p))
      else match ParentError(p)
        case Some(e) => Err(e)
        case None => Ok(Disk(files[p := data], dirs))
    }
  }

  /** A `/`-prefix of a path's dirname is a `/`-prefix of the path. */
  lemma AncestorOfParent(q: Path, r: Path)
    requires q != "" && r == DirName(q)
    ensures forall k :: 0 < k <= |r| && (k == |r| || r[k] == Sep) ==> k < |q| && q[k] == Sep && q[..k] == r[..k]
  {
  }

  /** On a tree every directory resolves: all its components are directories. */
  lemma {:induction false} DirsResolve(d: Disk, q: Path)
    requires d.Valid() && (q == "" || q in d.dirs)
    ensures d.FirstNonDir(q) == None
    decreases |q|
  {
    if q != "" {
      DirsResolve(d, DirName(q));
    }
  }

  /** On a tree, a path with a regular file among its `/`-prefixes stops
      resolving at that file. */
  lemma {:induction false} FileAncestorResolves(d: Disk, q: Path, k: nat)
    requires d.Valid() && 0 < k <= |q| && (k == |q| || q[k] == Sep) && q[..k] in d.files
    ensures d.FirstNonDir(q) == Some(true)
    decreases |q|
  {
    var r := DirName(q);
    if k == |q| {
      assert q[..k] == q;
      DirsResolve(d, r);
    } else {
      assert k <= |r|;
      assert r[..k] == q[..k];
      FileAncestorResolves(d, r, k);
    }
  }

  /** On a tree, a path with a regular file among its proper `/`-prefixes
      raises NotADirectoryError. */
  lemma FileOnTheWay(d: Disk, p: Path, k: nat)
    requires d.Valid() && 0 < k < |p| && p[k] == Sep && p[..k] in d.files
    ensures d.LookupError(p) == NotADirectory(p)
  {
    var q := DirName(p);
    assert k <= |q| && q[..k] == p[..k];
    FileAncestorResolves(d, q, k);
  }

  /** On a tree, a lookup raises NotADirectoryError exactly when a regular
      file lies on the way to the path, and FileNotFoundError otherwise. */
  lemma LookupErrorKind(d: Disk, p: Path)
    requires d.Valid()
    ensures d.LookupError(p) == NotADirectory(p) <==> exists k :: 0 < k < |p| && p[k] == Sep && p[..k] in d.files
    ensures d.LookupError(p) != NotADirectory(p) ==> d.LookupError(p) == NotFound(p)
  {
    if exists k :: 0 < k < |p| && p[k] == Sep && p[..k] in d.files {
      var k :| 0 < k < |p| && p[k] == Sep && p[..k] in d.files;
      FileOnTheWay(d, p, k);
    }
  }

  /** Below a regular file nothing exists, and both `os.mkdir` and
      `open(..., "wb")` raise NotADirectoryError. */
  lemma BelowFile(d: Disk, p: Path, data: Bytes, k: nat)
    requires d.Valid() && 0 < k < |p| && p[k] == Sep && p[..k] in d.files
    ensures !d.Exists(p)
    ensures d.Mkdir(p) == Err(NotADirectory(p))
    ensures d.Write(p, data) == Err(NotADirectory(p))
  {
    var q := DirName(p);
    assert k <= |q| && q[..k] == p[..k];
    FileAncestorResolves(d, q, k);
    if q in d.dirs {
      DirsResolve(d, q);
    }
    if p in d.dirs {
      DirsResolve(d, p);
      FileAncestorResolves(d, p, k);
    }
  }

  /** On a tree, an entry whose parent is not a directory raises
      NotADirectoryError exactly when a regular file lies on the way to it,
      and FileNotFoundError otherwise. */
  lemma ParentErrorKind(d: Disk, p: Path)
    requires d.Valid() && p != "" && !d.ParentIsDir(p)
    ensures d.ParentError(p) == Some(NotADirectory(p)) <==> exists k :: 0 < k < |p| && p[k] == Sep && p[..k] in d.files
    ensures d.ParentError(p) != Some(NotADirectory(p)) ==> d.ParentError(p) == Some(NotFound(p))
  {
    LookupErrorKind(d, p);
  }

  lemma MkdirKeepsValid(d: Disk, p: Path)
    requires d.Valid() && d.Mkdir(p).Ok?
    ensures d.Mkdir(p).value.Valid()
  {
  }

  lemma WriteKeepsValid(d: Disk, p: Path, data: Bytes)
    requires d.Valid() && d.Write(p, data).Ok?
    ensures d.Write(p, data).value.Valid()
  {
  }

  /** The live filesystem; `os.mkdir` and `open(..., "wb")` change it in place. */
  class FileSystem {
    var files: map<Path, Bytes>
    var dirs: set<Path>

    function State(): Disk
      reads this
    {
      Disk(files, dirs)
    }

    ghost predicate Valid()
      reads this
    {
      State().Valid()
    }

    /** `os.path.exists(p)`. */
    predicate Exists(p: Path)
      reads this
    {
      State().Exists(p)
    }

    /** `os.path.isfile(p)`. */
    predicate IsFile(p: Path)
      reads this
    {
      State().IsFile(p)
    }

    constructor (files: map<Path, Bytes>, dirs: set<Path>)
      ensures State() == Disk(files, dirs)
    {
      this.files := files;
      this.dirs := dirs;
    }

    /** `os.mkdir(p)`; on an exception nothing changes. */
    method Mkdir(p: Path) returns (err: Option<Error>)
      requires Valid()
      modifies this
      ensures Valid()
      ensures old(State()).Mkdir(p).Ok? ==> err == None && State() == old(State()).Mkdir(p).value
      ensures old(State()).Mkdir(p).Err? ==> err == Some(old(State()).Mkdir(p).error) && State() == old(State())
    {
      match State().Mkdir(p)
      case Ok(d) =>
        MkdirKeepsValid(State(), p);
        dirs := d.dirs;
        err := None;
      case Err(e) =>
        err := Some(e);
    }

    /** `open(p, "wb").write(data)`; on an exception nothing changes. */
    method WriteFile(p: Path, data: Bytes) returns (err: Option<Error>)
      requires Valid()
      modifies this
      ensures Valid()
      ensures old(State()).Write(p, data).Ok? ==> err == None && State() == old(State()).Write(p, data).value
      ensures old(State()).Write(p, data).Err? ==> err == Some(old(State()).Write(p, data).error) && State() == old(State())
    {
      match State().Write(p, data)
      case Ok(d) =>
        WriteKeepsValid(State(), p, data);
        files := d.files;
        err := None;
      case Err(e) =>
        err := Some(e);
    }
  }
}
