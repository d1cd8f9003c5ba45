/** Archive creation as `src/Tools/doctools.py` does it: the list is the
    manifest, its references, and the GUI manifest's path when that file
    exists (not the GUI manifest's references); every member is written
    under its base name, with no check that it exists. */
module DocTools {
  import opened Outcomes
  import opened Paths
  import opened Os
  import opened Zip
  import opened Xml

  /** `getFilesList(filename)`: the manifest, its references, then the GUI
      manifest's path if that file exists. */
  function FilesList(disk: Disk, parse: Bytes -> Parse, filename: Path): Result<seq<Path>>
  {
    match Scan(disk, parse, filename)
    case Err(e) => Err(e)
    case Ok(refs) =>
      Ok([filename] + refs + (if disk.Exists(GuiPath(filename)) then [GuiPath(filename)] else []))
  }

  method GetFilesList(fs: FileSystem, parse: Bytes -> Parse, filename: Path) returns (r: Result<seq<Path>>)
    ensures r == FilesList(fs.State(), parse, filename)
    ensures r.Ok? ==> r.value[0] == filename
    ensures r.Ok? ==> |r.value| == 1 + FileAttrCount(Delivered(fs.State(), parse, filename))
                                     + (if fs.Exists(GuiPath(filename)) then 1 else 0)
    ensures r.Ok? && fs.Exists(GuiPath(filename)) ==> r.value[|r.value| - 1] == GuiPath(filename)
  {
    var dirname := DirName(filename);
    var handler := new DocumentHandler(dirname);
    var err := ParseFile(fs, parse, filename, handler);
    if err.Some? {
      return Err(err.value);
    }
    var refs := handler.files;
    ghost var events := Delivered(fs.State(), parse, filename);
    assert refs == References(dirname, events);
    assert Scan(fs.State(), parse, filename) == Ok(refs);
    ReferencesCount(dirname, events);
    var files: seq<Path> := [];
    files := files + [filename];
    files := files + handler.files;
    assert files == [filename] + refs;
    var guiDocPath := Join(dirname, GuiDocument);
    if fs.Exists(guiDocPath) {
      files := files + [guiDocPath];
      assert files == [filename] + refs + [guiDocPath];
    }
    assert guiDocPath == GuiPath(filename);
    assert files == [filename] + refs + (if fs.State().Exists(guiDocPath) then [guiDocPath] else []);
    r := Ok(files);
  }

  /** `compress.write(p, os.path.split(p)[1])`: a regular file becomes a
      member under its base name; a directory becomes an empty member whose
      name ends in "/"; anything else makes its `os.stat` raise. */
  function Member(disk: Disk, p: Path): (r: Result<Entry>)
    ensures r.Ok? <==> disk.Exists(p)
    ensures r.Err? ==> r.error == disk.LookupError(p)
    ensures p in disk.files ==> r.value == Entry(BaseName(p), disk.files[p])
    ensures p !in disk.files && p in disk.dirs ==> r.value.name == BaseName(p) + "/" && r.value.data == []
  {
    if p in disk.files then Ok(Entry(BaseName(p), disk.files[p]))
    else if p in disk.dirs then Ok(Entry(BaseName(p) + "/", []))
    else Err(disk.LookupError(p))
  }

  /** The loop writing `files` into the open archive: the members so far,
      and `Partial` once a write raises. */
  function Pack(disk: Disk, files: seq<Path>): (r: Creation)
    ensures !r.NotCreated?
  {
    if files == [] then Created([])
    else
      var prev := Pack(disk, files[..|files| - 1]);
      if prev.Partial? then prev
      else match Member(disk, files[|files| - 1])
        case Ok(e) => Created(prev.archive + [e])
        case Err(x) => Partial(prev.archive, x)
  }

  /** `createDocument(filename, outpath)`. */
  function Create(disk: Disk, parse: Bytes -> Parse, filename: Path): Creation
  {
    match FilesList(disk, parse, filename)
    case Err(e) => NotCreated(e)
    case Ok(files) => Pack(disk, files)
  }

  method CreateDocument(fs: FileSystem, parse: Bytes -> Parse, filename: Path) returns (r: Creation)
    ensures r == Create(fs.State(), parse, filename)
  {
    var files := GetFilesList(fs, parse, filename);
    if files.Err? {
      return NotCreated(files.error);
    }
    r := WriteMembers(fs, files.value);
  }

  /** The `with ZipFile(outpath, "w")` block: each path written in turn
      under its base name, until one of them raises. */
  method WriteMembers(fs: FileSystem, list: seq<Path>) returns (r: Creation)
    ensures r == Pack(fs.State(), list)
  {
    ghost var disk := fs.State();
    var archive: seq<Entry> := [];
    for i := 0 to |list|
      invariant Pack(disk, list[..i]) == Created(archive)
    {
      var filePath := list[i];
      var tail := BaseName(filePath);
      WriteStep(disk, list, i, archive);
      if fs.IsFile(filePath) {
        archive := archive + [Entry(tail, fs.files[filePath])];
      } else if filePath in fs.dirs {
        archive := archive + [Entry(tail + "/", [])];
      } else {
        return Partial(archive, fs.State().LookupError(filePath));
      }
    }
    assert list[..|list|] == list;
    r := Created(archive);
  }

  // ---- what the archive holds ----

  /** One more step of the loop, from a complete prefix. */
  lemma PackStep(disk: Disk, files: seq<Path>, i: nat)
    requires i < |files| && Pack(disk, files[..i]).Created?
    ensures Pack(disk, files[..i + 1]) == match Member(disk, files[i])
      case Ok(e) => Created(Pack(disk, files[..i]).archive + [e])
      case Err(x) => Partial(Pack(disk, files[..i]).archive, x)
  {
    assert files[..i + 1][..i] == files[..i];
  }

  /** One turn of the loop in `WriteMembers`, case by case. */
  lemma WriteStep(disk: Disk, list: seq<Path>, i: nat, archive: seq<Entry>)
    requires i < |list| && Pack(disk, list[..i]) == Created(archive)
    ensures list[i] in disk.files ==>
      Pack(disk, list[..i + 1]) == Created(archive + [Entry(BaseName(list[i]), disk.files[list[i]])])
    ensures list[i] !in disk.files && list[i] in disk.dirs ==>
      Pack(disk, list[..i + 1]) == Created(archive + [Entry(BaseName(list[i]) + "/", [])])
    ensures !disk.Exists(list[i]) ==> Pack(disk, list) == Partial(archive, disk.LookupError(list[i]))
  {
    PackStep(disk, list, i);
    if !disk.Exists(list[i]) {
      PackStaysPartial(disk, list, i + 1);
    }
  }

  /** Once a write has raised, the later members are never attempted. */
  lemma {:induction false} PackStaysPartial(disk: Disk, files: seq<Path>, k: nat)
    requires k <= |files| && Pack(disk, files[..k]).Partial?
    ensures Pack(disk, files) == Pack(disk, files[..k])
    decreases |files| - k
  {
    if k < |files| {
      assert files[..k + 1][..k] == files[..k];
      PackStaysPartial(disk, files, k + 1);
    } else {
      assert files[..k] == files;
    }
  }

  /** The archive is complete exactly when every list member exists. */
  lemma {:induction false} PackCompleteIffAllExist(disk: Disk, files: seq<Path>)
    ensures Pack(disk, files).Created? <==> forall i :: 0 <= i < |files| ==> disk.Exists(files[i])
    decreases |files|
  {
    if files != [] {
      var n := |files|;
      PackCompleteIffAllExist(disk, files[..n - 1]);
      if Pack(disk, files).Created? {
        forall i | 0 <= i < n ensures disk.Exists(files[i]) {
          if i < n - 1 {
            assert files[..n - 1][i] == files[i];
          }
        }
      }
    }
  }

  /** One member per list element, in list order, each regular file under
      its base name with its bytes: subdirectories are flattened. */
  lemma {:induction false} PackFlattens(disk: Disk, files: seq<Path>)
    requires Pack(disk, files).Created?
    ensures |Pack(disk, files).archive| == |files|
    ensures forall i :: 0 <= i < |files| && files[i] in disk.files ==>
      Pack(disk, files).archive[i] == Entry(BaseName(files[i]), disk.files[files[i]])
    decreases |files|
  {
    if files != [] {
      var n := |files|;
      var init := files[..n - 1];
      PackFlattens(disk, init);
      var a := Pack(disk, files).archive;
      assert a[..n - 1] == Pack(disk, init).archive;
      forall i | 0 <= i < n && files[i] in disk.files
        ensures a[i] == Entry(BaseName(files[i]), disk.files[files[i]])
      {
        if i < n - 1 {
          assert init[i] == files[i];
          assert a[i] == a[..n - 1][i];
        }
      }
    }
  }

  /** The first missing member stops the loop: the archive on disk keeps the
      members before it and the call raises the lookup error for it:
      NotADirectoryError below a regular file, FileNotFoundError otherwise. */
  lemma PackStopsAtMissing(disk: Disk, files: seq<Path>, k: nat)
    requires k < |files| && !disk.Exists(files[k])
    requires forall i :: 0 <= i < k ==> disk.Exists(files[i])
    ensures Pack(disk, files).Partial?
    ensures Pack(disk, files).error == disk.LookupError(files[k])
    ensures |Pack(disk, files).archive| == k
    ensures Pack(disk, files[..k]).Created? && Pack(disk, files).archive == Pack(disk, files[..k]).archive
    ensures forall i :: 0 <= i < k && files[i] in disk.files ==>
      Pack(disk, files).archive[i] == Entry(BaseName(files[i]), disk.files[files[i]])
  {
    var init := files[..k];
    assert forall i :: 0 <= i < |init| ==> init[i] == files[i];
    PackCompleteIffAllExist(disk, init);
    PackFlattens(disk, init);
    PackStep(disk, files, k);
    assert Member(disk, files[k]) == Err(disk.LookupError(files[k]));
    PackStaysPartial(disk, files, k + 1);
  }

  /** A list member below a regular file, such as `D.xml/a` beside the
      manifest `D.xml`, makes `compress.write` raise NotADirectoryError;
      a missing member with only directories on the way raises
      FileNotFoundError. */
  lemma MemberLookupError(disk: Disk, p: Path)
    requires disk.Valid() && !disk.Exists(p)
    ensures Member(disk, p).Err?
    ensures Member(disk, p).error == NotADirectory(p) <==> exists k :: 0 < k < |p| && p[k] == Sep && p[..k] in disk.files
    ensures Member(disk, p).error != NotADirectory(p) ==> Member(disk, p).error == NotFound(p)
  {
    LookupErrorKind(disk, p);
  }

  /** The list `[m, m + "/" + a]`, with the manifest `m` a regular file:
      the manifest is written, then the reference below it raises
      NotADirectoryError. */
  lemma ReferenceBelowManifest(disk: Disk, m: Path, a: Path)
    requires disk.Valid() && m in disk.files
    ensures Pack(disk, [m, m + [Sep] + a])
         == Partial([Entry(BaseName(m), disk.files[m])], NotADirectory(m + [Sep] + a))
  {
    var p := m + [Sep] + a;
    assert p[..|m|] == m;
    BelowFile(disk, p, [], |m|);
    FileOnTheWay(disk, p, |m|);
    PackTwo(disk, m, p);
  }

  /** Packing two paths, the first of which is written. */
  lemma PackTwo(disk: Disk, x: Path, y: Path)
    requires Member(disk, x).Ok?
    ensures Pack(disk, [x, y]) == match Member(disk, y)
      case Ok(e) => Created([Member(disk, x).value, e])
      case Err(err) => Partial([Member(disk, x).value], err)
  {
    var list := [x, y];
    assert list[..0] == [];
    PackStep(disk, list, 0);
    PackStep(disk, list, 1);
    assert list[..2] == list;
  }

  /** Two list members in different directories with the same base name
      become two members of the same name. */
  lemma SameBaseNameCollides(disk: Disk, files: seq<Path>, i: nat, j: nat)
    requires Pack(disk, files).Created?
    requires i < |files| && j < |files| && files[i] in disk.files && files[j] in disk.files
    requires BaseName(files[i]) == BaseName(files[j])
    ensures i < |Pack(disk, files).archive| && j < |Pack(disk, files).archive|
    ensures Pack(disk, files).archive[i].name == Pack(disk, files).archive[j].name
  {
    PackFlattens(disk, files);
  }

  /** A referenced file in a subdirectory is stored under its base name:
      `sub/data.bin` becomes `data.bin`. */
  lemma ReferenceFlattened(disk: Disk, parse: Bytes -> Parse, filename: Path, events: seq<Event>, i: nat)
    requires filename in disk.files && parse(disk.files[filename]) == WellFormed(events)
    requires i < |events| && NamesFile(events[i])
    requires disk.IsFile(Join(DirName(filename), events[i].attrs[FileAttr]))
    requires Create(disk, parse, filename).Created?
    ensures Entry(BaseName(events[i].attrs[FileAttr]), disk.files[Join(DirName(filename), events[i].attrs[FileAttr])])
            in Create(disk, parse, filename).archive
  {
    var d := DirName(filename);
    var x := events[i].attrs[FileAttr];
    var refs := References(d, events);
    ReferencesAt(d, events, i);
    var k := |References(d, events[..i])|;
    assert refs[k] == Join(d, x);
    var files := FilesList(disk, parse, filename).value;
    assert files[k + 1] == Join(d, x);
    PackFlattens(disk, files);
    BaseNameJoin(d, x);
  }

  /** Creation fails before the archive is opened only for the primary
      manifest; a missing member, the GUI manifest included, leaves a
      partial archive instead. */
  lemma CreateOutcomes(disk: Disk, parse: Bytes -> Parse, filename: Path)
    ensures Create(disk, parse, filename).NotCreated? <==> Scan(disk, parse, filename).Err?
    ensures Create(disk, parse, filename).Created? <==>
      FilesList(disk, parse, filename).Ok?
      && forall i :: 0 <= i < |FilesList(disk, parse, filename).value| ==>
           disk.Exists(FilesList(disk, parse, filename).value[i])
  {
    if FilesList(disk, parse, filename).Ok? {
      PackCompleteIffAllExist(disk, FilesList(disk, parse, filename).value);
    }
  }

  /** The GUI manifest's own references never reach the list: its contents
      do not change the list, only its existence does. */
  lemma GuiContentIgnored(disk: Disk, parse: Bytes -> Parse, filename: Path, bytes: Bytes)
    requires GuiPath(filename) in disk.files && GuiPath(filename) != filename
    ensures FilesList(Disk(disk.files[GuiPath(filename) := bytes], disk.dirs), parse, filename)
         == FilesList(disk, parse, filename)
  {
    var other := Disk(disk.files[GuiPath(filename) := bytes], disk.dirs);
    assert other.SaxSource(filename) == disk.SaxSource(filename);
  }
}
