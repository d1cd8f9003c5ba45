/** Archive creation as `src/Ext/freecad/project_utility.py` does it: the
    primary manifest's list, then the GUI manifest's list when that file
    exists; only regular files are packed, each under its path relative to
    the manifest's directory. */
module ProjectUtility {
  import opened Outcomes
  import opened Paths
  import opened Os
  import opened Zip
  import opened Xml

  /** `getFilesList(filename)`: the manifest itself, then the files it references. */
  function FilesList(disk: Disk, parse: Bytes -> Parse, filename: Path): Result<seq<Path>>
  {
    match Scan(disk, parse, filename)
    case Ok(refs) => Ok([filename] + refs)
    case Err(e) => Err(e)
  }

  method GetFilesList(fs: FileSystem, parse: Bytes -> Parse, filename: Path) returns (r: Result<seq<Path>>)
    ensures r == FilesList(fs.State(), parse, filename)
    ensures r.Ok? ==> r.value[0] == filename
    ensures r.Ok? ==> |r.value| == 1 + FileAttrCount(Delivered(fs.State(), parse, filename))
  {
    var dirname := DirName(filename);
    var handler := new DocumentHandler(dirname);
    var err := ParseFile(fs, parse, filename, handler);
    if err.Some? {
      return Err(err.value);
    }
    var refs := handler.files;
    assert refs == References(dirname, Delivered(fs.State(), parse, filename));
    assert Scan(fs.State(), parse, filename) == Ok(refs);
    var files: seq<Path> := [];
    files := files + [filename];
    files := files + handler.files;
    assert files == [filename] + refs;
    ReferencesCount(dirname, Delivered(fs.State(), parse, filename));
    r := Ok(files);
  }

  /** The list `createDocument` packs. */
  function FileSet(disk: Disk, parse: Bytes -> Parse, filename: Path): Result<seq<Path>>
  {
    match FilesList(disk, parse, filename)
    case Err(e) => Err(e)
    case Ok(files) =>
      if !disk.Exists(GuiPath(filename)) then Ok(files)
      else match FilesList(disk, parse, GuiPath(filename))
        case Err(e) => Err(e)
        case Ok(gui) => Ok(files + gui)
  }

  /** The members written for `files`: each regular file, in list order,
      named by its path relative to `dirname`. */
  function Pack(disk: Disk, files: seq<Path>, dirname: Path): seq<Entry>
  {
    if files == [] then []
    else
      var p := files[|files| - 1];
      Pack(disk, files[..|files| - 1], dirname)
        + (if disk.IsFile(p) then [Entry(RelPath(p, dirname), disk.files[p])] else [])
  }

  /** `createDocument(filename, outpath)`: the lists are complete before the
      archive is opened, so a manifest error leaves no archive. */
  function Create(disk: Disk, parse: Bytes -> Parse, filename: Path): Creation
  {
    match FileSet(disk, parse, filename)
    case Err(e) => NotCreated(e)
    case Ok(files) => Created(Pack(disk, files, DirName(filename)))
  }

  method CreateDocument(fs: FileSystem, parse: Bytes -> Parse, filename: Path) returns (r: Creation)
    ensures r == Create(fs.State(), parse, filename)
  {
    ghost var disk := fs.State();
    var files := GetFilesList(fs, parse, filename);
    if files.Err? {
      return NotCreated(files.error);
    }
    var list := files.value;
    var dirname := DirName(filename);
    var guixml := Join(dirname, GuiDocument);
    if fs.Exists(guixml) {
      var gui := GetFilesList(fs, parse, guixml);
      if gui.Err? {
        assert FileSet(disk, parse, filename) == Err(gui.error);
        return NotCreated(gui.error);
      }
      list := list + gui.value;
    }
    assert FileSet(disk, parse, filename) == Ok(list);
    var archive: seq<Entry> := [];
    for i := 0 to |list|
      invariant archive == Pack(disk, list[..i], dirname)
    {
      PackStep(disk, list, i, dirname);
      var file := list[i];
      if fs.IsFile(file) {
        var pathInArchive := RelPath(file, dirname);
        archive := archive + [Entry(pathInArchive, fs.files[file])];
      }
    }
    assert list[..|list|] == list;
    r := Created(archive);
  }

  /** One more turn of the loop. */
  lemma PackStep(disk: Disk, files: seq<Path>, i: nat, dirname: Path)
    requires i < |files|
    ensures Pack(disk, files[..i + 1], dirname) == Pack(disk, files[..i], dirname)
      + (if disk.IsFile(files[i]) then [Entry(RelPath(files[i], dirname), disk.files[files[i]])] else [])
  {
    assert files[..i + 1][..i] == files[..i];
  }

  // ---- what the archive holds ----

  lemma {:induction false} PackAppend(disk: Disk, a: seq<Path>, b: seq<Path>, dirname: Path)
    ensures Pack(disk, a + b, dirname) == Pack(disk, a, dirname) + Pack(disk, b, dirname)
    decreases |b|
  {
    if b == [] {
      assert a + b == a;
    } else {
      var ab := a + b;
      assert ab[..|ab| - 1] == a + b[..|b| - 1];
      assert ab[|ab| - 1] == b[|b| - 1];
      PackAppend(disk, a, b[..|b| - 1], dirname);
    }
  }

  /** The archive holds exactly the list members that are regular files,
      each with its current bytes; missing members are skipped. */
  lemma {:induction false} PackMembers(disk: Disk, files: seq<Path>, dirname: Path, e: Entry)
    ensures e in Pack(disk, files, dirname) <==>
      exists p :: p in files && disk.IsFile(p) && e == Entry(RelPath(p, dirname), disk.files[p])
    decreases |files|
  {
    if files != [] {
      var init := files[..|files| - 1];
      PackMembers(disk, init, dirname, e);
      assert files == init + [files[|files| - 1]];
    }
  }

  /** When every member exists, member `i` of the list is member `i` of the archive. */
  lemma {:induction false} PackAllPresent(disk: Disk, files: seq<Path>, dirname: Path)
    requires forall i :: 0 <= i < |files| ==> files[i] in disk.files
    ensures |Pack(disk, files, dirname)| == |files|
    ensures forall i :: 0 <= i < |files| ==>
      Pack(disk, files, dirname)[i] == Entry(RelPath(files[i], dirname), disk.files[files[i]])
    decreases |files|
  {
    if files != [] {
      PackAllPresent(disk, files[..|files| - 1], dirname);
    }
  }

  /** Creation is lenient about members: it fails only when a manifest
      is not a regular file or cannot be parsed, never leaves a partial archive, and a
      successful run packs exactly the list members that are regular files. */
  lemma CreateOutcomes(disk: Disk, parse: Bytes -> Parse, filename: Path)
    ensures !Create(disk, parse, filename).Partial?
    ensures Create(disk, parse, filename).Created? <==> FileSet(disk, parse, filename).Ok?
    ensures Scan(disk, parse, filename).Err? ==>
      Create(disk, parse, filename) == NotCreated(Scan(disk, parse, filename).error)
    ensures Create(disk, parse, filename).Created? ==>
      forall e :: e in Create(disk, parse, filename).archive <==>
        exists p :: p in FileSet(disk, parse, filename).value && disk.IsFile(p)
                    && e == Entry(RelPath(p, DirName(filename)), disk.files[p])
  {
    if Create(disk, parse, filename).Created? {
      forall e {
        PackMembers(disk, FileSet(disk, parse, filename).value, DirName(filename), e);
      }
    }
  }

  /** A referenced file below the manifest's directory is stored under the
      reference itself: `sub/data.bin` stays `sub/data.bin`. */
  lemma ReferenceStoredRelative(disk: Disk, parse: Bytes -> Parse, filename: Path, events: seq<Event>, i: nat)
    requires filename in disk.files && parse(disk.files[filename]) == WellFormed(events)
    requires i < |events| && NamesFile(events[i])
    requires disk.IsFile(Join(DirName(filename), events[i].attrs[FileAttr]))
    requires Create(disk, parse, filename).Created?
    ensures Entry(events[i].attrs[FileAttr], disk.files[Join(DirName(filename), events[i].attrs[FileAttr])])
            in Create(disk, parse, filename).archive
  {
    var d := DirName(filename);
    var x := events[i].attrs[FileAttr];
    ReferenceListed(d, events, i);
    RelPathJoin(d, x);
    var files := FileSet(disk, parse, filename).value;
    assert Join(d, x) in files;
    PackMembers(disk, files, d, Entry(x, disk.files[Join(d, x)]));
  }

  /** With a GUI manifest present, the archive is the primary list's
      members followed by the GUI list's members. */
  lemma GuiListAppended(disk: Disk, parse: Bytes -> Parse, filename: Path, events: seq<Event>)
    requires disk.IsFile(GuiPath(filename)) && parse(disk.files[GuiPath(filename)]) == WellFormed(events)
    requires FilesList(disk, parse, filename).Ok?
    ensures FileSet(disk, parse, filename)
         == Ok(FilesList(disk, parse, filename).value + [GuiPath(filename)] + References(DirName(filename), events))
    ensures Create(disk, parse, filename)
         == Created(Pack(disk, FilesList(disk, parse, filename).value, DirName(filename))
                    + Pack(disk, [GuiPath(filename)] + References(DirName(filename), events), DirName(filename)))
  {
    var d := DirName(filename);
    var gui := GuiPath(filename);
    var primary := FilesList(disk, parse, filename).value;
    var guiList := [gui] + References(d, events);
    assert FilesList(disk, parse, gui) == Ok(guiList) by {
      DirNameJoin(d, GuiDocument);
      assert disk.SaxSource(gui) == Ok(disk.files[gui]);
      assert Scan(disk, parse, gui) == Ok(References(d, events));
    }
    assert FileSet(disk, parse, filename) == Ok(primary + guiList);
    assert primary + [gui] + References(d, events) == primary + guiList;
    PackAppend(disk, primary, guiList, d);
  }

  /** With a GUI manifest present, the archive holds the GUI manifest under
      its own name and each of its references that is a regular file under
      the reference's own name. */
  lemma GuiManifestIncluded(disk: Disk, parse: Bytes -> Parse, filename: Path, events: seq<Event>, i: nat)
    requires disk.IsFile(GuiPath(filename)) && parse(disk.files[GuiPath(filename)]) == WellFormed(events)
    requires FilesList(disk, parse, filename).Ok?
    requires i < |events| && NamesFile(events[i])
    requires disk.IsFile(Join(DirName(filename), events[i].attrs[FileAttr]))
    ensures Entry(GuiDocument, disk.files[GuiPath(filename)]) in Create(disk, parse, filename).archive
    ensures Entry(events[i].attrs[FileAttr], disk.files[Join(DirName(filename), events[i].attrs[FileAttr])])
              in Create(disk, parse, filename).archive
  {
    var d := DirName(filename);
    var gui := GuiPath(filename);
    var x := events[i].attrs[FileAttr];
    GuiFilesListed(disk, parse, filename, events, i);
    var files := FileSet(disk, parse, filename).value;
    assert Create(disk, parse, filename).archive == Pack(disk, files, d);
    RelPathJoin(d, GuiDocument);
    PackMembers(disk, files, d, Entry(GuiDocument, disk.files[gui]));
    RelPathJoin(d, x);
    PackMembers(disk, files, d, Entry(x, disk.files[Join(d, x)]));
  }

  /** The GUI manifest and each of its references are on the list. */
  lemma GuiFilesListed(disk: Disk, parse: Bytes -> Parse, filename: Path, events: seq<Event>, i: nat)
    requires disk.IsFile(GuiPath(filename)) && parse(disk.files[GuiPath(filename)]) == WellFormed(events)
    requires FilesList(disk, parse, filename).Ok?
    requires i < |events| && NamesFile(events[i])
    ensures FileSet(disk, parse, filename).Ok?
    ensures GuiPath(filename) in FileSet(disk, parse, filename).value
    ensures Join(DirName(filename), events[i].attrs[FileAttr]) in FileSet(disk, parse, filename).value
  {
    var d := DirName(filename);
    GuiListAppended(disk, parse, filename, events);
    ReferenceListed(d, events, i);
    var primary := FilesList(disk, parse, filename).value;
    var refs := References(d, events);
    assert FileSet(disk, parse, filename).value[|primary|] == GuiPath(filename);
    var k :| 0 <= k < |refs| && refs[k] == Join(d, events[i].attrs[FileAttr]);
    assert FileSet(disk, parse, filename).value[|primary| + 1 + k] == refs[k];
  }

  /** Without a GUI manifest, nothing GUI-derived is packed: the archive is
      the primary list's regular files alone. */
  lemma NoGuiManifest(disk: Disk, parse: Bytes -> Parse, filename: Path)
    requires !disk.Exists(GuiPath(filename)) && FilesList(disk, parse, filename).Ok?
    ensures Create(disk, parse, filename)
         == Created(Pack(disk, [filename] + Scan(disk, parse, filename).value, DirName(filename)))
  {
  }
}
