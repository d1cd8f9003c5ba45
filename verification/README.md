# FreeCAD project archives (.FCStd): packing and unpacking

A FreeCAD project file (`.FCStd`) is a ZIP archive. It holds the document
manifest `Document.xml`, the optional GUI manifest `GuiDocument.xml`, and
every file a manifest names in a `file` attribute. FreeCAD has two copies of
the pack/unpack code, and they differ:

- `src/Ext/freecad/project_utility.py` scans the GUI manifest's references as
  well. It packs only list members that are regular files, and it names each
  one by its path relative to the manifest's directory.
- `src/Tools/doctools.py` appends only the GUI manifest's path. It does not
  check that members exist, and it names each member by its base name.

The two `DocumentHandler` classes are the same code, and so are the two
`extractDocument` functions. Each is modelled once, in `Xml` and `Extraction`.

Modules:

- `Outcomes`: `Option`, `Result`, and the Python exceptions that can escape.
- `Paths`: `str.split("/")`, `os.path.join`, `dirname`, `split` and `relpath`, for `/`-separated relative names.
- `Os`: the filesystem.
  - `Disk` is its value: regular files with their bytes, plus a set of directories. It has the input `xml.sax` obtains for a path, a strict `os.mkdir`, and `open(..., "wb")`.
  - `FileSystem` is the live object that `os.mkdir` and `open` change in place.
- `Zip`: archive members, `ZipFile.read` (the last member of a name wins), and the three ways `createDocument` can end (no archive, a complete one, a partial one).
- `Xml`: the SAX content handler (`DocumentHandler`, a class with a `files` field), and the parser run that feeds it the events of a file.
- `Extraction`: `extractDocument`.
  - It is a method with nested loops, proved equal to the specification function `ExtractAll`.
  - Lemmas give what extraction creates, writes and leaves alone, and when the strict `os.mkdir` makes it raise.
- `ProjectUtility` and `DocTools`: each has its `getFilesList` and `createDocument`. These are methods proved against the specification functions `FilesList` and `Create`, with lemmas on what the archive holds.
- `RoundTrip`: an archive made by `project_utility.py`'s `createDocument` and unpacked again by its `extractDocument`.

Effects outside the program are explicit:

- The filesystem is a `FileSystem` object passed to each method, built from whatever `Disk` the program starts from.
- The XML parser is a function parameter `parse` from a file's bytes to the events it delivers. A malformed document gives the events delivered before the parser raised.
- An archive is an ordered list of (name, bytes) members.

## Model

| member | source | states |
|---|---|---|
| Paths.Split | src/Ext/freecad/project_utility.py:49 | `file_path.split("/")` never returns an empty list |
| Paths.SplitPieces | src/Ext/freecad/project_utility.py:49 | no piece of a split holds a "/" |
| Paths.JoinSplit | src/Ext/freecad/project_utility.py:49 | joining the pieces of a split with "/" gives the name back |
| Paths.SplitJoin | src/Ext/freecad/project_utility.py:49 | splitting a "/"-join of "/"-free segments gives the segments back |
| Paths.SplitPrefix | src/Ext/freecad/project_utility.py:49 | a "/"-free `a` in front of a string extends the string's first piece and leaves the other pieces alone |
| Paths.SplitConcat | src/Ext/freecad/project_utility.py:49 | for a "/"-free `a`, splitting `a + "/" + b` gives `a`, then the pieces of `b` |
| Paths.Join | src/Ext/freecad/project_utility.py:29 | `os.path.join(d, x)` for a relative `x` is `x` when `d` is empty, and `d + "/" + x` otherwise |
| Paths.DirName | src/Ext/freecad/project_utility.py:86 | `os.path.dirname(p)` is the prefix of `p` before its last "/", or empty when `p` has none |
| Paths.BaseName | src/Tools/doctools.py:66 | `os.path.split(p)[1]` is the "/"-free suffix of `p` after its last "/" |
| Paths.RelPath | src/Ext/freecad/project_utility.py:74 | `os.path.relpath(p, start)` strips `start + "/"` from a `p` inside `start`; any other `p` is returned unchanged |
| Paths.RelPathJoin | src/Ext/freecad/project_utility.py:74 | `relpath(join(d, x), d) == x`: a reference is archived under the name written in the manifest |
| Paths.BaseNameJoin | src/Tools/doctools.py:66 | `os.path.split(join(d, x))[1]` is the last segment of `x`, whatever `d` is |
| Paths.DirNameJoin | src/Ext/freecad/project_utility.py:67-68 | the GUI manifest path `join(dirname, "GuiDocument.xml")` has that directory as its dirname, and the file name as its base name |
| Paths.DirNameChild | src/Ext/freecad/project_utility.py:54 | `dirname(curpath + "/" + dir_name)` is the previous `curpath` |
| Os.Disk.SaxSource | src/Ext/freecad/project_utility.py:88-90 | the parser obtains the bytes of a regular file; any other path (missing or a directory) is handed to `urlopen` and raises ValueError, since a plain path has no URL scheme |
| Os.Disk.FirstNonDir | src/Ext/freecad/project_utility.py:55-56 | resolving a directory path component by component from the top: every component is a directory, or the first one that is not is reported as a regular file (one of the path's `/`-prefixes is then a file) or as missing |
| Os.Disk.LookupError | src/Tools/doctools.py:68 | the exception `os.stat`, `os.mkdir` or `open` raises for a path that resolves to nothing: NotADirectoryError only when a proper `/`-prefix of the path is a regular file, FileNotFoundError otherwise |
| Os.Disk.ParentError | src/Ext/freecad/project_utility.py:55-56 | no exception exactly when the parent is a directory, and otherwise the lookup error of the path |
| Os.FileOnTheWay | src/Tools/doctools.py:68 | on a tree, a path with a regular file among its proper `/`-prefixes raises NotADirectoryError |
| Os.LookupErrorKind | src/Tools/doctools.py:68 | on a tree, the lookup error is NotADirectoryError exactly when a regular file lies on the way to the path, and FileNotFoundError otherwise |
| Os.DirsResolve | src/Ext/freecad/project_utility.py:55-56 | on a tree, every component of an existing directory is a directory |
| Os.FileAncestorResolves | src/Ext/freecad/project_utility.py:55-56 | on a tree, resolution stops at a regular file lying among a path's `/`-prefixes |
| Os.BelowFile | src/Ext/freecad/project_utility.py:55-56 | on a tree, below a regular file nothing exists, and both `os.mkdir` and `open(..., "wb")` raise NotADirectoryError |
| Os.ParentErrorKind | src/Ext/freecad/project_utility.py:55-56 | on a tree, an entry whose parent is not a directory raises NotADirectoryError exactly when a regular file lies on the way to it, and FileNotFoundError otherwise |
| Os.Disk.Mkdir | src/Ext/freecad/project_utility.py:55 | `os.mkdir` succeeds exactly when nothing is at the path and its parent is a directory, and then adds just that directory; when something is there it raises FileExistsError, and otherwise the parent's exception |
| Os.Disk.Write | src/Ext/freecad/project_utility.py:56-57 | `open(p, "wb").write(data)` succeeds exactly when `p` is not a directory and its parent is one, and then sets just `p` to `data` |
| Os.FileSystem.Mkdir | src/Ext/freecad/project_utility.py:55 | the live filesystem becomes what `Disk.Mkdir` gives, or stays unchanged with the exception returned; it stays a tree |
| Os.FileSystem.WriteFile | src/Ext/freecad/project_utility.py:56-57 | the same, for `Disk.Write` |
| Xml.DocumentHandler.constructor | src/Ext/freecad/project_utility.py:20-24 | a new handler holds the given directory and an empty list |
| Xml.DocumentHandler.StartElement | src/Ext/freecad/project_utility.py:26-29 | an element start appends `join(dirname, value)` when it has a `file` attribute, and nothing otherwise; `src/Tools/doctools.py:21-24` is the same code |
| Xml.DocumentHandler.Characters | src/Ext/freecad/project_utility.py:31-32 | text leaves the list unchanged |
| Xml.DocumentHandler.EndElement | src/Ext/freecad/project_utility.py:34-35 | an end tag leaves the list unchanged |
| Xml.Deliver | src/Ext/freecad/project_utility.py:26-35 | handing the events to the handler one callback at a time appends exactly their references, in order |
| Xml.ParseFile | src/Ext/freecad/project_utility.py:88-90 | parsing appends, in document order, the references of the delivered events. With the handler made for the file's directory, the result is the scan's list, or ValueError when the manifest is not a regular file, or the parse exception |
| Xml.ReferencesAppend | src/Ext/freecad/project_utility.py:26-29 | the list of a document is the lists of its parts, concatenated |
| Xml.ReferencesAt | src/Ext/freecad/project_utility.py:26-29 | event `i` contributes exactly its own reference, at its document position; duplicates are kept |
| Xml.TextAndEndTagsIgnored | src/Ext/freecad/project_utility.py:31-35 | removing or inserting text and end tags anywhere does not change the list |
| Xml.ReferenceListed | src/Tools/doctools.py:21-24 | every `file` attribute's joined path is in the list |
| Xml.ReferencesCount | src/Ext/freecad/project_utility.py:26-29 | the list has one path per `file` attribute |
| Xml.NestedExample | src/Ext/freecad/project_utility.py:26-35 | the nested document `<Doc><Prop file="x"/><Prop name="y"/><Sub file="z"><Inner file="w"/></Sub></Doc>` lists `x`, `z`, `w` joined onto the directory, in document order, for any `x`, `z`, `w`; nesting, and elements without `file`, add nothing |
| Zip.ReadMember | src/Ext/freecad/project_utility.py:48 | `zfile.read(name)` gives bytes exactly when some member has that name, and then the bytes of a member of that name |
| Zip.LastIndex | src/Ext/freecad/project_utility.py:48 | the last member carrying member `i`'s name: at or after `i`, and no later member has the name |
| Zip.ReadMemberLast | src/Ext/freecad/project_utility.py:48 | `zfile.read(name)` gives the bytes of the last member of that name |
| Zip.ReadMemberUnique | src/Ext/freecad/project_utility.py:48 | for a name no other member carries, `zfile.read(name)` gives that member's own bytes |
| Extraction.ReadAll | src/Ext/freecad/project_utility.py:45-48 | the members the loop visits: one per `namelist()` entry, in order, with the same names |
| Extraction.ReadAllDistinct | src/Ext/freecad/project_utility.py:45-48 | with distinct names, each member is read with its own bytes |
| Extraction.DuplicateNameRead | src/Ext/freecad/project_utility.py:45-48 | two members of one name are both read with the second one's bytes |
| Extraction.ExtractDocument | src/Ext/freecad/project_utility.py:37-57 | the nested loops leave the filesystem, and raise the exception, given by `ExtractAll` over the members in `namelist()` order, each with the bytes `zfile.read` gives for its name; the filesystem stays a tree; `src/Tools/doctools.py:33-53` is the same code |
| Extraction.MakeDir | src/Ext/freecad/project_utility.py:55 | one directory step: the strict step is `os.mkdir`; the tolerant one skips a directory that is there and is `os.mkdir` otherwise; a step that goes through adds just that directory |
| Extraction.CreateDirs | src/Ext/freecad/project_utility.py:50-55 | the inner loop leaves the filesystem, and raises the exception, given by `MkdirAll` over the member's directories in order; the filesystem stays a tree; `src/Tools/doctools.py:46-51` is the same code |
| Extraction.ExtractStep | src/Ext/freecad/project_utility.py:47-57 | a member that went through extends the run over the earlier members by that member's outcome |
| Extraction.DescendJoin | src/Ext/freecad/project_utility.py:52-54 | `curpath` after `k` directories is `outpath + "/" + ` the first `k` segments joined by "/" |
| Extraction.DirsToCreateAt | src/Ext/freecad/project_utility.py:49-55 | directory `k` of a member is `outpath + "/" + ` its first `k + 1` segments; the remaining segments lead from it to the member's target; it lies below `outpath + "/"` |
| Extraction.DirsToCreateShape | src/Ext/freecad/project_utility.py:49-55 | an N-segment member asks for exactly N-1 directories: its proper prefixes under `outpath`, shortest first, each below `outpath + "/"` and each a prefix of the target |
| Extraction.FirstDir | src/Ext/freecad/project_utility.py:52-55 | the first directory made is `outpath + "/" + ` the first segment |
| Extraction.SingleSegmentNoMkdir | src/Tools/doctools.py:46-53 | a name without "/" creates no directory; the member is only written |
| Extraction.MkdirAllStep | src/Ext/freecad/project_utility.py:53-55 | one more turn of the inner loop is one more directory step |
| Extraction.MkdirAllStops | src/Ext/freecad/project_utility.py:55 | the first `os.mkdir` that raises ends the inner loop |
| Extraction.ExtractAllStops | src/Ext/freecad/project_utility.py:47-57 | the first exception ends the extraction; later members are not touched |
| Extraction.EntryFails | src/Ext/freecad/project_utility.py:47-57 | a member that raises decides the outcome of the whole extraction |
| Extraction.EntryBelowFile | src/Ext/freecad/project_utility.py:49-56 | a member extracted into an `outpath` that is a regular file, or lies below one, raises NotADirectoryError at its first `os.mkdir` or at the `open`, and changes nothing |
| Extraction.ExtractBelowFile | src/Ext/freecad/project_utility.py:47-57 | extraction into such an `outpath` raises NotADirectoryError for the first member, strict or not, and leaves the disk as it was |
| Extraction.MkdirAllEffect | src/Ext/freecad/project_utility.py:53-55 | directory steps only add directories, at most the requested ones. A run that goes through adds all of them, and a strict run goes through only if none of them existed |
| Extraction.EntryEffect | src/Ext/freecad/project_utility.py:49-57 | a processed member leaves its bytes at `outpath + "/" + name` and changes no other file; it adds its directories and no others |
| Extraction.DirsPersist | src/Ext/freecad/project_utility.py:47-55 | directories made for earlier members are still there later |
| Extraction.TargetInjective | src/Ext/freecad/project_utility.py:56 | two members share a target `outpath + "/" + name` only when their names are equal |
| Extraction.ExtractedContents | src/Ext/freecad/project_utility.py:47-57 | after a finished extraction, each member's target holds the bytes `zfile.read` gives for its name |
| Extraction.SameNames | src/Ext/freecad/project_utility.py:49-56 | the directories and targets asked for depend on the member names only, not on their bytes |
| Extraction.ExtractAllContents | src/Ext/freecad/project_utility.py:56-57 | after a finished extraction each member's target holds its bytes, unless a later member of the same name overwrote it |
| Extraction.ExtractStaysUnder | src/Ext/freecad/project_utility.py:52-57 | nothing outside `outpath + "/"` is created, removed or rewritten |
| Extraction.StrictEntryNeedsFreshDirs | src/Ext/freecad/project_utility.py:55 | a member with an already existing directory raises |
| Extraction.TopDirCreated | src/Ext/freecad/project_utility.py:53-55 | a nested member that went through leaves its top-level directory behind |
| Extraction.SharedTopDirFails | src/Tools/doctools.py:49-51 | two members below the same top-level directory make the extraction raise |
| Extraction.DirsToCreateParent | src/Ext/freecad/project_utility.py:53-55 | each requested directory is made inside the one before it, the first inside `outpath` |
| Extraction.TargetParent | src/Ext/freecad/project_utility.py:56 | a member's file goes inside its last directory, or inside `outpath` |
| Extraction.TolerantDirs | src/Ext/freecad/project_utility.py:53-55 | with existing directories tolerated, a member's directories are all made unless one of them is a regular file |
| Extraction.TolerantEntry | src/Ext/freecad/project_utility.py:49-57 | with existing directories tolerated, a member goes through unless a directory of it is a file or its target is a directory |
| Extraction.TolerantExtractSucceeds | src/Ext/freecad/project_utility.py:47-57 | with existing directories tolerated, extraction into a fresh output directory never raises when no member name is a directory prefix of another. It creates nothing below the output directory but the members' directories and files |
| Extraction.TolerantExtractWritesAll | src/Ext/freecad/project_utility.py:56-57 | ... and every member's bytes reach its target, the last of several same-named members winning |
| Extraction.OneDirName | src/Ext/freecad/project_utility.py:49-54 | `a/<name>` splits into `a` and the name, and asks for `outpath/a` only |
| Extraction.FirstSharedMember | src/Ext/freecad/project_utility.py:47-57 | a member `a/x` (with "/"-free `a` and `x`) into an `out` holding nothing makes `out/a` and writes `out/a/x` |
| Extraction.SecondSharedMember | src/Ext/freecad/project_utility.py:53-57 | a member `a/y` after it raises FileExistsError for `out/a` with the strict `os.mkdir`, and is written when existing directories are tolerated |
| Extraction.SharedDirRun | src/Ext/freecad/project_utility.py:47-57 | members `a/x` and `a/y` into an `out` holding nothing: the strict extraction raises FileExistsError for `out/a` with only `out/a` and `out/a/x` created; the tolerant one writes both files |
| Extraction.SharedDirExample | src/Ext/freecad/project_utility.py:47-57 | for `a/x.txt` and `a/y.txt` into `out`, the strict extraction raises FileExistsError for `out/a`, and the tolerant one raises nothing |
| RoundTrip.CorrectedRoundTrip | src/Ext/freecad/project_utility.py:37-75 | with existing directories tolerated, unpacking a created archive into a fresh directory raises nothing and puts every packed regular file's bytes at `out + "/" + ` its path relative to the manifest directory, when files of one relative path agree on their bytes and no member name is a directory prefix of another |
| RoundTrip.StrictRoundTripFails | src/Ext/freecad/project_utility.py:37-75 | as written, unpacking a created archive raises as soon as two of its members lie below one top-level directory |
| ProjectUtility.GetFilesList | src/Ext/freecad/project_utility.py:77-95 | the result is `[filename] + the references`, or ValueError for a manifest that is not a regular file, or the parse exception; the manifest comes first and the length is one plus the number of `file` attributes |
| ProjectUtility.CreateDocument | src/Ext/freecad/project_utility.py:59-75 | the archive is `Create`: both lists are scanned before the archive is opened, then every list member that is a regular file is written under its relative path |
| ProjectUtility.PackStep | src/Ext/freecad/project_utility.py:72-75 | one more turn of the loop adds the member under its relative path when it is a regular file, and nothing otherwise |
| ProjectUtility.PackAppend | src/Ext/freecad/project_utility.py:72-75 | packing a list is packing its parts one after the other |
| ProjectUtility.PackMembers | src/Ext/freecad/project_utility.py:72-75 | the archive holds a member exactly when it is a regular file of the list, with its current bytes, under its path relative to the manifest directory |
| ProjectUtility.PackAllPresent | src/Ext/freecad/project_utility.py:72-75 | when every list member is a regular file, member `i` of the list is member `i` of the archive |
| ProjectUtility.CreateOutcomes | src/Ext/freecad/project_utility.py:66-75 | creation never leaves a partial archive. It fails exactly when a manifest is not a regular file or cannot be parsed, a primary manifest error is the one raised, and missing members are skipped |
| ProjectUtility.ReferenceStoredRelative | src/Ext/freecad/project_utility.py:74-75 | a reference `sub/data.bin` that exists is archived as `sub/data.bin`, not flattened |
| ProjectUtility.GuiListAppended | src/Ext/freecad/project_utility.py:66-70 | with a GUI manifest present, the list is the primary list, then the GUI manifest, then its references; the archive is the two packs concatenated |
| ProjectUtility.GuiManifestIncluded | src/Ext/freecad/project_utility.py:68-75 | with a GUI manifest present, the archive holds it as `GuiDocument.xml`, and holds each of its existing references under the reference's own name |
| ProjectUtility.NoGuiManifest | src/Ext/freecad/project_utility.py:69 | without a GUI manifest, the archive is the primary list's regular files alone |
| DocTools.GetFilesList | src/Tools/doctools.py:71-92 | the result is `[filename] + the references + [GUI manifest path]`, the last present exactly when that path exists; the length is counted from the `file` attributes |
| DocTools.Pack | src/Tools/doctools.py:64-68 | once the archive is open, creation ends with a complete or a partial archive, never with none |
| DocTools.CreateDocument | src/Tools/doctools.py:56-68 | the archive is `Create`: each list member written in order under its base name, a directory as an empty `name/` member, a path that is not there raising its lookup error (NotADirectoryError below a regular file, FileNotFoundError otherwise) with a partial archive left |
| DocTools.Member | src/Tools/doctools.py:66-68 | `compress.write(p, basename(p))` succeeds exactly when `p` exists, and otherwise raises what its `os.stat` raises, the lookup error of `p`; a file gives its bytes under its base name, a directory an empty member `basename + "/"` |
| DocTools.WriteMembers | src/Tools/doctools.py:64-68 | the loop writing the list ends with `Pack` of the list: complete, or partial with the first exception |
| DocTools.WriteStep | src/Tools/doctools.py:65-68 | one more list element adds its member, or ends the pack with its own lookup error |
| DocTools.MemberLookupError | src/Tools/doctools.py:68 | on a tree, writing a path that is not there raises NotADirectoryError exactly when a regular file lies on the way to it, and FileNotFoundError otherwise |
| DocTools.ReferenceBelowManifest | src/Tools/doctools.py:63-68 | for the list `[m, m + "/" + a]` with `m` a regular file, `m` is written under its base name and the reference below it raises NotADirectoryError |
| DocTools.PackStep | src/Tools/doctools.py:65-68 | one more turn of the loop writes one more member or raises |
| DocTools.PackStaysPartial | src/Tools/doctools.py:64-68 | after the first exception no later member is written |
| DocTools.PackCompleteIffAllExist | src/Tools/doctools.py:65-68 | the archive is complete exactly when every list member exists |
| DocTools.PackFlattens | src/Tools/doctools.py:65-68 | a complete archive has one member per list element, in list order, each regular file under its base name with its bytes |
| DocTools.PackStopsAtMissing | src/Tools/doctools.py:65-68 | the first missing member raises its lookup error (NotADirectoryError below a regular file, FileNotFoundError otherwise), and the archive left behind is the complete pack of the members before it: `k` members, each regular file under its base name with its bytes |
| DocTools.SameBaseNameCollides | src/Tools/doctools.py:66-68 | two files with the same base name in different directories get the same member name |
| DocTools.ReferenceFlattened | src/Tools/doctools.py:66-68 | a reference `sub/data.bin` is archived as `data.bin` |
| DocTools.CreateOutcomes | src/Tools/doctools.py:63-68 | creation fails before the archive is opened exactly when the primary manifest is not a regular file or cannot be parsed, and is complete exactly when every list member exists |
| DocTools.GuiContentIgnored | src/Tools/doctools.py:89-91 | the GUI manifest's contents do not affect the list, only its existence does |

## Left out

- The ZIP container is left out: its format, deflate compression, entry metadata, and opening and closing the archive. That includes the ValueError `ZipFile.write` raises for a file whose modification time is before 1980 (the default `strict_timestamps=True`); in `project_utility.py` it would leave a partial archive, which `ProjectUtility.CreateOutcomes` does not cover. An archive is an ordered list of (name, bytes). `zfile.read(name)` is the lookup by name, the last member of that name winning. Every name comes from `namelist()`, so no KeyError arises; a failing read (a corrupt, encrypted or unsupported member) is not modelled. And the archive `createDocument` produces is returned rather than written to `outpath`.
- XML tokenising and well-formedness checking by `xml.sax` are a parameter: the events a file's bytes give.
- `os.path` is modelled for relative `/`-separated names only.
  - Absolute references, `.`, `..` and normalisation are not modelled, nor `relpath`'s `../` answer for a path outside the manifest directory (the model returns such a path unchanged).
  - A path is a string, so `out/sub/` and `out/sub` are different paths. A directory member `sub/` in an archive is therefore written as a file in the model, where Python would raise IsADirectoryError.
- `Extraction.ExtractDocument`, `Extraction.ExtractStaysUnder`: member names are taken literally, so names with empty, `.` or `..` segments (`a//b`, `./x`, `../x`) are not modelled. Python's `os.mkdir("out/..")` raises FileExistsError where the model creates a directory `out/..`, and the tolerant variant would write outside `outpath` in Python. So `ExtractStaysUnder` holds in Python only for names whose segments are non-empty and neither `.` nor `..`.
- `Xml.ParseFile`: a manifest name with a URL scheme (`http://...`, `file:...`), which `urlopen` would fetch, is not modelled; every manifest name is a plain path.
- `zipfile`'s rewriting of archive names is not modelled (it strips a leading `/` and drive letters).
- `src/Ext/freecad/utils_zip.py` (`rewrite`) is not part of this model. It copies an archive member by member, which is the identity on the archive as modelled here.
- Permissions, disk-full and other I/O errors are not modelled. Nor is a failure to open the output archive (for example `outpath` being a directory), or opening a missing or corrupt archive in `extractDocument`.
- Symbolic links are not modelled: `os.path.exists` and `os.path.isfile` see regular files and directories only.
- Concurrency, and files changing between the existence check and the write, are not modelled.
- The round trip as written does not hold, so it is not stated as a positive lemma. In `project_utility.py` the strict `os.mkdir` raises once two members share a top-level directory (`RoundTrip.StrictRoundTripFails`, `Extraction.SharedDirRun`). The corrected round trip, with existing directories tolerated, is `RoundTrip.CorrectedRoundTrip`. In `doctools.py` members are flattened to their base names (`DocTools.SameBaseNameCollides`), so a nested reference does not come back at its path, and no round trip is stated for it.

## Findings

| source | as written | input that shows it | evidently intended | confidence | as-written member | corrected member |
|---|---|---|---|---|---|---|
| src/Ext/freecad/project_utility.py:53-55 | `os.mkdir(curpath)` for every directory prefix of every member, which raises FileExistsError when the directory is already there | members `a/x.txt` and `a/y.txt` extracted into an empty `out`: the second member raises for `out/a`, after the first was written | a directory that an earlier member already created is left alone, so members sharing a directory all extract | not executed | Extraction.SharedDirRun | Extraction.TolerantExtractSucceeds |
| src/Tools/doctools.py:49-51 | the same loop, with the same strict `os.mkdir` | any two members below one top-level directory, such as `a/b/x.txt` and `a/c/z.txt` | the same: existing directories are tolerated | not executed | Extraction.SharedTopDirFails | Extraction.TolerantExtractWritesAll |

`Extraction.ExtractDocument` takes an `existOk` flag:

- `false` is the source as written.
- `true` is the corrected behaviour. A directory that is already there is skipped, as `os.makedirs(..., exist_ok=True)` would do.

The specification functions take the same flag.
