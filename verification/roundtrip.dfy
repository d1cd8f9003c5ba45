/** An archive made by `createDocument` of `src/Ext/freecad/project_utility.py`
    and unpacked again by `extractDocument`. */
module RoundTrip {
  import opened Paths
  import opened Os
  import opened Zip
  import opened Xml
  import opened Extraction
  import opened ProjectUtility

  /** With existing directories tolerated, unpacking the archive into a fresh
      output directory puts the bytes of every packed regular file `p` at
      `out + "/" + relpath(p, dirname)`, provided no two listed files with
      different bytes share that relative path and no member name is a
      directory prefix of another. */
  lemma CorrectedRoundTrip(disk: Disk, parse: Bytes -> Parse, filename: Path, d: Disk, out: Path, p: Path)
    requires Create(disk, parse, filename).Created?
    requires FreshOut(d, out)
    requires AllTargets(out, Create(disk, parse, filename).archive) !! AllDirs(out, Create(disk, parse, filename).archive)
    requires p in FileSet(disk, parse, filename).value && disk.IsFile(p)
    requires forall q ::
               (q in FileSet(disk, parse, filename).value && disk.IsFile(q)
                && RelPath(q, DirName(filename)) == RelPath(p, DirName(filename)))
               ==> disk.files[q] == disk.files[p]
    ensures ExtractAll(d, out, ReadAll(Create(disk, parse, filename).archive), true).err.None?
    ensures Target(out, RelPath(p, DirName(filename)))
              in ExtractAll(d, out, ReadAll(Create(disk, parse, filename).archive), true).disk.files
    ensures ExtractAll(d, out, ReadAll(Create(disk, parse, filename).archive), true).disk.files[Target(out, RelPath(p, DirName(filename)))]
         == disk.files[p]
  {
    var dn := DirName(filename);
    var files := FileSet(disk, parse, filename).value;
    var a := Create(disk, parse, filename).archive;
    assert a == Pack(disk, files, dn);
    var r := ReadAll(a);
    SameNames(out, r, a);
    TolerantExtractSucceeds(d, out, r);
    var e := Entry(RelPath(p, dn), disk.files[p]);
    PackMembers(disk, files, dn, e);
    var i :| 0 <= i < |a| && a[i] == e;
    ExtractedContents(d, out, a, true, i);
    var bytes := ReadMember(a, e.name).value;
    var k :| 0 <= k < |a| && a[k] == Entry(e.name, bytes);
    PackMembers(disk, files, dn, a[k]);
  }

  /** As written, with the strict `os.mkdir`, the round trip fails as soon as
      two packed files lie below one top-level directory of the manifest's
      directory: unpacking raises. */
  lemma StrictRoundTripFails(disk: Disk, parse: Bytes -> Parse, filename: Path, d: Disk, out: Path, i: nat, j: nat)
    requires Create(disk, parse, filename).Created?
    requires i < j < |Create(disk, parse, filename).archive|
    requires |Split(Create(disk, parse, filename).archive[i].name)| > 1
    requires |Split(Create(disk, parse, filename).archive[j].name)| > 1
    requires Split(Create(disk, parse, filename).archive[i].name)[0] == Split(Create(disk, parse, filename).archive[j].name)[0]
    ensures ExtractAll(d, out, ReadAll(Create(disk, parse, filename).archive), false).err.Some?
  {
    var a := Create(disk, parse, filename).archive;
    SharedTopDirFails(d, out, ReadAll(a), i, j);
  }
}
