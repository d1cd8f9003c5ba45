/** Reference scanning of `Document.xml` and `GuiDocument.xml`: the SAX
    content handler `DocumentHandler` and the parser run that feeds it. XML
    tokenising is abstracted: a document is the list of events the parser
    delivers. */
module Xml {
  import opened Outcomes
  import opened Paths
  import opened Os

  /** The file name of the secondary (GUI) manifest next to `Document.xml`. */
  const GuiDocument: string := "GuiDocument.xml"

  /** The GUI manifest both `getFilesList` variants look for beside `filename`. */
  function GuiPath(filename: Path): Path
  {
    Join(DirName(filename), GuiDocument)
  }

  /** The SAX callbacks the handler implements. */
  datatype Event =
    | StartElement(name: string, attrs: map<string, string>)
    | Characters(content: string)
    | EndElement(name: string)

  /** What the SAX parser makes of a file's bytes: every event of a
      well-formed document, or the events it delivered before it found the
      document malformed and raised. */
  datatype Parse = WellFormed(events: seq<Event>) | Malformed(delivered: seq<Event>)

  /** The attribute whose value names a file of the project. */
  const FileAttr: string := "file"

  /** True of an element start that names a file. */
  predicate NamesFile(e: Event)
  {
    e.StartElement? && FileAttr in e.attrs
  }

  /** What one event adds to the handler's list. */
  function Contribution(dirname: Path, e: Event): seq<Path>
  {
    if NamesFile(e) then [Join(dirname, e.attrs[FileAttr])] else []
  }

  /** The handler's list after the events, starting from an empty list. */
  function References(dirname: Path, events: seq<Event>): seq<Path>
  {
    if events == [] then []
    else References(dirname, events[..|events| - 1]) + Contribution(dirname, events[|events| - 1])
  }

  /** The number of elements that carry a `file` attribute. */
  function FileAttrCount(events: seq<Event>): nat
  {
    if events == [] then 0
    else FileAttrCount(events[..|events| - 1]) + (if NamesFile(events[|events| - 1]) then 1 else 0)
  }

  /** The events the parser delivers for the file `f` before it returns or raises. */
  function Delivered(disk: Disk, parse: Bytes -> Parse, f: Path): seq<Event>
  {
    match disk.SaxSource(f)
    case Err(_) => []
    case Ok(bytes) =>
      match parse(bytes)
      case WellFormed(events) => events
      case Malformed(delivered) => delivered
  }

  /** `parser.parse(f)` with a fresh `DocumentHandler(os.path.dirname(f))`:
      the list the handler holds afterwards, or the exception that escapes. */
  function Scan(disk: Disk, parse: Bytes -> Parse, f: Path): Result<seq<Path>>
  {
    match disk.SaxSource(f)
    case Err(e) => Err(e)
    case Ok(bytes) =>
      match parse(bytes)
      case WellFormed(events) => Ok(References(DirName(f), events))
      case Malformed(_) => Err(ParseError(f))
  }

  /** SAX handler collecting the `file` attributes of a manifest, each joined
      onto the manifest's directory. */
  class DocumentHandler {
    var files: seq<Path>
    const dirname: Path

    constructor (dirname: Path)
      ensures this.dirname == dirname && files == []
    {
      this.dirname := dirname;
      files := [];
    }

    method StartElement(name: string, attrs: map<string, string>)
      modifies this
      ensures files == old(files) + Contribution(dirname, Event.StartElement(name, attrs))
    {
      if FileAttr in attrs {
        var item := attrs[FileAttr];
        files := files + [Join(dirname, item)];
      }
    }

    method Characters(content: string)
      ensures files == old(files)
    {
    }

    method EndElement(name: string)
      ensures files == old(files)
    {
    }
  }

  /** `parser.parse(filename)` with `handler` as content handler: obtains
      the input the way `xml.sax` does, then delivers each event to the handler in document order. */
  method ParseFile(fs: FileSystem, parse: Bytes -> Parse, filename: Path, handler: DocumentHandler)
    returns (err: Option<Error>)
    modifies handler
    ensures handler.files == old(handler.files) + References(handler.dirname, Delivered(fs.State(), parse, filename))
    ensures handler.dirname == DirName(filename) ==>
      match Scan(fs.State(), parse, filename)
      case Ok(refs) => err == None && handler.files == old(handler.files) + refs
      case Err(e) => err == Some(e)
  {
    ghost var disk := fs.State();
    var events: seq<Event>;
    match fs.State().SaxSource(filename) {
      case Err(e) =>
        assert References(handler.dirname, Delivered(disk, parse, filename)) == [];
        return Some(e);
      case Ok(bytes) =>
        match parse(bytes) {
          case WellFormed(evs) =>
            events, err := evs, None;
          case Malformed(delivered) =>
            events, err := delivered, Some(ParseError(filename));
        }
    }
    assert events == Delivered(disk, parse, filename);
    assert Scan(disk, parse, filename).Err? ==> err == Some(Scan(disk, parse, filename).error);
    assert Scan(disk, parse, filename).Ok? ==>
      err == None && Scan(disk, parse, filename).value == References(DirName(filename), events);
    Deliver(handler, events);
  }

  /** The parser handing `events` to `handler`, one callback per event. */
  method Deliver(handler: DocumentHandler, events: seq<Event>)
    modifies handler
    ensures handler.files == old(handler.files) + References(handler.dirname, events)
  {
    ghost var start := handler.files;
    for i := 0 to |events|
      invariant handler.files == start + References(handler.dirname, events[..i])
    {
      ReferencesStep(handler.dirname, events, i);
      match events[i] {
        case StartElement(name, attrs) => handler.StartElement(name, attrs);
        case Characters(content) => handler.Characters(content);
        case EndElement(name) => handler.EndElement(name);
      }
    }
    assert events[..|events|] == events;
  }

  /** One more event delivered to the handler. */
  lemma ReferencesStep(dirname: Path, events: seq<Event>, i: nat)
    requires i < |events|
    ensures References(dirname, events[..i + 1]) == References(dirname, events[..i]) + Contribution(dirname, events[i])
  {
    assert events[..i + 1][..i] == events[..i];
  }

  /** The list of a document is the lists of its parts, one after the other. */
  lemma {:induction false} ReferencesAppend(dirname: Path, a: seq<Event>, b: seq<Event>)
    ensures References(dirname, a + b) == References(dirname, a) + References(dirname, b)
    decreases |b|
  {
    if b == [] {
      assert a + b == a;
    } else {
      var ab := a + b;
      assert ab[..|ab| - 1] == a + b[..|b| - 1];
      assert ab[|ab| - 1] == b[|b| - 1];
      ReferencesAppend(dirname, a, b[..|b| - 1]);
      assert References(dirname, ab) == References(dirname, a + b[..|b| - 1]) + Contribution(dirname, b[|b| - 1]);
    }
  }

  /** Event `i` contributes exactly its own reference, at its document
      position: one path for an element with a `file` attribute, none
      otherwise; duplicates are kept. */
  lemma ReferencesAt(dirname: Path, events: seq<Event>, i: nat)
    requires i < |events|
    ensures References(dirname, events)
         == References(dirname, events[..i]) + Contribution(dirname, events[i]) + References(dirname, events[i + 1..])
  {
    var pre, e, post := events[..i], events[i], events[i + 1..];
    assert events == (pre + [e]) + post;
    ReferencesAppend(dirname, pre + [e], post);
    assert (pre + [e])[..|pre|] == pre;
    assert References(dirname, pre + [e]) == References(dirname, pre) + Contribution(dirname, e);
  }

  /** Text and end tags leave the list as it is, wherever they occur. */
  lemma TextAndEndTagsIgnored(dirname: Path, a: seq<Event>, e: Event, b: seq<Event>)
    requires !e.StartElement?
    ensures References(dirname, a + [e] + b) == References(dirname, a + b)
  {
    ReferencesAppend(dirname, a + [e], b);
    ReferencesAppend(dirname, a, b);
    assert (a + [e])[..|a|] == a;
  }

  /** An element with a `file` attribute puts the joined path in the list. */
  lemma ReferenceListed(dirname: Path, events: seq<Event>, i: nat)
    requires i < |events| && NamesFile(events[i])
    ensures Join(dirname, events[i].attrs[FileAttr]) in References(dirname, events)
  {
    ReferencesAt(dirname, events, i);
  }

  /** One path per `file` attribute. */
  lemma {:induction false} ReferencesCount(dirname: Path, events: seq<Event>)
    ensures |References(dirname, events)| == FileAttrCount(events)
    decreases |events|
  {
    if events != [] {
      ReferencesCount(dirname, events[..|events| - 1]);
    }
  }

  /** The document `<Doc><Prop file="x"/><Prop name="y"/><Sub file="z"><Inner file="w"/></Sub></Doc>`. */
  function NestedDoc(x: string, z: string, w: string): seq<Event>
  {
    [StartElement("Doc", map[])]
      + [StartElement("Prop", map[FileAttr := x]), EndElement("Prop")]
      + [StartElement("Prop", map["name" := "y"]), EndElement("Prop")]
      + [StartElement("Sub", map[FileAttr := z])]
      + [StartElement("Inner", map[FileAttr := w]), EndElement("Inner")]
      + [EndElement("Sub"), EndElement("Doc")]
  }

  /** The nested document lists x, z and w in that order, each joined onto
      the directory: an element without a `file` attribute adds nothing and
      nesting does not matter. */
  lemma NestedExample(dirname: Path, x: string, z: string, w: string)
    ensures References(dirname, NestedDoc(x, z, w)) == [Join(dirname, x), Join(dirname, z), Join(dirname, w)]
  {
    var b1 := [StartElement("Doc", map[])];
    var b2 := [StartElement("Prop", map[FileAttr := x]), EndElement("Prop")];
    var b3 := [StartElement("Prop", map["name" := "y"]), EndElement("Prop")];
    var b4 := [StartElement("Sub", map[FileAttr := z])];
    var b5 := [StartElement("Inner", map[FileAttr := w]), EndElement("Inner")];
    var b6 := [EndElement("Sub"), EndElement("Doc")];
    ReferencesOne(dirname, b1[0]);
    ReferencesPair(dirname, b2[0], b2[1]);
    ReferencesPair(dirname, b3[0], b3[1]);
    ReferencesOne(dirname, b4[0]);
    ReferencesPair(dirname, b5[0], b5[1]);
    ReferencesPair(dirname, b6[0], b6[1]);
    ReferencesOfParts(dirname, b1, b2, b3, b4, b5, b6);
  }

  /** The list of six consecutive parts of a document. */
  lemma ReferencesOfParts(dirname: Path, b1: seq<Event>, b2: seq<Event>, b3: seq<Event>,
                          b4: seq<Event>, b5: seq<Event>, b6: seq<Event>)
    ensures References(dirname, b1 + b2 + b3 + b4 + b5 + b6)
         == References(dirname, b1) + References(dirname, b2) + References(dirname, b3)
          + References(dirname, b4) + References(dirname, b5) + References(dirname, b6)
  {
    ReferencesAppend(dirname, b1, b2);
    ReferencesAppend(dirname, b1 + b2, b3);
    ReferencesAppend(dirname, b1 + b2 + b3, b4);
    ReferencesAppend(dirname, b1 + b2 + b3 + b4, b5);
    ReferencesAppend(dirname, b1 + b2 + b3 + b4 + b5, b6);
  }

  lemma ReferencesOne(dirname: Path, e: Event)
    ensures References(dirname, [e]) == Contribution(dirname, e)
  {
    assert [e][..0] == [];
  }

  lemma ReferencesPair(dirname: Path, e1: Event, e2: Event)
    ensures References(dirname, [e1, e2]) == Contribution(dirname, e1) + Contribution(dirname, e2)
  {
    assert [e1, e2][..1] == [e1];
    ReferencesOne(dirname, e1);
  }
}
