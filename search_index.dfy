/**
 * build/generate-search-index.js: the loop of `processTextFiles` that turns
 * the discovered text files into search documents, the object of index
 * segments that `createAndExportIndex` collects from the FlexSearch export,
 * and the check in `main` that ends the build with exit code 1 when there is
 * no document to index.
 *
 * A discovered file is its base name with its text, or no text when reading
 * it failed. The FlexSearch index is not modelled: what its export reports
 * for a list of documents is a parameter, and a segment's payload is of an
 * arbitrary type `P`.
 */
module SearchIndex {
  import opened Wrappers
  import opened Sequences
  import opened Strings
  import opened Filename
  import opened Issues

  /** A discovered `.txt` file: its base name, and its text if it could be read. */
  datatype SourceFile = SourceFile(name: string, text: Option<string>)

  /** One search document: the descriptor's fields, a sequential id and the trimmed text. */
  datatype Document = Document(
    id: nat,
    filename: string,
    newspaper: string,
    date: string,
    dateDisplay: string,
    pageNumber: nat,
    issueId: string,
    content: string)

  function MakeDocument(id: nat, d: Descriptor, content: string): Document
  {
    Document(id, d.filename, d.newspaper, d.date, d.dateDisplay, d.pageNumber, d.issueId, content)
  }

  /** The descriptor fields a document stores. */
  function Stored(doc: Document): Descriptor
  {
    Descriptor(doc.filename, doc.newspaper, doc.date, doc.dateDisplay, doc.pageNumber, doc.issueId)
  }

  function StoredAll(docs: seq<Document>): (r: seq<Descriptor>)
    ensures |r| == |docs| && forall i :: 0 <= i < |docs| ==> r[i] == Stored(docs[i])
  {
    seq(|docs|, i requires 0 <= i < |docs| => Stored(docs[i]))
  }

  // ---------------------------------------------------------------------------
  // processTextFiles
  // ---------------------------------------------------------------------------

  /** The files skipped so far: unreadable, or with a name that does not parse. */
  function Skipped(files: seq<SourceFile>): nat
  {
    if |files| == 0 then 0
    else
      var last := files[|files| - 1];
      Skipped(files[..|files| - 1]) + (if last.text.None? || Parse(last.name).None? then 1 else 0)
  }

  /**
   * The documents of the files, in discovery order. Each file adds one
   * document or counts as skipped, and a document's id is its position.
   */
  function Documents(files: seq<SourceFile>): (docs: seq<Document>)
    ensures |docs| + Skipped(files) == |files|
    ensures forall i :: 0 <= i < |docs| ==> docs[i].id == i
  {
    if |files| == 0 then []
    else
      var init := Documents(files[..|files| - 1]);
      var last := files[|files| - 1];
      if last.text.None? then init
      else
        match Parse(last.name)
        case None => init
        case Some(d) => init + [MakeDocument(|init|, d, Trim(last.text.value))]
  }

  lemma DocumentsStep(files: seq<SourceFile>, k: nat)
    requires k < |files|
    ensures Documents(files[..k + 1]) ==
      if files[k].text.Some? && Parse(files[k].name).Some?
      then Documents(files[..k]) + [MakeDocument(|Documents(files[..k])|, Parse(files[k].name).value, Trim(files[k].text.value))]
      else Documents(files[..k])
    ensures Skipped(files[..k + 1]) ==
      Skipped(files[..k]) + if files[k].text.Some? && Parse(files[k].name).Some? then 0 else 1
  {
    assert files[..k + 1][..k] == files[..k];
  }

  /**
   * The loop of `processTextFiles`: a file that cannot be read or whose name
   * does not parse increments `errorCount`; any other adds a document whose
   * id is the current length of the list.
   */
  method ProcessTextFiles(files: seq<SourceFile>) returns (documents: seq<Document>, errorCount: nat)
    ensures documents == Documents(files)
    ensures errorCount == Skipped(files)
    ensures |documents| + errorCount == |files|
  {
    documents, errorCount := [], 0;
    for k := 0 to |files|
      invariant documents == Documents(files[..k])
      invariant errorCount == Skipped(files[..k])
    {
      DocumentsStep(files, k);
      var file := files[k];
      if file.text.None? {
        errorCount := errorCount + 1;
        continue;
      }
      var content := Trim(file.text.value);
      var metadata := Parse(file.name);
      if metadata.None? {
        errorCount := errorCount + 1;
        continue;
      }
      documents := documents + [MakeDocument(|documents|, metadata.value, content)];
    }
    assert files[..|files|] == files;
  }

  /** The names of the files that could be read, in order. */
  function ReadableNames(files: seq<SourceFile>): (names: seq<string>)
    ensures |names| <= |files|
  {
    if |files| == 0 then []
    else
      var last := files[|files| - 1];
      ReadableNames(files[..|files| - 1]) + (if last.text.Some? then [last.name] else [])
  }

  function Unreadable(files: seq<SourceFile>): nat
  {
    if |files| == 0 then 0
    else Unreadable(files[..|files| - 1]) + (if files[|files| - 1].text.None? then 1 else 0)
  }

  /**
   * Both builds parse with the same function: the documents store exactly the
   * descriptors the metadata build derives from the readable files, in the
   * same order, and the skipped files are the unreadable ones plus the
   * names the metadata build rejects.
   */
  lemma {:induction false} DocumentsAgree(files: seq<SourceFile>)
    ensures StoredAll(Documents(files)) == Descriptors(ReadableNames(files))
    ensures Skipped(files) == Unreadable(files) + Rejected(ReadableNames(files))
  {
    if |files| > 0 {
      var init, last := files[..|files| - 1], files[|files| - 1];
      DocumentsAgree(init);
      var names := ReadableNames(init);
      if last.text.None? {
        assert ReadableNames(files) == names;
        assert Documents(files) == Documents(init);
      } else {
        var names' := names + [last.name];
        assert ReadableNames(files) == names';
        assert names'[..|names'| - 1] == names;
        match Parse(last.name)
        case None =>
          assert Documents(files) == Documents(init);
          assert Descriptors(names') == Descriptors(names);
        case Some(d) =>
          assert Descriptors(names') == Descriptors(names) + [d];
          assert StoredAll(Documents(files)) == StoredAll(Documents(init)) + [d];
      }
    }
  }

  /** When every file can be read, the two builds see the same pages. */
  lemma SameDescriptors(files: seq<SourceFile>, names: seq<string>)
    requires |names| == |files|
    requires forall i :: 0 <= i < |files| ==> files[i].name == names[i] && files[i].text.Some?
    ensures StoredAll(Documents(files)) == Descriptors(names)
    ensures |Documents(files)| == |Descriptors(names)|
    ensures Skipped(files) == Rejected(names)
  {
    AllReadable(files, names);
    DocumentsAgree(files);
  }

  lemma {:induction false} AllReadable(files: seq<SourceFile>, names: seq<string>)
    requires |names| == |files|
    requires forall i :: 0 <= i < |files| ==> files[i].name == names[i] && files[i].text.Some?
    ensures ReadableNames(files) == names && Unreadable(files) == 0
  {
    if |files| > 0 {
      AllReadable(files[..|files| - 1], names[..|names| - 1]);
      assert names == names[..|names| - 1] + [names[|names| - 1]];
    }
  }

  /**
   * The file a document comes from: it was read, its name parses to the
   * stored fields, and the content is its trimmed text.
   */
  function SourceOf(files: seq<SourceFile>, j: nat): (i: nat)
    requires j < |Documents(files)|
    ensures i < |files| && files[i].text.Some?
    ensures Parse(files[i].name) == Some(Stored(Documents(files)[j]))
    ensures Documents(files)[j].content == Trim(files[i].text.value)
  {
    var init, last := files[..|files| - 1], files[|files| - 1];
    var docs := Documents(init);
    if last.text.None? || Parse(last.name).None? then
      assert Documents(files) == docs;
      var i := SourceOf(init, j);
      assert files[i] == init[i];
      i
    else
      var d := Parse(last.name).value;
      assert Documents(files) == docs + [MakeDocument(|docs|, d, Trim(last.text.value))];
      if j < |docs| then
        var i := SourceOf(init, j);
        assert files[i] == init[i];
        i
      else
        |files| - 1
  }

  /** Documents keep the order in which their files were discovered. */
  lemma {:induction false} SourceOrder(files: seq<SourceFile>, j: nat, j': nat)
    requires j < j' < |Documents(files)|
    ensures SourceOf(files, j) < SourceOf(files, j')
  {
    var init, last := files[..|files| - 1], files[|files| - 1];
    if j' < |Documents(init)| {
      SourceOrder(init, j, j');
    }
  }

  // ---------------------------------------------------------------------------
  // The export
  // ---------------------------------------------------------------------------

  /** One call of the export handler: a segment key and its payload, or null. */
  datatype Segment<P> = Segment(key: string, data: Option<P>)

  function SegmentKey<P>(s: Segment<P>): string { s.key }

  /** `exportedKeys` after the handler has seen `reported`. */
  function ExportMap<P>(reported: seq<Segment<P>>): map<string, Option<P>>
  {
    if |reported| == 0 then map[]
    else
      var last := reported[|reported| - 1];
      ExportMap(reported[..|reported| - 1])[last.key := last.data]
  }

  /** The keys of the object, in the order they were first assigned. */
  function ExportOrder<P>(reported: seq<Segment<P>>): seq<string>
  {
    KeysOf(FirstByKey(reported, SegmentKey), SegmentKey)
  }

  lemma ExportSnoc<P>(reported: seq<Segment<P>>, k: nat)
    requires k < |reported|
    ensures ExportMap(reported[..k + 1]) == ExportMap(reported[..k])[reported[k].key := reported[k].data]
    ensures ExportOrder(reported[..k + 1]) ==
      ExportOrder(reported[..k]) + if reported[k].key in ExportMap(reported[..k]) then [] else [reported[k].key]
  {
    var init := reported[..k];
    assert reported[..k + 1] == init + [reported[k]];
    assert reported[..k + 1][..k] == init;
    ExportKeys(init);
    KeysOfSnoc(FirstByKey(init, SegmentKey), reported[k], SegmentKey);
  }

  /** The object has a key exactly for every key the export reported. */
  lemma {:induction false} ExportKeys<P>(reported: seq<Segment<P>>)
    ensures forall k :: k in ExportMap(reported) <==> k in KeysOf(reported, SegmentKey)
  {
    if |reported| > 0 {
      var init := reported[..|reported| - 1];
      ExportKeys(init);
      KeysOfSnoc(init, reported[|reported| - 1], SegmentKey);
      assert reported == init + [reported[|reported| - 1]];
    }
  }

  /**
   * A key holds the payload of its last report: the parsed data, or null
   * when the export reported null.
   */
  lemma {:induction false} ExportLast<P>(reported: seq<Segment<P>>, i: nat)
    requires i < |reported|
    requires forall j :: i < j < |reported| ==> reported[j].key != reported[i].key
    ensures reported[i].key in ExportMap(reported)
    ensures ExportMap(reported)[reported[i].key] == reported[i].data
  {
    if i < |reported| - 1 {
      var init := reported[..|reported| - 1];
      ExportLast(init, i);
    }
  }

  /** Every key of the object is listed once in the key order, and nothing else is. */
  lemma ExportOrderKeys<P>(reported: seq<Segment<P>>)
    ensures Distinct(ExportOrder(reported))
    ensures forall k :: k in ExportOrder(reported) <==> k in ExportMap(reported)
  {
    FirstByKeyDistinct(reported, SegmentKey);
    FirstByKeyKeys(reported, SegmentKey);
    ExportKeys(reported);
    var r := FirstByKey(reported, SegmentKey);
    forall k | k in KeysOf(reported, SegmentKey) ensures k in ExportOrder(reported) {
      var i :| 0 <= i < |reported| && KeysOf(reported, SegmentKey)[i] == k;
    }
    forall k | k in ExportOrder(reported) ensures k in KeysOf(reported, SegmentKey) {
      var i :| 0 <= i < |r| && ExportOrder(reported)[i] == k;
    }
  }

  /** The export handler of `createAndExportIndex`, run over the reported segments. */
  method ExportSegments<P>(reported: seq<Segment<P>>) returns (keys: map<string, Option<P>>, keyOrder: seq<string>)
    ensures keys == ExportMap(reported)
    ensures keyOrder == ExportOrder(reported)
  {
    keys, keyOrder := map[], [];
    for k := 0 to |reported|
      invariant keys == ExportMap(reported[..k])
      invariant keyOrder == ExportOrder(reported[..k])
    {
      ExportSnoc(reported, k);
      var segment := reported[k];
      if segment.key !in keys {
        keyOrder := keyOrder + [segment.key];
      }
      keys := keys[segment.key := segment.data];
    }
    assert reported[..|reported|] == reported;
  }

  // ---------------------------------------------------------------------------
  // The written index and main
  // ---------------------------------------------------------------------------

  datatype DocumentConfig = DocumentConfig(id: string, index: seq<string>, store: seq<string>)

  datatype FlexConfig = FlexConfig(tokenize: string, resolution: nat, document: DocumentConfig)

  /** `CONFIG.flexsearch`, written into the index file unchanged. */
  const Config: FlexConfig := FlexConfig("strict", 3, DocumentConfig(
    "id",
    ["content", "newspaper"],
    ["filename", "newspaper", "date", "dateDisplay", "pageNumber", "issueId"]))

  const IndexVersion: string := "1.0"

  /** The written index file, without its `generated` time stamp. */
  datatype IndexFile<P> = IndexFile(
    version: string,
    documentCount: nat,
    config: FlexConfig,
    keys: map<string, Option<P>>,
    keyOrder: seq<string>)

  /** `createAndExportIndex`, given what the export reports for the documents. */
  method CreateIndexFile<P>(documents: seq<Document>, exportOf: seq<Document> -> seq<Segment<P>>)
    returns (file: IndexFile<P>)
    ensures file.version == IndexVersion && file.config == Config
    ensures file.documentCount == |documents|
    ensures forall k :: k in file.keys <==> k in KeysOf(exportOf(documents), SegmentKey)
    ensures Distinct(file.keyOrder) && forall k :: k in file.keyOrder <==> k in file.keys
    ensures file.keys == ExportMap(exportOf(documents))
  {
    var keys, keyOrder := ExportSegments(exportOf(documents));
    ExportKeys(exportOf(documents));
    ExportOrderKeys(exportOf(documents));
    file := IndexFile(IndexVersion, |documents|, Config, keys, keyOrder);
  }

  datatype BuildOutcome<P> = BuildOutcome(exitCode: int, written: Option<IndexFile<P>>)

  /**
   * `main`: no document to index ends the build with exit code 1 and
   * writes nothing; otherwise the index file is written for the documents.
   */
  method RunSearchBuild<P>(files: seq<SourceFile>, exportOf: seq<Document> -> seq<Segment<P>>)
    returns (outcome: BuildOutcome<P>)
    ensures outcome.exitCode == 0 || outcome.exitCode == 1
    ensures outcome.exitCode == 1 <==> Skipped(files) == |files|
    ensures outcome.written.None? <==> outcome.exitCode == 1
    ensures outcome.written.Some? ==>
      && outcome.written.value.documentCount == |Documents(files)| > 0
      && outcome.written.value.keys == ExportMap(exportOf(Documents(files)))
      && outcome.written.value.config == Config
  {
    var documents, _ := ProcessTextFiles(files);
    if |documents| == 0 {
      return BuildOutcome(1, None);
    }
    var file := CreateIndexFile(documents, exportOf);
    return BuildOutcome(0, Some(file));
  }
}
