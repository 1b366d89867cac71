/**
 * harvest/harvester.go: for each input record, fetch the Internet Archive metadata, decide
 * which files to download, record an audit entry, and download the selected files and the
 * WorldCat record into a numbered subdirectory.
 *
 * Side effects are not performed; each operation returns the effects it would perform, in
 * order. HTTP GET is the abstract function `fetch` (url to body) and JSON decoding of a
 * metadata body is the abstract function `parse` (`None` when the body does not decode).
 */
module Harvest {
  import opened Wrappers
  import opened Types
  import opened Text
  import FileReader

  const CreateCsv := true
  const IArchiveOutputFile := "iarchive.json"
  const WorldCatOutputFile := "worldcat.xml"
  const IArchiveType := "iArchiveFile"
  const WorldcatType := "worldcat"
  const AuditFileLocation := "../audit.log"
  const WorldCatBase := "http://www.worldcat.org/webservices/catalog/content/"

  /** A file-system or audit-log action of a harvest run. */
  datatype Effect =
    | MakeDirectory(path: string)
      /** the body fetched from `url` is written to `directory + "/" + fileName` */
    | WriteFile(directory: string, fileName: string, url: string)
    | AppendAudit(entry: Audit)
      /** the audit log named `logFile` is converted to its tab-delimited csv file */
    | ConvertAuditLog(logFile: string)

  // ---------------------------------------------------------------------------
  // URLs
  // ---------------------------------------------------------------------------

  /**
   * createIArchiveFileUrl: the first "details" of the identifier becomes "download", then
   * "/" and the file name are appended.
   */
  function IArchiveFileUrl(iarchiveId: string, name: string): (url: string)
    ensures EndsWith(url, "/" + name)
    ensures Absent(iarchiveId, "details") ==> url == iarchiveId + "/" + name
    ensures forall i: nat :: FirstOccurrence(iarchiveId, "details", i) ==>
              url == iarchiveId[..i] + "download" + iarchiveId[i + 7..] + "/" + name
  {
    var url := ReplaceFirst(iarchiveId, "details", "download");
    url + "/" + name
  }

  /** createWorldCatMetadataUrl: the catalog content endpoint for the accession number, keyed by `wskey`. */
  function WorldCatMetadataUrl(accession: string, wskey: string): (url: string)
    ensures |url| == |WorldCatBase| + |accession| + 7 + |wskey|
    ensures url[..|WorldCatBase|] == WorldCatBase
    ensures url[|WorldCatBase|..|WorldCatBase| + |accession|] == accession
    ensures EndsWith(url, "?wskey=" + wskey)
  {
    WorldCatBase + accession + "?wskey=" + wskey
  }

  /**
   * The metadata endpoint requested by getIarchiveMetadata: the first "details" of the
   * identifier becomes "metadata"; the text before and after it is unchanged.
   */
  function MetadataUrl(iarchiveId: string): (url: string)
    ensures Absent(iarchiveId, "details") ==> url == iarchiveId
    ensures forall i: nat :: FirstOccurrence(iarchiveId, "details", i) ==>
              && |url| == |iarchiveId| + 1
              && url[..i] == iarchiveId[..i]
              && url[i..i + 8] == "metadata"
              && url[i + 8..] == iarchiveId[i + 7..]
  {
    ReplaceFirst(iarchiveId, "details", "metadata")
  }

  // ---------------------------------------------------------------------------
  // Data sources
  // ---------------------------------------------------------------------------

  /** The two file formats that are downloaded from the Internet Archive. */
  predicate Accepted(format: string) {
    format == "Text PDF" || format == "DjVuTXT"
  }

  function IArchiveSource(file: IArchiveFile, iarchiveId: string, oclcNumber: string): DataSource {
    DataSource(file.name, oclcNumber, IArchiveType, iarchiveId)
  }

  /** The WorldCat source appended for every record. */
  function WorldcatSource(oclcNumber: string): DataSource {
    DataSource(oclcNumber, oclcNumber, WorldcatType, "")
  }

  /** The sources one "files" entry contributes: one per matching format test, as the loop body appends them. */
  function FileSources(file: IArchiveFile, iarchiveId: string, oclcNumber: string): seq<DataSource> {
    (if file.format == "Text PDF" then [IArchiveSource(file, iarchiveId, oclcNumber)] else []) +
    (if file.format == "DjVuTXT" then [IArchiveSource(file, iarchiveId, oclcNumber)] else [])
  }

  /** The sources selected from a list of "files" entries, in list order. */
  function SelectSources(files: seq<IArchiveFile>, iarchiveId: string, oclcNumber: string): seq<DataSource> {
    if |files| == 0 then []
    else SelectSources(files[..|files| - 1], iarchiveId, oclcNumber) + FileSources(files[|files| - 1], iarchiveId, oclcNumber)
  }

  /** The indices of the entries whose format is accepted, in increasing order. */
  function AcceptedIndices(files: seq<IArchiveFile>): (idx: seq<nat>)
    ensures forall k :: 0 <= k < |idx| ==> idx[k] < |files|
  {
    if |files| == 0 then []
    else AcceptedIndices(files[..|files| - 1]) + (if Accepted(files[|files| - 1].format) then [|files| - 1] else [])
  }

  /** A file contributes one source when its format is accepted and none otherwise. */
  lemma FileSourcesAtMostOne(file: IArchiveFile, iarchiveId: string, oclcNumber: string)
    ensures FileSources(file, iarchiveId, oclcNumber) ==
              if Accepted(file.format) then [IArchiveSource(file, iarchiveId, oclcNumber)] else []
  {
    assert "Text PDF" != "DjVuTXT" by { assert |"Text PDF"| != |"DjVuTXT"|; }
  }

  /** One more entry adds its source, and its index, exactly when its format is accepted. */
  lemma SelectSourcesSnoc(files: seq<IArchiveFile>, iarchiveId: string, oclcNumber: string)
    requires |files| > 0
    ensures var init, last := files[..|files| - 1], files[|files| - 1];
            && SelectSources(files, iarchiveId, oclcNumber) ==
                 SelectSources(init, iarchiveId, oclcNumber)
                 + (if Accepted(last.format) then [IArchiveSource(last, iarchiveId, oclcNumber)] else [])
            && AcceptedIndices(files) == AcceptedIndices(init) + (if Accepted(last.format) then [|files| - 1] else [])
  {
    FileSourcesAtMostOne(files[|files| - 1], iarchiveId, oclcNumber);
  }

  /** There are as many sources as accepted entries. */
  lemma {:induction false} SelectSourcesLength(files: seq<IArchiveFile>, iarchiveId: string, oclcNumber: string)
    ensures |SelectSources(files, iarchiveId, oclcNumber)| == |AcceptedIndices(files)| <= |files|
  {
    if |files| > 0 {
      SelectSourcesSnoc(files, iarchiveId, oclcNumber);
      SelectSourcesLength(files[..|files| - 1], iarchiveId, oclcNumber);
    }
  }

  /** The k-th source comes from the k-th accepted entry. */
  lemma {:induction false} SelectSourcesContent(files: seq<IArchiveFile>, iarchiveId: string, oclcNumber: string)
    ensures var r, idx := SelectSources(files, iarchiveId, oclcNumber), AcceptedIndices(files);
            forall k :: 0 <= k < |idx| ==> k < |r| && Accepted(files[idx[k]].format) && r[k] == IArchiveSource(files[idx[k]], iarchiveId, oclcNumber)
  {
    if |files| > 0 {
      var init := files[..|files| - 1];
      SelectSourcesSnoc(files, iarchiveId, oclcNumber);
      SelectSourcesLength(init, iarchiveId, oclcNumber);
      SelectSourcesContent(init, iarchiveId, oclcNumber);
      var r0, idx0 := SelectSources(init, iarchiveId, oclcNumber), AcceptedIndices(init);
      var r, idx := SelectSources(files, iarchiveId, oclcNumber), AcceptedIndices(files);
      forall k | 0 <= k < |idx|
        ensures k < |r| && Accepted(files[idx[k]].format) && r[k] == IArchiveSource(files[idx[k]], iarchiveId, oclcNumber)
      {
        if k < |idx0| {
          assert idx[k] == idx0[k] && r[k] == r0[k];
          assert files[idx0[k]] == init[idx0[k]];
        }
      }
    }
  }

  /** The accepted indices are strictly increasing and cover every accepted entry. */
  lemma {:induction false} AcceptedIndicesOrdered(files: seq<IArchiveFile>)
    ensures var idx := AcceptedIndices(files);
            && (forall k, l :: 0 <= k < l < |idx| ==> idx[k] < idx[l])
            && (forall i :: 0 <= i < |files| && Accepted(files[i].format) ==> i in idx)
  {
    if |files| > 0 {
      var init := files[..|files| - 1];
      SelectSourcesSnoc(files, "", "");
      AcceptedIndicesOrdered(init);
      var idx0, idx := AcceptedIndices(init), AcceptedIndices(files);
      forall i | 0 <= i < |files| && Accepted(files[i].format) ensures i in idx {
        if i < |init| {
          assert init[i] == files[i];
          assert i in idx0;
        }
      }
    }
  }

  /**
   * The selected sources are exactly the accepted entries, in document order: the k-th
   * source comes from the k-th accepted entry, every accepted entry gives one, and each
   * is an Internet Archive source with the record's identifier and OCLC number.
   */
  lemma SelectSourcesSpec(files: seq<IArchiveFile>, iarchiveId: string, oclcNumber: string)
    ensures var r, idx := SelectSources(files, iarchiveId, oclcNumber), AcceptedIndices(files);
            && |r| == |idx| <= |files|
            && (forall k :: 0 <= k < |idx| ==> Accepted(files[idx[k]].format) && r[k] == IArchiveSource(files[idx[k]], iarchiveId, oclcNumber))
            && (forall k, l :: 0 <= k < l < |idx| ==> idx[k] < idx[l])
            && (forall i :: 0 <= i < |files| && Accepted(files[i].format) ==> i in idx)
  {
    SelectSourcesLength(files, iarchiveId, oclcNumber);
    SelectSourcesContent(files, iarchiveId, oclcNumber);
    AcceptedIndicesOrdered(files);
  }

  /** A file list with formats "Text PDF", "JPEG", "DjVuTXT" and "Metadata" yields two sources. */
  lemma FourFormatsGiveTwoSources(id: string, oclc: string)
    ensures var files := [IArchiveFile("a.pdf", "Text PDF"), IArchiveFile("a.jpg", "JPEG"),
                          IArchiveFile("a.txt", "DjVuTXT"), IArchiveFile("a_meta.xml", "Metadata")];
            SelectSources(files, id, oclc) ==
              [DataSource("a.pdf", oclc, IArchiveType, id), DataSource("a.txt", oclc, IArchiveType, id)]
  {
    var files := [IArchiveFile("a.pdf", "Text PDF"), IArchiveFile("a.jpg", "JPEG"),
                  IArchiveFile("a.txt", "DjVuTXT"), IArchiveFile("a_meta.xml", "Metadata")];
    var a := DataSource("a.pdf", oclc, IArchiveType, id);
    var b := DataSource("a.txt", oclc, IArchiveType, id);
    forall k | 0 <= k < 4 { FileSourcesAtMostOne(files[k], id, oclc); }
    assert SelectSources(files[..0], id, oclc) == [];
    assert files[..1][..0] == files[..0];
    assert SelectSources(files[..1], id, oclc) == [a];
    assert files[..2][..1] == files[..1];
    assert SelectSources(files[..2], id, oclc) == [a];
    assert files[..3][..2] == files[..2];
    assert SelectSources(files[..3], id, oclc) == [a, b];
    assert files[..3] == files[..|files| - 1];
    assert SelectSources(files, id, oclc) == [a, b];
  }

  /** The Internet Archive sources of a record; none when the metadata did not decode. */
  function IArchiveSources(iarchiveId: string, oclcNumber: string, doc: Option<Doc>): seq<DataSource> {
    match doc
    case None => []
    case Some(d) => SelectSources(d.files, iarchiveId, oclcNumber)
  }

  /** The audit entry for a record whose metadata decoded. */
  function AuditEntry(title: string, iarchiveId: string, oclcNumber: string, metadata: Metadata, directory: string): Audit {
    Audit(title, metadata.creator, metadata.date, metadata.description, iarchiveId, oclcNumber, directory)
  }

  /** The audit effects of a record: one entry when the metadata decoded, none otherwise. */
  function AuditEffects(title: string, iarchiveId: string, oclcNumber: string, doc: Option<Doc>, directory: string): seq<Effect> {
    match doc
    case None => []
    case Some(d) => [AppendAudit(AuditEntry(title, iarchiveId, oclcNumber, d.metadata, directory))]
  }

  /**
   * readIAJsonResponse: when the body does not decode, no sources and no audit entry;
   * otherwise one audit entry, recorded before the files are scanned, and the sources
   * selected from the "files" list.
   */
  method ReadIAJsonResponse(title: string, iarchiveId: string, oclcNumber: string, doc: Option<Doc>, directory: string)
    returns (sources: seq<DataSource>, audit: seq<Effect>)
    ensures doc.None? ==> sources == [] && audit == []
    ensures doc.Some? ==> sources == SelectSources(doc.value.files, iarchiveId, oclcNumber)
    ensures doc.Some? ==> audit == [AppendAudit(Audit(title, doc.value.metadata.creator, doc.value.metadata.date,
                                                      doc.value.metadata.description, iarchiveId, oclcNumber, directory))]
  {
    sources := [];
    audit := [];
    if doc.None? {
      return;
    }
    var metadata := doc.value.metadata;
    var auditEntry := Audit(title, metadata.creator, metadata.date, metadata.description, iarchiveId, oclcNumber, directory);
    audit := audit + [UpdateAudit(auditEntry)];
    var files := doc.value.files;
    for i := 0 to |files|
      invariant sources == SelectSources(files[..i], iarchiveId, oclcNumber)
    {
      var file := files[i];
      assert files[..i + 1][..i] == files[..i];
      if file.format == "Text PDF" {
        sources := sources + [DataSource(file.name, oclcNumber, IArchiveType, iarchiveId)];
      }
      if file.format == "DjVuTXT" {
        sources := sources + [DataSource(file.name, oclcNumber, IArchiveType, iarchiveId)];
      }
    }
    assert files[..|files|] == files;
  }

  /** updateAudit: appending one entry to the audit log, which appends that entry and creates no directory. */
  function UpdateAudit(entry: Audit): (e: Effect)
    ensures AuditEntries([e]) == [entry]
    ensures Directories([e]) == []
  {
    Singleton(AppendAudit(entry));
    AppendAudit(entry)
  }

  /**
   * The text one audit entry adds to the audit log (updateAudit's write): its JSON encoding
   * and a newline; a JSON encoding without line breaks scans back as exactly that one line.
   */
  function AuditLine(marshal: Audit -> string, entry: Audit): (line: string)
    ensures |line| > 0 && line[|line| - 1] == '\n'
    ensures LineSafe(marshal(entry)) ==> ScanLines(line) == [marshal(entry)]
  {
    if LineSafe(marshal(entry)) then
      ScanLinesOneLine(marshal(entry));
      marshal(entry) + "\n"
    else marshal(entry) + "\n"
  }

  /**
   * setDataSources: the Internet Archive sources followed by exactly one WorldCat source for
   * the record's OCLC number, also when the metadata did not decode.
   */
  method SetDataSources(title: string, oclcNumber: string, iarchiveId: string, doc: Option<Doc>, directory: string)
    returns (sources: seq<DataSource>, audit: seq<Effect>)
    ensures |sources| == |IArchiveSources(iarchiveId, oclcNumber, doc)| + 1
    ensures sources[..|sources| - 1] == IArchiveSources(iarchiveId, oclcNumber, doc)
    ensures sources[|sources| - 1] == DataSource(oclcNumber, oclcNumber, WorldcatType, "")
    ensures audit == AuditEffects(title, iarchiveId, oclcNumber, doc, directory)
  {
    var iArchiveSourceFiles;
    iArchiveSourceFiles, audit := ReadIAJsonResponse(title, iarchiveId, oclcNumber, doc, directory);
    var oclcSource := DataSource(oclcNumber, oclcNumber, WorldcatType, "");
    sources := iArchiveSourceFiles + [oclcSource];
  }

  /** The sources of a record as setDataSources builds them. */
  function RecordSources(iarchiveId: string, oclcNumber: string, doc: Option<Doc>): seq<DataSource> {
    IArchiveSources(iarchiveId, oclcNumber, doc) + [WorldcatSource(oclcNumber)]
  }

  /**
   * getIarchiveMetadata: the body fetched from the metadata URL is first written to
   * "iarchive.json" in the record's directory, then decoded into the record's sources and audit entry.
   */
  method GetIarchiveMetadata(title: string, iarchiveId: string, oclcNumber: string, outputDirectory: string,
                             directory: string, fetch: string -> Bytes, parse: Bytes -> Option<Doc>)
    returns (sources: seq<DataSource>, effects: seq<Effect>)
    ensures var doc := parse(fetch(MetadataUrl(iarchiveId)));
            && sources == RecordSources(iarchiveId, oclcNumber, doc)
            && effects == [WriteFile(outputDirectory, IArchiveOutputFile, MetadataUrl(iarchiveId))]
                          + AuditEffects(title, iarchiveId, oclcNumber, doc, directory)
  {
    var url := ReplaceFirst(iarchiveId, "details", "metadata");
    var body := fetch(url);
    effects := [WriteFile(outputDirectory, IArchiveOutputFile, url)];
    var audit;
    sources, audit := SetDataSources(title, oclcNumber, iarchiveId, parse(body), directory);
    assert sources == sources[..|sources| - 1] + [sources[|sources| - 1]];
    effects := effects + audit;
  }

  /** The writes one source causes (downloadDataSources' loop body). */
  function SourceWrites(outputDirectory: string, each: DataSource, wskey: string): seq<Effect> {
    (if each.source == WorldcatType && wskey != "" && |each.oclcNumber| > 4
     then [WriteFile(outputDirectory, WorldCatOutputFile, WorldCatMetadataUrl(each.oclcNumber, wskey))]
     else []) +
    (if each.source == IArchiveType
     then [WriteFile(outputDirectory, each.file, IArchiveFileUrl(each.baseUrl, each.file))]
     else [])
  }

  /** The writes of downloadDataSources, in source order. */
  function DownloadPlan(outputDirectory: string, sources: seq<DataSource>, wskey: string): seq<Effect> {
    if |sources| == 0 then []
    else DownloadPlan(outputDirectory, sources[..|sources| - 1], wskey) + SourceWrites(outputDirectory, sources[|sources| - 1], wskey)
  }

  /**
   * downloadDataSources: a WorldCat source is fetched into "worldcat.xml" only with a
   * non-empty key and an OCLC number longer than four characters; an Internet Archive source
   * is fetched into its own file name; any other source is ignored. Downloads run one after
   * another (each GET returns before the next starts).
   */
  method DownloadDataSources(outputDirectory: string, sources: seq<DataSource>, wskey: string)
    returns (writes: seq<Effect>)
    ensures writes == DownloadPlan(outputDirectory, sources, wskey)
  {
    writes := [];
    for i := 0 to |sources|
      invariant writes == DownloadPlan(outputDirectory, sources[..i], wskey)
    {
      var each := sources[i];
      assert sources[..i + 1][..i] == sources[..i];
      if each.source == WorldcatType {
        if wskey != "" && |each.oclcNumber| > 4 {
          var url := WorldCatMetadataUrl(each.oclcNumber, wskey);
          writes := writes + [WriteFile(outputDirectory, WorldCatOutputFile, url)];
        }
      }
      if each.source == IArchiveType {
        var url := IArchiveFileUrl(each.baseUrl, each.file);
        writes := writes + [WriteFile(outputDirectory, each.file, url)];
      }
    }
    assert sources[..|sources|] == sources;
  }

  /**
   * One source's writes: a WorldCat source gives the "worldcat.xml" write exactly when the
   * key is non-empty and the OCLC number is longer than four characters, an Internet Archive
   * source gives exactly one write under its own name, and any other kind gives nothing.
   */
  lemma SourceWritesRule(outputDirectory: string, each: DataSource, wskey: string)
    ensures |SourceWrites(outputDirectory, each, wskey)| <= 1
    ensures each.source == WorldcatType ==>
              (SourceWrites(outputDirectory, each, wskey) != [] <==> wskey != "" && |each.oclcNumber| > 4)
    ensures each.source == WorldcatType && SourceWrites(outputDirectory, each, wskey) != [] ==>
              SourceWrites(outputDirectory, each, wskey) ==
                [WriteFile(outputDirectory, WorldCatOutputFile, WorldCatBase + each.oclcNumber + "?wskey=" + wskey)]
    ensures each.source == IArchiveType ==>
              SourceWrites(outputDirectory, each, wskey) ==
                [WriteFile(outputDirectory, each.file, IArchiveFileUrl(each.baseUrl, each.file))]
    ensures each.source != WorldcatType && each.source != IArchiveType ==>
              SourceWrites(outputDirectory, each, wskey) == []
  {
    assert WorldcatType != IArchiveType by { assert |WorldcatType| != |IArchiveType|; }
  }

  lemma DownloadPlanUnfold(outputDirectory: string, sources: seq<DataSource>, wskey: string)
    requires |sources| > 0
    ensures DownloadPlan(outputDirectory, sources, wskey) ==
              DownloadPlan(outputDirectory, sources[..|sources| - 1], wskey) + SourceWrites(outputDirectory, sources[|sources| - 1], wskey)
  {
  }

  /** Downloads follow source order: the plan for concatenated source lists is the concatenated plans. */
  lemma {:induction false} DownloadPlanAppend(outputDirectory: string, a: seq<DataSource>, b: seq<DataSource>, wskey: string)
    ensures DownloadPlan(outputDirectory, a + b, wskey) == DownloadPlan(outputDirectory, a, wskey) + DownloadPlan(outputDirectory, b, wskey)
  {
    if |b| == 0 {
      assert a + b == a;
    } else {
      var b', x := b[..|b| - 1], b[|b| - 1];
      var ab := a + b;
      assert ab[..|ab| - 1] == a + b' && ab[|ab| - 1] == x;
      var pa, pb' := DownloadPlan(outputDirectory, a, wskey), DownloadPlan(outputDirectory, b', wskey);
      var w := SourceWrites(outputDirectory, x, wskey);
      Text.Associative(pa, pb', w);
      DownloadPlanAppend(outputDirectory, a, b', wskey);
      DownloadPlanUnfold(outputDirectory, ab, wskey);
      DownloadPlanUnfold(outputDirectory, b, wskey);
    }
  }

  /** Every write of a plan goes to the given directory. */
  predicate AllWritesIn(effects: seq<Effect>, directory: string) {
    forall k :: 0 <= k < |effects| && effects[k].WriteFile? ==> effects[k].directory == directory
  }

  lemma {:induction false} DownloadPlanInDirectory(outputDirectory: string, sources: seq<DataSource>, wskey: string)
    ensures AllWritesIn(DownloadPlan(outputDirectory, sources, wskey), outputDirectory)
    ensures forall k :: 0 <= k < |DownloadPlan(outputDirectory, sources, wskey)| ==> DownloadPlan(outputDirectory, sources, wskey)[k].WriteFile?
  {
    if |sources| > 0 {
      DownloadPlanInDirectory(outputDirectory, sources[..|sources| - 1], wskey);
    }
  }

  /**
   * The downloads of the selected Internet Archive sources: one write per selected source, in
   * order, named by the source's file and fetched from its download URL.
   */
  lemma {:induction false} DownloadSelected(outputDirectory: string, files: seq<IArchiveFile>, iarchiveId: string, oclcNumber: string, wskey: string)
    ensures var sel := SelectSources(files, iarchiveId, oclcNumber);
            var plan := DownloadPlan(outputDirectory, sel, wskey);
            && |plan| == |sel|
            && forall k :: 0 <= k < |sel| ==> plan[k] == WriteFile(outputDirectory, sel[k].file, IArchiveFileUrl(iarchiveId, sel[k].file))
  {
    if |files| > 0 {
      var init := files[..|files| - 1];
      var last := files[|files| - 1];
      var sel, sel0 := SelectSources(files, iarchiveId, oclcNumber), SelectSources(init, iarchiveId, oclcNumber);
      SelectSourcesSnoc(files, iarchiveId, oclcNumber);
      DownloadSelected(outputDirectory, init, iarchiveId, oclcNumber, wskey);
      if Accepted(last.format) {
        var src := IArchiveSource(last, iarchiveId, oclcNumber);
        assert sel == sel0 + [src];
        assert sel[..|sel| - 1] == sel0 && sel[|sel| - 1] == src;
        DownloadPlanUnfold(outputDirectory, sel, wskey);
        SourceWritesRule(outputDirectory, src, wskey);
        var plan := DownloadPlan(outputDirectory, sel, wskey);
        assert plan == DownloadPlan(outputDirectory, sel0, wskey) + [WriteFile(outputDirectory, src.file, IArchiveFileUrl(iarchiveId, src.file))];
      } else {
        assert sel == sel0 + [];
        assert sel == sel0;
      }
    }
  }

  /** The WorldCat source's download happens exactly when the key is set and the OCLC number is longer than four characters. */
  lemma WorldcatPlan(outputDirectory: string, oclcNumber: string, wskey: string)
    ensures DownloadPlan(outputDirectory, [WorldcatSource(oclcNumber)], wskey) ==
              if wskey != "" && |oclcNumber| > 4
              then [WriteFile(outputDirectory, WorldCatOutputFile, WorldCatMetadataUrl(oclcNumber, wskey))]
              else []
  {
    assert [WorldcatSource(oclcNumber)][..0] == [];
    SourceWritesRule(outputDirectory, WorldcatSource(oclcNumber), wskey);
  }

  // ---------------------------------------------------------------------------
  // The harvest run
  // ---------------------------------------------------------------------------

  /** The numbered subdirectory of the record with counter `count`. */
  function Subdir(count: nat): string {
    Pad5(count)
  }

  function RecordDirectory(outputDirectory: string, count: nat): string {
    outputDirectory + "/" + Subdir(count)
  }

  /** Everything one record does, given its counter: its directory, the metadata file, the audit entry and the downloads. */
  function RecordTrace(outputDirectory: string, apiKey: string, each: Record, count: nat,
                       fetch: string -> Bytes, parse: Bytes -> Option<Doc>): seq<Effect>
  {
    var dir := RecordDirectory(outputDirectory, count);
    var doc := parse(fetch(MetadataUrl(each.iarchiveId)));
    [MakeDirectory(dir), WriteFile(dir, IArchiveOutputFile, MetadataUrl(each.iarchiveId))]
      + AuditEffects(each.title, each.iarchiveId, each.oclc, doc, Subdir(count))
      + DownloadPlan(dir, RecordSources(each.iarchiveId, each.oclc, doc), apiKey)
  }

  lemma RecordTraceParts(outputDirectory: string, apiKey: string, each: Record, count: nat,
                         fetch: string -> Bytes, parse: Bytes -> Option<Doc>, dir: string, doc: Option<Doc>)
    requires dir == outputDirectory + "/" + Subdir(count)
    requires doc == parse(fetch(MetadataUrl(each.iarchiveId)))
    ensures RecordTrace(outputDirectory, apiKey, each, count, fetch, parse) ==
              [MakeDirectory(dir)]
              + ([WriteFile(dir, IArchiveOutputFile, MetadataUrl(each.iarchiveId))]
                 + AuditEffects(each.title, each.iarchiveId, each.oclc, doc, Subdir(count)))
              + DownloadPlan(dir, RecordSources(each.iarchiveId, each.oclc, doc), apiKey)
  {
  }

  /** The effects of the records in order, the first one numbered `first`. */
  function RecordsTrace(outputDirectory: string, apiKey: string, records: seq<Record>, first: nat,
                        fetch: string -> Bytes, parse: Bytes -> Option<Doc>): seq<Effect>
  {
    if |records| == 0 then []
    else RecordsTrace(outputDirectory, apiKey, records[..|records| - 1], first, fetch, parse)
         + RecordTrace(outputDirectory, apiKey, records[|records| - 1], first + |records| - 1, fetch, parse)
  }

  lemma RecordsTraceSnoc(outputDirectory: string, apiKey: string, records: seq<Record>, i: nat,
                         fetch: string -> Bytes, parse: Bytes -> Option<Doc>)
    requires i < |records|
    ensures RecordsTrace(outputDirectory, apiKey, records[..i + 1], 1, fetch, parse) ==
              RecordsTrace(outputDirectory, apiKey, records[..i], 1, fetch, parse)
              + RecordTrace(outputDirectory, apiKey, records[i], i + 1, fetch, parse)
  {
    assert records[..i + 1][..i] == records[..i];
  }

  lemma AppendAfter<T>(head: seq<T>, done: seq<T>, next: seq<T>, whole: seq<T>)
    requires done + next == whole
    ensures head + done + next == head + whole
  {
  }

  /**
   * The body of HarvestData's loop for one record: create subdirectory `%05d` of the counter,
   * fetch and decode the metadata, then download the record's sources into that subdirectory.
   */
  method HarvestRecord(outputDirectory: string, apiKey: string, each: Record, count: nat,
                       fetch: string -> Bytes, parse: Bytes -> Option<Doc>)
    returns (effects: seq<Effect>)
    ensures effects == RecordTrace(outputDirectory, apiKey, each, count, fetch, parse)
  {
    var subdir := Subdir(count);
    effects := [MakeDirectory(outputDirectory + "/" + subdir)];
    var dataSources, metadataEffects := GetIarchiveMetadata(each.title, each.iarchiveId, each.oclc,
                                                            outputDirectory + "/" + subdir, subdir, fetch, parse);
    effects := effects + metadataEffects;
    var writes := DownloadDataSources(outputDirectory + "/" + subdir, dataSources, apiKey);
    effects := effects + writes;
    RecordTraceParts(outputDirectory, apiKey, each, count, fetch, parse, outputDirectory + "/" + subdir,
                     parse(fetch(MetadataUrl(each.iarchiveId))));
  }

  const HarvestedMessage := "Data harvested and written to output directory: "

  /**
   * HarvestData: empty input or output names are errors with no effect at all. Otherwise the
   * output directory is created, the k-th record (counting from 1) is harvested into
   * subdirectory `%05d` of k, whatever the outcome of the previous ones, and finally the
   * audit log is converted to csv. `records` is the decoded content of the input file.
   */
  method HarvestData(input: string, outputDirectory: string, apiKey: string, records: seq<Record>,
                     fetch: string -> Bytes, parse: Bytes -> Option<Doc>)
    returns (result: Result<string>, trace: seq<Effect>)
    ensures input == "" ==> result == Failure("no input file name") && trace == []
    ensures input != "" && outputDirectory == "" ==> result == Failure("no output file name") && trace == []
    ensures input != "" && outputDirectory != "" ==>
              && result == Success(HarvestedMessage + outputDirectory)
              && trace == [MakeDirectory(outputDirectory)]
                          + RecordsTrace(outputDirectory, apiKey, records, 1, fetch, parse)
                          + [ConvertAuditLog(AuditFileLocation)]
  {
    trace := [];
    if input == "" {
      return Failure("no input file name"), trace;
    }
    if outputDirectory == "" {
      return Failure("no output file name"), trace;
    }
    trace := trace + [MakeDirectory(outputDirectory)];
    var count := 1;
    for i := 0 to |records|
      invariant count == i + 1
      invariant trace == [MakeDirectory(outputDirectory)] + RecordsTrace(outputDirectory, apiKey, records[..i], 1, fetch, parse)
    {
      var each := records[i];
      var effects := HarvestRecord(outputDirectory, apiKey, each, count, fetch, parse);
      ghost var done := RecordsTrace(outputDirectory, apiKey, records[..i], 1, fetch, parse);
      RecordsTraceSnoc(outputDirectory, apiKey, records, i, fetch, parse);
      AppendAfter([MakeDirectory(outputDirectory)], done, effects,
                  RecordsTrace(outputDirectory, apiKey, records[..i + 1], 1, fetch, parse));
      trace := trace + effects;
      count := count + 1;
    }
    assert records[..|records|] == records;
    if CreateCsv {
      trace := trace + [ConvertAuditLog(AuditFileLocation)];
    }
    result := Success(HarvestedMessage + outputDirectory);
  }

  // ---------------------------------------------------------------------------
  // What a harvest run does, read off its trace
  // ---------------------------------------------------------------------------

  /** The directories a trace creates, in order. */
  function Directories(effects: seq<Effect>): seq<string> {
    if |effects| == 0 then []
    else
      var last := effects[|effects| - 1];
      Directories(effects[..|effects| - 1]) + (if last.MakeDirectory? then [last.path] else [])
  }

  /** The audit entries a trace appends, in order. */
  function AuditEntries(effects: seq<Effect>): seq<Audit> {
    if |effects| == 0 then []
    else
      var last := effects[|effects| - 1];
      AuditEntries(effects[..|effects| - 1]) + (if last.AppendAudit? then [last.entry] else [])
  }

  lemma {:induction false} DirectoriesAppend(a: seq<Effect>, b: seq<Effect>)
    ensures Directories(a + b) == Directories(a) + Directories(b)
  {
    if |b| == 0 {
      assert a + b == a;
    } else {
      var b', x := b[..|b| - 1], b[|b| - 1];
      var ab := a + b;
      assert ab[..|ab| - 1] == a + b' && ab[|ab| - 1] == x;
      DirectoriesAppend(a, b');
      Associative(Directories(a), Directories(b'), if x.MakeDirectory? then [x.path] else []);
    }
  }

  lemma {:induction false} AuditEntriesAppend(a: seq<Effect>, b: seq<Effect>)
    ensures AuditEntries(a + b) == AuditEntries(a) + AuditEntries(b)
  {
    if |b| == 0 {
      assert a + b == a;
    } else {
      var b', x := b[..|b| - 1], b[|b| - 1];
      var ab := a + b;
      assert ab[..|ab| - 1] == a + b' && ab[|ab| - 1] == x;
      AuditEntriesAppend(a, b');
      Associative(AuditEntries(a), AuditEntries(b'), if x.AppendAudit? then [x.entry] else []);
    }
  }

  lemma Singleton(e: Effect)
    ensures Directories([e]) == (if e.MakeDirectory? then [e.path] else [])
    ensures AuditEntries([e]) == (if e.AppendAudit? then [e.entry] else [])
  {
    assert [e][..0] == [];
  }

  /** A trace of file writes only creates no directory and appends no audit entry. */
  lemma {:induction false} WritesOnly(effects: seq<Effect>)
    requires forall k :: 0 <= k < |effects| ==> effects[k].WriteFile?
    ensures Directories(effects) == [] && AuditEntries(effects) == []
  {
    if |effects| > 0 {
      var init := effects[..|effects| - 1];
      assert forall k :: 0 <= k < |init| ==> init[k] == effects[k];
      WritesOnly(init);
    }
  }

  lemma AllWritesInAppend(a: seq<Effect>, b: seq<Effect>, directory: string)
    requires AllWritesIn(a, directory) && AllWritesIn(b, directory)
    ensures AllWritesIn(a + b, directory)
  {
    forall k | 0 <= k < |a + b| && (a + b)[k].WriteFile? ensures (a + b)[k].directory == directory {
      if k < |a| {
        assert (a + b)[k] == a[k];
      } else {
        assert (a + b)[k] == b[k - |a|];
      }
    }
  }

  /** The first two effects of a record: its directory, then "iarchive.json" inside it. */
  lemma HeadFacts(dir: string, url: string)
    ensures var head := [MakeDirectory(dir), WriteFile(dir, IArchiveOutputFile, url)];
            Directories(head) == [dir] && AuditEntries(head) == [] && AllWritesIn(head, dir)
  {
    var head := [MakeDirectory(dir), WriteFile(dir, IArchiveOutputFile, url)];
    assert head[..1] == [MakeDirectory(dir)];
    Singleton(MakeDirectory(dir));
  }

  lemma AuditEffectsFacts(title: string, iarchiveId: string, oclcNumber: string, doc: Option<Doc>, directory: string, dir: string)
    ensures var audit := AuditEffects(title, iarchiveId, oclcNumber, doc, directory);
            && Directories(audit) == []
            && AuditEntries(audit) == (if doc.Some? then [AuditEntry(title, iarchiveId, oclcNumber, doc.value.metadata, directory)] else [])
            && AllWritesIn(audit, dir)
  {
    if doc.Some? {
      Singleton(AppendAudit(AuditEntry(title, iarchiveId, oclcNumber, doc.value.metadata, directory)));
    }
  }

  lemma PlanFacts(dir: string, sources: seq<DataSource>, wskey: string)
    ensures var plan := DownloadPlan(dir, sources, wskey);
            Directories(plan) == [] && AuditEntries(plan) == [] && AllWritesIn(plan, dir)
  {
    DownloadPlanInDirectory(dir, sources, wskey);
    WritesOnly(DownloadPlan(dir, sources, wskey));
  }

  /** Concatenating a head that creates one directory, the audit effects and a plan of writes. */
  lemma ThreeParts(head: seq<Effect>, audit: seq<Effect>, plan: seq<Effect>, dir: string)
    requires Directories(head) == [dir] && AuditEntries(head) == [] && AllWritesIn(head, dir)
    requires Directories(audit) == [] && AllWritesIn(audit, dir)
    requires Directories(plan) == [] && AuditEntries(plan) == [] && AllWritesIn(plan, dir)
    ensures var t := head + audit + plan;
            Directories(t) == [dir] && AuditEntries(t) == AuditEntries(audit) && AllWritesIn(t, dir)
  {
    DirectoriesAppend(head, audit);
    DirectoriesAppend(head + audit, plan);
    AuditEntriesAppend(head, audit);
    AuditEntriesAppend(head + audit, plan);
    AllWritesInAppend(head, audit, dir);
    AllWritesInAppend(head + audit, plan, dir);
    assert [dir] + [] + [] == [dir];
    assert [] + AuditEntries(audit) + [] == AuditEntries(audit);
  }

  /**
   * One record's effects: its directory is created first and "iarchive.json" is written into it
   * second; it is the only directory the record creates; every write goes into it; and exactly
   * one audit entry is appended when the metadata decodes, none otherwise.
   */
  lemma RecordTraceShape(outputDirectory: string, apiKey: string, each: Record, count: nat,
                         fetch: string -> Bytes, parse: Bytes -> Option<Doc>)
    ensures var dir, t := RecordDirectory(outputDirectory, count), RecordTrace(outputDirectory, apiKey, each, count, fetch, parse);
            var doc := parse(fetch(MetadataUrl(each.iarchiveId)));
            && |t| >= 2
            && t[0] == MakeDirectory(dir)
            && t[1] == WriteFile(dir, IArchiveOutputFile, MetadataUrl(each.iarchiveId))
            && Directories(t) == [dir]
            && AuditEntries(t) == (if doc.Some? then [AuditEntry(each.title, each.iarchiveId, each.oclc, doc.value.metadata, Subdir(count))] else [])
            && AllWritesIn(t, dir)
  {
    var dir := RecordDirectory(outputDirectory, count);
    var doc := parse(fetch(MetadataUrl(each.iarchiveId)));
    var sources := RecordSources(each.iarchiveId, each.oclc, doc);
    HeadFacts(dir, MetadataUrl(each.iarchiveId));
    AuditEffectsFacts(each.title, each.iarchiveId, each.oclc, doc, Subdir(count), dir);
    PlanFacts(dir, sources, apiKey);
    ThreeParts([MakeDirectory(dir), WriteFile(dir, IArchiveOutputFile, MetadataUrl(each.iarchiveId))],
               AuditEffects(each.title, each.iarchiveId, each.oclc, doc, Subdir(count)),
               DownloadPlan(dir, sources, apiKey), dir);
  }

  /**
   * A record whose metadata does not decode still creates its directory, writes "iarchive.json"
   * and considers its WorldCat source: the WorldCat write happens exactly when the key is set and
   * the OCLC number is longer than four characters.
   */
  lemma RecordTraceUnparsed(outputDirectory: string, apiKey: string, each: Record, count: nat,
                            fetch: string -> Bytes, parse: Bytes -> Option<Doc>)
    requires parse(fetch(MetadataUrl(each.iarchiveId))).None?
    ensures var dir := RecordDirectory(outputDirectory, count);
            RecordTrace(outputDirectory, apiKey, each, count, fetch, parse) ==
              [MakeDirectory(dir), WriteFile(dir, IArchiveOutputFile, MetadataUrl(each.iarchiveId))]
              + (if apiKey != "" && |each.oclc| > 4
                 then [WriteFile(dir, WorldCatOutputFile, WorldCatMetadataUrl(each.oclc, apiKey))]
                 else [])
  {
    var dir := RecordDirectory(outputDirectory, count);
    var head := [MakeDirectory(dir), WriteFile(dir, IArchiveOutputFile, MetadataUrl(each.iarchiveId))];
    assert RecordSources(each.iarchiveId, each.oclc, None) == [WorldcatSource(each.oclc)];
    WorldcatPlan(dir, each.oclc, apiKey);
    assert head + [] == head;
  }

  /** The directories of the records' effects: the k-th record's numbered directory, in order. */
  lemma {:induction false} RecordsDirectories(outputDirectory: string, apiKey: string, records: seq<Record>, first: nat,
                                              fetch: string -> Bytes, parse: Bytes -> Option<Doc>)
    ensures var d := Directories(RecordsTrace(outputDirectory, apiKey, records, first, fetch, parse));
            && |d| == |records|
            && forall k :: 0 <= k < |records| ==> d[k] == RecordDirectory(outputDirectory, first + k)
  {
    if |records| > 0 {
      var n := |records|;
      var init := records[..n - 1];
      var before := RecordsTrace(outputDirectory, apiKey, init, first, fetch, parse);
      var t := RecordTrace(outputDirectory, apiKey, records[n - 1], first + n - 1, fetch, parse);
      var d0 := Directories(before);
      assert Directories(RecordsTrace(outputDirectory, apiKey, records, first, fetch, parse)) == d0 + [RecordDirectory(outputDirectory, first + n - 1)] by {
        assert RecordsTrace(outputDirectory, apiKey, records, first, fetch, parse) == before + t;
        DirectoriesAppend(before, t);
        RecordTraceShape(outputDirectory, apiKey, records[n - 1], first + n - 1, fetch, parse);
      }
      RecordsDirectories(outputDirectory, apiKey, init, first, fetch, parse);
      var d := d0 + [RecordDirectory(outputDirectory, first + n - 1)];
      forall k | 0 <= k < n ensures d[k] == RecordDirectory(outputDirectory, first + k) {
        if k < n - 1 {
          assert d[k] == d0[k];
        }
      }
    }
  }

  /** How many of the records' metadata bodies decode. */
  function ParsedCount(records: seq<Record>, fetch: string -> Bytes, parse: Bytes -> Option<Doc>): (n: nat)
    ensures n <= |records|
  {
    if |records| == 0 then 0
    else ParsedCount(records[..|records| - 1], fetch, parse)
         + (if parse(fetch(MetadataUrl(records[|records| - 1].iarchiveId))).Some? then 1 else 0)
  }

  /** One audit entry per record whose metadata decodes, and no others. */
  lemma {:induction false} RecordsAuditCount(outputDirectory: string, apiKey: string, records: seq<Record>, first: nat,
                                             fetch: string -> Bytes, parse: Bytes -> Option<Doc>)
    ensures |AuditEntries(RecordsTrace(outputDirectory, apiKey, records, first, fetch, parse))| == ParsedCount(records, fetch, parse)
  {
    if |records| > 0 {
      var n := |records|;
      var init := records[..n - 1];
      var before := RecordsTrace(outputDirectory, apiKey, init, first, fetch, parse);
      var t := RecordTrace(outputDirectory, apiKey, records[n - 1], first + n - 1, fetch, parse);
      assert |AuditEntries(RecordsTrace(outputDirectory, apiKey, records, first, fetch, parse))| ==
               |AuditEntries(before)| + (if parse(fetch(MetadataUrl(records[n - 1].iarchiveId))).Some? then 1 else 0) by {
        assert RecordsTrace(outputDirectory, apiKey, records, first, fetch, parse) == before + t;
        AuditEntriesAppend(before, t);
        RecordTraceShape(outputDirectory, apiKey, records[n - 1], first + n - 1, fetch, parse);
      }
      RecordsAuditCount(outputDirectory, apiKey, init, first, fetch, parse);
    }
  }

  /** Whether each record's metadata body decodes, in record order. */
  function Decodes(records: seq<Record>, fetch: string -> Bytes, parse: Bytes -> Option<Doc>): (flags: seq<bool>)
    ensures |flags| == |records|
  {
    seq(|records|, i requires 0 <= i < |records| => parse(fetch(MetadataUrl(records[i].iarchiveId))).Some?)
  }

  /** The positions of the set flags, in increasing order. */
  function SetIndices(flags: seq<bool>): (idx: seq<nat>)
    ensures forall k :: 0 <= k < |idx| ==> idx[k] < |flags| && flags[idx[k]]
  {
    if |flags| == 0 then []
    else SetIndices(flags[..|flags| - 1]) + (if flags[|flags| - 1] then [|flags| - 1] else [])
  }

  /** The set positions are strictly increasing and none is missed. */
  lemma {:induction false} SetIndicesOrdered(flags: seq<bool>)
    ensures var idx := SetIndices(flags);
            && (forall k, l :: 0 <= k < l < |idx| ==> idx[k] < idx[l])
            && (forall i :: 0 <= i < |flags| && flags[i] ==> i in idx)
  {
    if |flags| > 0 {
      var init := flags[..|flags| - 1];
      SetIndicesOrdered(init);
      var idx0, idx := SetIndices(init), SetIndices(flags);
      forall i | 0 <= i < |flags| && flags[i] ensures i in idx {
        if i < |init| {
          assert init[i] == flags[i];
          assert i in idx0;
        }
      }
    }
  }

  /** The indices of the records whose metadata body decodes, in increasing order. */
  function ParsedIndices(records: seq<Record>, fetch: string -> Bytes, parse: Bytes -> Option<Doc>): seq<nat> {
    SetIndices(Decodes(records, fetch, parse))
  }

  /** The parsed indices are strictly increasing and cover exactly the records whose metadata decodes. */
  lemma ParsedIndicesOrdered(records: seq<Record>, fetch: string -> Bytes, parse: Bytes -> Option<Doc>)
    ensures var idx := ParsedIndices(records, fetch, parse);
            && (forall k, l :: 0 <= k < l < |idx| ==> idx[k] < idx[l])
            && (forall k :: 0 <= k < |idx| ==> idx[k] < |records| && parse(fetch(MetadataUrl(records[idx[k]].iarchiveId))).Some?)
            && (forall i :: 0 <= i < |records| && parse(fetch(MetadataUrl(records[i].iarchiveId))).Some? ==> i in idx)
  {
    var flags := Decodes(records, fetch, parse);
    SetIndicesOrdered(flags);
    forall i | 0 <= i < |records| && parse(fetch(MetadataUrl(records[i].iarchiveId))).Some? ensures flags[i] { }
  }

  /**
   * One more record adds its audit entry after those of the earlier records, exactly when its
   * metadata decodes; the entry carries the record's title, identifier, OCLC number and subdirectory.
   */
  lemma RecordsAuditSnoc(outputDirectory: string, apiKey: string, records: seq<Record>, first: nat,
                         fetch: string -> Bytes, parse: Bytes -> Option<Doc>)
    requires |records| > 0
    ensures var n, last := |records|, records[|records| - 1];
            var doc := parse(fetch(MetadataUrl(last.iarchiveId)));
            AuditEntries(RecordsTrace(outputDirectory, apiKey, records, first, fetch, parse)) ==
              AuditEntries(RecordsTrace(outputDirectory, apiKey, records[..n - 1], first, fetch, parse))
              + (if doc.Some? then [AuditEntry(last.title, last.iarchiveId, last.oclc, doc.value.metadata, Subdir(first + n - 1))] else [])
  {
    var n := |records|;
    var before := RecordsTrace(outputDirectory, apiKey, records[..n - 1], first, fetch, parse);
    var t := RecordTrace(outputDirectory, apiKey, records[n - 1], first + n - 1, fetch, parse);
    AuditEntriesAppend(before, t);
    RecordTraceShape(outputDirectory, apiKey, records[n - 1], first + n - 1, fetch, parse);
  }

  /**
   * Record `i` decodes and `entry` is its audit entry: its title, identifier, OCLC number and
   * decoded metadata, with the subdirectory of counter `first + i`.
   */
  predicate EntryOfRecord(records: seq<Record>, first: nat, fetch: string -> Bytes, parse: Bytes -> Option<Doc>,
                          i: nat, entry: Audit)
  {
    && i < |records|
    && var doc := parse(fetch(MetadataUrl(records[i].iarchiveId)));
       && doc.Some?
       && entry == AuditEntry(records[i].title, records[i].iarchiveId, records[i].oclc, doc.value.metadata, Subdir(first + i))
  }

  lemma EntryOfRecordPrefix(records: seq<Record>, n: nat, first: nat, fetch: string -> Bytes, parse: Bytes -> Option<Doc>,
                            i: nat, entry: Audit)
    requires n <= |records| && EntryOfRecord(records[..n], first, fetch, parse, i, entry)
    ensures EntryOfRecord(records, first, fetch, parse, i, entry)
  {
    assert records[..n][i] == records[i];
  }

  /** The entries of the earlier records, then the last record's entry when it decodes, match the parsed indices. */
  lemma EntriesOfRecordsSnoc(records: seq<Record>, first: nat, fetch: string -> Bytes, parse: Bytes -> Option<Doc>,
                             entries0: seq<Audit>, idx0: seq<nat>, entries: seq<Audit>, idx: seq<nat>)
    requires |records| > 0 && |entries0| == |idx0|
    requires forall k :: 0 <= k < |idx0| ==> EntryOfRecord(records[..|records| - 1], first, fetch, parse, idx0[k], entries0[k])
    requires var n, last := |records|, records[|records| - 1];
             var doc := parse(fetch(MetadataUrl(last.iarchiveId)));
             && entries == entries0 + (if doc.Some? then [AuditEntry(last.title, last.iarchiveId, last.oclc, doc.value.metadata, Subdir(first + n - 1))] else [])
             && idx == idx0 + (if doc.Some? then [n - 1] else [])
    ensures |entries| == |idx|
    ensures forall k :: 0 <= k < |idx| ==> EntryOfRecord(records, first, fetch, parse, idx[k], entries[k])
  {
    var n := |records|;
    forall k | 0 <= k < |idx| ensures EntryOfRecord(records, first, fetch, parse, idx[k], entries[k]) {
      if k < |idx0| {
        assert idx[k] == idx0[k] && entries[k] == entries0[k];
        EntryOfRecordPrefix(records, n - 1, first, fetch, parse, idx0[k], entries0[k]);
      }
    }
  }

  /**
   * The audit entries of the records' effects: one per record whose metadata decodes, in record
   * order, the k-th built from the k-th such record's title, identifier, OCLC number and decoded
   * metadata, with that record's subdirectory.
   */
  lemma {:induction false} RecordsAuditEntries(outputDirectory: string, apiKey: string, records: seq<Record>, first: nat,
                                               fetch: string -> Bytes, parse: Bytes -> Option<Doc>)
    ensures var entries := AuditEntries(RecordsTrace(outputDirectory, apiKey, records, first, fetch, parse));
            var idx := ParsedIndices(records, fetch, parse);
            && |entries| == |idx|
            && forall k :: 0 <= k < |idx| ==> EntryOfRecord(records, first, fetch, parse, idx[k], entries[k])
  {
    if |records| > 0 {
      var n := |records|;
      var init := records[..n - 1];
      var flags := Decodes(records, fetch, parse);
      assert flags[..n - 1] == Decodes(init, fetch, parse);
      RecordsAuditSnoc(outputDirectory, apiKey, records, first, fetch, parse);
      RecordsAuditEntries(outputDirectory, apiKey, init, first, fetch, parse);
      EntriesOfRecordsSnoc(records, first, fetch, parse,
                           AuditEntries(RecordsTrace(outputDirectory, apiKey, init, first, fetch, parse)),
                           ParsedIndices(init, fetch, parse),
                           AuditEntries(RecordsTrace(outputDirectory, apiKey, records, first, fetch, parse)),
                           ParsedIndices(records, fetch, parse));
    }
  }

  /** Two records never share a directory: different counters give different directory names. */
  lemma RecordDirectoryInjective(outputDirectory: string, k: nat, l: nat)
    requires RecordDirectory(outputDirectory, k) == RecordDirectory(outputDirectory, l)
    ensures k == l
  {
    var p := outputDirectory + "/";
    assert p + Subdir(k) == RecordDirectory(outputDirectory, k);
    assert p + Subdir(l) == RecordDirectory(outputDirectory, l);
    assert Subdir(k) == (p + Subdir(k))[|p|..];
    assert Subdir(l) == (p + Subdir(l))[|p|..];
    Pad5Injective(k, l);
  }

  /** Different counters up to `n` give pairwise different record directories. */
  lemma SubdirsDistinct(outputDirectory: string, n: nat)
    ensures forall k, l :: 1 <= k < l <= n ==> RecordDirectory(outputDirectory, k) != RecordDirectory(outputDirectory, l)
  {
    forall k, l | 1 <= k < l <= n ensures RecordDirectory(outputDirectory, k) != RecordDirectory(outputDirectory, l) {
      if RecordDirectory(outputDirectory, k) == RecordDirectory(outputDirectory, l) {
        RecordDirectoryInjective(outputDirectory, k, l);
      }
    }
  }

  /** Below 100000 the subdirectory names of increasing counters increase strictly. */
  lemma SubdirsIncreasing(n: nat)
    requires n < 100000
    ensures forall k, l :: 1 <= k < l <= n ==> LexLess(Subdir(k), Subdir(l))
  {
    forall k, l | 1 <= k < l <= n ensures LexLess(Subdir(k), Subdir(l)) {
      Pad5Increasing(k, l);
    }
  }

  /** The run's directories: the output directory, then those of the records. */
  lemma RunDirectories(outputDirectory: string, body: seq<Effect>)
    ensures Directories([MakeDirectory(outputDirectory)] + body + [ConvertAuditLog(AuditFileLocation)]) ==
              [outputDirectory] + Directories(body)
  {
    var head, tail := [MakeDirectory(outputDirectory)], [ConvertAuditLog(AuditFileLocation)];
    Singleton(head[0]);
    Singleton(tail[0]);
    DirectoriesAppend(head, body);
    DirectoriesAppend(head + body, tail);
    assert [outputDirectory] + Directories(body) + [] == [outputDirectory] + Directories(body);
  }

  /** The audit entries of a run are those of its records: creating the output directory and converting the log append none. */
  lemma RunAuditEntries(outputDirectory: string, body: seq<Effect>)
    ensures AuditEntries([MakeDirectory(outputDirectory)] + body + [ConvertAuditLog(AuditFileLocation)]) == AuditEntries(body)
  {
    var head, tail := [MakeDirectory(outputDirectory)], [ConvertAuditLog(AuditFileLocation)];
    Singleton(head[0]);
    Singleton(tail[0]);
    AuditEntriesAppend(head, body);
    AuditEntriesAppend(head + body, tail);
    assert [] + AuditEntries(body) + [] == AuditEntries(body);
  }

  /** The directories of a run whose records' effects create the numbered directories 1 to n, in order. */
  lemma RunDirectoriesNumbered(outputDirectory: string, body: seq<Effect>, n: nat)
    requires |Directories(body)| == n
    requires forall k :: 0 <= k < n ==> Directories(body)[k] == RecordDirectory(outputDirectory, 1 + k)
    ensures var dirs := Directories([MakeDirectory(outputDirectory)] + body + [ConvertAuditLog(AuditFileLocation)]);
            && |dirs| == n + 1
            && dirs[0] == outputDirectory
            && (forall k :: 1 <= k <= n ==> dirs[k] == RecordDirectory(outputDirectory, k))
            && (forall k, l :: 1 <= k < l <= n ==> dirs[k] != dirs[l])
  {
    RunDirectories(outputDirectory, body);
    var d := Directories(body);
    var dirs := [outputDirectory] + d;
    forall k | 1 <= k <= n ensures dirs[k] == RecordDirectory(outputDirectory, k) {
      assert dirs[k] == d[k - 1];
    }
    SubdirsDistinct(outputDirectory, n);
  }

  /**
   * The directories a successful run creates: the output directory, then one per record in record
   * order, the k-th (counting from 1) named by `%05d` of k; they are pairwise distinct, and with
   * fewer than 100000 records their names increase strictly.
   */
  lemma HarvestDirectories(outputDirectory: string, apiKey: string, records: seq<Record>,
                           fetch: string -> Bytes, parse: Bytes -> Option<Doc>)
    ensures var dirs := Directories([MakeDirectory(outputDirectory)]
                                    + RecordsTrace(outputDirectory, apiKey, records, 1, fetch, parse)
                                    + [ConvertAuditLog(AuditFileLocation)]);
            && |dirs| == |records| + 1
            && dirs[0] == outputDirectory
            && (forall k :: 1 <= k <= |records| ==> dirs[k] == outputDirectory + "/" + Subdir(k))
            && (forall k, l :: 1 <= k < l <= |records| ==> dirs[k] != dirs[l])
            && (|records| < 100000 ==> forall k, l :: 1 <= k < l <= |records| ==> LexLess(Subdir(k), Subdir(l)))
  {
    RecordsDirectories(outputDirectory, apiKey, records, 1, fetch, parse);
    RunDirectoriesNumbered(outputDirectory, RecordsTrace(outputDirectory, apiKey, records, 1, fetch, parse), |records|);
    if |records| < 100000 {
      SubdirsIncreasing(|records|);
    }
  }

  // ---------------------------------------------------------------------------
  // The audit log and its csv conversion
  // ---------------------------------------------------------------------------

  /** The text a trace appends to the audit log: one JSON line per audit entry. */
  function AuditLog(marshal: Audit -> string, effects: seq<Effect>): string {
    if |effects| == 0 then ""
    else
      var last := effects[|effects| - 1];
      AuditLog(marshal, effects[..|effects| - 1]) + (if last.AppendAudit? then AuditLine(marshal, last.entry) else "")
  }

  /** The JSON lines of the entries, in order. */
  function Marshalled(marshal: Audit -> string, entries: seq<Audit>): (lines: seq<string>)
    ensures |lines| == |entries|
  {
    seq(|entries|, i requires 0 <= i < |entries| => marshal(entries[i]))
  }

  /** The audit log text is the trace's audit entries written one per line. */
  lemma {:induction false} AuditLogLines(marshal: Audit -> string, effects: seq<Effect>)
    ensures AuditLog(marshal, effects) == Unlines(Marshalled(marshal, AuditEntries(effects)))
  {
    if |effects| > 0 {
      var init, last := effects[..|effects| - 1], effects[|effects| - 1];
      var before := AuditEntries(init);
      AuditLogLines(marshal, init);
      if last.AppendAudit? {
        var lines := Marshalled(marshal, before + [last.entry]);
        assert lines[..|lines| - 1] == Marshalled(marshal, before);
        Associative(Unlines(Marshalled(marshal, before)), marshal(last.entry), "\n");
      } else {
        assert AuditEntries(effects) == before + [] == before;
        assert AuditLog(marshal, effects) == AuditLog(marshal, init) + "";
        assert AuditLog(marshal, init) + "" == AuditLog(marshal, init);
      }
    }
  }

  /** Scanning the audit log after a run gives its earlier lines and then one JSON line per appended entry. */
  lemma AuditLogScan(prior: string, marshal: Audit -> string, effects: seq<Effect>)
    requires Terminated(prior)
    requires forall a: Audit :: LineSafe(marshal(a))
    ensures ScanLines(prior + AuditLog(marshal, effects)) == ScanLines(prior) + Marshalled(marshal, AuditEntries(effects))
  {
    var json := Marshalled(marshal, AuditEntries(effects));
    AuditLogLines(marshal, effects);
    assert forall k :: 0 <= k < |json| ==> LineSafe(json[k]);
    ScanUnlines(prior, json);
  }

  /** With a decoder that inverts the encoder, the csv rows of the JSON lines are the entries' rows. */
  lemma CsvRowsMarshalled(entries: seq<Audit>, marshal: Audit -> string, unmarshal: string -> Audit)
    requires forall a: Audit :: unmarshal(marshal(a)) == a
    ensures FileReader.CsvRows(Marshalled(marshal, entries), unmarshal) ==
              seq(|entries|, i requires 0 <= i < |entries| => FileReader.CsvRow(entries[i]))
  {
  }

  /**
   * After a run, scanning the audit log line by line gives the lines it held before and then
   * the JSON of each appended entry, in trace order; the csv conversion that ends the run
   * therefore writes, after the rows for the older lines, one tab-delimited row per entry.
   */
  lemma AuditCsvRows(prior: string, marshal: Audit -> string, unmarshal: string -> Audit, effects: seq<Effect>)
    requires Terminated(prior)
    requires forall a: Audit :: LineSafe(marshal(a)) && unmarshal(marshal(a)) == a
    ensures var entries := AuditEntries(effects);
            var lines := ScanLines(prior + AuditLog(marshal, effects));
            && lines == ScanLines(prior) + Marshalled(marshal, entries)
            && FileReader.CsvRows(lines, unmarshal) ==
                 FileReader.CsvRows(ScanLines(prior), unmarshal) + seq(|entries|, i requires 0 <= i < |entries| => FileReader.CsvRow(entries[i]))
  {
    var entries := AuditEntries(effects);
    AuditLogScan(prior, marshal, effects);
    FileReader.CsvRowsAppend(ScanLines(prior), Marshalled(marshal, entries), unmarshal);
    CsvRowsMarshalled(entries, marshal, unmarshal);
  }

  // ---------------------------------------------------------------------------
  // A worked example
  // ---------------------------------------------------------------------------

  /** The leftmost "details" of the example identifier starts at index 10. */
  lemma ExampleIdentifier()
    ensures FirstOccurrence("https://x/details/ia1", "details", 10)
  {
    var s := "https://x/details/ia1";
    assert OccursAt(s, "details", 10);
    forall j: nat | j < 10 ensures !OccursAt(s, "details", j) {
      assert s[j] != 'd' && s[j..j + 7][0] == s[j];
    }
  }

  lemma ExampleMetadataUrl()
    ensures MetadataUrl("https://x/details/ia1") == "https://x/metadata/ia1"
  {
    var id := "https://x/details/ia1";
    ExampleIdentifier();
    assert id[..10] == "https://x/" && id[17..] == "/ia1";
    assert "https://x/" + "metadata" + "/ia1" == "https://x/metadata/ia1";
  }

  lemma ExampleFileUrl()
    ensures IArchiveFileUrl("https://x/details/ia1", "ia1.pdf") == "https://x/download/ia1/ia1.pdf"
  {
    var id := "https://x/details/ia1";
    ExampleIdentifier();
    assert id[..10] == "https://x/" && id[17..] == "/ia1";
    assert "https://x/" + "download" + "/ia1" + "/" + "ia1.pdf" == "https://x/download/ia1/ia1.pdf";
  }

  lemma ExampleSubdir()
    ensures RecordDirectory("out", 1) == "out/00001"
  {
    assert Decimal(1) == "1";
    assert Zeros(4) == "0000";
    assert Pad5(1) == "00001";
  }

  /** A file source followed by the WorldCat source, with a key and a long enough OCLC number: both are fetched, in that order. */
  lemma FileThenWorldcatPlan(outputDirectory: string, file: DataSource, oclcNumber: string, wskey: string)
    requires file.source == IArchiveType && wskey != "" && |oclcNumber| > 4
    ensures DownloadPlan(outputDirectory, [file, WorldcatSource(oclcNumber)], wskey) ==
              [ WriteFile(outputDirectory, file.file, IArchiveFileUrl(file.baseUrl, file.file)),
                WriteFile(outputDirectory, WorldCatOutputFile, WorldCatMetadataUrl(oclcNumber, wskey)) ]
  {
    var sources := [file, WorldcatSource(oclcNumber)];
    SourceWritesRule(outputDirectory, file, wskey);
    SourceWritesRule(outputDirectory, WorldcatSource(oclcNumber), wskey);
    assert sources[..1] == [file] && [file][..0] == [];
    assert DownloadPlan(outputDirectory, [file], wskey) == SourceWrites(outputDirectory, file, wskey);
    assert DownloadPlan(outputDirectory, sources, wskey) ==
             SourceWrites(outputDirectory, file, wskey) + SourceWrites(outputDirectory, WorldcatSource(oclcNumber), wskey);
  }

  /**
   * A record whose metadata lists exactly one downloadable file, harvested with a key and an
   * OCLC number longer than four characters: its directory, the metadata body, its audit
   * entry, the file and then the WorldCat record, in that order.
   */
  lemma RecordWithOneFile(outputDirectory: string, apiKey: string, each: Record, count: nat,
                          fetch: string -> Bytes, parse: Bytes -> Option<Doc>, metadata: Metadata, file: IArchiveFile)
    requires parse(fetch(MetadataUrl(each.iarchiveId))) == Some(Doc(metadata, [file]))
    requires Accepted(file.format) && apiKey != "" && |each.oclc| > 4
    ensures var dir := RecordDirectory(outputDirectory, count);
            RecordTrace(outputDirectory, apiKey, each, count, fetch, parse) ==
              [ MakeDirectory(dir),
                WriteFile(dir, IArchiveOutputFile, MetadataUrl(each.iarchiveId)),
                AppendAudit(Audit(each.title, metadata.creator, metadata.date, metadata.description,
                                  each.iarchiveId, each.oclc, Subdir(count))),
                WriteFile(dir, file.name, IArchiveFileUrl(each.iarchiveId, file.name)),
                WriteFile(dir, WorldCatOutputFile, WorldCatMetadataUrl(each.oclc, apiKey)) ]
  {
    var dir := RecordDirectory(outputDirectory, count);
    var doc := parse(fetch(MetadataUrl(each.iarchiveId)));
    var files := [file];
    var pdf := IArchiveSource(file, each.iarchiveId, each.oclc);
    FileSourcesAtMostOne(file, each.iarchiveId, each.oclc);
    assert SelectSources(files, each.iarchiveId, each.oclc) == [pdf] by {
      assert files[..0] == [];
    }
    assert RecordSources(each.iarchiveId, each.oclc, doc) == [pdf, WorldcatSource(each.oclc)];
    FileThenWorldcatPlan(dir, pdf, each.oclc, apiKey);
    RecordTraceParts(outputDirectory, apiKey, each, count, fetch, parse, dir, doc);
  }
}
