# iarchive-harvester, modelled in Dafny

iarchive-harvester collects theses from the Internet Archive. A tab-delimited input file is
first converted into JSON harvest records (title, Internet Archive identifier, OCLC number).
Each record is then harvested into its own numbered subdirectory (`00001`, `00002`, ...):

- the identifier's metadata document is fetched and saved as `iarchive.json`;
- when the metadata body decodes, an audit entry is appended to `../audit.log`;
- every "Text PDF" and "DjVuTXT" file is downloaded;
- with an API key and an OCLC number longer than four characters, the WorldCat MARC record is
  downloaded as `worldcat.xml`.

At the end the JSON-lines audit log is converted into a tab-delimited `../audit.csv`.

The model has five modules, one file each:

- `Wrappers` (`wrappers.dfy`): `Option` and `Result`.
- `Types` (`types.dfy`): the records of `types/types.go`, plus the decoded metadata document
  (`Doc`, `Metadata`, `IArchiveFile`).
- `Text` (`text.dfy`): the string operations the code relies on.
  - `strings.Replace(s, old, new, 1)` as `ReplaceFirst`.
  - Splitting on and joining with a separator.
  - The line scanner of `bufio.Scanner` as `ScanLines`.
  - `%05d` as `Pad5`.
- `FileReader` (`filereader.dfy`): `filereader/filereader.go`.
- `Harvest` (`harvester.dfy`): `harvest/harvester.go`.

Side effects are values. A harvest operation returns the sequence of `Effect`s it performs, in
order:

- `MakeDirectory(path)`;
- `WriteFile(directory, fileName, url)`: the body fetched from `url` is written to that file;
- `AppendAudit(entry)`;
- `ConvertAuditLog(logFile)`.

Outside inputs are parameters:

- An HTTP GET is the function `fetch` from URL to body.
- Decoding a metadata body is `parse`, which gives `None` when the body is not JSON.
- JSON encoding and decoding of audit entries and of the API key file are `marshal`,
  `unmarshal` and `decode`.
- File contents are string parameters, or `Option`s where opening the file can fail.
- The decoded input file of `HarvestData` is the parameter `records`.
- The rows the tab-delimited reader yields are the parameter `rows` of `InputFileConverter`.
- Whether `os.Create` of its output file succeeds is the parameter `outputCreated`.

Loops of the source are `while`/`for` loops in methods. Each method's `ensures` gives its
results in terms of its inputs:

- `ReadIAJsonResponse`, `DownloadDataSources`, `HarvestRecord`, `HarvestData` and
  `ConvertLogToCsv` are proved equal to the functions `SelectSources`, `DownloadPlan`,
  `RecordTrace`, `RecordsTrace`, `CsvRows` and `ScanLines`.
- `SetDataSources` and `GetIarchiveMetadata` are specified through `IArchiveSources`,
  `RecordSources` and `AuditEffects`.
- `InputFileConverter` is specified directly, record by record.

The lemmas state what the functions guarantee.

Behaviour of the code that the model keeps:

- The WorldCat source is appended, and downloaded when the key allows, even when the metadata
  body does not decode (harvest/harvester.go:104-107, stated by `RecordTraceUnparsed`).
- `iarchive.json` is written before the body is decoded, so it is always written
  (harvest/harvester.go:93-95).
- A failed audit write is only logged, and the message prints an unrelated error variable
  (harvest/harvester.go:200-203). The audit effect is therefore unconditional.
- `HarvestData` returns only a message, not a record count (harvest/harvester.go:243-244).
- When the JSON output file cannot be created, `InputFileConverter` only prints the error,
  writes nothing and still reports success (filereader/filereader.go:132-141).
- Downloads run one after another. Each `getData` call returns its body before the next starts
  (harvest/harvester.go:166-184). The wait group adds no concurrency.
- The audit log and its csv file are opened for appending, so both accumulate across runs
  (harvest/harvester.go:222, filereader/filereader.go:70). `AuditLogScan`,
  `ConvertedCsvLines` and `AuditCsvRows` therefore start from the earlier content.
- `writeCsvLine` writes the columns without escaping (filereader/filereader.go:49-55). A tab in
  a column shifts the later columns. A line break in a column, which a multi-line
  description contains, turns one log entry into several csv lines. So the csv file has
  one row per entry only when no column holds a tab, newline or carriage return.
  `ConvertedCsvLines` and `CsvRepeatsEarlierRuns` are stated for such entries, and
  `DescriptionBreakSplitsRow` shows how a line break in the description splits a row in two.
- File names from the remote metadata are used as given (harvest/harvester.go:132, 184, 37).
  `WriteFile` carries the record's directory and the name separately, and the model's
  directory claims are about the directory argument. A name holding `..` writes outside the
  record's directory, and a `/` into a missing folder makes `os.Create` fail, which ends the
  program.
- Every run converts the whole audit log, not just the entries it appended, and appends the
  result to `audit.csv` (filereader/filereader.go:64-88). The `ConvertLogToCsv` contract covers
  every line of the log. So each later run writes the rows of all earlier runs again.
  `CsvRepeatsEarlierRuns` shows this for two runs: afterwards the csv file holds the first
  run's rows twice, then the second run's rows.

## Model

| member | source | states |
|---|---|---|
| Text.FindFirst | harvest/harvester.go:49 | no result exactly when the pattern occurs nowhere; otherwise the leftmost occurrence |
| Text.ReplaceFirst | harvest/harvester.go:49 | `strings.Replace(s, pat, rep, 1)`: unchanged when the pattern is absent; otherwise the text before the leftmost occurrence, the replacement, then the text after it |
| Text.SplitJoin | filereader/filereader.go:53-54 | splitting tab-joined columns that contain no tab gives the columns back |
| Text.JoinSplit | filereader/filereader.go:53-54 | joining the pieces of a split restores the text, and no piece contains the separator |
| Text.ScanLinesAppendLine | filereader/filereader.go:76-83 | appending a line free of newline and carriage return, plus "\n", to newline-terminated text adds exactly that line to what the scanner yields |
| Text.ScanLines | filereader/filereader.go:76-83 | the scanner yields nothing for empty text, and no line it yields contains a newline |
| Text.ScanUnlines | filereader/filereader.go:76-83 | scanning newline-terminated text followed by newline-terminated safe lines yields the earlier lines, then those lines in order |
| Text.DecimalRoundTrip | harvest/harvester.go:229 | the decimal digits of a counter read back as that counter |
| Text.Pad5Shape | harvest/harvester.go:229 | `%05d` is at least five digits: the counter's numeral at the end, only zeros before it, and exactly five unless the numeral is longer |
| Text.Pad5RoundTrip | harvest/harvester.go:229 | `%05d` of a counter reads back as the counter |
| Text.Pad5Injective | harvest/harvester.go:229 | different counters give different `%05d` names |
| Text.Pad5Width | harvest/harvester.go:229 | below 100000, `%05d` is exactly five characters wide |
| Text.Pad5Increasing | harvest/harvester.go:229 | below 100000, a larger counter gives a lexicographically larger name |
| FileReader.ReadApiKey | filereader/filereader.go:26-38 | an empty file name or an unreadable file fails, each with its own message; otherwise the decoded `Key`, whatever the decoding outcome |
| FileReader.WriteCsvLine | filereader/filereader.go:43-59 | the written line ends in a newline; without tabs in the columns, splitting it on tabs gives the seven columns in order |
| FileReader.CsvRowRoundTrip | filereader/filereader.go:44-54 | a tab-free audit entry is read back unchanged from its tab-delimited row |
| FileReader.CsvFileName | filereader/filereader.go:69 | the log name with its first "log" replaced by "csv"; unchanged when it has none |
| FileReader.AuditLogCsvName | filereader/filereader.go:69 | the audit log `../audit.log` is converted into `../audit.csv` |
| FileReader.CsvRowsAppend | filereader/filereader.go:81-83 | converting two runs of log lines gives the rows of the first run, then those of the second |
| FileReader.ConvertLogToCsv | filereader/filereader.go:64-88 | the csv file holds its earlier text, then one tab-delimited, newline-terminated row per scanned log line, in log order |
| FileReader.ConvertedCsvLines | filereader/filereader.go:70-83 | when the earlier csv text ends in a newline and no decoded entry has a tab, newline or carriage return in a column: after conversion, scanning the csv file gives its earlier lines, then one row per log line; each row splits back into its entry's seven columns |
| FileReader.CsvRepeatsEarlierRuns | filereader/filereader.go:64-88 | for log lines without line breaks whose entries have no tab, newline or carriage return in a column: after two runs convert a growing log into the same csv file, it holds the first run's rows twice, then the second run's rows |
| FileReader.DescriptionBreakSplitsRow | filereader/filereader.go:49-55 | an entry whose description holds one line break, and no other line break in any column, is written as a csv row that scans back as two lines: the columns up to the break, and the columns after it |
| FileReader.InputFileConverter | filereader/filereader.go:94-142 | empty input name, empty output name and an unopenable input fail, in that order, writing no file; otherwise the success message, and when the output file could be created it receives one record per row, in row order, from columns 0, 9 and 24; when it could not, no file is written |
| Harvest.IArchiveFileUrl | harvest/harvester.go:48-52 | the identifier with its first "details" turned into "download", then "/" and the file name; unchanged before the slash when there is no "details" |
| Harvest.WorldCatMetadataUrl | harvest/harvester.go:54-56 | the catalog content endpoint, then the accession number, then "?wskey=" and the key |
| Harvest.MetadataUrl | harvest/harvester.go:88 | the identifier with its first "details" turned into "metadata", one character longer, the rest unchanged |
| Harvest.FileSourcesAtMostOne | harvest/harvester.go:131-140 | one "files" entry gives exactly one source when its format is "Text PDF" or "DjVuTXT", and none otherwise |
| Harvest.SelectSourcesLength | harvest/harvester.go:129-141 | there are as many sources as accepted entries, and no more than entries |
| Harvest.SelectSourcesContent | harvest/harvester.go:129-141 | the k-th source is the Internet Archive source of the k-th accepted entry |
| Harvest.AcceptedIndicesOrdered | harvest/harvester.go:129-141 | accepted entries are taken in document order, and none is skipped |
| Harvest.SelectSourcesSpec | harvest/harvester.go:128-141 | the sources are exactly the accepted entries, in document order, each carrying the record's identifier and OCLC number |
| Harvest.FourFormatsGiveTwoSources | harvest/harvester.go:128-141 | of a PDF, a JPEG, a DjVu text and a metadata file, only the PDF and the text are selected, in that order |
| Harvest.ReadIAJsonResponse | harvest/harvester.go:113-143 | an undecodable body gives no sources and no audit entry; otherwise one audit entry from the metadata and the selected sources |
| Harvest.SetDataSources | harvest/harvester.go:102-108 | the Internet Archive sources, then exactly one WorldCat source for the OCLC number, also when decoding failed |
| Harvest.GetIarchiveMetadata | harvest/harvester.go:86-97 | the body from the metadata URL is written to `iarchive.json` before its audit entry; the sources are those of the decoded body |
| Harvest.DownloadDataSources | harvest/harvester.go:160-188 | the writes are the download plan of the sources, in source order |
| Harvest.SourceWritesRule | harvest/harvester.go:162-185 | a WorldCat source is downloaded to `worldcat.xml` exactly when the key is non-empty and the OCLC number is longer than four characters; an Internet Archive source is downloaded under its own name; other kinds are ignored |
| Harvest.DownloadPlanAppend | harvest/harvester.go:162-186 | the plan of two concatenated source lists is the first list's plan followed by the second's |
| Harvest.DownloadPlanInDirectory | harvest/harvester.go:160-188 | every download is a file write issued with the record's directory |
| Harvest.DownloadSelected | harvest/harvester.go:176-185 | each selected file is downloaded once, in order, from its download URL under its own name |
| Harvest.WorldcatPlan | harvest/harvester.go:163-175 | the WorldCat record is fetched exactly when the key is set and the OCLC number is longer than four characters |
| Harvest.FileThenWorldcatPlan | harvest/harvester.go:162-186 | a file source then the WorldCat source, with a key and a long enough OCLC number, are downloaded in that order |
| Harvest.HarvestRecord | harvest/harvester.go:227-235 | one record's effects are its record trace: directory, metadata file, audit entry, downloads |
| Harvest.HarvestData | harvest/harvester.go:211-245 | empty input or output names fail with no effect; otherwise the output directory, then each record in order numbered from 1, then the csv conversion, and the success message |
| Harvest.RecordTraceShape | harvest/harvester.go:229-233 | a record creates only its own directory, first; it writes `iarchive.json` second; every write is issued with that directory; it appends one audit entry exactly when its metadata decodes |
| Harvest.RecordTraceUnparsed | harvest/harvester.go:227-235 | an undecodable record still gets its directory, its `iarchive.json` and, when the key allows, its WorldCat record |
| Harvest.RecordWithOneFile | harvest/harvester.go:227-235 | a record with one downloadable file, with a key and an OCLC number longer than four characters: directory, metadata file, audit entry, the file, then the WorldCat record |
| Harvest.RecordsDirectories | harvest/harvester.go:227-236 | the records' effects create one directory per record, the k-th named after the k-th counter |
| Harvest.RecordsAuditCount | harvest/harvester.go:227-234 | there are exactly as many audit entries as records whose metadata decodes |
| Harvest.ParsedIndicesOrdered | harvest/harvester.go:117-127 | the indices of the records whose metadata decodes are strictly increasing, and cover exactly those records |
| Harvest.RecordsAuditSnoc | harvest/harvester.go:125-127 | one more record adds its audit entry after the earlier ones, exactly when its metadata decodes; the entry has its title, identifier, OCLC number, metadata and subdirectory |
| Harvest.RecordsAuditEntries | harvest/harvester.go:227-234 | the audit entries of the records are, in record order, the entries of exactly the records whose metadata decodes, each with its record's fields and subdirectory |
| Harvest.RunAuditEntries | harvest/harvester.go:218-242 | a run appends exactly its records' audit entries; creating the output directory and converting the log append none |
| Harvest.RecordDirectoryInjective | harvest/harvester.go:229-230 | two counters giving the same record directory are equal |
| Harvest.SubdirsDistinct | harvest/harvester.go:229-230 | the record directories of a run are pairwise distinct |
| Harvest.SubdirsIncreasing | harvest/harvester.go:229-234 | below 100000 records, the subdirectory names increase strictly with the counter |
| Harvest.HarvestDirectories | harvest/harvester.go:218-236 | a run creates the output directory, then one distinct numbered directory per record, in record order, with increasing names below 100000 records |
| Harvest.UpdateAudit | harvest/harvester.go:193-204 | updating the audit log appends exactly the given entry and creates no directory |
| Harvest.AuditLine | harvest/harvester.go:200 | the written text ends in a newline; a JSON encoding without line breaks scans back as exactly that one line |
| Harvest.AuditLogLines | harvest/harvester.go:193-204 | the text appended to the audit log is one JSON line per audit entry of the trace, in order |
| Harvest.AuditLogScan | harvest/harvester.go:200 | scanning the audit log after a run gives its earlier lines, then the JSON of each new entry |
| Harvest.AuditCsvRows | harvest/harvester.go:237-242 | the final conversion writes, after the earlier rows, one tab-delimited row per audit entry of the run, in order |
| Harvest.ExampleIdentifier | harvest/harvester.go:88 | in `https://x/details/ia1` the leftmost "details" starts at index 10 |
| Harvest.ExampleMetadataUrl | harvest/harvester.go:88 | `https://x/details/ia1` is fetched from `https://x/metadata/ia1` |
| Harvest.ExampleFileUrl | harvest/harvester.go:48-52 | its file `ia1.pdf` is downloaded from `https://x/download/ia1/ia1.pdf` |
| Harvest.ExampleSubdir | harvest/harvester.go:229-230 | the first record goes into `out/00001` |

## Left out

- File, HTTP and JSON I/O: contents are parameters, and fetching and decoding are abstract functions.
- `log.Fatal`, `os.Exit` and nil-pointer crash paths are not modelled. `fetch` is total, fields
  are typed and the JSON type assertions cannot fail in the model.
- `readJsonInputFile` is not modelled: the decoded records are a parameter. Failing to open the
  audit log or the csv file is not modelled either (the source exits).
- The check of the stale `err` after `ConvertLogToCsv` is not modelled; that variable is always
  nil there.
- The existence check of `createDirectory` is not modelled: `MakeDirectory` is always emitted,
  and creating an existing directory is a no-op.
- The scanner's 10 KiB token limit and its error are not modelled: lines of any length are
  scanned.
- `csv.Reader` parsing and its `ReadAll` error are not modelled: the rows are given.
- The "Processing N records." console output is not modelled.
- The JSON written by `InputFileConverter` is the record sequence in `written`, which is
  `None` when no file is written. For zero rows the file holds `null`; the model gives
  `Some([])`, and the difference between `null` and `[]` is not modelled.
- Log and console output are not modelled. This covers:
  - the "unable to retrieve metadata" warning for a record whose metadata does not decode
    (harvest/harvester.go:118);
  - the `log.Println` calls for HTTP errors (harvest/harvester.go:91, 170, 181);
  - the `fmt.Println` messages before an exit (harvest/harvester.go:196-197,
    filereader/filereader.go:112-113);
  - the printed error of a failed output-file create (filereader/filereader.go:135).
- `main.go` is not part of this model.
- The `sync.WaitGroup` is not modelled: its downloads are sequential.
- The entries of the metadata's "files" list are read as untyped maps (harvest/harvester.go:128-132).
  `IArchiveFile` keeps the two keys the loop reads, "name" and "format"; the other keys are
  never read.
- `WriteFile` records the URL the body comes from, not the body's bytes.
- The metadata body itself is `fetch(url)`; its bytes are only passed to `parse`.
- Harvest.SourceWritesRule, Harvest.WorldcatPlan, Harvest.RecordTraceUnparsed,
  Harvest.RecordWithOneFile: the "longer than four" test on the OCLC number counts characters,
  while Go's `len` counts bytes. The two agree for ASCII OCLC numbers.
- FileReader.InputFileConverter: requires every row to have at least 25 fields. The source
  panics on a shorter row.
- Harvest.SubdirsIncreasing: stated only below 100000 records. From 100000 on, `%05d` names get
  longer and are no longer ordered as strings.
