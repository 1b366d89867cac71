/**
 * filereader/filereader.go: reading the API key file, converting the tab-delimited input
 * file into harvest records, and converting the JSON audit log into a tab-delimited file.
 *
 * File contents are parameters (`Option` where a read can fail); JSON decoding is the
 * abstract function `decode`/`unmarshal`, and the tab-delimited reader's output is given
 * as rows of fields.
 */
module FileReader {
  import opened Wrappers
  import opened Types
  import opened Text

  /** Columns of the tab-delimited input file. */
  const TitleColumn := 0
  const IarchiveColumn := 9
  const OclcColumn := 24

  const NoApiFileMessage := "no api configuration file name, harvesting Internet Archive records only"

  function CannotOpenApiFileMessage(input: string): string {
    "unable to open api key file " + input + ", harvesting Internet Archive records only"
  }

  /**
   * ReadApiKey: an empty file name and an unreadable file (`content == None`) are errors;
   * otherwise the `Key` field of the decoded configuration. A decoding error is ignored,
   * so `decode` is total.
   */
  function ReadApiKey(input: string, content: Option<Bytes>, decode: Bytes -> ApiKey): (r: Result<string>)
    ensures r.Failure? <==> input == "" || content.None?
    ensures input == "" ==> r.error == NoApiFileMessage
    ensures input != "" && content.None? ==> r.error == CannotOpenApiFileMessage(input)
    ensures r.Success? ==> r.value == decode(content.value).key
  {
    if input == "" then Failure(NoApiFileMessage)
    else match content
      case None => Failure(CannotOpenApiFileMessage(input))
      case Some(dat) => Success(decode(dat).key)
  }

  // ---------------------------------------------------------------------------
  // Audit log to tab-delimited lines
  // ---------------------------------------------------------------------------

  /** The seven columns of a tab-delimited audit line, in output order. */
  function CsvFields(a: Audit): (fields: seq<string>)
    ensures |fields| == 7
  {
    [a.title, a.author, a.date, a.description, a.iarchiveId, a.oclcNumber, a.outputDirectory]
  }

  /** The audit entry read back from the columns of a tab-delimited line. */
  function AuditOfFields(fields: seq<string>): Option<Audit> {
    if |fields| != 7 then None
    else Some(Audit(fields[0], fields[1], fields[2], fields[3], fields[4], fields[5], fields[6]))
  }

  /** The columns joined by single tabs (without the line's newline). */
  function CsvRow(a: Audit): string {
    Join(CsvFields(a), '\t')
  }

  /** No column of the entry contains a tab. */
  predicate TabFree(a: Audit) {
    NoSep(CsvFields(a), '\t')
  }

  /**
   * writeCsvLine: the decoded log line's seven columns joined by tabs and terminated by a
   * newline, so the line holds at least its six tabs and the newline even when every column is
   * empty. When no column contains a tab, splitting the line on tabs gives the columns back.
   */
  function WriteCsvLine(line: string, unmarshal: string -> Audit): (out: string)
    ensures |out| >= 7 && out[|out| - 1] == '\n'
    ensures TabFree(unmarshal(line)) ==> Split(out[..|out| - 1], '\t') == CsvFields(unmarshal(line))
  {
    var a := unmarshal(line);
    var fields := CsvRow(a);
    CsvRowShape(a);
    fields + "\n"
  }

  lemma CsvRowShape(a: Audit)
    ensures |CsvRow(a)| >= 6
    ensures TabFree(a) ==> Split(CsvRow(a), '\t') == CsvFields(a)
  {
    var f := CsvFields(a);
    assert Join(f, '\t') == f[0] + ['\t'] + Join(f[1..], '\t');
    assert |Join(f[1..], '\t')| >= 5 by { JoinLength(f[1..], '\t'); }
    if TabFree(a) {
      SplitJoin(f, '\t');
    }
  }

  lemma {:induction false} JoinLength(fields: seq<string>, sep: char)
    requires |fields| >= 1
    ensures |Join(fields, sep)| >= |fields| - 1
  {
    if |fields| > 1 {
      JoinLength(fields[1..], sep);
    }
  }

  /** A tab-free audit entry survives the trip through a tab-delimited line. */
  lemma CsvRowRoundTrip(a: Audit)
    requires TabFree(a)
    ensures AuditOfFields(Split(CsvRow(a), '\t')) == Some(a)
  {
    CsvRowShape(a);
  }

  /** The csv file name: the first "log" of the log file name replaced by "csv". */
  function CsvFileName(logFile: string): (name: string)
    ensures Absent(logFile, "log") ==> name == logFile
    ensures forall i: nat :: FirstOccurrence(logFile, "log", i) ==> name == logFile[..i] + "csv" + logFile[i + 3..]
  {
    ReplaceFirst(logFile, "log", "csv")
  }

  lemma AuditLogCsvName()
    ensures CsvFileName("../audit.log") == "../audit.csv"
  {
    var s := "../audit.log";
    assert OccursAt(s, "log", 9);
    forall j: nat | j < 9 ensures !OccursAt(s, "log", j) {
      assert s[j] != 'l' && s[j..j + 3][0] == s[j];
    }
    assert FirstOccurrence(s, "log", 9);
    assert s[..9] + "csv" + s[12..] == "../audit.csv";
  }

  /** The tab-delimited rows for the given log lines, one per line, in order. */
  function CsvRows(lines: seq<string>, unmarshal: string -> Audit): (rows: seq<string>)
    ensures |rows| == |lines|
  {
    seq(|lines|, i requires 0 <= i < |lines| => CsvRow(unmarshal(lines[i])))
  }

  /** The rows of concatenated line lists are the concatenated rows. */
  lemma CsvRowsAppend(a: seq<string>, b: seq<string>, unmarshal: string -> Audit)
    ensures CsvRows(a + b, unmarshal) == CsvRows(a, unmarshal) + CsvRows(b, unmarshal)
  {
    var r, ra, rb := CsvRows(a + b, unmarshal), CsvRows(a, unmarshal), CsvRows(b, unmarshal);
    forall i | 0 <= i < |a + b| ensures r[i] == (ra + rb)[i] {
      if i < |a| {
        assert (a + b)[i] == a[i] && (ra + rb)[i] == ra[i];
      } else {
        assert (a + b)[i] == b[i - |a|] && (ra + rb)[i] == rb[i - |a|];
      }
    }
  }

  /**
   * ConvertLogToCsv: every line the scanner yields from the log is decoded and written as
   * one tab-delimited line, in order, after whatever the csv file (opened for appending)
   * already holds.
   */
  method ConvertLogToCsv(logFile: string, logText: string, csvText: string, unmarshal: string -> Audit)
    returns (csvFileName: string, csv: string)
    ensures csvFileName == CsvFileName(logFile)
    ensures csv == csvText + Unlines(CsvRows(ScanLines(logText), unmarshal))
  {
    csvFileName := ReplaceFirst(logFile, "log", "csv");
    csv := csvText;
    var lines := ScanLines(logText);
    for i := 0 to |lines|
      invariant csv == csvText + Unlines(CsvRows(lines[..i], unmarshal))
    {
      var line := WriteCsvLine(lines[i], unmarshal);
      CsvRowsSnoc(lines, i, unmarshal);
      Associative(csvText, Unlines(CsvRows(lines[..i], unmarshal)), line);
      csv := csv + line;
    }
    assert lines[..|lines|] == lines;
  }

  /** One more log line adds its tab-delimited line to the written text. */
  lemma CsvRowsSnoc(lines: seq<string>, i: nat, unmarshal: string -> Audit)
    requires i < |lines|
    ensures Unlines(CsvRows(lines[..i + 1], unmarshal)) ==
              Unlines(CsvRows(lines[..i], unmarshal)) + WriteCsvLine(lines[i], unmarshal)
  {
    var rows := CsvRows(lines[..i + 1], unmarshal);
    assert rows[..i] == CsvRows(lines[..i], unmarshal);
    Associative(Unlines(rows[..i]), rows[i], "\n");
  }

  /** An entry whose text columns contain no newline, no carriage return and no tab. */
  predicate CsvSafe(a: Audit) {
    TabFree(a) && forall k :: 0 <= k < 7 ==> LineSafe(CsvFields(a)[k])
  }

  lemma JoinLineSafe(fields: seq<string>, sep: char)
    requires sep != '\n' && sep != '\r'
    requires forall k :: 0 <= k < |fields| ==> LineSafe(fields[k])
    ensures LineSafe(Join(fields, sep))
  {
    if |fields| > 1 {
      JoinLineSafe(fields[1..], sep);
      assert LineSafe(fields[0]);
    }
  }

  /**
   * The csv file mirrors the log: scanning it afterwards gives its previous lines and then
   * exactly one row per log line, in log order, each splitting back into that line's seven columns.
   */
  lemma ConvertedCsvLines(logText: string, csvText: string, unmarshal: string -> Audit)
    requires Terminated(csvText)
    requires forall l :: l in ScanLines(logText) ==> CsvSafe(unmarshal(l))
    ensures var lines, rows := ScanLines(logText), CsvRows(ScanLines(logText), unmarshal);
            && ScanLines(csvText + Unlines(rows)) == ScanLines(csvText) + rows
            && forall k :: 0 <= k < |lines| ==> Split(rows[k], '\t') == CsvFields(unmarshal(lines[k]))
  {
    var lines := ScanLines(logText);
    var rows := CsvRows(lines, unmarshal);
    forall k | 0 <= k < |rows| ensures LineSafe(rows[k]) && Split(rows[k], '\t') == CsvFields(unmarshal(lines[k])) {
      var a := unmarshal(lines[k]);
      assert lines[k] in lines;
      JoinLineSafe(CsvFields(a), '\t');
      CsvRowShape(a);
    }
    ScanUnlines(csvText, rows);
  }

  /**
   * Two conversions of a growing log, as two harvest runs perform them: the csv file is opened
   * for appending and each conversion writes a row for every line of the whole log, so after the
   * second run the first run's rows appear twice, followed by the second run's rows.
   */
  lemma CsvRepeatsEarlierRuns(firstRun: seq<string>, secondRun: seq<string>, unmarshal: string -> Audit)
    requires forall l :: l in firstRun + secondRun ==> LineSafe(l) && CsvSafe(unmarshal(l))
    ensures var log1 := Unlines(firstRun);
            var log2 := log1 + Unlines(secondRun);
            var csv1 := "" + Unlines(CsvRows(ScanLines(log1), unmarshal));
            var csv2 := csv1 + Unlines(CsvRows(ScanLines(log2), unmarshal));
            var r1, r2 := CsvRows(firstRun, unmarshal), CsvRows(secondRun, unmarshal);
            ScanLines(csv2) == r1 + r1 + r2
  {
    var log1 := Unlines(firstRun);
    var log2 := log1 + Unlines(secondRun);
    var r1, r2 := CsvRows(firstRun, unmarshal), CsvRows(secondRun, unmarshal);
    forall k | 0 <= k < |firstRun| ensures LineSafe(firstRun[k]) {
      assert firstRun[k] in firstRun + secondRun;
    }
    forall k | 0 <= k < |secondRun| ensures LineSafe(secondRun[k]) {
      assert secondRun[k] in firstRun + secondRun;
    }
    assert ScanLines(log1) == firstRun by {
      assert "" + log1 == log1;
      ScanUnlines("", firstRun);
    }
    assert ScanLines(log2) == firstRun + secondRun by {
      UnlinesTerminated("", firstRun);
      assert "" + log1 == log1;
      ScanUnlines(log1, secondRun);
    }
    CsvRowsAppend(firstRun, secondRun, unmarshal);
    var csv1 := "" + Unlines(r1);
    ConvertedCsvLines(log1, "", unmarshal);
    assert ScanLines(csv1) == r1 by {
      assert ScanLines("") + r1 == r1;
    }
    UnlinesTerminated("", r1);
    ConvertedCsvLines(log2, csv1, unmarshal);
    Associative(r1, r1, r2);
  }

  /**
   * writeCsvLine writes the columns as they are, so a line break inside the description ends the
   * csv line early: the entry's one row is scanned back as two lines, the columns before the
   * break and the columns after it.
   */
  lemma DescriptionBreakSplitsRow(a: Audit, before: string, after: string)
    requires a.description == before + "\n" + after
    requires LineSafe(before) && LineSafe(after)
    requires LineSafe(a.title) && LineSafe(a.author) && LineSafe(a.date)
    requires LineSafe(a.iarchiveId) && LineSafe(a.oclcNumber) && LineSafe(a.outputDirectory)
    ensures ScanLines(CsvRow(a) + "\n") ==
              [Join([a.title, a.author, a.date, before], '\t'),
               Join([after, a.iarchiveId, a.oclcNumber, a.outputDirectory], '\t')]
  {
    var first := Join([a.title, a.author, a.date, before], '\t');
    var second := Join([after, a.iarchiveId, a.oclcNumber, a.outputDirectory], '\t');
    var head, tail := [a.title, a.author, a.date], [a.iarchiveId, a.oclcNumber, a.outputDirectory];
    var sep := "\t";
    assert CsvFields(a) == head + ([a.description] + tail);
    JoinConcat(head, [a.description] + tail, '\t');
    JoinConcat([a.description], tail, '\t');
    JoinConcat(head, [before], '\t');
    JoinConcat([after], tail, '\t');
    assert head + [before] == [a.title, a.author, a.date, before];
    assert [after] + tail == [after, a.iarchiveId, a.oclcNumber, a.outputDirectory];
    assert first == Join(head, '\t') + sep + before;
    assert second == after + sep + Join(tail, '\t');
    assert CsvRow(a) == Join(head, '\t') + sep + (before + "\n" + after + sep + Join(tail, '\t'));
    assert CsvRow(a) == first + "\n" + second;
    JoinLineSafe([a.title, a.author, a.date, before], '\t');
    JoinLineSafe([after, a.iarchiveId, a.oclcNumber, a.outputDirectory], '\t');
    ScanTwoLines(first, second);
  }

  // ---------------------------------------------------------------------------
  // Tab-delimited input file to harvest records
  // ---------------------------------------------------------------------------

  const NoInputMessage := "no input file name"
  const NoOutputMessage := "no output file name"

  /**
   * InputFileConverter: empty input or output names are errors, as is an input file that
   * cannot be opened (`rows == None`); otherwise one record per row, in row order, built from
   * the title, Internet Archive and OCLC columns. `written` is what goes to the JSON output file:
   * `Some` of the records when the output file could be created (`outputCreated`), even when
   * there are none, and `None` when no file is written. Success is reported whether or not the
   * file could be created, since a failed create is only printed.
   */
  method InputFileConverter(input: string, output: string, rows: Option<seq<seq<string>>>, outputCreated: bool)
    returns (result: Result<string>, written: Option<seq<Record>>)
    requires rows.Some? ==> forall k :: 0 <= k < |rows.value| ==> |rows.value[k]| > OclcColumn
    ensures input == "" ==> result == Failure(NoInputMessage) && written.None?
    ensures input != "" && output == "" ==> result == Failure(NoOutputMessage) && written.None?
    ensures input != "" && output != "" && rows.None? ==>
              result == Failure("unable to open file: " + input) && written.None?
    ensures input != "" && output != "" && rows.Some? ==>
              && result == Success("Written to json file: " + output)
              && written.Some? == outputCreated
              && (outputCreated ==>
                    && |written.value| == |rows.value|
                    && forall k :: 0 <= k < |written.value| ==>
                         written.value[k] == Record(rows.value[k][TitleColumn], rows.value[k][IarchiveColumn], rows.value[k][OclcColumn]))
  {
    written := None;
    if input == "" {
      return Failure(NoInputMessage), written;
    }
    if output == "" {
      return Failure(NoOutputMessage), written;
    }
    if rows.None? {
      return Failure("unable to open file: " + input), written;
    }
    var csvData := rows.value;
    var oneRecord := Record("", "", "");
    var allRecords := [];
    for i := 0 to |csvData|
      invariant |allRecords| == i
      invariant forall k :: 0 <= k < i ==>
                  allRecords[k] == Record(csvData[k][TitleColumn], csvData[k][IarchiveColumn], csvData[k][OclcColumn])
    {
      var each := csvData[i];
      oneRecord := oneRecord.(title := each[TitleColumn]);
      oneRecord := oneRecord.(iarchiveId := each[IarchiveColumn]);
      oneRecord := oneRecord.(oclc := each[OclcColumn]);
      allRecords := allRecords + [oneRecord];
    }
    if outputCreated {
      written := Some(allRecords);
    }
    result := Success("Written to json file: " + output);
  }
}
