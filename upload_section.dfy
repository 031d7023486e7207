/** The upload component: the list of uploaded files and the last report,
    the handlers that change them, and the data it hands to the charts. */
module UploadSection {
  import opened Wrappers
  import opened Text
  import opened Numbers
  import opened Uploads
  import CsvParser
  import ColumnAnalysis
  import Report

  /** What the charts receive: the first CSV file's headers and rows, the
      numbers of each column that holds some, and their statistics. */
  datatype ParsedData = ParsedData(
    headers: seq<string>,
    rows: seq<seq<string>>,
    numericColumns: map<string, seq<real>>,
    columnStats: map<string, ColumnAnalysis.ColumnStats>)

  /** The chart data of a file list: nothing when no file is CSV, else the
      analysis of the first CSV file. */
  function ChartDataOf(files: seq<UploadedFile>): Option<ParsedData>
  {
    match FirstCsv(files)
    case None => None
    case Some(f) =>
      var table := CsvParser.Table(f.content);
      var headers := Report.Headers(table);
      var rows := Report.DataRows(table);
      var columns := ColumnAnalysis.NumericColumns(
        headers, ColumnAnalysis.AllColumnNumbers(headers, rows, ParseFloat), |headers|);
      Some(ParsedData(headers, rows, columns, ColumnAnalysis.StatsMap(columns)))
  }

  /** The charts get data exactly when some file is CSV. Then the headers
      are the first line of the first CSV file, and the statistics are
      those of the numbers of each column: a header has statistics exactly
      when it has numbers, and they bound its numbers. */
  lemma ChartDataIsConsistent(files: seq<UploadedFile>)
    ensures ChartDataOf(files).Some? <==> exists f :: f in files && IsCsv(f)
    ensures ChartDataOf(files).Some? ==>
              var d := ChartDataOf(files).value;
              d.headers == CsvParser.Tokenize(CsvParser.Lines(FirstCsv(files).value.content)[0]) &&
              d.columnStats.Keys == d.numericColumns.Keys &&
              forall h :: h in d.columnStats ==>
                var s := d.columnStats[h];
                s.min <= s.avg <= s.max &&
                forall v :: v in d.numericColumns[h] ==> s.min <= v <= s.max
  {
    FirstCsvIsFirst(files);
    if FirstCsv(files).Some? {
      var content := FirstCsv(files).value.content;
      Report.HeaderAndRows(content);
      var d := ChartDataOf(files).value;
      ColumnAnalysis.StatsMapConsistent(d.numericColumns);
    }
  }

  /** The state of the upload component. */
  class FileUploadSection {
    /** The uploaded files, in upload order. */
    var files: seq<UploadedFile>
    /** The last generated report; empty when there is none. */
    var report: string

    /** A fresh component has no files and no report. */
    constructor()
      ensures files == [] && report == []
    {
      files := [];
      report := [];
    }

    /** The drop and file-input handlers: keep the acceptable files; with
        none, signal an invalid type and change nothing; otherwise append
        them, processed, after the files already there and clear the
        report. */
    method AddFiles(selected: seq<BrowserFile>) returns (outcome: Outcome<string>)
      modifies this
      ensures AcceptedFiles(selected) == [] ==>
                outcome == Fail("Invalid file type") && files == old(files) && report == old(report)
      ensures AcceptedFiles(selected) != [] ==>
                outcome == Pass && report == [] &&
                files == old(files) + ProcessAll(AcceptedFiles(selected))
    {
      var accepted := AcceptedFiles(selected);
      if accepted == [] {
        outcome := Fail("Invalid file type");
        return;
      }
      var processed := ProcessAll(accepted);
      files := files + processed;
      report := [];
      outcome := Pass;
    }

    /** The remove button: drop the entry at `index` and clear the report. */
    method RemoveFile(index: int)
      modifies this
      ensures files == Removed(old(files), index)
      ensures report == []
    {
      files := Removed(files, index);
      report := [];
    }

    /** Report generation: with no files, signal it and change nothing;
        otherwise render the title, one section per file in order and the
        summary. */
    method GenerateReport(timestamp: string) returns (outcome: Outcome<string>)
      modifies this
      ensures files == old(files)
      ensures old(files) == [] ==> outcome == Fail("No files uploaded") && report == old(report)
      ensures old(files) != [] ==> outcome == Pass && report == Report.ReportText(timestamp, files)
    {
      if files == [] {
        outcome := Fail("No files uploaded");
        return;
      }
      report := Report.RenderReport(timestamp, files);
      outcome := Pass;
    }

    /** The data the component hands to the charts whenever the files
        change. */
    method ChartData() returns (data: Option<ParsedData>)
      ensures data == ChartDataOf(files)
    {
      if files == [] {
        return None;
      }
      var csvFile := FirstCsv(files);
      if csvFile.None? {
        return None;
      }
      var table := CsvParser.ParseCsv(csvFile.value.content);
      var headers := Report.Headers(table);
      var rows := Report.DataRows(table);
      var numericColumns, columnStats := ColumnAnalysis.AnalyzeColumns(headers, rows, ParseFloat);
      data := Some(ParsedData(headers, rows, numericColumns, columnStats));
    }
  }
}
