/** The markdown report of the upload component: what it states about each
    uploaded file, and the text it renders from that, section by section. */
module Report {
  import opened Wrappers
  import opened Text
  import opened Numbers
  import opened Uploads
  import CsvParser
  import ColumnAnalysis
  import LexicalAnalysis

  // ---------------------------------------------------------------------
  // What the report states about each file

  /** The analysis of one file: the table of a CSV file, or the statistics
      of a text file. */
  datatype Analysis =
    | CsvAnalysis(headers: seq<string>, rows: seq<seq<string>>, columns: seq<ColumnAnalysis.ColumnSummary>)
    | TextAnalysis(text: LexicalAnalysis.TextSummary)

  /** `data[0] || []`: the header row, or no headers for an empty table. */
  function Headers(table: seq<seq<string>>): (h: seq<string>)
    ensures table == [] ==> h == []
    ensures table != [] ==> h == table[0]
  {
    if table == [] then [] else table[0]
  }

  /** `data.slice(1)`: the rows after the header row. The header row and
      the data rows together are the whole table. */
  function DataRows(table: seq<seq<string>>): (rows: seq<seq<string>>)
    ensures table == [] ==> rows == []
    ensures table != [] ==> |rows| == |table| - 1 && table == [Headers(table)] + rows
  {
    if table == [] then [] else table[1..]
  }

  /** The header row is the first line of the file; the data rows are the
      remaining lines, one row per line. */
  lemma HeaderAndRows(content: string)
    ensures Headers(CsvParser.Table(content)) == CsvParser.Tokenize(CsvParser.Lines(content)[0])
    ensures |DataRows(CsvParser.Table(content))| == |CsvParser.Lines(content)| - 1
    ensures forall k :: 0 <= k < |DataRows(CsvParser.Table(content))| ==>
              DataRows(CsvParser.Table(content))[k] == CsvParser.Tokenize(CsvParser.Lines(content)[k + 1])
  {
  }

  /** The analysis of one file, chosen by the CSV test. */
  function Analyze(file: UploadedFile): (a: Analysis)
    ensures a.CsvAnalysis? <==> IsCsv(file)
  {
    if IsCsv(file) then
      var table := CsvParser.Table(file.content);
      var headers := Headers(table);
      var rows := DataRows(table);
      ParseEmpty();
      CsvAnalysis(headers, rows, ColumnAnalysis.Summaries(headers, rows, ParseFloat))
    else
      TextAnalysis(LexicalAnalysis.SummarizeText(file.content))
  }

  /** The section of one file: its number, counting from 1, and the file. */
  datatype Section = Section(number: nat, file: UploadedFile)

  /** The sections of the report: one per file, in upload order. */
  function Sections(files: seq<UploadedFile>): (ss: seq<Section>)
    ensures |ss| == |files|
    ensures forall i :: 0 <= i < |ss| ==> ss[i] == Section(i + 1, files[i])
  {
    seq(|files|, i requires 0 <= i < |files| => Section(i + 1, files[i]))
  }

  /** One more file adds one section at the end and leaves the earlier
      sections as they were. */
  lemma SectionsExtend(files: seq<UploadedFile>, i: nat)
    requires i < |files|
    ensures Sections(files[..i + 1]) == Sections(files[..i]) + [Section(i + 1, files[i])]
  {
    var before := Sections(files[..i]);
    var after := Sections(files[..i + 1]);
    assert |after| == |before| + 1;
    forall k | 0 <= k < i
      ensures after[k] == before[k]
    {
      assert files[..i + 1][k] == files[..i][k];
    }
  }

  // ---------------------------------------------------------------------
  // Rendering

  /** The title, the timestamp line and the rule that open the report. */
  function Preamble(timestamp: string): string
  {
    "# Data Analysis Report\n" + "Generated: " + timestamp + "\n\n" + "---\n\n"
  }

  /** A row of a markdown table. */
  function TableRow(cells: seq<string>): string
  {
    "| " + Join(cells, " | ") + " |\n"
  }

  /** The separator row under a table header of `n` columns. */
  function Rule(n: nat): (cells: seq<string>)
    ensures |cells| == n && forall k :: 0 <= k < n ==> cells[k] == "---"
  {
    seq(n, _ => "---")
  }

  /** The statistics lines of a column, with two decimals each. */
  function RenderStats(stats: Option<ColumnAnalysis.ColumnStats>): string
  {
    match stats
    case None => ""
    case Some(s) =>
      "- Min: " + ToFixed(s.min, 2) + "\n" +
      "- Max: " + ToFixed(s.max, 2) + "\n" +
      "- Average: " + ToFixed(s.avg, 2) + "\n" +
      "- Sum: " + ToFixed(s.sum, 2) + "\n"
  }

  /** The subsection of one column. */
  function RenderColumn(c: ColumnAnalysis.ColumnSummary): string
  {
    "#### " + c.header + "\n" +
    "- Total entries: " + NatToString(c.total) + "\n" +
    "- Unique values: " + NatToString(c.unique) + "\n" +
    RenderStats(c.stats) + "\n"
  }

  /** `rows.slice(0, 5)`. */
  function FirstRows(rows: seq<seq<string>>): (first: seq<seq<string>>)
    ensures |first| <= 5 && first <= rows
    ensures |rows| >= 5 ==> |first| == 5
    ensures |rows| <= 5 ==> first == rows
  {
    rows[..if |rows| < 5 then |rows| else 5]
  }

  /** The body of a CSV section: overview, column analysis and preview. */
  function RenderCsv(headers: seq<string>, rows: seq<seq<string>>, columns: seq<ColumnAnalysis.ColumnSummary>): (r: string)
    ensures "### Overview\n" <= r
  {
    "### Overview\n" + (
    "- **Columns:** " + NatToString(|headers|) + "\n" +
    "- **Rows:** " + NatToString(|rows|) + "\n" +
    "- **Headers:** " + Join(headers, ", ") + "\n\n" +
    "### Column Analysis\n\n" +
    ConcatMap(columns, RenderColumn) +
    "### Data Preview (First 5 rows)\n\n" +
    TableRow(headers) +
    TableRow(Rule(|headers|)) +
    ConcatMap(FirstRows(rows), TableRow) +
    "\n")
  }

  /** A row of the word table: a two-cell table row, the word and its count. */
  function WordRow(e: LexicalAnalysis.Entry): (r: string)
    ensures r == TableRow([e.word, NatToString(e.count)])
  {
    "| " + e.word + " | " + NatToString(e.count) + " |\n"
  }

  /** The word table, left out when no word qualified. */
  function RenderTopWords(top: seq<LexicalAnalysis.Entry>): string
  {
    if |top| > 0 then
      "### Top 10 Words\n\n" + "| Word | Frequency |\n" + "| --- | --- |\n" + ConcatMap(top, WordRow) + "\n"
    else []
  }

  /** The body of a text section: counts, word table and preview. */
  function RenderText(t: LexicalAnalysis.TextSummary): (r: string)
    ensures "### Text Analysis\n" <= r && EndsWith(r, "\n```\n\n")
  {
    "### Text Analysis\n" + (
    "- **Lines:** " + NatToString(t.lines) + "\n" +
    "- **Words:** " + NatToString(t.words) + "\n" +
    "- **Characters:** " + NatToString(t.characters) + "\n" +
    "- **Average words per line:** " + t.wordsPerLine + "\n\n" +
    RenderTopWords(t.topWords) +
    "### Content Preview\n\n" +
    "```\n" + t.preview) + "\n```\n\n"
  }

  /** The body of a section: a CSV body opens with its overview, a text
      body with its counts and closes with the fenced preview. */
  function RenderAnalysis(a: Analysis): (r: string)
    ensures a.CsvAnalysis? ==> "### Overview\n" <= r
    ensures a.TextAnalysis? ==> "### Text Analysis\n" <= r && EndsWith(r, "\n```\n\n")
  {
    match a
    case CsvAnalysis(headers, rows, columns) => RenderCsv(headers, rows, columns)
    case TextAnalysis(t) => RenderText(t)
  }

  /** The heading that opens a section. */
  function SectionHeading(number: nat, name: string): string
  {
    "## File " + NatToString(number) + ": " + name + "\n\n"
  }

  /** A whole section: heading, body and closing rule. */
  function RenderSection(s: Section): (r: string)
    ensures SectionHeading(s.number, s.file.name) <= r
    ensures EndsWith(r, "---\n\n")
  {
    SectionHeading(s.number, s.file.name) + RenderAnalysis(Analyze(s.file)) + "---\n\n"
  }

  /** The opening words of the summary. */
  const SummaryLead := "## Summary\n\nThis report analyzed "

  /** The closing words of the summary. */
  const SummaryTail := " file(s) and extracted key metrics and insights from the data.\n"

  /** The summary that closes the report. */
  function Summary(count: nat): string
  {
    SummaryLead + (NatToString(count) + SummaryTail)
  }

  /** The whole report for a list of files. */
  function ReportText(timestamp: string, files: seq<UploadedFile>): string
  {
    Preamble(timestamp) + ConcatMap(Sections(files), RenderSection) + Summary(|files|)
  }

  /** The report ends by stating the number of files, written in decimal
      (which reads back as that number: `Numbers.ParseNatToString`). */
  lemma SummaryStatesFileCount(timestamp: string, files: seq<UploadedFile>)
    ensures EndsWith(ReportText(timestamp, files), NatToString(|files|) + SummaryTail)
  {
    var body := Preamble(timestamp) + ConcatMap(Sections(files), RenderSection);
    EndsWithAppended(body, SummaryLead, NatToString(|files|) + SummaryTail);
  }

  /** The sections already rendered for the first `n` files are a prefix
      of the report of all files: adding files at the end only appends. */
  lemma ReportKeepsEarlierSections(timestamp: string, files: seq<UploadedFile>, n: nat)
    requires n <= |files|
    ensures Preamble(timestamp) + ConcatMap(Sections(files[..n]), RenderSection) <= ReportText(timestamp, files)
  {
    var ss := Sections(files);
    assert Sections(files[..n]) == ss[..n];
    assert ss == ss[..n] + ss[n..];
    ConcatMapAppend(ss[..n], ss[n..], RenderSection);
  }

  // ---------------------------------------------------------------------
  // The loops of the component

  /** The analysis of one file as the component computes it: the parser
      and the column loop for a CSV file, the word-counting loop for a
      text file. */
  method AnalyzeFile(file: UploadedFile) returns (a: Analysis)
    ensures a == Analyze(file)
  {
    if IsCsv(file) {
      var table := CsvParser.ParseCsv(file.content);
      var headers := Headers(table);
      var rows := DataRows(table);
      ParseEmpty();
      var columns := ColumnAnalysis.SummarizeColumns(headers, rows, ParseFloat);
      a := CsvAnalysis(headers, rows, columns);
    } else {
      var t := LexicalAnalysis.AnalyzeText(file.content);
      a := TextAnalysis(t);
    }
  }

  /** The text one iteration of the report loop appends for a file. */
  method RenderFile(number: nat, file: UploadedFile) returns (text: string)
    ensures text == RenderSection(Section(number, file))
  {
    text := SectionHeading(number, file.name);
    var a := AnalyzeFile(file);
    text := text + RenderAnalysis(a);
    text := text + "---\n\n";
  }

  /** The report loop: the title, then the section of each file in turn,
      then the summary. */
  method RenderReport(timestamp: string, files: seq<UploadedFile>) returns (text: string)
    ensures text == ReportText(timestamp, files)
  {
    var body := [];
    assert files[..0] == [];
    for i := 0 to |files|
      invariant body == ConcatMap(Sections(files[..i]), RenderSection)
    {
      var section := RenderFile(i + 1, files[i]);
      SectionsExtend(files, i);
      ConcatMapSnoc(Sections(files[..i]), Section(i + 1, files[i]), RenderSection);
      body := body + section;
    }
    assert files[..|files|] == files;
    text := Preamble(timestamp) + body + Summary(|files|);
  }
}
