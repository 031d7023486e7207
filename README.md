# neon-flow-reports: the upload and report pipeline, in Dafny

This project models the data side of the upload component of
neon-flow-reports (`src/components/FileUploadSection.tsx`). The parts
modelled are:

- which dropped or chosen files are accepted, and how each becomes an
  uploaded file with a name, a content and a type;
- the CSV reader `parseCSV`;
- the chart data the component emits for the first CSV file: headers,
  rows, the numbers of each numeric column, and min/max/average/sum;
- the markdown report `generateReport`. A CSV file gets an overview, a
  per-column analysis and a five-row preview. A text file gets line, word
  and character counts, a word-frequency table with its ten most frequent
  words, and a 500-character preview;
- removing a file.

Modules, one per concern of the source:

| module | file | what it holds |
|---|---|---|
| `Wrappers` | `wrappers.dfy` | `Option`, `Result`, `Outcome` |
| `Text` | `text.dfy` | the JavaScript string built-ins used: `trim`, `split` on one character, `join`, `endsWith`, the `\s` class; `ConcatMap`, the text a `forEach` appends |
| `Numbers` | `numbers.dfy` | `parseFloat` over decimal literals; integers as decimal text; `toFixed` |
| `CsvParser` | `csv_parser.dfy` | `parseCSV`: an imperative line reader proved against a recursive field grammar |
| `ColumnAnalysis` | `column_analysis.dfy` | numeric columns and their statistics, for the charts and for the report |
| `LexicalAnalysis` | `lexical_analysis.dfy` | lines, words, the frequency loop, `Object.entries` order, the stable sort, top ten, preview |
| `Uploads` | `uploads.dfy` | the file filter, `processFile`, the CSV test, `files.find`, removal |
| `Report` | `report.dfy` | what the report states per file, and the exact markdown it renders |
| `UploadSection` | `upload_section.dfy` | the component as a class whose `files` and `report` the handlers update |

Numbers are exact `real`s. The column analysis is stated for any
`parse: string -> Option<real>` that rejects the empty string, and the
report and the chart data apply it to `Numbers.ParseFloat`.

## Model

| member | source | states |
|---|---|---|
| Text.Trim | src/components/FileUploadSection.tsx:35 | the result neither starts nor ends with whitespace and is no longer than the input (what is removed: `Text.TrimCutsWhitespace`) |
| Text.TrimCutsWhitespace | src/components/FileUploadSection.tsx:35 | the trimmed text is an infix of the input with only whitespace before and after it, so trimming drops nothing else |
| Text.TrimStart | src/components/FileUploadSection.tsx:35 | drops exactly the leading whitespace |
| Text.TrimEnd | src/components/FileUploadSection.tsx:35 | drops exactly the trailing whitespace |
| Text.TrimIdempotent | src/components/FileUploadSection.tsx:46 | trimming a trimmed field changes nothing |
| Text.TrimKeepsOnlyInputChars | src/components/FileUploadSection.tsx:46 | trimming introduces no character absent from the input |
| Text.IsWhitespace | src/components/FileUploadSection.tsx:35 | space, tab, line feed and carriage return are whitespace, and no whitespace character is a letter, a digit, a comma or a quote, so `trim` and `\s+` never touch CSV delimiters or word characters |
| Text.Split | src/components/FileUploadSection.tsx:35 | `split` yields at least one piece and no piece contains the separator |
| Text.SplitCount | src/components/FileUploadSection.tsx:241 | the number of pieces is the number of separators plus one |
| Text.SplitJoin | src/components/FileUploadSection.tsx:35 | joining the pieces with the separator gives the input back |
| Text.Join | src/components/FileUploadSection.tsx:203 | `join` of no pieces is empty, of one piece is that piece, and otherwise opens with the first piece and ends with the last (the separators: `Text.JoinAppend`) |
| Text.JoinAppend | src/components/FileUploadSection.tsx:203 | for any separator, joining two non-empty lists is joining each and putting the separator between them; with the one-piece case this determines `join` on every list |
| Text.EndsWith | src/components/FileUploadSection.tsx:65 | when `s` ends with `suffix`, its last characters are those of `suffix`, one by one |
| Text.ConcatMap | src/components/FileUploadSection.tsx:193-280 | the text a `forEach` appends: nothing for no items, an item's own text for one item; with `Text.ConcatMapAppend` this determines it |
| Text.ConcatMapAppend | src/components/FileUploadSection.tsx:193-280 | the text appended for two lists in a row is the text of the first followed by that of the second |
| CsvParser.ParseLine | src/components/FileUploadSection.tsx:37-53 | the character loop with `current`, `inQuotes` and `result` returns exactly the trimmed fields of the field grammar |
| CsvParser.Fields | src/components/FileUploadSection.tsx:41-52 | the field grammar of one line: every line, even the empty one, has at least one field |
| CsvParser.Tokenize | src/components/FileUploadSection.tsx:37-53 | the trimmed fields of one line; its properties are `CsvParser.ParseLine`, `CsvParser.TokensClean` and `CsvParser.FieldCount` |
| CsvParser.ParseLines | src/components/FileUploadSection.tsx:36 | one row per line, row k the fields of line k |
| CsvParser.ParseCsv | src/components/FileUploadSection.tsx:34-55 | the parser's output is the table: one row per line of the trimmed content |
| CsvParser.Lines | src/components/FileUploadSection.tsx:35 | the trimmed content splits into at least one line |
| CsvParser.Table | src/components/FileUploadSection.tsx:35-36 | as many rows as lines; row k is the tokenized line k |
| CsvParser.TableRowCount | src/components/FileUploadSection.tsx:35 | the table has one row more than the line feeds of the trimmed content, so it is never empty |
| CsvParser.FieldCount | src/components/FileUploadSection.tsx:41-52 | a line has one field more than its commas that have an even number of quotes before them |
| CsvParser.FieldsHaveNoQuotes | src/components/FileUploadSection.tsx:43-44 | no raw field contains a double quote |
| CsvParser.TokensClean | src/components/FileUploadSection.tsx:43-52 | every returned field is free of quotes and trimmed |
| CsvParser.FieldsAppend | src/components/FileUploadSection.tsx:41-51 | reading `p` then `t` equals reading `p`, then reading `t` from the quote state `p` leaves, with the open field carried across |
| CsvParser.InsideQuotes | src/components/FileUploadSection.tsx:43-49 | inside quotes, text without a quote is one field, commas included |
| CsvParser.UnterminatedQuote | src/components/FileUploadSection.tsx:43-49 | an unclosed quote makes the rest of the line part of the current field: no further fields |
| CsvParser.PlainLine | src/components/FileUploadSection.tsx:36-53 | `a,b,c` reads as three fields |
| CsvParser.QuotedComma | src/components/FileUploadSection.tsx:36-53 | `a,"b,c",d` reads as `a`, `b,c`, `d` |
| Numbers.ParseFloatNeedsDigit | src/components/FileUploadSection.tsx:80 | a string without a digit is NaN |
| Numbers.ScanNumber | src/components/FileUploadSection.tsx:80 | a number is read only from text that holds a digit |
| Numbers.ParseFloat | src/components/FileUploadSection.tsx:80 | `parseFloat` on decimal literals, NaN as no value; see `Numbers.ParseFloatNeedsDigit` and `Numbers.ParseNatToString` |
| Numbers.ParseEmpty | src/components/FileUploadSection.tsx:209-210 | the empty string is NaN, so dropping empty cells first changes no number |
| Numbers.NatToString | src/components/FileUploadSection.tsx:202 | an integer prints as at least one digit, with no leading zero except for 0 |
| Numbers.NatToStringValue | src/components/FileUploadSection.tsx:202 | the printed digits denote the integer |
| Numbers.ParseNatToString | src/components/FileUploadSection.tsx:283 | `parseFloat` of a printed integer gives it back |
| Numbers.PaddedDigits | src/components/FileUploadSection.tsx:223-226 | the zero-padded digits have at least the width asked for and denote the integer |
| Numbers.ToFixed | src/components/FileUploadSection.tsx:223-226 | `toFixed(f)` of an exact number; its meaning is `Numbers.ToFixedReadsBack` and `Numbers.ToFixedRoundTrip` |
| Numbers.ToFixedReadsBack | src/components/FileUploadSection.tsx:223-226 | `toFixed(f)` text scans as a decimal whose sign is the sign of x and whose value is the rounded magnitude over 10^f |
| Numbers.RoundingError | src/components/FileUploadSection.tsx:223-226 | the rounded magnitude is within half a unit of the f-th decimal |
| Numbers.ToFixedRoundTrip | src/components/FileUploadSection.tsx:223-226 | `parseFloat(x.toFixed(f))` is a number within half of 10^-f of x |
| ColumnAnalysis.Cell | src/components/FileUploadSection.tsx:80 | `row[colIndex]` is a value exactly when the index is inside the row, and then it is that entry |
| ColumnAnalysis.CellNumber | src/components/FileUploadSection.tsx:80 | `parseFloat(undefined)` is NaN; a present cell's number is the parse of its text |
| ColumnAnalysis.ColumnNumbers | src/components/FileUploadSection.tsx:80 | at most one number per row |
| ColumnAnalysis.ColumnNumbersAreCells | src/components/FileUploadSection.tsx:80 | a value is among the column's numbers exactly when some row's cell in that column parses to it |
| ColumnAnalysis.ColumnCells | src/components/FileUploadSection.tsx:80 | one cell per row: row k's entry in the column, absent when the row is too short |
| ColumnAnalysis.ParsedValues | src/components/FileUploadSection.tsx:80 | the `!isNaN` filter keeps at most as many values as there were cells; order and multiplicity by `ColumnAnalysis.ParsedValuesAppend` |
| ColumnAnalysis.ParsedValuesAppend | src/components/FileUploadSection.tsx:80 | the filter of two lists of cells in a row is the filter of the first followed by that of the second, so each parsed cell gives its own value once, in order |
| ColumnAnalysis.ValuesNonEmpty | src/components/FileUploadSection.tsx:81 | some number survives exactly when some cell parses |
| ColumnAnalysis.ValuesAreTheParsed | src/components/FileUploadSection.tsx:80 | the kept numbers are exactly the parsed ones, as many as parsed |
| ColumnAnalysis.ParseCells | src/components/FileUploadSection.tsx:80 | `rows.map(row => parseFloat(row[colIndex]))`: one parse result per row, a missing cell giving NaN |
| ColumnAnalysis.Min | src/components/FileUploadSection.tsx:85 | `Math.min` is a member of the list and below all of it |
| ColumnAnalysis.Max | src/components/FileUploadSection.tsx:86 | `Math.max` is a member of the list and above all of it |
| ColumnAnalysis.Sum | src/components/FileUploadSection.tsx:83 | `reduce((a, b) => a + b, 0)` from the left; bounded by `ColumnAnalysis.SumBounds` |
| ColumnAnalysis.SumBounds | src/components/FileUploadSection.tsx:83 | a sum of n values bounded by lo and hi lies between n*lo and n*hi |
| ColumnAnalysis.MeanBounds | src/components/FileUploadSection.tsx:87 | the mean of such a sum lies between lo and hi and times n gives the sum |
| ColumnAnalysis.StatsOf | src/components/FileUploadSection.tsx:82-88 | min and max are values of the column and bound all of them; sum is the left-to-right sum of the numbers; min <= avg <= max; avg * count == sum |
| ColumnAnalysis.NumericColumns | src/components/FileUploadSection.tsx:79-91 | every stored column is non-empty |
| ColumnAnalysis.AllColumnNumbers | src/components/FileUploadSection.tsx:79-80 | one list of numbers per header, each that column's parsed cells |
| ColumnAnalysis.StatsMap | src/components/FileUploadSection.tsx:84-89 | the statistics have exactly the keys of the numeric columns, and each header's entry is the statistics of its numbers |
| ColumnAnalysis.StatsMapUpdate | src/components/FileUploadSection.tsx:82-89 | storing a column's numbers and storing its statistics commute |
| ColumnAnalysis.StatsMapConsistent | src/components/FileUploadSection.tsx:82-89 | each header's statistics bound its numbers, with min <= avg <= max |
| ColumnAnalysis.AnalyzeColumns | src/components/FileUploadSection.tsx:76-91 | the `headers.forEach` loop builds exactly the numeric-column map and its statistics map |
| ColumnAnalysis.NumericColumnKeys | src/components/FileUploadSection.tsx:81-82 | a header is a key exactly when a column of that name has a number |
| ColumnAnalysis.NumericColumnValue | src/components/FileUploadSection.tsx:82 | a repeated header keeps the numbers of its last numeric column |
| ColumnAnalysis.IsPresent | src/components/FileUploadSection.tsx:209 | a cell is kept exactly when it is neither `undefined` nor `''` |
| ColumnAnalysis.PresentCells | src/components/FileUploadSection.tsx:209 | the kept entries are non-empty cells of the column, and every present, non-empty cell is kept |
| ColumnAnalysis.PresentCellsSnoc | src/components/FileUploadSection.tsx:209 | one more cell adds its text when it is present and non-empty and nothing otherwise, which with the empty case fixes the filter, order included |
| ColumnAnalysis.ParseAll | src/components/FileUploadSection.tsx:210 | one parse result per kept entry, in order |
| ColumnAnalysis.ReportNumbersAgree | src/components/FileUploadSection.tsx:209-210 | the report's numbers, parsed from the non-empty cells, equal the chart's numbers parsed from all cells |
| ColumnAnalysis.DistinctAtMostTotal | src/components/FileUploadSection.tsx:214 | `new Set(values).size` is at most the number of entries |
| ColumnAnalysis.Distinct | src/components/FileUploadSection.tsx:214 | `new Set(values)`: the set of the entries; its size is bounded by `ColumnAnalysis.DistinctAtMostTotal` |
| ColumnAnalysis.SummarizeColumn | src/components/FileUploadSection.tsx:208-227 | total is the number of present, non-empty cells and unique the number of distinct ones, unique <= total <= rows; statistics are present exactly when some cell parses, and are then those of the parsed cells |
| ColumnAnalysis.ReportAgreesWithChart | src/components/FileUploadSection.tsx:207-228 | for a header no other column repeats, the report shows statistics exactly when the chart has them, and they are equal |
| ColumnAnalysis.Summaries | src/components/FileUploadSection.tsx:208 | one summary per header, in header order: summary c is the analysis of column c, counting at most one entry per row |
| ColumnAnalysis.SummarizeColumns | src/components/FileUploadSection.tsx:208-228 | the report's column loop produces exactly those summaries |
| LexicalAnalysis.Lines | src/components/FileUploadSection.tsx:241 | the line count is the number of line feeds plus one |
| LexicalAnalysis.Words | src/components/FileUploadSection.tsx:242 | every word is non-empty and free of whitespace; where words split is fixed by `LexicalAnalysis.WordsSplitAtWhitespace` and `LexicalAnalysis.WordsOfRun` |
| LexicalAnalysis.WordsSplitAtWhitespace | src/components/FileUploadSection.tsx:242 | a whitespace character separates words: the words of `a`, whitespace, `b` are the words of `a` followed by those of `b` |
| LexicalAnalysis.WordsOfRun | src/components/FileUploadSection.tsx:242 | a non-empty run without whitespace is exactly one word; with the split lemma and the empty text, this determines the word list of every text |
| LexicalAnalysis.WordCount | src/components/FileUploadSection.tsx:242 | the number of words is the number of positions where a non-whitespace character opens the text or follows whitespace |
| LexicalAnalysis.WordsCoverContent | src/components/FileUploadSection.tsx:242 | the words, concatenated, are the content with its whitespace removed |
| LexicalAnalysis.Utf16Length | src/components/FileUploadSection.tsx:243 | `length` counts between one and two units per code point |
| LexicalAnalysis.LowerWordChars | src/components/FileUploadSection.tsx:254 | a character contributes at most one character of `[a-z0-9]`; a lower-case letter or digit is kept, an upper-case ASCII letter becomes the letter whose upper case it is, U+212A gives `k`, U+0130 gives `i`, and every other character gives nothing |
| LexicalAnalysis.Normalize | src/components/FileUploadSection.tsx:254 | the normalized word is no longer and holds only `[a-z0-9]` |
| LexicalAnalysis.NormalizeAppend | src/components/FileUploadSection.tsx:254 | normalising a concatenation normalises each part |
| LexicalAnalysis.NormalizeIgnoresCase | src/components/FileUploadSection.tsx:254 | a word and its upper-cased form have the same normal form, so `The` and `the` count as one word |
| LexicalAnalysis.NormalizeKeeps | src/components/FileUploadSection.tsx:254 | a word of `[a-z0-9]` is left unchanged |
| LexicalAnalysis.NormalizeIdempotent | src/components/FileUploadSection.tsx:254 | normalizing twice is normalizing once |
| LexicalAnalysis.Qualifying | src/components/FileUploadSection.tsx:254-255 | no more counted words than words, and every word whose normal form is longer than 2 has that normal form counted |
| LexicalAnalysis.QualifyingAppend | src/components/FileUploadSection.tsx:254-255 | the words of two texts in a row qualify as those of the first followed by those of the second |
| LexicalAnalysis.QualifyingWords | src/components/FileUploadSection.tsx:255 | every counted word is longer than 2 and made of `[a-z0-9]` |
| LexicalAnalysis.CountPositive | src/components/FileUploadSection.tsx:256 | a word has a positive count exactly when it occurs |
| LexicalAnalysis.Count | src/components/FileUploadSection.tsx:256 | the occurrences of a word; the frequency table is proved to hold it by `LexicalAnalysis.CountsAreCounts` |
| LexicalAnalysis.Counts | src/components/FileUploadSection.tsx:253-258 | the frequency table of the counted words; keys and values by `LexicalAnalysis.CountsKeys` and `LexicalAnalysis.CountsAreCounts` |
| LexicalAnalysis.FirstSeen | src/components/FileUploadSection.tsx:253-258 | no more keys than counted words |
| LexicalAnalysis.FirstSeenKeys | src/components/FileUploadSection.tsx:253-258 | the key order lists each counted word once |
| LexicalAnalysis.CountsKeys | src/components/FileUploadSection.tsx:256 | the frequency table has exactly the counted words as keys |
| LexicalAnalysis.CountsAreCounts | src/components/FileUploadSection.tsx:256 | each word's frequency is its number of occurrences |
| LexicalAnalysis.Tallied | src/components/FileUploadSection.tsx:255-257 | a word of two characters or fewer changes nothing; a longer word gains one on its count (starting at 1), joins the key order exactly when it is new, and every other word keeps its count |
| LexicalAnalysis.CountOne | src/components/FileUploadSection.tsx:255-257 | one loop step on a qualifying word is counting one more word |
| LexicalAnalysis.Tally | src/components/FileUploadSection.tsx:253-258 | the state of the word loop after each word; equal to the first-seen order and the counts by `LexicalAnalysis.TallyIsCounts` |
| LexicalAnalysis.TallyIsCounts | src/components/FileUploadSection.tsx:253-258 | the loop's state after all words is the key order and the counts of the qualifying words |
| LexicalAnalysis.CountWords | src/components/FileUploadSection.tsx:253-258 | the word loop returns the first-seen key order and the occurrence counts of the qualifying words |
| LexicalAnalysis.IndexKeys | src/components/FileUploadSection.tsx:260 | the integer-like keys are exactly the keys that are array indices |
| LexicalAnalysis.KeysSplit | src/components/FileUploadSection.tsx:260 | index keys and named keys together are the keys |
| LexicalAnalysis.SortAscending | src/components/FileUploadSection.tsx:260 | index keys come in ascending numeric order |
| LexicalAnalysis.EntryOrder | src/components/FileUploadSection.tsx:260 | `Object.entries` lists as many keys as the table has, and exactly its keys |
| LexicalAnalysis.EntryOrderIsPermutation | src/components/FileUploadSection.tsx:260 | the entry order is a permutation of the keys, with every index key before every named key |
| LexicalAnalysis.NamedKeysKeepTheirOrder | src/components/FileUploadSection.tsx:260 | named keys keep their insertion order |
| LexicalAnalysis.Entries | src/components/FileUploadSection.tsx:260 | one entry per key of the table, entry i being the i-th key in `Object.entries` order with its count |
| LexicalAnalysis.EntryOrderOfNamedKeys | src/components/FileUploadSection.tsx:260 | when no key is an array index, `Object.entries` lists the keys in the order they were added |
| LexicalAnalysis.EntriesAreTheTable | src/components/FileUploadSection.tsx:260 | the entries are exactly the pairs of the frequency table |
| LexicalAnalysis.SortByCount | src/components/FileUploadSection.tsx:261 | the sort is a permutation |
| LexicalAnalysis.SortedByCount | src/components/FileUploadSection.tsx:261 | the sorted counts are non-increasing |
| LexicalAnalysis.SortIsStable | src/components/FileUploadSection.tsx:261 | entries of equal count keep their relative order |
| LexicalAnalysis.Top | src/components/FileUploadSection.tsx:260-262 | the top list holds min(10, number of entries) entries, is the start of the sorted list, and its counts do not increase |
| LexicalAnalysis.TopKeepsTies | src/components/FileUploadSection.tsx:260-262 | the listed entries with any one count are the first entries with that count in the order they came in |
| LexicalAnalysis.TopAreMostFrequent | src/components/FileUploadSection.tsx:260-262 | the top entries are entries, and no entry left out has a higher count than one kept |
| LexicalAnalysis.TextEntries | src/components/FileUploadSection.tsx:253-260 | the entries of a text's frequency table: one per distinct counted word, in `Object.entries` order of first-seen order |
| LexicalAnalysis.TopWords | src/components/FileUploadSection.tsx:252-262 | min(10, number of distinct counted words) words are listed, with counts that do not increase |
| LexicalAnalysis.TopWordsRanked | src/components/FileUploadSection.tsx:252-262 | no counted word left out of the list occurs more often than a listed word |
| LexicalAnalysis.TopWordsTies | src/components/FileUploadSection.tsx:252-262 | the listed words with any one count are the first words with that count in `Object.entries` order, which for words that are not array indices is the order they were first seen in |
| LexicalAnalysis.TopWordsAreCounted | src/components/FileUploadSection.tsx:252-262 | every top word is longer than 2 and its frequency is its number of occurrences |
| LexicalAnalysis.Preview | src/components/FileUploadSection.tsx:276 | short content is shown whole; longer content is cut to 500 characters followed by `...` |
| LexicalAnalysis.SummarizeText | src/components/FileUploadSection.tsx:240-276 | lines = line feeds + 1; words = the word count; characters = the UTF-16 length, at least the code points; the average is the quotient with one decimal; the top words and the preview are those of the content |
| LexicalAnalysis.AnalyzeText | src/components/FileUploadSection.tsx:240-262 | the text branch with its counting loop computes the text summary |
| LexicalAnalysis.Lookup | src/components/FileUploadSection.tsx:256 | `wordFreq[w]` is the own property when there is one; otherwise the inherited `Object` function exactly for `constructor`, and `undefined` for every other word |
| LexicalAnalysis.Bump | src/components/FileUploadSection.tsx:256 | `(v \|\| 0) + 1` is a number exactly when `v` is `undefined`, a number or `''`; a number goes up by one, `undefined` and `''` give 1, and any other value gives a string ending in `1` |
| LexicalAnalysis.FrequencyAsWritten | src/components/FileUploadSection.tsx:253-258 | the object as JavaScript builds it has exactly the counted words as own keys |
| LexicalAnalysis.AsWrittenCounts | src/components/FileUploadSection.tsx:256 | without the word `constructor`, the object built as written holds the occurrence counts |
| LexicalAnalysis.ConstructorIsNotCounted | src/components/FileUploadSection.tsx:256 | the single word `constructor` has one occurrence, but the object built as written stores a string for it |
| Uploads.AcceptedFiles | src/components/FileUploadSection.tsx:125-130 | no more files than selected, and the kept files are exactly the selected files of a text or CSV type or name (order: `Uploads.AcceptedFilesSnoc`) |
| Uploads.AcceptedFilesSnoc | src/components/FileUploadSection.tsx:125-130 | one more selected file is kept at the end when acceptable and dropped otherwise, which with the empty case fixes the filter, order included |
| Uploads.Accepts | src/components/FileUploadSection.tsx:125-130 | a plain-text or CSV type, or a `.txt` or `.csv` name |
| Uploads.AllAccepted | src/components/FileUploadSection.tsx:147-152 | when every file is acceptable, all are kept in order |
| Uploads.AcceptedFilesIdempotent | src/components/FileUploadSection.tsx:125-130 | filtering twice keeps what filtering once kept |
| Uploads.ProcessFile | src/components/FileUploadSection.tsx:106-119 | name and content are kept; the type is the browser's type when it gave one, and otherwise `text/csv` for a name ending in `.csv` and `text/plain` for any other |
| Uploads.ProcessAll | src/components/FileUploadSection.tsx:141 | file i is `processFile` of accepted file i, so it keeps its name and content and gets the filled-in type |
| Uploads.ProcessedIsCsv | src/components/FileUploadSection.tsx:113 | filling in the type never changes whether a file counts as CSV |
| Uploads.IsCsv | src/components/FileUploadSection.tsx:196 | a CSV type or a `.csv` name, the test of the report and of `files.find` |
| Uploads.FirstCsv | src/components/FileUploadSection.tsx:65 | `files.find`; characterised by `Uploads.FirstCsvIsFirst` |
| Uploads.FirstCsvIsFirst | src/components/FileUploadSection.tsx:65 | no result exactly when no file is CSV; otherwise a CSV file with no CSV file before it |
| Uploads.Removed | src/components/FileUploadSection.tsx:170 | filtering out an index never lengthens the list |
| Uploads.RemovedIsSplice | src/components/FileUploadSection.tsx:170 | an index in range deletes exactly that entry; any other index leaves the list unchanged |
| Report.Headers | src/components/FileUploadSection.tsx:197 | `data[0] \|\| []`: the first row, and no headers for a table without rows |
| Report.DataRows | src/components/FileUploadSection.tsx:198 | `data.slice(1)`: one row fewer than the table, and the header row followed by the data rows is the whole table |
| Report.HeaderAndRows | src/components/FileUploadSection.tsx:198-200 | the header row is the first line's fields, so `data[0] \|\| []` never falls back; data row k is the fields of line k + 1 |
| Report.Analyze | src/components/FileUploadSection.tsx:196 | a file gets the CSV analysis exactly when it counts as CSV |
| Report.Sections | src/components/FileUploadSection.tsx:193-194 | one section per file, numbered from 1 in upload order |
| Report.SectionsExtend | src/components/FileUploadSection.tsx:193 | one more file appends one section and keeps the earlier ones |
| Report.Rule | src/components/FileUploadSection.tsx:232 | the separator row has one `---` per header |
| Report.FirstRows | src/components/FileUploadSection.tsx:233 | the preview shows the first five rows, or all of them when fewer |
| Report.Preamble | src/components/FileUploadSection.tsx:189-191 | the title, the timestamp line and the opening rule |
| Report.TableRow | src/components/FileUploadSection.tsx:232-235 | a markdown table row: the cells joined by ` \| ` between `\| ` and ` \|` |
| Report.RenderStats | src/components/FileUploadSection.tsx:216-226 | the Min, Max, Average and Sum lines with two decimals, only for a column with numbers |
| Report.RenderColumn | src/components/FileUploadSection.tsx:212-227 | a column subsection: header, total entries, unique values, statistics, blank line |
| Report.RenderCsv | src/components/FileUploadSection.tsx:201-237 | the overview, the column analysis of every column in order, and the preview table of the first rows; the body opens with the `### Overview` heading |
| Report.WordRow | src/components/FileUploadSection.tsx:269 | a row of the word table is a two-cell table row, the word and its decimal count |
| Report.RenderTopWords | src/components/FileUploadSection.tsx:264-272 | the word table, left out when no word qualified |
| Report.RenderText | src/components/FileUploadSection.tsx:245-276 | the counts, the average, the word table and the fenced preview; the body opens with `### Text Analysis` and closes with the fence |
| Report.RenderAnalysis | src/components/FileUploadSection.tsx:196-276 | a CSV body opens with its overview; a text body opens with its counts and closes with the fenced preview |
| Report.RenderSection | src/components/FileUploadSection.tsx:194-279 | a section opens with its `## File n: name` heading and closes with the `---` rule |
| Report.SectionHeading | src/components/FileUploadSection.tsx:194 | the heading `## File n: name` |
| Report.Summary | src/components/FileUploadSection.tsx:282-283 | the closing summary with the number of files |
| Report.ReportText | src/components/FileUploadSection.tsx:189-283 | the whole report: preamble, the sections of the files in order, summary; properties in `Report.SummaryStatesFileCount` and `Report.ReportKeepsEarlierSections` |
| Report.SummaryStatesFileCount | src/components/FileUploadSection.tsx:282-283 | the report ends with the number of files in decimal, followed by the closing sentence |
| Report.ReportKeepsEarlierSections | src/components/FileUploadSection.tsx:193-280 | the title and sections of the first n files are a prefix of the report of all files |
| Report.AnalyzeFile | src/components/FileUploadSection.tsx:196-277 | the parser, the column loop and the word loop compute the file's analysis |
| Report.RenderFile | src/components/FileUploadSection.tsx:194-279 | one iteration appends the rendered section of that file |
| Report.RenderReport | src/components/FileUploadSection.tsx:185-283 | the loop over the files produces the whole report text |
| UploadSection.ChartDataOf | src/components/FileUploadSection.tsx:58-93 | the value the effect emits: none without a CSV file, else the first CSV file's headers, rows and maps; properties in `UploadSection.ChartDataIsConsistent` |
| UploadSection.ChartDataIsConsistent | src/components/FileUploadSection.tsx:58-93 | chart data exists exactly when some file is CSV; then its headers are the first line of the first CSV file, and the statistics map has the keys of the numeric columns and bounds their numbers |
| UploadSection.FileUploadSection.constructor | src/components/FileUploadSection.tsx:27-28 | a fresh component has no files and no report |
| UploadSection.FileUploadSection.AddFiles | src/components/FileUploadSection.tsx:121-144 | with no acceptable file, an invalid-type signal and no change; otherwise the processed files are appended after the old ones and the report is cleared |
| UploadSection.FileUploadSection.RemoveFile | src/components/FileUploadSection.tsx:169-172 | the list becomes the list without the entry at the index, and the report is cleared |
| UploadSection.FileUploadSection.GenerateReport | src/components/FileUploadSection.tsx:174-292 | with no files, a no-files signal and no change; otherwise the report becomes the report text of the files |
| UploadSection.FileUploadSection.ChartData | src/components/FileUploadSection.tsx:58-93 | the effect emits the chart data of the current files |

## Left out

- The React rendering, `isGenerating`, `isDragging`, the toasts' texts beyond their titles, `downloadReport` and the scroll-reveal hook: presentation only.
- UploadSection.FileUploadSection.GenerateReport: generation is modelled as atomic. In the component, the report is set after a 1.5-second `await` during which files can still be removed or added, each of which clears the report; the report of the old file list then overwrites the cleared one. That interleaving is not captured.
- `FileReader`: the browser's read is a parameter (`BrowserFile.text`); read errors and the asynchrony of `Promise.all` are not modelled.
- The timestamp `new Date().toLocaleString()` is a parameter of the report.
- `onDataParsed` is modelled as the value `ChartData` returns; when and how often React runs the effect is not.
- `handleFileInput` resetting the input element's value: DOM state.
- Numbers.ParseFloat: JavaScript numbers are IEEE doubles; the model uses exact reals, so any literal that is not exactly representable in binary is rounded when parsed, and `toFixed` then rounds that double: at a `toFixed` tie the text may differ (a cell `1.005` gives `- Min: 1.00` in JavaScript, where `parseFloat` yields 1.00499999…, but `1.01` here). Overflow to `Infinity` and float error in sums and averages are not captured. The literals `Infinity`, `-Infinity` and `+Infinity`, which `parseFloat` accepts, are read as NaN here.
- Numbers.ToFixed: exact for |x| < 10^21; above that JavaScript switches to exponent notation, which is not modelled. It rounds the exact value, so for an input that was not exactly representable the last digit can differ from JavaScript's at a tie (the `1.005` example under `Numbers.ParseFloat`).
- ColumnAnalysis.NumericColumns: `numericColumns` and `columnStats` are plain objects in the component, modelled as maps. A header named `__proto__` replaces the objects' prototype instead of adding a key, so the component has no such key where the model has one. The objects also enumerate array-index keys first and in ascending order, and the maps have no order. Both are left out.
- ColumnAnalysis.Min: the `RangeError` that spreading a very long array into `Math.min`/`Math.max` can raise is not modelled.
- LexicalAnalysis.Normalize: `toLowerCase` is modelled only as far as it yields `[a-z0-9]`. That covers A-Z, U+212A (to `k`) and U+0130 (to `i`). Other characters are dropped by the filter anyway.
- LexicalAnalysis.Preview: cuts after 500 code points, while JavaScript's `slice` counts UTF-16 units. The two differ only for text with characters above U+FFFF, where JavaScript may also split a surrogate pair.
- LexicalAnalysis.SummarizeText: the average words per line is `ToFixed` of the exact quotient.
- Strings are sequences of Unicode scalar values; unpaired surrogates cannot be represented.
- `VisualizationSection` and the other presentational components are not part of this model.

## Findings

| source | as written | input that shows it | evidently intended | confidence | as-written member | corrected member |
|---|---|---|---|---|---|---|
| src/components/FileUploadSection.tsx:256 | `wordFreq[w] = (wordFreq[w] \|\| 0) + 1` on a plain object, so `wordFreq["constructor"]` first reads the inherited `Object` function | a text file whose content is `constructor` | the word is counted once, like any other word | not executed | LexicalAnalysis.ConstructorIsNotCounted | LexicalAnalysis.CountWords |

With that input, the report's word table shows `function Object() { [native code] }1` as the frequency of `constructor` instead of 1. For any other lower-case word, JavaScript never finds an inherited value (`LexicalAnalysis.AsWrittenCounts`). The rest of the model counts with a map (`LexicalAnalysis.CountWords`, `LexicalAnalysis.CountsAreCounts`).
