/** Per-column analysis of a parsed CSV table: the numbers a column holds,
    their minimum, maximum, sum and mean, the entries the report counts, and
    the maps of numeric columns handed to the charts. */
module ColumnAnalysis {
  import opened Wrappers

  /** `row[col]`, which is `undefined` past the end of a short row. */
  function Cell(row: seq<string>, col: nat): (c: Option<string>)
    ensures c.Some? <==> col < |row|
    ensures c.Some? ==> c.value == row[col]
  {
    if col < |row| then Some(row[col]) else None
  }

  /** Column `col` of every row, `undefined` where a row is short. */
  function ColumnCells(rows: seq<seq<string>>, col: nat): (cells: seq<Option<string>>)
    ensures |cells| == |rows|
    ensures forall k :: 0 <= k < |rows| ==> cells[k] == Cell(rows[k], col)
  {
    seq(|rows|, k requires 0 <= k < |rows| => Cell(rows[k], col))
  }

  /** A number parser with NaN as `None`: the analysis is stated for any
      such parser and is applied to `Numbers.ParseFloat`, JavaScript's
      `parseFloat`. */
  type Parser = string -> Option<real>

  /** `parseFloat(cell)`; `parseFloat(undefined)` is NaN. */
  function CellNumber(cell: Option<string>, parse: Parser): (n: Option<real>)
    ensures cell.None? ==> n.None?
    ensures n.Some? ==> cell.Some? && parse(cell.value) == n
  {
    match cell
    case None => None
    case Some(text) => parse(text)
  }

  /** Every cell parsed. */
  function ParseCells(cells: seq<Option<string>>, parse: Parser): (parsed: seq<Option<real>>)
    ensures |parsed| == |cells|
    ensures forall k :: 0 <= k < |cells| ==> parsed[k] == CellNumber(cells[k], parse)
  {
    seq(|cells|, k requires 0 <= k < |cells| => CellNumber(cells[k], parse))
  }

  /** `.filter(n => !isNaN(n))`: the numbers that parsed, in order. */
  function ParsedValues(parsed: seq<Option<real>>): (vs: seq<real>)
    ensures |vs| <= |parsed|
  {
    if parsed == [] then []
    else
      var rest := ParsedValues(parsed[1..]);
      match parsed[0]
      case None => rest
      case Some(v) => [v] + rest
  }

  /** There is a number exactly when some cell parsed. */
  lemma {:induction false} ValuesNonEmpty(parsed: seq<Option<real>>)
    ensures |ParsedValues(parsed)| > 0 <==> exists k :: 0 <= k < |parsed| && parsed[k].Some?
  {
    if parsed != [] {
      ValuesNonEmpty(parsed[1..]);
      if parsed[0].None? && exists k :: 0 <= k < |parsed| && parsed[k].Some? {
        var k :| 0 <= k < |parsed| && parsed[k].Some?;
        assert parsed[1..][k - 1] == parsed[k];
      }
    }
  }

  /** Number of cells that parsed. */
  function ParsedCount(parsed: seq<Option<real>>): nat
  {
    if parsed == [] then 0
    else (if parsed[0].Some? then 1 else 0) + ParsedCount(parsed[1..])
  }

  /** Exactly the cells that do not parse are left out: one number per
      parsed cell, and the numbers are the values cells parsed to. Order and
      multiplicity are fixed by `ParsedValuesAppend`. */
  lemma {:induction false} ValuesAreTheParsed(parsed: seq<Option<real>>)
    ensures |ParsedValues(parsed)| == ParsedCount(parsed)
    ensures forall v :: v in ParsedValues(parsed) <==> Some(v) in parsed
  {
    if parsed != [] {
      ValuesAreTheParsed(parsed[1..]);
      assert forall o :: o in parsed <==> o == parsed[0] || o in parsed[1..];
    }
  }

  /** The filter runs cell by cell: the numbers of two lists of cells in a
      row are the numbers of the first followed by those of the second, so
      each parsed cell contributes its own value once, in order. */
  lemma {:induction false} ParsedValuesAppend(a: seq<Option<real>>, b: seq<Option<real>>)
    ensures ParsedValues(a + b) == ParsedValues(a) + ParsedValues(b)
  {
    if a == [] {
      assert a + b == b;
    } else {
      assert (a + b)[0] == a[0] && (a + b)[1..] == a[1..] + b;
      ParsedValuesAppend(a[1..], b);
      if a[0].Some? {
        assert [a[0].value] + (ParsedValues(a[1..]) + ParsedValues(b))
            == ([a[0].value] + ParsedValues(a[1..])) + ParsedValues(b);
      }
    }
  }

  /** The numbers of column `col`, as the charts receive them: at most one
      per row (the values are `ColumnNumbersAreCells`). */
  function ColumnNumbers(rows: seq<seq<string>>, col: nat, parse: Parser): (ns: seq<real>)
    ensures |ns| <= |rows|
  {
    ParsedValues(ParseCells(ColumnCells(rows, col), parse))
  }

  /** A value is among the numbers of column `col` exactly when some row's
      cell in that column parses to it. */
  lemma ColumnNumbersAreCells(rows: seq<seq<string>>, col: nat, parse: Parser, v: real)
    ensures v in ColumnNumbers(rows, col, parse) <==>
            exists k :: 0 <= k < |rows| && CellNumber(Cell(rows[k], col), parse) == Some(v)
  {
    var parsed := ParseCells(ColumnCells(rows, col), parse);
    ValuesAreTheParsed(parsed);
    assert Some(v) in parsed <==> exists k :: 0 <= k < |parsed| && parsed[k] == Some(v);
  }

  // ---------------------------------------------------------------------
  // Minimum, maximum, sum and mean

  /** `Math.min(...vs)`. */
  function Min(vs: seq<real>): (m: real)
    requires |vs| > 0
    ensures m in vs
    ensures forall v :: v in vs ==> m <= v
  {
    if |vs| == 1 then vs[0]
    else
      var rest := Min(vs[1..]);
      assert forall v :: v in vs ==> v == vs[0] || v in vs[1..];
      if vs[0] <= rest then vs[0] else rest
  }

  /** `Math.max(...vs)`. */
  function Max(vs: seq<real>): (m: real)
    requires |vs| > 0
    ensures m in vs
    ensures forall v :: v in vs ==> v <= m
  {
    if |vs| == 1 then vs[0]
    else
      var rest := Max(vs[1..]);
      assert forall v :: v in vs ==> v == vs[0] || v in vs[1..];
      if vs[0] >= rest then vs[0] else rest
  }

  /** `vs.reduce((a, b) => a + b, 0)`, accumulated from the left. */
  function Sum(vs: seq<real>): real
  {
    if vs == [] then 0.0 else Sum(vs[..|vs| - 1]) + vs[|vs| - 1]
  }

  /** A sum of `n` values lies between `n` times a lower and `n` times an
      upper bound of them. */
  lemma {:induction false} SumBounds(vs: seq<real>, lo: real, hi: real)
    requires forall v :: v in vs ==> lo <= v <= hi
    ensures |vs| as real * lo <= Sum(vs) <= |vs| as real * hi
  {
    if vs != [] {
      var init := vs[..|vs| - 1];
      assert forall v :: v in init ==> v in vs;
      assert vs[|vs| - 1] in vs;
      SumBounds(init, lo, hi);
      assert |vs| as real * lo == |init| as real * lo + lo;
      assert |vs| as real * hi == |init| as real * hi + hi;
    }
  }

  /** The statistics the charts receive for a numeric column. */
  datatype ColumnStats = ColumnStats(min: real, max: real, avg: real, sum: real)

  /** A sum of `n` values bounded by `n * lo` and `n * hi` has a mean
      between `lo` and `hi`, and the mean times `n` gives the sum back. */
  lemma MeanBounds(lo: real, hi: real, sum: real, n: real)
    requires n > 0.0
    requires n * lo <= sum <= n * hi
    ensures lo <= sum / n <= hi
    ensures sum / n * n == sum
  {
    var q := sum / n;
    assert sum == q * n;
    assert n * lo <= n * q <= n * hi;
  }

  /** The statistics of a non-empty list of numbers. */
  function StatsOf(vs: seq<real>): (s: ColumnStats)
    requires |vs| > 0
    ensures s.min in vs && s.max in vs
    ensures forall v :: v in vs ==> s.min <= v <= s.max
    ensures s.min <= s.avg <= s.max
    ensures s.sum == Sum(vs)
    ensures s.avg * |vs| as real == s.sum
  {
    var sum := Sum(vs);
    var n := |vs| as real;
    var min := Min(vs);
    var max := Max(vs);
    SumBounds(vs, min, max);
    MeanBounds(min, max, sum, n);
    ColumnStats(min, max, sum / n, sum)
  }

  // ---------------------------------------------------------------------
  // The maps handed to the charts

  /** `numericColumns` after the first `n` headers have been visited, where
      `columns[c]` holds the numbers under `headers[c]`: a header whose
      column holds a number is (re)assigned that column's numbers, so with
      repeated headers the last numeric column wins. */
  function NumericColumns(headers: seq<string>, columns: seq<seq<real>>, n: nat): (m: map<string, seq<real>>)
    requires n <= |headers| == |columns|
    ensures forall h :: h in m ==> |m[h]| > 0
  {
    if n == 0 then map[]
    else
      var m := NumericColumns(headers, columns, n - 1);
      if |columns[n - 1]| > 0 then m[headers[n - 1] := columns[n - 1]] else m
  }

  /** The numbers of every column of the table. */
  function AllColumnNumbers(headers: seq<string>, rows: seq<seq<string>>, parse: Parser): (columns: seq<seq<real>>)
    ensures |columns| == |headers|
    ensures forall c :: 0 <= c < |headers| ==> columns[c] == ColumnNumbers(rows, c, parse)
  {
    seq(|headers|, c requires 0 <= c < |headers| => ColumnNumbers(rows, c, parse))
  }

  /** The statistics map: one entry per numeric column. */
  function StatsMap(columns: map<string, seq<real>>): (m: map<string, ColumnStats>)
    requires forall h :: h in columns ==> |columns[h]| > 0
    ensures m.Keys == columns.Keys
    ensures forall h :: h in columns ==> m[h] == StatsOf(columns[h])
  {
    map h | h in columns :: StatsOf(columns[h])
  }

  /** Updating a column updates its statistics and no other entry. */
  lemma StatsMapUpdate(columns: map<string, seq<real>>, h: string, vs: seq<real>)
    requires forall g :: g in columns ==> |columns[g]| > 0
    requires |vs| > 0
    ensures StatsMap(columns[h := vs]) == StatsMap(columns)[h := StatsOf(vs)]
  {
  }

  /** The chart statistics: a header has statistics exactly when it has
      numbers, and each column's statistics bound its numbers, with the
      average between minimum and maximum. */
  lemma StatsMapConsistent(columns: map<string, seq<real>>)
    requires forall h :: h in columns ==> |columns[h]| > 0
    ensures StatsMap(columns).Keys == columns.Keys
    ensures forall h :: h in columns ==>
              var s := StatsMap(columns)[h];
              s.min <= s.avg <= s.max &&
              forall v :: v in columns[h] ==> s.min <= v <= s.max
  {
    forall h | h in columns
      ensures StatsMap(columns)[h] == StatsOf(columns[h])
    {
    }
  }

  /** The loop over the headers that fills both maps. */
  method AnalyzeColumns(headers: seq<string>, rows: seq<seq<string>>, parse: Parser)
    returns (numericColumns: map<string, seq<real>>, columnStats: map<string, ColumnStats>)
    ensures numericColumns == NumericColumns(headers, AllColumnNumbers(headers, rows, parse), |headers|)
    ensures columnStats == StatsMap(numericColumns)
  {
    ghost var columns := AllColumnNumbers(headers, rows, parse);
    numericColumns := map[];
    columnStats := map[];
    var col := 0;
    while col < |headers|
      invariant 0 <= col <= |headers|
      invariant numericColumns == NumericColumns(headers, columns, col)
      invariant columnStats == StatsMap(numericColumns)
    {
      var values := ColumnNumbers(rows, col, parse);
      assert values == columns[col];
      if |values| > 0 {
        StatsMapUpdate(numericColumns, headers[col], values);
        columnStats := columnStats[headers[col] := StatsOf(values)];
        numericColumns := numericColumns[headers[col] := values];
      }
      col := col + 1;
    }
  }

  /** A header is a key of the maps exactly when one of the columns it
      names holds a number. */
  lemma {:induction false} NumericColumnKeys(headers: seq<string>, columns: seq<seq<real>>, n: nat, h: string)
    requires n <= |headers| == |columns|
    ensures h in NumericColumns(headers, columns, n) <==>
            exists c :: 0 <= c < n && headers[c] == h && |columns[c]| > 0
  {
    if n > 0 {
      NumericColumnKeys(headers, columns, n - 1, h);
    }
  }

  /** The numbers stored under a header are those of the last column of
      that name that holds a number. */
  lemma {:induction false} NumericColumnValue(headers: seq<string>, columns: seq<seq<real>>, n: nat, c: nat)
    requires c < n <= |headers| == |columns|
    requires |columns[c]| > 0
    requires forall d :: c < d < n && headers[d] == headers[c] ==> |columns[d]| == 0
    ensures headers[c] in NumericColumns(headers, columns, n) &&
            NumericColumns(headers, columns, n)[headers[c]] == columns[c]
  {
    if c < n - 1 {
      NumericColumnValue(headers, columns, n - 1, c);
    }
  }

  // ---------------------------------------------------------------------
  // The column section of the report

  /** A cell that is neither `undefined` nor empty. */
  predicate IsPresent(cell: Option<string>)
    ensures IsPresent(cell) <==> cell != None && cell != Some("")
  {
    cell.Some? && cell.value != []
  }

  /** `.filter(v => v !== undefined && v !== '')`: the entries the report
      counts, in order. */
  function PresentCells(cells: seq<Option<string>>): (values: seq<string>)
    ensures |values| <= |cells|
    ensures forall v :: v in values ==> v != [] && Some(v) in cells
    ensures forall k :: 0 <= k < |cells| && IsPresent(cells[k]) ==> cells[k].value in values
  {
    if cells == [] then []
    else
      var rest := PresentCells(cells[1..]);
      match cells[0]
      case Some(text) => if text != [] then [text] + rest else rest
      case None => rest
  }

  /** One more cell adds its text at the end when it is present and not
      empty, and nothing otherwise: with `PresentCells([]) == []` this
      determines the filter completely. */
  lemma {:induction false} PresentCellsSnoc(cells: seq<Option<string>>, c: Option<string>)
    ensures PresentCells(cells + [c]) == PresentCells(cells) + (if IsPresent(c) then [c.value] else [])
  {
    if cells != [] {
      assert (cells + [c])[1..] == cells[1..] + [c];
      PresentCellsSnoc(cells[1..], c);
    }
  }

  /** `values.map(v => parseFloat(v))`. */
  function ParseAll(values: seq<string>, parse: Parser): (parsed: seq<Option<real>>)
    ensures |parsed| == |values|
    ensures forall k :: 0 <= k < |values| ==> parsed[k] == parse(values[k])
  {
    seq(|values|, k requires 0 <= k < |values| => parse(values[k]))
  }

  /** The report's numbers, taken from the non-empty cells, are the same as
      the numbers the charts take from all cells, since an empty cell
      does not parse. */
  lemma {:induction false} ReportNumbersAgree(cells: seq<Option<string>>, parse: Parser)
    requires parse([]) == None
    ensures ParsedValues(ParseAll(PresentCells(cells), parse)) == ParsedValues(ParseCells(cells, parse))
  {
    if cells != [] {
      ReportNumbersAgree(cells[1..], parse);
      var rest := PresentCells(cells[1..]);
      assert ParseCells(cells, parse)[1..] == ParseCells(cells[1..], parse);
      match cells[0]
      case Some(text) =>
        if text != [] {
          assert ParseAll([text] + rest, parse)[1..] == ParseAll(rest, parse);
        }
      case None =>
    }
  }

  /** The distinct values among `values`: `new Set(values)`. */
  function Distinct(values: seq<string>): set<string>
  {
    set v | v in values
  }

  /** There are no more distinct values than entries. */
  lemma {:induction false} DistinctAtMostTotal(values: seq<string>)
    ensures |Distinct(values)| <= |values|
  {
    if values != [] {
      DistinctAtMostTotal(values[1..]);
      assert Distinct(values) == Distinct(values[1..]) + {values[0]};
    }
  }

  /** The report and the charts agree on a column whose header no other
      column repeats: the report shows statistics for it exactly when the
      chart's statistics have an entry under its header, and they are the
      same statistics. */
  lemma ReportAgreesWithChart(headers: seq<string>, rows: seq<seq<string>>, parse: Parser, c: nat)
    requires parse([]) == None
    requires c < |headers|
    requires forall d :: 0 <= d < |headers| && d != c ==> headers[d] != headers[c]
    ensures var chart := StatsMap(NumericColumns(headers, AllColumnNumbers(headers, rows, parse), |headers|));
            var s := SummarizeColumn(headers[c], ColumnCells(rows, c), parse);
            (s.stats.Some? <==> headers[c] in chart) &&
            (s.stats.Some? ==> s.stats.value == chart[headers[c]])
  {
    var columns := AllColumnNumbers(headers, rows, parse);
    NumericColumnKeys(headers, columns, |headers|, headers[c]);
    if |columns[c]| > 0 {
      NumericColumnValue(headers, columns, |headers|, c);
    }
  }

  /** What the report states about one column. */
  datatype ColumnSummary = ColumnSummary(header: string, total: nat, unique: nat, stats: Option<ColumnStats>)

  /** The analysis of one column, given its cells. */
  function SummarizeColumn(header: string, cells: seq<Option<string>>, parse: Parser): (s: ColumnSummary)
    requires parse([]) == None
    ensures s.header == header
    ensures s.total == |PresentCells(cells)| && s.unique == |Distinct(PresentCells(cells))|
    ensures s.unique <= s.total <= |cells|
    ensures s.stats.Some? <==> |ParsedValues(ParseCells(cells, parse))| > 0
    ensures s.stats.Some? <==> exists k :: 0 <= k < |cells| && CellNumber(cells[k], parse).Some?
    ensures s.stats.Some? ==> s.stats.value == StatsOf(ParsedValues(ParseCells(cells, parse)))
  {
    var values := PresentCells(cells);
    var numbers := ParsedValues(ParseAll(values, parse));
    DistinctAtMostTotal(values);
    ReportNumbersAgree(cells, parse);
    ValuesNonEmpty(ParseCells(cells, parse));
    ColumnSummary(header, |values|, |Distinct(values)|, if |numbers| > 0 then Some(StatsOf(numbers)) else None)
  }

  /** The column analyses of a table: one per header, in header order,
      each counting at most one entry per row. */
  function Summaries(headers: seq<string>, rows: seq<seq<string>>, parse: Parser): (cs: seq<ColumnSummary>)
    requires parse([]) == None
    ensures |cs| == |headers|
    ensures forall c :: 0 <= c < |cs| ==> cs[c] == SummarizeColumn(headers[c], ColumnCells(rows, c), parse)
    ensures forall c :: 0 <= c < |cs| ==> cs[c].header == headers[c] && cs[c].total <= |rows|
  {
    seq(|headers|, c requires 0 <= c < |headers| => SummarizeColumn(headers[c], ColumnCells(rows, c), parse))
  }

  /** A prefix one longer is the shorter prefix and the next element. */
  lemma PrefixSnoc<T>(s: seq<T>, i: nat)
    requires i < |s|
    ensures s[..i + 1] == s[..i] + [s[i]]
  {
  }

  /** The `headers.forEach` loop of the report's column analysis. */
  method SummarizeColumns(headers: seq<string>, rows: seq<seq<string>>, parse: Parser)
    returns (columns: seq<ColumnSummary>)
    requires parse([]) == None
    ensures columns == Summaries(headers, rows, parse)
  {
    ghost var all := Summaries(headers, rows, parse);
    columns := [];
    for c := 0 to |headers|
      invariant columns == all[..c]
    {
      var column := SummarizeColumn(headers[c], ColumnCells(rows, c), parse);
      PrefixSnoc(all, c);
      columns := columns + [column];
    }
    assert all[..|headers|] == all;
  }
}
