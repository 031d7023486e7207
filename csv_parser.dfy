/** The CSV reader of the upload section: the content is trimmed and split at
    line feeds, and every line is cut into fields at the commas that stand
    outside double quotes. */
module CsvParser {
  import opened Text

  /** The raw fields of `s` read from a state that is inside quotes when
      `inQuotes` holds: a quote flips the state and is dropped, a comma
      outside quotes ends the current field, and every other character joins
      the current field. */
  function Fields(s: string, inQuotes: bool): (fields: seq<string>)
    ensures |fields| >= 1
  {
    if s == [] then [[]]
    else if s[0] == '"' then Fields(s[1..], !inQuotes)
    else if s[0] == ',' && !inQuotes then [[]] + Fields(s[1..], false)
    else Prepend([s[0]], Fields(s[1..], inQuotes))
  }

  /** `fields` with `prefix` put in front of its first field. */
  function Prepend(prefix: string, fields: seq<string>): (r: seq<string>)
    requires |fields| >= 1
    ensures |r| == |fields|
  {
    [prefix + fields[0]] + fields[1..]
  }

  /** The fields of `a` followed by those of `b`, where the last field of `a`
      and the first of `b` are one field. */
  function Glue(a: seq<string>, b: seq<string>): (r: seq<string>)
    requires |a| >= 1 && |b| >= 1
    ensures |r| == |a| + |b| - 1
  {
    a[..|a| - 1] + Prepend(a[|a| - 1], b)
  }

  /** Every field trimmed, in order. */
  function TrimAll(fields: seq<string>): (r: seq<string>)
    ensures |r| == |fields|
    ensures forall k :: 0 <= k < |r| ==> r[k] == Trim(fields[k]) && IsTrimmed(r[k])
  {
    seq(|fields|, k requires 0 <= k < |fields| => Trim(fields[k]))
  }

  /** The fields of one line, as the parser returns them. */
  function Tokenize(line: string): seq<string>
  {
    TrimAll(Fields(line, false))
  }

  lemma PrependNothing(fields: seq<string>)
    requires |fields| >= 1
    ensures Prepend([], fields) == fields
  {
    assert [] + fields[0] == fields[0];
    assert fields == [fields[0]] + fields[1..];
  }

  lemma PrependToNewField(current: string, rest: seq<string>)
    ensures Prepend(current, [[]] + rest) == [current] + rest
  {
    assert ([[]] + rest)[0] == [];
    assert ([[]] + rest)[1..] == rest;
    assert current + [] == current;
  }

  lemma PrependToLast(current: string)
    ensures Prepend(current, [[]]) == [current]
  {
    assert current + [] == current;
  }

  lemma PrependTwice(a: string, b: string, fields: seq<string>)
    requires |fields| >= 1
    ensures Prepend(a, Prepend(b, fields)) == Prepend(a + b, fields)
  {
    assert a + (b + fields[0]) == (a + b) + fields[0];
  }

  /** Trimming a list extended by one field. */
  lemma TrimAllSnoc(fields: seq<string>, f: string)
    ensures TrimAll(fields + [f]) == TrimAll(fields) + [Trim(f)]
  {
  }

  /** The state of the parser after the first `i` characters of `line`:
      the fields it has ended, the field it is reading and whether it is
      inside quotes account for all fields of the line. */
  ghost predicate ReadUpTo(line: string, i: nat, raw: seq<string>, current: string, inQuotes: bool)
    requires i <= |line|
  {
    Fields(line, false) == raw + Prepend(current, Fields(line[i..], inQuotes))
  }

  /** The parser's loop over the characters of one line. */
  method ParseLine(line: string) returns (result: seq<string>)
    ensures result == Tokenize(line)
  {
    result := [];
    ghost var raw: seq<string> := [];
    var current: string := [];
    var inQuotes := false;
    var i := 0;
    assert line[i..] == line;
    PrependNothing(Fields(line, false));
    while i < |line|
      invariant 0 <= i <= |line|
      invariant ReadUpTo(line, i, raw, current, inQuotes)
      invariant result == TrimAll(raw)
    {
      var c := line[i];
      assert line[i..][1..] == line[i + 1..];
      ghost var fields := Fields(line[i..], inQuotes);
      if c == '"' {
        assert fields == Fields(line[i + 1..], !inQuotes);
        inQuotes := !inQuotes;
        assert ReadUpTo(line, i + 1, raw, current, inQuotes);
      } else if c == ',' && !inQuotes {
        var rest := Fields(line[i + 1..], false);
        assert fields == [[]] + rest;
        PrependToNewField(current, rest);
        PrependNothing(rest);
        assert raw + ([current] + rest) == (raw + [current]) + Prepend([], rest);
        TrimAllSnoc(raw, current);
        raw := raw + [current];
        result := result + [Trim(current)];
        current := [];
        assert ReadUpTo(line, i + 1, raw, current, inQuotes);
      } else {
        var rest := Fields(line[i + 1..], inQuotes);
        assert fields == Prepend([c], rest);
        PrependTwice(current, [c], rest);
        current := current + [c];
        assert ReadUpTo(line, i + 1, raw, current, inQuotes);
      }
      i := i + 1;
    }
    assert line[i..] == [];
    PrependToLast(current);
    TrimAllSnoc(raw, current);
    result := result + [Trim(current)];
  }

  /** The lines of the content after trimming it. */
  function Lines(content: string): (lines: seq<string>)
    ensures |lines| >= 1
  {
    Split(Trim(content), '\n')
  }

  /** The table read from `content`: one row of fields per line. */
  function Table(content: string): (rows: seq<seq<string>>)
    ensures |rows| == |Lines(content)|
    ensures forall k :: 0 <= k < |rows| ==> rows[k] == Tokenize(Lines(content)[k])
  {
    var lines := Lines(content);
    seq(|lines|, k requires 0 <= k < |lines| => Tokenize(lines[k]))
  }

  /** The parser: every line of the trimmed content is read by `ParseLine`. */
  method ParseCsv(content: string) returns (rows: seq<seq<string>>)
    ensures rows == Table(content)
  {
    rows := ParseLines(Lines(content));
  }

  /** The `map` over the lines: one row per line, each read by `ParseLine`. */
  method ParseLines(lines: seq<string>) returns (rows: seq<seq<string>>)
    ensures |rows| == |lines|
    ensures forall j :: 0 <= j < |lines| ==> rows[j] == Tokenize(lines[j])
  {
    rows := [];
    for k := 0 to |lines|
      invariant |rows| == k
      invariant forall j :: 0 <= j < k ==> rows[j] == Tokenize(lines[j])
    {
      var row := ParseLine(lines[k]);
      rows := rows + [row];
    }
  }

  // ---------------------------------------------------------------------
  // Properties of the reader

  /** The table has one row per line feed of the trimmed content, plus one;
      in particular it is never empty, so the header row always exists. */
  lemma TableRowCount(content: string)
    ensures |Table(content)| == Occurrences(Trim(content), '\n') + 1
  {
    SplitCount(Trim(content), '\n');
  }

  /** Whether `s` holds an odd number of double quotes, i.e. whether reading
      it flips the quote state. */
  predicate OddQuotes(s: string) {
    Occurrences(s, '"') % 2 == 1
  }

  /** The comma at `j` splits fields: an even number of quotes precede it. */
  predicate IsSeparator(line: string, j: int)
    requires 0 <= j < |line|
  {
    line[j] == ',' && !OddQuotes(line[..j])
  }

  /** Number of separating commas at positions `i` and after. */
  function SeparatorsFrom(line: string, i: nat): nat
    requires i <= |line|
    decreases |line| - i
  {
    if i == |line| then 0
    else (if IsSeparator(line, i) then 1 else 0) + SeparatorsFrom(line, i + 1)
  }

  /** Reading one more character flips the parity exactly at a quote. */
  lemma QuoteParityStep(line: string, i: nat)
    requires i < |line|
    ensures OddQuotes(line[..i + 1]) == (OddQuotes(line[..i]) != (line[i] == '"'))
  {
    assert line[..i + 1] == line[..i] + [line[i]];
    OccurrencesAppend(line[..i], [line[i]], '"');
  }

  lemma {:induction false} FieldCountFrom(line: string, i: nat)
    requires i <= |line|
    ensures |Fields(line[i..], OddQuotes(line[..i]))| == SeparatorsFrom(line, i) + 1
    decreases |line| - i
  {
    if i < |line| {
      assert line[i..][1..] == line[i + 1..];
      QuoteParityStep(line, i);
      FieldCountFrom(line, i + 1);
    }
  }

  /** A line has one field more than it has commas outside quotes. */
  lemma FieldCount(line: string)
    ensures |Tokenize(line)| == SeparatorsFrom(line, 0) + 1
  {
    assert line[..0] == [] && line[0..] == line;
    FieldCountFrom(line, 0);
  }

  lemma {:induction false} FieldsHaveNoQuotes(s: string, inQuotes: bool)
    ensures forall f :: f in Fields(s, inQuotes) ==> '"' !in f
  {
    if s != [] {
      FieldsHaveNoQuotes(s[1..], if s[0] == '"' then !inQuotes else inQuotes);
    }
  }

  /** No field keeps a quote character, and every field is trimmed. */
  lemma TokensClean(line: string)
    ensures forall f :: f in Tokenize(line) ==> '"' !in f && IsTrimmed(f)
  {
    var fields := Fields(line, false);
    FieldsHaveNoQuotes(line, false);
    forall k | 0 <= k < |fields|
      ensures '"' !in Trim(fields[k])
    {
      assert fields[k] in fields;
      TrimKeepsOnlyInputChars(fields[k], '"');
    }
  }

  /** With no quote character left, a field opened by a quote runs to the end
      of the line, commas included. */
  lemma {:induction false} InsideQuotes(t: string)
    requires '"' !in t
    ensures Fields(t, true) == [t]
  {
    if t != [] {
      assert t[1..] == t[1..] && '"' !in t[1..];
      InsideQuotes(t[1..]);
      assert [t[0]] + t[1..] == t;
    }
  }

  lemma GlueOfNewField(a: seq<string>, b: seq<string>)
    requires |a| >= 1 && |b| >= 1
    ensures Glue([[]] + a, b) == [[]] + Glue(a, b)
  {
    assert ([[]] + a)[..|a|] == [[]] + a[..|a| - 1];
  }

  lemma GlueOfPrepend(c: string, a: seq<string>, b: seq<string>)
    requires |a| >= 1 && |b| >= 1
    ensures Glue(Prepend(c, a), b) == Prepend(c, Glue(a, b))
  {
    if |a| == 1 {
      assert c + (a[0] + b[0]) == (c + a[0]) + b[0];
    } else {
      var n := |a|;
      assert Prepend(c, a)[..n - 1] == [c + a[0]] + a[1..n - 1];
      assert Glue(a, b) == [a[0]] + (a[1..n - 1] + Prepend(a[n - 1], b));
    }
  }

  /** Reading `p` then `t` is reading `p`, then reading `t` from the quote
      state `p` leaves, with the field in progress carried across. */
  lemma {:induction false} FieldsAppend(p: string, t: string, inQuotes: bool)
    ensures Fields(p + t, inQuotes) == Glue(Fields(p, inQuotes), Fields(t, inQuotes != OddQuotes(p)))
  {
    if p == [] {
      assert p + t == t;
      PrependNothing(Fields(t, inQuotes));
    } else if p[0] == '"' {
      FieldsAppend(p[1..], t, !inQuotes);
      FieldsAppendQuote(p, t, inQuotes);
    } else if p[0] == ',' && !inQuotes {
      FieldsAppend(p[1..], t, inQuotes);
      FieldsAppendComma(p, t, inQuotes);
    } else {
      FieldsAppend(p[1..], t, inQuotes);
      FieldsAppendChar(p, t, inQuotes);
    }
  }

  /** The step of `FieldsAppend` over a leading quote. */
  lemma FieldsAppendQuote(p: string, t: string, inQuotes: bool)
    requires p != [] && p[0] == '"'
    requires Fields(p[1..] + t, !inQuotes) == Glue(Fields(p[1..], !inQuotes), Fields(t, !inQuotes != OddQuotes(p[1..])))
    ensures Fields(p + t, inQuotes) == Glue(Fields(p, inQuotes), Fields(t, inQuotes != OddQuotes(p)))
  {
    assert (p + t)[0] == '"' && (p + t)[1..] == p[1..] + t;
    assert Occurrences(p, '"') == 1 + Occurrences(p[1..], '"');
  }

  /** The step of `FieldsAppend` over a leading separating comma. */
  lemma FieldsAppendComma(p: string, t: string, inQuotes: bool)
    requires p != [] && p[0] == ',' && !inQuotes
    requires Fields(p[1..] + t, inQuotes) == Glue(Fields(p[1..], inQuotes), Fields(t, inQuotes != OddQuotes(p[1..])))
    ensures Fields(p + t, inQuotes) == Glue(Fields(p, inQuotes), Fields(t, inQuotes != OddQuotes(p)))
  {
    assert (p + t)[0] == ',' && (p + t)[1..] == p[1..] + t;
    assert Occurrences(p, '"') == Occurrences(p[1..], '"');
    GlueOfNewField(Fields(p[1..], false), Fields(t, inQuotes != OddQuotes(p)));
  }

  /** The step of `FieldsAppend` over a leading character that joins the
      current field. */
  lemma FieldsAppendChar(p: string, t: string, inQuotes: bool)
    requires p != [] && p[0] != '"' && !(p[0] == ',' && !inQuotes)
    requires Fields(p[1..] + t, inQuotes) == Glue(Fields(p[1..], inQuotes), Fields(t, inQuotes != OddQuotes(p[1..])))
    ensures Fields(p + t, inQuotes) == Glue(Fields(p, inQuotes), Fields(t, inQuotes != OddQuotes(p)))
  {
    assert (p + t)[0] == p[0] && (p + t)[1..] == p[1..] + t;
    assert Occurrences(p, '"') == Occurrences(p[1..], '"');
    GlueOfPrepend([p[0]], Fields(p[1..], inQuotes), Fields(t, inQuotes != OddQuotes(p)));
  }

  /** A quote that is never closed turns the rest of the line, commas
      included, into the end of the field it opens: the line has no more
      fields than the text before the quote, and the earlier fields are
      unchanged. */
  lemma UnterminatedQuote(p: string, t: string)
    requires !OddQuotes(p) && '"' !in t
    ensures var before := Fields(p, false);
      Fields(p + ['"'] + t, false) == before[..|before| - 1] + [before[|before| - 1] + t]
  {
    var before := Fields(p, false);
    assert ['"'] + t == ['"'] + t && (['"'] + t)[1..] == t;
    InsideQuotes(t);
    assert Fields(['"'] + t, false) == [t];
    assert p + ['"'] + t == p + (['"'] + t);
    FieldsAppend(p, ['"'] + t, false);
  }

  // ---------------------------------------------------------------------
  // Worked examples

  lemma PrependChar(c: char, f: string, g: string, rest: seq<string>)
    requires g == [c] + f
    ensures Prepend([c], [f] + rest) == [g] + rest
  {
    assert ([f] + rest)[1..] == rest;
  }

  lemma TokenizeThreeClean(line: string, a: string, b: string, c: string)
    requires Fields(line, false) == [a, b, c]
    requires Trim(a) == a && Trim(b) == b && Trim(c) == c
    ensures Tokenize(line) == [a, b, c]
  {
  }

  /** A field that starts and ends with a letter trims to itself. */
  lemma TrimLetters(s: string)
    requires |s| >= 1 && 'a' <= s[0] <= 'z' && 'a' <= s[|s| - 1] <= 'z'
    ensures Trim(s) == s
  {
    TrimOfTrimmed(s);
  }

  lemma PlainLine(line: string)
    requires line == "a,b,c"
    ensures Tokenize(line) == ["a", "b", "c"]
  {
    PlainLineFields();
    TrimLetters("a");
    TrimLetters("b");
    TrimLetters("c");
    TokenizeThreeClean(line, "a", "b", "c");
  }

  lemma PlainLineFields()
    ensures Fields("a,b,c", false) == ["a", "b", "c"]
  {
    assert Fields("c", false) == ["c"] by {
      assert "c"[1..] == "";
      PrependChar('c', "", "c", []);
    }
    assert Fields(",c", false) == ["", "c"] by { assert ",c"[1..] == "c"; }
    assert Fields("b,c", false) == ["b", "c"] by {
      assert "b,c"[1..] == ",c";
      PrependChar('b', "", "b", ["c"]);
    }
    assert Fields(",b,c", false) == ["", "b", "c"] by { assert ",b,c"[1..] == "b,c"; }
    assert Fields("a,b,c", false) == ["a", "b", "c"] by {
      assert "a,b,c"[1..] == ",b,c";
      PrependChar('a', "", "a", ["b", "c"]);
    }
  }

  lemma QuotedComma(line: string)
    requires line == "a,\"b,c\",d"
    ensures Tokenize(line) == ["a", "b,c", "d"]
  {
    QuotedCommaFields();
    TrimLetters("a");
    TrimLetters("d");
    TrimLetters("b,c");
    TokenizeThreeClean(line, "a", "b,c", "d");
  }

  lemma QuotedCommaFields()
    ensures Fields("a,\"b,c\",d", false) == ["a", "b,c", "d"]
  {
    QuotedFieldThenLast();
    assert Fields(",\"b,c\",d", false) == ["", "b,c", "d"] by { assert ",\"b,c\",d"[1..] == "\"b,c\",d"; }
    assert Fields("a,\"b,c\",d", false) == ["a", "b,c", "d"] by {
      assert "a,\"b,c\",d"[1..] == ",\"b,c\",d";
      PrependChar('a', "", "a", ["b,c", "d"]);
    }
  }

  lemma QuotedFieldThenLast()
    ensures Fields("\"b,c\",d", false) == ["b,c", "d"]
  {
    assert Fields("d", false) == ["d"] by {
      assert "d"[1..] == "";
      PrependChar('d', "", "d", []);
    }
    assert Fields(",d", false) == ["", "d"] by { assert ",d"[1..] == "d"; }
    assert Fields("\",d", true) == ["", "d"] by { assert "\",d"[1..] == ",d"; }
    assert Fields("c\",d", true) == ["c", "d"] by {
      assert "c\",d"[1..] == "\",d";
      PrependChar('c', "", "c", ["d"]);
    }
    assert Fields(",c\",d", true) == [",c", "d"] by {
      assert ",c\",d"[1..] == "c\",d";
      PrependChar(',', "c", ",c", ["d"]);
    }
    assert Fields("b,c\",d", true) == ["b,c", "d"] by {
      assert "b,c\",d"[1..] == ",c\",d";
      PrependChar('b', ",c", "b,c", ["d"]);
    }
    assert "\"b,c\",d"[1..] == "b,c\",d";
  }
}
