/**
 * CSV export of the filtered rows (script.js:696-702): a header line of
 * the visible column names, then one line per filtered row with every
 * field quoted, lines separated by CRLF.
 */
module Csv {
  import opened Wrappers
  import opened SeqUtil
  import opened Records

  /** `.replace(/"/g, '""')`: every double quote doubled. */
  function EscapeQuotes(s: string): (r: string)
    ensures |r| >= |s|
  {
    if s == [] then []
    else (if s[0] == '"' then "\"\"" else [s[0]]) + EscapeQuotes(s[1..])
  }

  predicate NotQuote(c: char) {
    c != '"'
  }

  predicate IsQuote(c: char) {
    c == '"'
  }

  /**
   * Escaping doubles every double quote and keeps every other character in
   * its order: the text grows by its number of quotes, the quotes double in
   * number, and without its quotes it is unchanged. UnescapeEscape shows
   * each doubled quote stands where the original one stood.
   */
  lemma EscapeQuotesSpec(s: string)
    ensures |EscapeQuotes(s)| == |s| + |Filter(s, IsQuote)|
    ensures |Filter(EscapeQuotes(s), IsQuote)| == 2 * |Filter(s, IsQuote)|
    ensures Filter(EscapeQuotes(s), NotQuote) == Filter(s, NotQuote)
  {
    EscapeQuotesLength(s);
    EscapeQuotesCount(s);
    EscapeQuotesOthers(s);
  }

  /** Escaping works character by character. */
  lemma EscapeCons(s: string)
    requires s != []
    ensures EscapeQuotes(s) == EscapeQuotes([s[0]]) + EscapeQuotes(s[1..])
  {
    assert [s[0]][1..] == [];
  }

  /** The escape of one character: a quote becomes two, any other character stays. */
  lemma EscapeOne(c: char)
    ensures |EscapeQuotes([c])| == 1 + |Filter([c], IsQuote)|
    ensures |Filter(EscapeQuotes([c]), IsQuote)| == 2 * |Filter([c], IsQuote)|
    ensures Filter(EscapeQuotes([c]), NotQuote) == Filter([c], NotQuote)
  {
    assert [c][1..] == [];
    FilterCons(c, [], IsQuote);
    FilterCons(c, [], NotQuote);
    if c == '"' {
      assert EscapeQuotes([c]) == [c] + [c];
      FilterCons(c, [c], IsQuote);
      FilterCons(c, [c], NotQuote);
    } else {
      assert EscapeQuotes([c]) == [c] + [];
    }
  }

  lemma FilterHeadTail(s: string, p: char -> bool)
    requires s != []
    ensures Filter(s, p) == Filter([s[0]], p) + Filter(s[1..], p)
  {
    assert s == [s[0]] + s[1..];
    FilterConcat([s[0]], s[1..], p);
  }

  lemma {:induction false} EscapeQuotesLength(s: string)
    ensures |EscapeQuotes(s)| == |s| + |Filter(s, IsQuote)|
  {
    if s != [] {
      EscapeQuotesLength(s[1..]);
      EscapeCons(s);
      EscapeOne(s[0]);
      FilterHeadTail(s, IsQuote);
    }
  }

  lemma {:induction false} EscapeQuotesCount(s: string)
    ensures |Filter(EscapeQuotes(s), IsQuote)| == 2 * |Filter(s, IsQuote)|
  {
    if s != [] {
      EscapeQuotesCount(s[1..]);
      EscapeCons(s);
      EscapeOne(s[0]);
      FilterConcat(EscapeQuotes([s[0]]), EscapeQuotes(s[1..]), IsQuote);
      FilterHeadTail(s, IsQuote);
    }
  }

  lemma {:induction false} EscapeQuotesOthers(s: string)
    ensures Filter(EscapeQuotes(s), NotQuote) == Filter(s, NotQuote)
  {
    if s != [] {
      EscapeQuotesOthers(s[1..]);
      EscapeCons(s);
      EscapeOne(s[0]);
      FilterConcat(EscapeQuotes([s[0]]), EscapeQuotes(s[1..]), NotQuote);
      FilterHeadTail(s, NotQuote);
    }
  }

  /** `"${text.replace(/"/g, '""')}"`. */
  function QuoteField(s: string): string {
    "\"" + EscapeQuotes(s) + "\""
  }

  /** Reading an escaped field body back: `""` stands for `"`, and a lone `"` is malformed. */
  function Unescape(s: string): Option<string> {
    if s == [] then Some([])
    else if s[0] == '"' then
      if |s| >= 2 && s[1] == '"' then
        match Unescape(s[2..])
        case None => None
        case Some(rest) => Some("\"" + rest)
      else None
    else
      match Unescape(s[1..])
      case None => None
      case Some(rest) => Some([s[0]] + rest)
  }

  /** Reading a quoted field back: the text between the outer quotes, unescaped. */
  function UnquoteField(f: string): Option<string> {
    if |f| >= 2 && f[0] == '"' && f[|f| - 1] == '"' then Unescape(f[1..|f| - 1]) else None
  }

  /** Unescaping undoes the escaping, so the field text is recoverable whatever quotes it holds. */
  lemma {:induction false} UnescapeEscape(s: string)
    ensures Unescape(EscapeQuotes(s)) == Some(s)
  {
    if s != [] {
      UnescapeEscape(s[1..]);
      var e := EscapeQuotes(s[1..]);
      if s[0] == '"' {
        assert EscapeQuotes(s) == "\"\"" + e;
        assert (EscapeQuotes(s))[2..] == e;
      } else {
        assert EscapeQuotes(s) == [s[0]] + e;
        assert (EscapeQuotes(s))[1..] == e;
      }
      assert s == [s[0]] + s[1..];
    }
  }

  /** A quoted field reads back as the text it quotes. */
  lemma UnquoteQuote(s: string)
    ensures UnquoteField(QuoteField(s)) == Some(s)
  {
    var f := QuoteField(s);
    assert f[1..|f| - 1] == EscapeQuotes(s);
    UnescapeEscape(s);
  }

  /**
   * A quoted word inside a field: `a"b"` becomes `"a""b"""` for quote-free
   * a and b, as `He said "hi"` becomes `"He said ""hi"""`.
   */
  lemma QuotedWordExample(a: string, b: string)
    requires '"' !in a && '"' !in b
    ensures QuoteField(a + "\"" + b + "\"") == "\"" + a + "\"\"" + b + "\"\"\""
  {
    var q := "\"";
    var qq, qqq := q + q, q + q + q;
    assert "\"\"" == qq && "\"\"\"" == qqq;
    Assoc(a + q, b, q);
    Assoc(a, q, b + q);
    EscapeConcat(a, q + (b + q));
    EscapeConcat(q, b + q);
    EscapeConcat(b, q);
    EscapeNoQuotes(a);
    EscapeNoQuotes(b);
    assert q[1..] == [];
    assert EscapeQuotes(q) == qq;
    var e := EscapeQuotes(a + q + b + q);
    assert e == a + (qq + (b + qq));
    calc {
      QuoteField(a + q + b + q);
      q + e + q;
      q + (a + (qq + (b + qq))) + q;
      { Assoc(q, a + (qq + (b + qq)), q); }
      q + ((a + (qq + (b + qq))) + q);
      { Assoc(a, qq + (b + qq), q); }
      q + (a + ((qq + (b + qq)) + q));
      { Assoc(qq, b + qq, q); }
      q + (a + (qq + ((b + qq) + q)));
      { Assoc(b, qq, q); }
      q + (a + (qq + (b + qqq)));
      { Assoc(q + a, qq, b + qqq); Assoc(q, a, qq + (b + qqq)); }
      (q + a) + qq + (b + qqq);
      { Assoc(q + a + qq, b, qqq); }
      q + a + qq + b + qqq;
    }
  }

  lemma Assoc(x: string, y: string, z: string)
    ensures (x + y) + z == x + (y + z)
  {
  }

  lemma {:induction false} EscapeConcat(a: string, b: string)
    ensures EscapeQuotes(a + b) == EscapeQuotes(a) + EscapeQuotes(b)
  {
    if a != [] {
      assert (a + b)[1..] == a[1..] + b;
      EscapeConcat(a[1..], b);
    } else {
      assert a + b == b;
    }
  }

  lemma {:induction false} EscapeNoQuotes(s: string)
    requires '"' !in s
    ensures EscapeQuotes(s) == s
  {
    if s != [] {
      assert s[0] != '"';
      EscapeNoQuotes(s[1..]);
      assert s == [s[0]] + s[1..];
    }
  }

  /** `(r[c] || '').toString()`: a falsy cell gives "", an array its comma-joined items. */
  function FieldText(c: Cell): (t: string)
    ensures t == DisplayText(c)
  {
    if !Truthy(c) then "" else DisplayText(c)
  }

  /** The fields of one row, quoted, in column order. */
  function RowFields(row: Record, columns: seq<string>): (r: seq<string>)
    ensures |r| == |columns| && forall i :: 0 <= i < |columns| ==> r[i] == QuoteField(FieldText(row.Get(columns[i])))
  {
    seq(|columns|, i requires 0 <= i < |columns| => QuoteField(FieldText(row.Get(columns[i]))))
  }

  /** The lines of the file: the header, then one line per row. */
  function CsvLines(rows: seq<Record>, columns: seq<string>): (r: seq<string>)
    ensures |r| == |rows| + 1 && r[0] == Join(columns, ",")
    ensures forall i :: 0 <= i < |rows| ==> r[i + 1] == Join(RowFields(rows[i], columns), ",")
  {
    [Join(columns, ",")] + seq(|rows|, i requires 0 <= i < |rows| => Join(RowFields(rows[i], columns), ","))
  }

  /** The export handler's loop: the header line, then one line pushed per row. */
  method BuildLines(rows: seq<Record>, columns: seq<string>) returns (lines: seq<string>)
    ensures lines == CsvLines(rows, columns)
  {
    lines := [Join(columns, ",")];
    var i := 0;
    while i < |rows|
      invariant 0 <= i <= |rows|
      invariant lines == CsvLines(rows[..i], columns)
    {
      CsvLinesSnoc(rows, columns, i);
      lines := lines + [Join(RowFields(rows[i], columns), ",")];
      i := i + 1;
    }
    assert rows[..i] == rows;
  }

  /** One more row adds its line at the end. */
  lemma CsvLinesSnoc(rows: seq<Record>, columns: seq<string>, i: nat)
    requires i < |rows|
    ensures CsvLines(rows[..i + 1], columns) == CsvLines(rows[..i], columns) + [Join(RowFields(rows[i], columns), ",")]
  {
    var a, b := CsvLines(rows[..i + 1], columns), CsvLines(rows[..i], columns);
    forall k | 1 <= k <= i ensures a[k] == b[k] {
      assert rows[..i + 1][k - 1] == rows[..i][k - 1];
    }
    assert rows[..i + 1][i] == rows[i];
  }

  /** The export handler: nothing when no row is shown, otherwise the lines joined with CRLF. */
  function ExportCsv(rows: seq<Record>, columns: seq<string>): (r: Option<string>)
    ensures r.None? <==> rows == []
  {
    if rows == [] then None else Some(Join(CsvLines(rows, columns), "\r\n"))
  }

  /** Every data field reads back as the cell's display text. */
  lemma RowFieldsReadBack(row: Record, columns: seq<string>, i: nat)
    requires i < |columns|
    ensures UnquoteField(RowFields(row, columns)[i]) == Some(DisplayText(row.Get(columns[i])))
  {
    UnquoteQuote(FieldText(row.Get(columns[i])));
  }
}
