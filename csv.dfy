/**
 * The CSV export of the attendance log: a header line and one line per
 * record, newest first, joined by line feeds; every field is quoted, and
 * quotes inside the payload text are doubled. An empty log exports nothing.
 * Split and ReadQuoted are the reader's side: splitting the file into lines
 * and reading one quoted field back.
 */
module CsvExport {
  import opened Wrappers
  import opened AttendanceLog

  const Header: string := "Employee,Date,Log In,Log Out,Type"

  /** The name a record's source has in the export. */
  function SourceName(k: Source): (r: string)
    ensures r != "" && '"' !in r && '\n' !in r
  {
    match k
    case Camera => "camera"
    case Image => "image"
  }

  /** Every quote doubled, every other character kept. */
  function DoubleQuotes(s: string): (r: string)
    ensures '\n' !in s ==> '\n' !in r
  {
    if s == [] then []
    else (if s[0] == '"' then "\"\"" else [s[0]]) + DoubleQuotes(s[1..])
  }

  function Quoted(s: string): string
  {
    "\"" + s + "\""
  }

  /** The line of one record: text, date, log-in, log-out and source, each quoted. */
  function Row(e: Entry): (r: string)
    ensures |r| > 0 && r[0] == '"'
    ensures OneLine(e) ==> '\n' !in r
  {
    Quoted(DoubleQuotes(e.text)) + "," + Quoted(e.date) + "," + Quoted(e.logIn) + ","
      + Quoted(e.logOut) + "," + Quoted(SourceName(e.kind))
  }

  /** The lines of the records, in log order. */
  function Rows(log: seq<Entry>): (r: seq<string>)
    ensures |r| == |log|
    ensures forall i :: 0 <= i < |log| ==> r[i] == Row(log[i])
  {
    if log == [] then [] else [Row(log[0])] + Rows(log[1..])
  }

  /** The lines joined by line feeds, with none after the last. */
  function Join(lines: seq<string>): (r: string)
    ensures |lines| > 0 ==> lines[0] <= r
  {
    if |lines| == 0 then ""
    else if |lines| == 1 then lines[0]
    else lines[0] + "\n" + Join(lines[1..])
  }

  /** The exported file, or nothing when the log is empty. */
  function ExportCsv(log: seq<Entry>): (r: Option<string>)
    ensures r.None? <==> log == []
  {
    if |log| == 0 then None else Some(Join([Header] + Rows(log)))
  }

  /** A text cut at every line feed. */
  function Split(s: string): (r: seq<string>)
    ensures |r| >= 1
  {
    if s == [] then [""]
    else
      var rest := Split(s[1..]);
      if s[0] == '\n' then [""] + rest else [[s[0]] + rest[0]] + rest[1..]
  }

  /**
   * Reads a quoted field whose opening quote has been consumed: a doubled
   * quote stands for one quote, a single quote ends the field. Gives the
   * field's text and what follows the closing quote; nothing when no
   * closing quote comes.
   */
  function ReadQuoted(s: string): Option<(string, string)>
    decreases |s|
  {
    if s == [] then None
    else if s[0] == '"' then
      if |s| >= 2 && s[1] == '"' then
        match ReadQuoted(s[2..])
        case None => None
        case Some(p) => Some(("\"" + p.0, p.1))
      else Some(([], s[1..]))
    else
      match ReadQuoted(s[1..])
      case None => None
      case Some(p) => Some(([s[0]] + p.0, p.1))
  }

  // ---------------------------------------------------------------------
  // Splitting the file into its lines

  lemma {:induction false} SplitPlain(a: string)
    requires '\n' !in a
    ensures Split(a) == [a]
    decreases |a|
  {
    if a != [] {
      SplitPlain(a[1..]);
      assert [a[0]] + a[1..] == a;
    }
  }

  lemma {:induction false} SplitLine(a: string, b: string)
    requires '\n' !in a
    ensures Split(a + "\n" + b) == [a] + Split(b)
    decreases |a|
  {
    var s := a + "\n" + b;
    if a == [] {
      assert s[0] == '\n' && s[1..] == b;
    } else {
      assert s[0] == a[0] && s[1..] == a[1..] + "\n" + b;
      SplitLine(a[1..], b);
      assert [a[0]] + a[1..] == a;
    }
  }

  /** Lines without line feeds are recovered from their join. */
  lemma {:induction false} SplitJoin(lines: seq<string>)
    requires |lines| >= 1
    requires forall i :: 0 <= i < |lines| ==> '\n' !in lines[i]
    ensures Split(Join(lines)) == lines
    decreases |lines|
  {
    if |lines| == 1 {
      SplitPlain(lines[0]);
    } else {
      SplitLine(lines[0], Join(lines[1..]));
      SplitJoin(lines[1..]);
    }
  }

  /** A record none of whose exported fields holds a line feed. */
  predicate OneLine(e: Entry)
  {
    '\n' !in e.text && '\n' !in e.date && '\n' !in e.logIn && '\n' !in e.logOut
  }

  /**
   * The file of a non-empty log reads back, line by line, as the header and
   * then one row per record in log order: 1 + |log| lines. A payload or a
   * date with a line feed in it would span more lines.
   */
  lemma ExportLines(log: seq<Entry>)
    requires log != []
    requires forall i :: 0 <= i < |log| ==> OneLine(log[i])
    ensures ExportCsv(log).Some?
    ensures var lines := Split(ExportCsv(log).value);
      && |lines| == 1 + |log|
      && lines[0] == Header
      && forall i :: 0 <= i < |log| ==> lines[i + 1] == Row(log[i])
  {
    var lines := [Header] + Rows(log);
    forall i | 0 <= i < |lines| ensures '\n' !in lines[i] {
      if i > 0 { assert lines[i] == Row(log[i - 1]); }
    }
    SplitJoin(lines);
  }

  // ---------------------------------------------------------------------
  // Reading the quoted payload back

  /** The doubled text, closed by a quote, reads back as the text itself. */
  lemma {:induction false} ReadQuotedDoubled(s: string, rest: string)
    requires rest == [] || rest[0] != '"'
    ensures ReadQuoted(DoubleQuotes(s) + "\"" + rest) == Some((s, rest))
    decreases |s|
  {
    var w := DoubleQuotes(s) + "\"" + rest;
    if s == [] {
      assert w == "\"" + rest;
      assert w[1..] == rest;
    } else if s[0] == '"' {
      assert w == "\"\"" + (DoubleQuotes(s[1..]) + "\"" + rest);
      ReadQuotedDoubled(s[1..], rest);
      assert w[2..] == DoubleQuotes(s[1..]) + "\"" + rest;
      assert "\"" + s[1..] == s;
    } else {
      assert w == [s[0]] + (DoubleQuotes(s[1..]) + "\"" + rest);
      ReadQuotedDoubled(s[1..], rest);
      assert w[1..] == DoubleQuotes(s[1..]) + "\"" + rest;
      assert [s[0]] + s[1..] == s;
    }
  }

  /**
   * Each row opens with the payload text as one quoted field: reading it
   * back gives exactly the text, whatever quotes it holds, and the next
   * field follows after a comma.
   */
  lemma RowFirstField(e: Entry)
    ensures Row(e)[0] == '"'
    ensures var f := ReadQuoted(Row(e)[1..]);
      f.Some? && f.value.0 == e.text && |f.value.1| > 0 && f.value.1[0] == ','
  {
    var rest := "," + Quoted(e.date) + "," + Quoted(e.logIn) + "," + Quoted(e.logOut) + ","
      + Quoted(SourceName(e.kind));
    assert Row(e) == "\"" + (DoubleQuotes(e.text) + "\"" + rest);
    assert Row(e)[1..] == DoubleQuotes(e.text) + "\"" + rest;
    ReadQuotedDoubled(e.text, rest);
  }
}
