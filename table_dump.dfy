/**
 * The PHP dump writer of EasyDBBackup::backup_database_php: a fixed header,
 * then, for every table in the order SHOW TABLES lists them, a structure
 * comment, a DROP TABLE IF EXISTS guard, the SHOW CREATE TABLE text, a data
 * comment and one INSERT statement per row.
 *
 * The database is an abstract input: the connection either fails or reaches
 * a sequence of tables, each with its name, its creation statement, the
 * column count of `SELECT *` and its rows.
 */
module TableDump {
  import opened Common
  import Escaper
  import SqlReader

  /** One fetched row: a column is absent (SQL NULL) or a string. */
  type Row = seq<Option<string>>

  datatype Table = Table(name: string, createStatement: string, columnCount: nat, rows: seq<Row>)

  /** What the credentials reach: a connection error, or the tables in SHOW TABLES order. */
  datatype Database = ConnectError | Connected(tables: seq<Table>)

  datatype DumpError = ConnectionFailed

  // ---------------------------------------------------------------- rows

  /**
   * Column `i` of a fetched row as `isset($row[$i])` sees it: a missing
   * index reads as absent, just like a NULL column.
   */
  function Cell(row: Row, i: nat): (r: Option<string>)
    ensures r.None? <==> i >= |row| || row[i].None?
    ensures r.Some? ==> i < |row| && r == row[i]
  {
    if i < |row| then row[i] else None
  }

  /** The columns 0 .. count-1 of a row, in column order. */
  function Cells(row: Row, count: nat): seq<Option<string>>
  {
    seq(count, i requires 0 <= i < count => Cell(row, i))
  }

  /** The serialized text of each column value. */
  function Serialized(cs: seq<Option<string>>): seq<string>
  {
    seq(|cs|, i requires 0 <= i < |cs| => Escaper.SerializeValue(cs[i]))
  }

  /** The pieces of `xs` separated by single commas, with no trailing comma. */
  function JoinComma(xs: seq<string>): string
  {
    if |xs| == 0 then ""
    else if |xs| == 1 then xs[0]
    else xs[0] + "," + JoinComma(xs[1..])
  }

  /** The pieces of `xs` one after another. */
  function Concat(xs: seq<string>): string
  {
    if xs == [] then "" else xs[0] + Concat(xs[1..])
  }

  /** One row's INSERT statement with `count` values. */
  function InsertStatement(name: string, row: Row, count: nat): string
  {
    "INSERT INTO `" + name + "` VALUES (" + JoinComma(Serialized(Cells(row, count))) + ");\n"
  }

  // ---------------------------------------------------------------- sections and document

  /** The structure comment, DROP guard, creation statement and data comment of a table. */
  function Preamble(t: Table): string
  {
    ("-- Table structure for table `" + t.name + "`\n")
    + ("DROP TABLE IF EXISTS `" + t.name + "`;\n")
    + (t.createStatement + ";\n\n")
    + ("-- Dumping data for table `" + t.name + "`\n")
  }

  /** The INSERT statements of a table, one per row, in fetch order. */
  function Inserts(t: Table): seq<string>
  {
    seq(|t.rows|, j requires 0 <= j < |t.rows| => InsertStatement(t.name, t.rows[j], t.columnCount))
  }

  /** The whole section of one table. */
  function Section(t: Table): string
  {
    Preamble(t) + Concat(Inserts(t)) + "\n\n"
  }

  /** The two session directives that make a restore behave the same on every server. */
  const SessionDirectives: string :=
    "SET SQL_MODE = \"NO_AUTO_VALUE_ON_ZERO\";\n" + "SET time_zone = \"+00:00\";\n\n"

  /** The document header: tool, database name, date, then the session directives. */
  function Header(dbName: string, date: string): string
  {
    "-- Easy DB Backup\n" + ("-- Database: " + dbName + "\n") + ("-- Date: " + date + "\n\n")
    + SessionDirectives
  }

  function Sections(ts: seq<Table>): seq<string>
  {
    seq(|ts|, i requires 0 <= i < |ts| => Section(ts[i]))
  }

  /** The dump of a reachable database. */
  function Document(dbName: string, date: string, ts: seq<Table>): string
  {
    Header(dbName, date) + Concat(Sections(ts))
  }

  // ---------------------------------------------------------------- the writer

  /**
   * The dump as the PHP code writes it, growing one string with nested loops
   * over tables, rows and columns.  `date` is the clock reading the header
   * shows.  The header lines and the loop bodies for one table and one row
   * are the methods WriteHeader, AppendSection and AppendInsert below.
   */
  method DumpDatabase(db: Database, dbName: string, date: string) returns (r: Result<string, DumpError>)
    ensures db.ConnectError? ==> r == Err(ConnectionFailed)
    ensures db.Connected? ==> r == Ok(Document(dbName, date, db.tables))
  {
    if db.ConnectError? {
      return Err(ConnectionFailed);
    }
    var tables := db.tables;
    var output := WriteHeader(dbName, date);
    ghost var head := output;
    var t := 0;
    while t < |tables|
      invariant 0 <= t <= |tables|
      invariant output == head + Concat(Sections(tables)[..t])
    {
      ghost var done := Concat(Sections(tables)[..t]);
      output := AppendSection(output, tables[t]);
      ConcatStep(Sections(tables), t);
      ConcatAssoc(head, done, Section(tables[t]));
      t := t + 1;
    }
    assert Sections(tables)[..|tables|] == Sections(tables);
    return Ok(output);
  }

  /** The header lines the dump starts with, appended one at a time; the last two are the lines of SessionDirectives. */
  method WriteHeader(dbName: string, date: string) returns (output: string)
    ensures output == Header(dbName, date)
  {
    output := "-- Easy DB Backup\n";
    output := output + ("-- Database: " + dbName + "\n");
    output := output + ("-- Date: " + date + "\n\n");
    ghost var banner := output;
    output := output + "SET SQL_MODE = \"NO_AUTO_VALUE_ON_ZERO\";\n";
    output := output + "SET time_zone = \"+00:00\";\n\n";
    ConcatAssoc(banner, "SET SQL_MODE = \"NO_AUTO_VALUE_ON_ZERO\";\n", "SET time_zone = \"+00:00\";\n\n");
  }

  /** The body of the table loop: appends one table's section to `output`. */
  method AppendSection(output: string, table: Table) returns (out: string)
    ensures out == output + Section(table)
  {
    var structure := "-- Table structure for table `" + table.name + "`\n";
    var drop := "DROP TABLE IF EXISTS `" + table.name + "`;\n";
    var create := table.createStatement + ";\n\n";
    var data := "-- Dumping data for table `" + table.name + "`\n";
    out := output + structure;
    out := out + drop;
    ConcatAssoc(output, structure, drop);
    out := out + create;
    ConcatAssoc(output, structure + drop, create);
    out := out + data;
    ConcatAssoc(output, structure + drop + create, data);
    assert out == output + Preamble(table);

    ghost var start := out;
    var j := 0;
    while j < |table.rows|
      invariant 0 <= j <= |table.rows|
      invariant out == start + Concat(Inserts(table)[..j])
    {
      ghost var done := Concat(Inserts(table)[..j]);
      out := AppendInsert(out, table.name, table.rows[j], table.columnCount);
      ConcatStep(Inserts(table), j);
      ConcatAssoc(start, done, Inserts(table)[j]);
      j := j + 1;
    }
    assert Inserts(table)[..|table.rows|] == Inserts(table);
    out := out + "\n\n";
    ConcatAssoc(output, Preamble(table), Concat(Inserts(table)));
    ConcatAssoc(output, Preamble(table) + Concat(Inserts(table)), "\n\n");
  }

  /** The body of the row loop: appends one row's INSERT statement to `output`. */
  method AppendInsert(output: string, name: string, row: Row, columnCount: nat) returns (out: string)
    ensures out == output + InsertStatement(name, row, columnCount)
  {
    ghost var values := Serialized(Cells(row, columnCount));
    out := output + ("INSERT INTO `" + name + "` VALUES (");
    ghost var head := out;
    var i := 0;
    while i < columnCount
      invariant 0 <= i <= columnCount
      invariant out == head + ValuesWritten(values, i)
    {
      ghost var before := out;
      if i < |row| && row[i].Some? {
        var value := row[i].value;
        value := Escaper.ReplaceChar(value, '\\', "\\\\");
        value := Escaper.ReplaceChar(value, '\'', "\\'");
        out := out + ("'" + value + "'");
      } else {
        out := out + "NULL";
      }
      assert out == before + values[i];
      ghost var mid := out;
      if i < columnCount - 1 {
        out := out + ",";
      }
      assert out == mid + (if i < columnCount - 1 then "," else "");
      ValuesWrittenStep(values, i);
      ConcatAssoc(head, ValuesWritten(values, i), values[i]);
      ConcatAssoc(head, ValuesWritten(values, i) + values[i], if i < columnCount - 1 then "," else "");
      i := i + 1;
    }
    assert values[..columnCount] == values;
    ConcatAssoc(output, "INSERT INTO `" + name + "` VALUES (", JoinComma(values));
    out := out + ");\n";
    ConcatAssoc(output, "INSERT INTO `" + name + "` VALUES (" + JoinComma(values), ");\n");
  }

  /** What the column loop has written after `i` columns: their values, and a comma unless all are written. */
  function ValuesWritten(values: seq<string>, i: nat): string
    requires i <= |values|
  {
    JoinComma(values[..i]) + (if 0 < i < |values| then "," else "")
  }

  // ---------------------------------------------------------------- lemmas about Concat and JoinComma

  lemma {:induction false} ConcatAppend(a: seq<string>, b: seq<string>)
    ensures Concat(a + b) == Concat(a) + Concat(b)
  {
    if a != [] {
      assert (a + b)[0] == a[0];
      assert (a + b)[1..] == a[1..] + b;
      ConcatAppend(a[1..], b);
    } else {
      assert a + b == b;
    }
  }

  /** Appending the next piece to the joined prefix. */
  lemma ConcatStep(xs: seq<string>, k: nat)
    requires k < |xs|
    ensures Concat(xs[..k + 1]) == Concat(xs[..k]) + xs[k]
  {
    assert xs[..k + 1] == xs[..k] + [xs[k]];
    ConcatAppend(xs[..k], [xs[k]]);
  }

  /** Splitting the concatenation around piece `k`. */
  lemma ConcatSplit(xs: seq<string>, k: nat)
    requires k < |xs|
    ensures Concat(xs) == Concat(xs[..k]) + xs[k] + Concat(xs[k + 1..])
  {
    assert xs == xs[..k] + xs[k..];
    ConcatAppend(xs[..k], xs[k..]);
    assert xs[k..][0] == xs[k] && xs[k..][1..] == xs[k + 1..];
    ConcatAssoc(Concat(xs[..k]), xs[k], Concat(xs[k + 1..]));
  }

  lemma {:induction false} JoinCommaSnoc(xs: seq<string>, x: string)
    requires |xs| > 0
    ensures JoinComma(xs + [x]) == JoinComma(xs) + "," + x
  {
    if |xs| == 1 {
      assert (xs + [x])[1..] == [x];
    } else {
      assert (xs + [x])[0] == xs[0];
      assert (xs + [x])[1..] == xs[1..] + [x];
      JoinCommaSnoc(xs[1..], x);
    }
  }

  /** One step of the column loop: a value, then a comma unless it was the last. */
  lemma ValuesWrittenStep(values: seq<string>, i: nat)
    requires i < |values|
    ensures ValuesWritten(values, i) + values[i] + (if i < |values| - 1 then "," else "")
         == ValuesWritten(values, i + 1)
  {
    assert values[..i + 1] == values[..i] + [values[i]];
    if i > 0 {
      JoinCommaSnoc(values[..i], values[i]);
    }
  }

  // ---------------------------------------------------------------- reading an INSERT back

  /** The first character of joined values is the first character of the first value. */
  lemma JoinCommaHead(xs: seq<string>)
    requires |xs| > 0 && |xs[0]| > 0
    ensures |JoinComma(xs)| > 0 && JoinComma(xs)[0] == xs[0][0]
  {
    if |xs| > 1 {
      assert JoinComma(xs) == xs[0] + ("," + JoinComma(xs[1..]));
    }
  }

  /** A non-empty serialized value list, closed by `)`, reads back as the same columns. */
  lemma {:induction false} ValueListRoundTrip(cs: seq<Option<string>>, rest: string)
    requires |cs| > 0
    ensures SqlReader.ParseValueList(JoinComma(Serialized(cs)) + ")" + rest) == Some((cs, rest))
  {
    var vs := Serialized(cs);
    var first := Escaper.SerializeValue(cs[0]);
    assert vs[0] == first;
    if |cs| == 1 {
      assert JoinComma(vs) == first;
      ConcatAssoc(first, ")", rest);
      Escaper.SerializeValueRoundTrip(cs[0], ")" + rest);
      assert (")" + rest)[1..] == rest;
      assert [cs[0]] == cs;
    } else {
      assert vs[1..] == Serialized(cs[1..]);
      var tail := JoinComma(vs[1..]) + ")" + rest;
      assert JoinComma(vs) + ")" + rest == first + ("," + tail) by {
        ConcatAssoc(first, ",", JoinComma(vs[1..]));
        ConcatAssoc(first + ",", JoinComma(vs[1..]), ")");
        ConcatAssoc(first + ",", JoinComma(vs[1..]) + ")", rest);
        ConcatAssoc(first, ",", tail);
      }
      Escaper.SerializeValueRoundTrip(cs[0], "," + tail);
      assert ("," + tail)[1..] == tail;
      ValueListRoundTrip(cs[1..], rest);
      assert [cs[0]] + cs[1..] == cs;
    }
  }

  /** The values of an INSERT, closed by `)`, read back as the same columns, none included. */
  lemma RowValuesRoundTrip(cs: seq<Option<string>>, rest: string)
    ensures SqlReader.ParseRowValues(JoinComma(Serialized(cs)) + ")" + rest) == Some((cs, rest))
  {
    var text := JoinComma(Serialized(cs)) + ")" + rest;
    if |cs| == 0 {
      assert text == ")" + rest;
      assert text[1..] == rest;
    } else {
      ValueListRoundTrip(cs, rest);
      JoinCommaHead(Serialized(cs));
      assert text[0] == Escaper.SerializeValue(cs[0])[0];
    }
  }

  /** A table name without a backtick, closed by one, reads back unchanged. */
  lemma {:induction false} QuotedNameRoundTrip(name: string, rest: string)
    requires '`' !in name
    ensures SqlReader.ParseQuotedName(name + "`" + rest) == Some((name, rest))
  {
    var s := name + "`" + rest;
    if name == [] {
      assert s == "`" + rest && s[1..] == rest;
    } else {
      assert s[0] == name[0] && s[1..] == name[1..] + "`" + rest;
      QuotedNameRoundTrip(name[1..], rest);
      assert [name[0]] + name[1..] == name;
    }
  }

  /**
   * Every INSERT statement the writer emits reads back as its table name and
   * exactly `count` values, those of columns 0 .. count-1 in order, provided
   * the table name (written between backticks without escaping) holds no
   * backtick.
   */
  lemma InsertRoundTrip(name: string, row: Row, count: nat, rest: string)
    requires '`' !in name
    ensures SqlReader.ParseInsert(InsertStatement(name, row, count) + rest)
         == Some((name, Cells(row, count), rest))
  {
    var head, valuesHead, end := SqlReader.InsertHead, SqlReader.ValuesHead, SqlReader.StatementEnd;
    var values := JoinComma(Serialized(Cells(row, count)));
    assert InsertStatement(name, row, count)
        == (((head + name) + ("`" + valuesHead)) + values) + (")" + end);
    var afterValues := end + rest;
    var afterHead := valuesHead + ((values + ")") + afterValues);
    var afterOpen := (name + "`") + afterHead;
    RegroupInsert(head, name, "`", valuesHead, values, ")", end, rest);
    SplitAt(head, afterOpen);
    QuotedNameRoundTrip(name, afterHead);
    SplitAt(valuesHead, (values + ")") + afterValues);
    RowValuesRoundTrip(Cells(row, count), afterValues);
    SplitAt(end, rest);
  }

  /** The regrouping InsertRoundTrip reads an INSERT statement by. */
  lemma RegroupInsert(h: string, n: string, bt: string, vh: string, v: string, cp: string, se: string, r: string)
    ensures ((((h + n) + (bt + vh)) + v) + (cp + se)) + r == h + ((n + bt) + (vh + ((v + cp) + (se + r))))
  {
  }

  /** A concatenation cut at the end of its first part gives back both parts. */
  lemma SplitAt(a: string, b: string)
    ensures (a + b)[..|a|] == a && (a + b)[|a|..] == b
  {
  }

  /** A row fetched with the table's column count is read back as itself. */
  lemma CellsOfFullRow(row: Row, count: nat)
    requires |row| == count
    ensures Cells(row, count) == row
  {
  }

  // ---------------------------------------------------------------- where things are in the document

  /** Where the section of table `i` starts in the document. */
  function SectionStart(dbName: string, date: string, ts: seq<Table>, i: nat): nat
    requires i <= |ts|
  {
    |Header(dbName, date)| + |Concat(Sections(ts)[..i])|
  }

  /** Where the INSERT statement of row `j` of table `i` starts in the document. */
  function RowStart(dbName: string, date: string, ts: seq<Table>, i: nat, j: nat): nat
    requires i < |ts| && j <= |ts[i].rows|
  {
    SectionStart(dbName, date, ts, i) + |Preamble(ts[i])| + |Concat(Inserts(ts[i])[..j])|
  }

  /**
   * The document opens with the header, whose last lines are the two session
   * directives, and the first section starts right after it.
   */
  lemma HeaderComesFirst(dbName: string, date: string, ts: seq<Table>)
    ensures var h := Header(dbName, date);
      && Document(dbName, date, ts)[..|h|] == h
      && h[|h| - |SessionDirectives|..] == SessionDirectives
      && SectionStart(dbName, date, ts, 0) == |h|
  {
    assert Sections(ts)[..0] == [];
  }

  /**
   * The sections follow one another in table order: section `i` occupies the
   * text from its start up to the start of section `i + 1`, so no two
   * sections interleave.
   */
  lemma SectionPlacement(dbName: string, date: string, ts: seq<Table>, i: nat)
    requires i < |ts|
    ensures SectionStart(dbName, date, ts, i) + |Section(ts[i])| == SectionStart(dbName, date, ts, i + 1)
    ensures SectionStart(dbName, date, ts, i + 1) <= |Document(dbName, date, ts)|
    ensures Document(dbName, date, ts)[SectionStart(dbName, date, ts, i)..SectionStart(dbName, date, ts, i + 1)]
         == Section(ts[i])
  {
    var ss := Sections(ts);
    var h := Header(dbName, date);
    ConcatStep(ss, i);
    ConcatSplit(ss, i);
    var before := h + Concat(ss[..i]);
    assert Document(dbName, date, ts) == before + ss[i] + Concat(ss[i + 1..]) by {
      ConcatAssoc(h, Concat(ss[..i]) + ss[i], Concat(ss[i + 1..]));
      ConcatAssoc(h, Concat(ss[..i]), ss[i]);
    }
  }

  /**
   * Row `j` of table `i` is found, as an INSERT statement that reads back as
   * the table's name and the row's columns, inside the table's section after
   * its DROP and CREATE statements, and after the statements of rows before it.
   */
  lemma RowPlacement(dbName: string, date: string, ts: seq<Table>, i: nat, j: nat)
    requires i < |ts| && j < |ts[i].rows|
    requires '`' !in ts[i].name
    ensures var start := RowStart(dbName, date, ts, i, j);
            var stmt := InsertStatement(ts[i].name, ts[i].rows[j], ts[i].columnCount);
      && SectionStart(dbName, date, ts, i) + |Preamble(ts[i])| <= start
      && start + |stmt| == RowStart(dbName, date, ts, i, j + 1)
      && start + |stmt| <= SectionStart(dbName, date, ts, i + 1)
      && SectionStart(dbName, date, ts, i + 1) <= |Document(dbName, date, ts)|
      && SqlReader.ParseInsert(Document(dbName, date, ts)[start..])
         == Some((ts[i].name, Cells(ts[i].rows[j], ts[i].columnCount),
                  Document(dbName, date, ts)[start + |stmt|..]))
  {
    var t := ts[i];
    var ins := Inserts(t);
    var stmt := ins[j];
    var ss := Sections(ts);
    var doc := Document(dbName, date, ts);
    // The document around section i.
    var a := Header(dbName, date) + Concat(ss[..i]);
    var c := Concat(ss[i + 1..]);
    ConcatSplit(ss, i);
    ConcatStep(ss, i);
    RegroupSectionInDocument(Header(dbName, date), Concat(ss[..i]), ss[i], c);
    assert doc == a + (ss[i] + c);
    // Section i around row j.
    var pre := Preamble(t) + Concat(ins[..j]);
    var post := Concat(ins[j + 1..]) + "\n\n";
    ConcatSplit(ins, j);
    ConcatStep(ins, j);
    RegroupRowInSection(Preamble(t), Concat(ins[..j]), stmt, Concat(ins[j + 1..]), "\n\n");
    assert ss[i] == pre + (stmt + post);
    RegroupRowInDocument(a, pre, stmt, post, c);
    assert doc == ((a + pre) + stmt) + (post + c);
    SplitAt((a + pre) + stmt, post + c);
    SplitAt(a + pre, stmt + (post + c));
    ConcatAssoc(a + pre, stmt, post + c);
    InsertRoundTrip(t.name, t.rows[j], t.columnCount, post + c);
  }

  /** The regroupings RowPlacement cites: a section inside the document, a row inside its section, the row in the document. */
  lemma RegroupSectionInDocument(h: string, b: string, s: string, c: string)
    ensures h + (b + s + c) == (h + b) + (s + c)
  {
  }

  lemma RegroupRowInSection(p: string, b: string, s: string, c: string, e: string)
    ensures p + (b + s + c) + e == (p + b) + (s + (c + e))
  {
  }

  lemma RegroupRowInDocument(a: string, p: string, s: string, q: string, c: string)
    ensures a + (p + (s + q) + c) == ((a + p) + s) + (q + c)
  {
  }

  /** A table without rows gets its DROP and CREATE statements and data comment, and no INSERT statement. */
  lemma EmptyTableSection(t: Table)
    requires t.rows == []
    ensures Section(t) == Preamble(t) + "\n\n"
    ensures Inserts(t) == []
  {
  }
}
