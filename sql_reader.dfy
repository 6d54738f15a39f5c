/**
 * The reading side of a dump: the MySQL server's grammar for the statements
 * the serializer writes.  This is the reference the escaper is checked
 * against.  It follows the "String Literals" section of the MySQL reference
 * manual: inside a single-quoted literal a backslash starts an escape
 * sequence and a doubled single quote stands for one quote.  What a client
 * program does to the text before the server sees it is not part of it.
 */
module SqlReader {
  import opened Common

  /** What a backslash followed by `c` stands for inside a quoted literal. */
  function UnescapeChar(c: char): string
  {
    match c
    case '0' => [0 as char]
    case '\'' => "'"
    case '"' => "\""
    case 'b' => [8 as char]
    case 'n' => "\n"
    case 'r' => "\r"
    case 't' => "\t"
    case 'Z' => [26 as char]
    case '\\' => "\\"
    case '%' => "\\%"   // kept with its backslash, for LIKE patterns
    case '_' => "\\_"
    case _ => [c]
  }

  /**
   * Reads the body of a single-quoted literal whose opening quote has
   * already been consumed.  Gives the literal's value and the text after its
   * closing quote, or None when the literal is not closed.
   */
  function ParseQuotedBody(s: string): (r: Option<(string, string)>)
    ensures r.Some? ==> |r.value.1| < |s|
    decreases |s|
  {
    if |s| == 0 then None
    else if s[0] == '\\' then
      if |s| < 2 then None
      else match ParseQuotedBody(s[2..])
        case None => None
        case Some((v, rest)) => Some((UnescapeChar(s[1]) + v, rest))
    else if s[0] == '\'' then
      if |s| >= 2 && s[1] == '\'' then
        match ParseQuotedBody(s[2..])
        case None => None
        case Some((v, rest)) => Some(("'" + v, rest))
      else Some(("", s[1..]))
    else
      match ParseQuotedBody(s[1..])
      case None => None
      case Some((v, rest)) => Some(([s[0]] + v, rest))
  }

  /** Reads one value of a VALUES list: the token NULL or a quoted literal. */
  function ParseValue(s: string): (r: Option<(Option<string>, string)>)
    ensures r.Some? ==> |r.value.1| < |s|
  {
    if |s| >= 4 && s[..4] == "NULL" then Some((None, s[4..]))
    else if |s| >= 1 && s[0] == '\'' then
      match ParseQuotedBody(s[1..])
      case None => None
      case Some((v, rest)) => Some((Some(v), rest))
    else None
  }

  /**
   * Reads a non-empty comma-separated list of values closed by `)`, giving
   * the values and the text after the parenthesis.
   */
  function ParseValueList(s: string): (r: Option<(seq<Option<string>>, string)>)
    ensures r.Some? ==> |r.value.0| > 0 && |r.value.1| < |s|
    decreases |s|
  {
    match ParseValue(s)
    case None => None
    case Some((v, rest)) =>
      if |rest| > 0 && rest[0] == ',' then
        match ParseValueList(rest[1..])
        case None => None
        case Some((vs, rest')) => Some(([v] + vs, rest'))
      else if |rest| > 0 && rest[0] == ')' then Some(([v], rest[1..]))
      else None
  }

  /** Reads the values after `VALUES (`, allowing the empty list `()`. */
  function ParseRowValues(s: string): (r: Option<(seq<Option<string>>, string)>)
    ensures r.Some? ==> |r.value.1| < |s|
  {
    if |s| > 0 && s[0] == ')' then Some(([], s[1..])) else ParseValueList(s)
  }

  /** Reads a table name up to the closing backtick, giving the name and the text after the backtick. */
  function ParseQuotedName(s: string): (r: Option<(string, string)>)
    ensures r.Some? ==> '`' !in r.value.0 && s == r.value.0 + "`" + r.value.1
    decreases |s|
  {
    if |s| == 0 then None
    else if s[0] == '`' then Some(("", s[1..]))
    else match ParseQuotedName(s[1..])
      case None => None
      case Some((n, rest)) => Some(([s[0]] + n, rest))
  }

  const InsertHead := "INSERT INTO `"
  const ValuesHead := " VALUES ("
  const StatementEnd := ";\n"

  /**
   * Reads one statement `INSERT INTO `t` VALUES (...);` and a line break,
   * giving the table name, the values and the text after the statement.
   */
  function ParseInsert(s: string): (r: Option<(string, seq<Option<string>>, string)>)
  {
    if !(|s| >= |InsertHead| && s[..|InsertHead|] == InsertHead) then None
    else match ParseQuotedName(s[|InsertHead|..])
      case None => None
      case Some((name, rest)) =>
        if !(|rest| >= |ValuesHead| && rest[..|ValuesHead|] == ValuesHead) then None
        else match ParseRowValues(rest[|ValuesHead|..])
          case None => None
          case Some((vals, rest')) =>
            if |rest'| >= |StatementEnd| && rest'[..|StatementEnd|] == StatementEnd
            then Some((name, vals, rest'[|StatementEnd|..]))
            else None
  }
}
