/**
 * The value escaper of the PHP dump writer (EasyDBBackup::backup_database_php):
 * an absent column becomes the bare token NULL; a present one has every
 * backslash doubled, then every single quote prefixed with a backslash, and
 * is wrapped in single quotes.
 */
module Escaper {
  import opened Common
  import SqlReader

  /** PHP's str_replace with a one-character search string: each `c` in `s` becomes `rep`. */
  function ReplaceChar(s: string, c: char, rep: string): (r: string)
    ensures c !in s ==> r == s
    ensures forall x :: x in r ==> (x in s && x != c) || x in rep
  {
    if s == [] then []
    else (if s[0] == c then rep else [s[0]]) + ReplaceChar(s[1..], c, rep)
  }

  /**
   * The two str_replace calls, backslashes first, then quotes.  Text without
   * either character is left alone, and the only character escaping adds is
   * the backslash.
   */
  function Escape(s: string): (r: string)
    ensures '\\' !in s && '\'' !in s ==> r == s
    ensures forall x :: x in r ==> x in s || x == '\\'
  {
    var once := ReplaceChar(s, '\\', "\\\\");
    assert '\'' in once ==> '\'' in s;
    ReplaceChar(once, '\'', "\\'")
  }

  /** What Escape does to one character. */
  function EscapeChar(x: char): (r: string)
    ensures 1 <= |r| <= 2
  {
    if x == '\\' then "\\\\" else if x == '\'' then "\\'" else [x]
  }

  /** How one column value is written into an INSERT statement. */
  function SerializeValue(v: Option<string>): (r: string)
    ensures v.None? <==> r == "NULL"
    ensures v.Some? ==> |r| >= 2 && r[0] == '\'' && r[|r| - 1] == '\''
  {
    match v
    case None => "NULL"
    case Some(s) =>
      var r := "'" + Escape(s) + "'";
      assert r[0] != "NULL"[0];
      r
  }

  lemma {:induction false} ReplaceCharAppend(a: string, b: string, c: char, rep: string)
    ensures ReplaceChar(a + b, c, rep) == ReplaceChar(a, c, rep) + ReplaceChar(b, c, rep)
  {
    if a == [] {
      assert a + b == b;
    } else {
      assert (a + b)[0] == a[0];
      assert (a + b)[1..] == a[1..] + b;
      ReplaceCharAppend(a[1..], b, c, rep);
    }
  }

  /** The two passes of Escape act character by character: the first pass adds no quote for the second to see. */
  lemma {:induction false} EscapeCons(x: char, s: string)
    ensures Escape([x] + s) == EscapeChar(x) + Escape(s)
  {
    var first := ReplaceChar([x] + s, '\\', "\\\\");
    assert ([x] + s)[1..] == s;
    assert first == (if x == '\\' then "\\\\" else [x]) + ReplaceChar(s, '\\', "\\\\");
    ReplaceCharAppend(if x == '\\' then "\\\\" else [x], ReplaceChar(s, '\\', "\\\\"), '\'', "\\'");
    if x == '\\' {
      assert ReplaceChar("\\\\", '\'', "\\'") == "\\\\";
    } else if x == '\'' {
      assert ReplaceChar([x], '\'', "\\'") == "\\'" + ReplaceChar([], '\'', "\\'");
    } else {
      assert ReplaceChar([x], '\'', "\\'") == [x] + ReplaceChar([], '\'', "\\'");
    }
  }

  /** Reading one escaped character back gives the character itself. */
  lemma EscapeCharReadBack(x: char, after: string)
    ensures SqlReader.ParseQuotedBody(EscapeChar(x) + after) ==
      match SqlReader.ParseQuotedBody(after)
      case None => None
      case Some((v, rest)) => Some(([x] + v, rest))
  {
    var s := EscapeChar(x) + after;
    if x == '\\' || x == '\'' {
      assert s[0] == '\\' && s[1] == x && s[2..] == after;
      assert SqlReader.UnescapeChar(x) == [x];
    } else {
      assert s[0] == x && s[1..] == after;
    }
  }

  /**
   * Escaped text read back as a MySQL literal body gives the original value
   * and stops exactly at the closing quote the writer adds.
   */
  lemma {:induction false} EscapeRoundTrip(v: string, rest: string)
    requires rest == [] || rest[0] != '\''
    ensures SqlReader.ParseQuotedBody(Escape(v) + "'" + rest) == Some((v, rest))
  {
    if v == [] {
      assert Escape(v) + "'" + rest == "'" + rest;
      assert ("'" + rest)[1..] == rest;
    } else {
      var x, tail := v[0], v[1..];
      assert v == [x] + tail;
      EscapeCons(x, tail);
      EscapeRoundTrip(tail, rest);
      var after := Escape(tail) + "'" + rest;
      ConcatAssoc(EscapeChar(x), Escape(tail), "'");
      ConcatAssoc(EscapeChar(x), Escape(tail) + "'", rest);
      EscapeCharReadBack(x, after);
    }
  }

  /** A serialized column reads back as the same column, NULL included. */
  lemma SerializeValueRoundTrip(v: Option<string>, rest: string)
    requires rest == [] || rest[0] != '\''
    ensures SqlReader.ParseValue(SerializeValue(v) + rest) == Some((v, rest))
  {
    if v.None? {
      var s := "NULL" + rest;
      assert s[..4] == "NULL" && s[4..] == rest;
    } else {
      var x := v.value;
      var s := "'" + Escape(x) + "'" + rest;
      assert s[1..] == Escape(x) + "'" + rest;
      EscapeRoundTrip(x, rest);
      assert s[0] == '\'';
      assert !(|s| >= 4 && s[..4] == "NULL") by {
        if |s| >= 4 { assert s[..4][0] != "NULL"[0]; }
      }
    }
  }

  /**
   * Text in which every backslash starts a two-character escape and every
   * single quote is escaped: nothing in it can end a quoted literal.
   */
  predicate WellEscaped(s: string)
    decreases |s|
  {
    if s == [] then true
    else if s[0] == '\\' then |s| >= 2 && WellEscaped(s[2..])
    else s[0] != '\'' && WellEscaped(s[1..])
  }

  /** The escaped body of a value never holds an unescaped quote or a dangling backslash. */
  lemma {:induction false} EscapeWellEscaped(v: string)
    ensures WellEscaped(Escape(v))
  {
    if v != [] {
      assert v == [v[0]] + v[1..];
      EscapeCons(v[0], v[1..]);
      EscapeWellEscaped(v[1..]);
      var e := Escape(v);
      if v[0] == '\\' || v[0] == '\'' {
        assert e[2..] == Escape(v[1..]);
      } else {
        assert e[1..] == Escape(v[1..]);
      }
    }
  }

  /** The two replacements in the opposite order: quotes first, then backslashes. */
  function QuotesFirstEscape(s: string): string
  {
    ReplaceChar(ReplaceChar(s, '\'', "\\'"), '\\', "\\\\")
  }

  /**
   * Why the order of the two replacements matters: done quotes-first, a lone
   * quote is written as two backslashes and a quote; a reader takes that for
   * a backslash followed by a doubled quote, so the literal never closes.
   */
  lemma QuotesFirstBreaksRoundTrip()
    ensures QuotesFirstEscape("'") == "\\\\'"
    ensures SqlReader.ParseQuotedBody(QuotesFirstEscape("'") + "'") == None
    ensures Escape("'") == "\\'"
  {
    assert ReplaceChar("'", '\'', "\\'") == "\\'" + ReplaceChar([], '\'', "\\'");
    assert ReplaceChar("\\'", '\\', "\\\\") == "\\\\" + ReplaceChar("'", '\\', "\\\\");
    var s := "\\\\''";
    assert s[2..] == "''";
    assert "''"[2..] == [];
    assert ReplaceChar("'", '\\', "\\\\") == "'" + ReplaceChar([], '\\', "\\\\");
  }
}
