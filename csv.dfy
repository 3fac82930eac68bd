/**
  `convertNodesToCSV`: the node list as comma-separated text, a header line and one row
  per node, rows separated by a line feed and no line feed after the last one. A url
  holding a comma or a double quote is quoted as in section 2 of RFC 4180 (wrapped in
  double quotes, inner double quotes doubled); line breaks inside a url are not quoted.
  The module also holds a reader for this format, so that the round trip can be stated.
 */
module Csv {
  import opened Wrappers
  import opened Graph

  /** The header line, with its line feed. */
  const CsvHeader: string := "id,url,parentId\n"

  /** The header line without its line feed. */
  const HeaderLine: string := "id,url,parentId"

  /** The character of a decimal digit. */
  function Digit(d: nat): char
    requires d < 10
  {
    ('0' as int + d) as char
  }

  /** The value of a decimal digit character (0 for any other character). */
  function DigitValue(c: char): nat {
    if '0' <= c <= '9' then c as int - '0' as int else 0
  }

  /** A non-empty string of decimal digits. */
  predicate IsNumeral(s: string) {
    s != [] && forall i :: 0 <= i < |s| ==> '0' <= s[i] <= '9'
  }

  /** How JavaScript prints a non-negative integer: its decimal digits. */
  function NatToString(n: nat): (r: string)
    ensures IsNumeral(r)
  {
    if n < 10 then [Digit(n)] else NatToString(n / 10) + [Digit(n % 10)]
  }

  /** The number a string of decimal digits denotes. */
  function ParseNat(s: string): nat
    decreases |s|
  {
    if s == [] then 0 else ParseNat(s[..|s| - 1]) * 10 + DigitValue(s[|s| - 1])
  }

  /** Printing and reading back a number gives the number. */
  lemma {:induction false} ParseNatToString(n: nat)
    ensures ParseNat(NatToString(n)) == n
  {
    if n >= 10 {
      ParseNatToString(n / 10);
      var s := NatToString(n);
      assert s[..|s| - 1] == NatToString(n / 10);
    }
  }

  /** The url with every double quote doubled. */
  function DoubleQuotes(u: string): string {
    if u == [] then [] else (if u[0] == '"' then "\"\"" else [u[0]]) + DoubleQuotes(u[1..])
  }

  /** A url that has to be quoted: it holds a comma or a double quote. */
  predicate NeedsQuotes(u: string) {
    ',' in u || '"' in u
  }

  /** The url as it is written into its row. */
  function EscapeField(u: string): string {
    if NeedsQuotes(u) then "\"" + DoubleQuotes(u) + "\"" else u
  }

  /** The parent column: empty for a root. */
  function ParentField(p: Option<nat>): string {
    match p
    case None => ""
    case Some(id) => NatToString(id)
  }

  /** One data row. */
  function Row(n: Node): string {
    NatToString(n.id) + "," + EscapeField(n.url) + "," + ParentField(n.parentId)
  }

  /** The rows of a list, in order. */
  function Rows(nodes: seq<Node>): (r: seq<string>)
    ensures |r| == |nodes|
  {
    seq(|nodes|, i requires 0 <= i < |nodes| => Row(nodes[i]))
  }

  /** Lines joined with a line feed between each two. */
  function JoinLines(lines: seq<string>): string {
    if lines == [] then "" else if |lines| == 1 then lines[0] else lines[0] + "\n" + JoinLines(lines[1..])
  }

  /** `convertNodesToCSV`: the header, then the rows joined by line feeds. */
  function ConvertNodesToCsv(nodes: seq<Node>): string {
    if |nodes| == 0 then CsvHeader else CsvHeader + JoinLines(Rows(nodes))
  }

  // ----- Reading the format back -----

  /** The text cut at every line feed. */
  function SplitLines(s: string): (r: seq<string>)
    ensures |r| >= 1
  {
    if s == [] then [""]
    else if s[0] == '\n' then [""] + SplitLines(s[1..])
    else
      var t := SplitLines(s[1..]);
      [[s[0]] + t[0]] + t[1..]
  }

  /** The text of a quoted field after its opening quote: the value, and what follows the closing quote. */
  function ParseQuoted(s: string): (r: (string, string))
    ensures |r.1| <= |s|
    decreases |s|
  {
    if s == [] then ([], [])
    else if s[0] == '"' then
      if |s| >= 2 && s[1] == '"' then var t := ParseQuoted(s[2..]); (['"'] + t.0, t.1)
      else ([], s[1..])
    else var t := ParseQuoted(s[1..]); ([s[0]] + t.0, t.1)
  }

  /** An unquoted field: everything up to the next comma, and the rest from that comma on. */
  function ParseUnquoted(s: string): (r: (string, string))
    ensures |r.1| <= |s|
  {
    if s == [] || s[0] == ',' then ([], s)
    else var t := ParseUnquoted(s[1..]); ([s[0]] + t.0, t.1)
  }

  /** One field, quoted or not: its value and the rest of the line. */
  function ParseField(s: string): (r: (string, string))
    ensures |r.1| <= |s|
  {
    if s != [] && s[0] == '"' then ParseQuoted(s[1..]) else ParseUnquoted(s)
  }

  /** The values of the fields of one line. */
  function ParseFields(s: string): seq<string>
    decreases |s|
  {
    var (f, rest) := ParseField(s);
    if rest != [] && rest[0] == ',' then [f] + ParseFields(rest[1..]) else [f]
  }

  /** A data row read back into a node. */
  function DecodeRow(line: string): Option<Node> {
    var fields := ParseFields(line);
    if |fields| != 3 then None
    else Some(Node(ParseNat(fields[0]), fields[1], if fields[2] == "" then None else Some(ParseNat(fields[2]))))
  }

  /** Data rows read back into nodes, or `None` when one of them is malformed. */
  function DecodeRows(lines: seq<string>): Option<seq<Node>> {
    if lines == [] then Some([])
    else match (DecodeRow(lines[0]), DecodeRows(lines[1..]))
      case (Some(n), Some(ns)) => Some([n] + ns)
      case _ => None
  }

  /** A whole file read back: the header line, then the data rows; a final empty line is ignored. */
  function DecodeCsv(text: string): Option<seq<Node>> {
    var lines := SplitLines(text);
    if lines[0] != HeaderLine then None
    else
      var data := if lines[|lines| - 1] == "" then lines[1..|lines| - 1] else lines[1..];
      DecodeRows(data)
  }

  // ----- The round trip -----

  /** A text without line feeds is one line. */
  lemma {:induction false} SplitLinesSingle(a: string)
    requires '\n' !in a
    ensures SplitLines(a) == [a]
  {
    if a != [] {
      SplitLinesSingle(a[1..]);
      assert [a[0]] + a[1..] == a;
    }
  }

  /** A line feed after a text without line feeds ends the first line there. */
  lemma {:induction false} SplitLinesCons(a: string, b: string)
    requires '\n' !in a
    ensures SplitLines(a + "\n" + b) == [a] + SplitLines(b)
  {
    if a == [] {
      assert a + "\n" + b == "\n" + b;
      assert ("\n" + b)[1..] == b;
    } else {
      SplitLinesCons(a[1..], b);
      assert (a + "\n" + b)[1..] == a[1..] + "\n" + b;
      assert [a[0]] + a[1..] == a;
    }
  }

  /** Cutting joined lines, none holding a line feed, gives the lines back. */
  lemma {:induction false} SplitJoinLines(lines: seq<string>)
    requires |lines| >= 1
    requires forall i :: 0 <= i < |lines| ==> '\n' !in lines[i]
    ensures SplitLines(JoinLines(lines)) == lines
  {
    if |lines| == 1 {
      SplitLinesSingle(lines[0]);
    } else {
      SplitJoinLines(lines[1..]);
      SplitLinesCons(lines[0], JoinLines(lines[1..]));
      assert lines == [lines[0]] + lines[1..];
    }
  }

  /** The doubled url and a closing quote read back as the url, when no quote follows. */
  lemma {:induction false} ParseQuotedDoubled(u: string, rest: string)
    requires rest == [] || rest[0] != '"'
    ensures ParseQuoted(DoubleQuotes(u) + "\"" + rest) == (u, rest)
  {
    var s := DoubleQuotes(u) + "\"" + rest;
    if u == [] {
      assert s == "\"" + rest;
      assert s[1..] == rest;
    } else {
      ParseQuotedDoubled(u[1..], rest);
      var tail := DoubleQuotes(u[1..]) + "\"" + rest;
      if u[0] == '"' {
        assert s == "\"\"" + tail;
        assert s[2..] == tail;
      } else {
        assert s == [u[0]] + tail;
        assert s[1..] == tail;
      }
      assert [u[0]] + u[1..] == u;
    }
  }

  /** A text without commas, followed by nothing or a comma, reads back as one unquoted field. */
  lemma {:induction false} ParseUnquotedPlain(u: string, rest: string)
    requires ',' !in u
    requires rest == [] || rest[0] == ','
    ensures ParseUnquoted(u + rest) == (u, rest)
  {
    if u == [] {
      assert u + rest == rest;
    } else {
      ParseUnquotedPlain(u[1..], rest);
      assert (u + rest)[1..] == u[1..] + rest;
      assert [u[0]] + u[1..] == u;
    }
  }

  /** A string of digits (possibly empty) reads back as itself. */
  lemma DigitsParse(a: string, rest: string)
    requires forall i :: 0 <= i < |a| ==> '0' <= a[i] <= '9'
    requires rest == [] || rest[0] == ','
    ensures ParseField(a + rest) == (a, rest)
  {
    assert ',' !in a;
    ParseUnquotedPlain(a, rest);
  }

  /** An escaped url reads back as the url, whatever it holds. */
  lemma EscapeFieldParses(u: string, rest: string)
    requires rest == [] || rest[0] == ','
    ensures ParseField(EscapeField(u) + rest) == (u, rest)
  {
    if NeedsQuotes(u) {
      var s := EscapeField(u) + rest;
      assert s == "\"" + (DoubleQuotes(u) + "\"" + rest);
      assert s[1..] == DoubleQuotes(u) + "\"" + rest;
      ParseQuotedDoubled(u, rest);
    } else {
      ParseUnquotedPlain(u, rest);
      if u != [] {
        assert u[0] in u;
      }
    }
  }

  /** The parent column is empty or a numeral. */
  lemma ParentFieldDigits(p: Option<nat>)
    ensures forall i :: 0 <= i < |ParentField(p)| ==> '0' <= ParentField(p)[i] <= '9'
    ensures ParentField(p) == [] <==> p.None?
  {
  }

  /** A field followed by a comma: the line's fields are that field and those after the comma. */
  lemma ParseFieldsComma(s: string, f: string, rest: string)
    requires ParseField(s) == (f, "," + rest)
    ensures ParseFields(s) == [f] + ParseFields(rest)
  {
    assert ("," + rest)[1..] == rest;
  }

  /** A field that ends the line: it is the line's only field. */
  lemma ParseFieldsEnd(s: string, f: string)
    requires ParseField(s) == (f, [])
    ensures ParseFields(s) == [f]
  {
  }

  /** A row splits into its three columns: the id, the url and the parent column. */
  lemma RowFields(n: Node)
    ensures ParseFields(Row(n)) == [NatToString(n.id), n.url, ParentField(n.parentId)]
  {
    var a, e, p := NatToString(n.id), EscapeField(n.url), ParentField(n.parentId);
    var r1 := e + ("," + p);
    assert Row(n) == a + ("," + r1);
    DigitsParse(a, "," + r1);
    ParseFieldsComma(Row(n), a, r1);
    EscapeFieldParses(n.url, "," + p);
    ParseFieldsComma(r1, n.url, p);
    ParentFieldDigits(n.parentId);
    DigitsParse(p, []);
    assert p + [] == p;
    ParseFieldsEnd(p, p);
  }

  /** A row reads back as the node it was written from. */
  lemma RowDecodes(n: Node)
    ensures DecodeRow(Row(n)) == Some(n)
  {
    RowFields(n);
    ParseNatToString(n.id);
    ParentFieldDigits(n.parentId);
    if n.parentId.Some? {
      ParseNatToString(n.parentId.value);
    }
  }

  /** The rows of a list read back as the list. */
  lemma {:induction false} RowsDecode(nodes: seq<Node>)
    ensures DecodeRows(Rows(nodes)) == Some(nodes)
  {
    if nodes != [] {
      RowsDecode(nodes[1..]);
      RowDecodes(nodes[0]);
      assert Rows(nodes)[1..] == Rows(nodes[1..]);
      assert [nodes[0]] + nodes[1..] == nodes;
    }
  }

  /** Doubling quotes adds no line feed. */
  lemma {:induction false} DoubleQuotesNoLineFeed(u: string)
    requires '\n' !in u
    ensures '\n' !in DoubleQuotes(u)
  {
    if u != [] {
      assert u[1..] == u[1..];
      assert forall c :: c in u[1..] ==> c in u;
      DoubleQuotesNoLineFeed(u[1..]);
    }
  }

  /** A row holds a line feed only when its url does. */
  lemma RowNoLineFeed(n: Node)
    requires '\n' !in n.url
    ensures '\n' !in Row(n)
  {
    DoubleQuotesNoLineFeed(n.url);
    ParentFieldDigits(n.parentId);
    assert '\n' !in NatToString(n.id);
    assert '\n' !in ParentField(n.parentId);
  }

  /** After the header line, lines of which the last is not empty are all data rows. */
  lemma DecodeAfterHeader(body: string, rows: seq<string>)
    requires SplitLines(body) == rows && rows[|rows| - 1] != ""
    ensures DecodeCsv(HeaderLine + "\n" + body) == DecodeRows(rows)
  {
    assert '\n' !in HeaderLine;
    SplitLinesCons(HeaderLine, body);
    assert ([HeaderLine] + rows)[1..] == rows;
  }

  /** The header alone reads back as the empty list. */
  lemma DecodeHeaderOnly()
    ensures DecodeCsv(CsvHeader) == Some([])
  {
    assert '\n' !in HeaderLine;
    assert CsvHeader == HeaderLine + "\n" + "";
    SplitLinesCons(HeaderLine, "");
  }

  /**
    The text written for a list reads back as the list, provided that no url holds a
    line feed (the header and every row are one line each).
   */
  lemma DecodeConvert(nodes: seq<Node>)
    requires forall i :: 0 <= i < |nodes| ==> '\n' !in nodes[i].url
    ensures DecodeCsv(ConvertNodesToCsv(nodes)) == Some(nodes)
  {
    if |nodes| == 0 {
      DecodeHeaderOnly();
    } else {
      var rows := Rows(nodes);
      forall i | 0 <= i < |rows|
        ensures '\n' !in rows[i]
      {
        RowNoLineFeed(nodes[i]);
      }
      SplitJoinLines(rows);
      assert ConvertNodesToCsv(nodes) == HeaderLine + "\n" + JoinLines(rows);
      DecodeAfterHeader(JoinLines(rows), rows);
      RowsDecode(nodes);
    }
  }

  /** Joined lines end with the last line. */
  lemma {:induction false} JoinLinesEndsWithLast(lines: seq<string>)
    requires |lines| >= 1
    ensures var j, last := JoinLines(lines), lines[|lines| - 1];
      |last| <= |j| && j[|j| - |last|..] == last
  {
    if |lines| > 1 {
      JoinLinesEndsWithLast(lines[1..]);
      var j, t := JoinLines(lines), JoinLines(lines[1..]);
      assert j == lines[0] + "\n" + t;
      assert j[|j| - |t|..] == t;
    }
  }

  /** A row ends with its parent column: a digit, or the comma before an empty one. */
  lemma RowEnd(n: Node)
    ensures var r := Row(n);
      |r| > 0 && (r[|r| - 1] == ',' || '0' <= r[|r| - 1] <= '9')
  {
    ParentFieldDigits(n.parentId);
    var p := ParentField(n.parentId);
    var r := Row(n);
    if p != [] {
      assert r[|r| - 1] == p[|p| - 1];
    }
  }

  /** A text that ends with `t` still ends with `t` after something is put in front of it. */
  lemma EndsWithAfter(a: string, b: string, t: string)
    requires |t| <= |b| && b[|b| - |t|..] == t
    ensures |t| <= |a + b| && (a + b)[|a + b| - |t|..] == t
  {
    assert (a + b)[|a + b| - |t|..] == b[|b| - |t|..];
  }

  /**
    The text ends with the last node's row, with no line feed after it: only an empty
    list leaves the header's line feed last.
   */
  lemma ConvertEndsWithLastRow(nodes: seq<Node>)
    ensures var s := ConvertNodesToCsv(nodes);
      |nodes| == 0 ==> s == CsvHeader
    ensures var s := ConvertNodesToCsv(nodes);
      |nodes| > 0 ==>
        var last := Row(nodes[|nodes| - 1]);
        |last| <= |s| && s[|s| - |last|..] == last && s[|s| - 1] != '\n'
  {
    if |nodes| > 0 {
      var rows := Rows(nodes);
      var last := Row(nodes[|nodes| - 1]);
      assert rows[|rows| - 1] == last;
      JoinLinesEndsWithLast(rows);
      EndsWithAfter(CsvHeader, JoinLines(rows), last);
      RowEnd(nodes[|nodes| - 1]);
      var s := CsvHeader + JoinLines(rows);
      assert s[|s| - 1] == s[|s| - |last|..][|last| - 1];
    }
  }

  /** A line with two fields is not a data row. */
  lemma TwoFieldLineRejected()
    ensures DecodeRow("1,a") == None
  {
    DigitsParse("1", ",a");
    assert "1,a" == "1" + ",a" && ",a" == "," + "a";
    ParseFieldsComma("1,a", "1", "a");
    ParseUnquotedPlain("a", []);
    assert "a" + [] == "a";
    assert ParseField("a") == ("a", []);
    ParseFieldsEnd("a", "a");
  }

  /**
    A line feed inside a url is written unquoted and splits its row: the one-node list
    with url "a\nb" reads back as no list at all.
   */
  lemma LineFeedBreaksRow()
    ensures ConvertNodesToCsv([Node(1, "a\nb", None)]) == HeaderLine + "\n" + "1,a\nb,"
    ensures DecodeCsv(ConvertNodesToCsv([Node(1, "a\nb", None)])) == None
  {
    var n := Node(1, "a\nb", None);
    var body := "1,a" + "\n" + "b,";
    assert Row(n) == body by {
      assert NatToString(1) == "1";
      assert !NeedsQuotes("a\nb");
    }
    assert Rows([n]) == [Row(n)];
    assert ConvertNodesToCsv([n]) == HeaderLine + "\n" + body;
    SplitLinesCons("1,a", "b,");
    SplitLinesSingle("b,");
    DecodeAfterHeader(body, ["1,a", "b,"]);
    TwoFieldLineRejected();
  }
}
