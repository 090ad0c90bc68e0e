/**
 * The CSV serialiser behind every `--csv` listing. A nil cell is written as
 * nothing at all, a string cell is written raw unless it is empty or holds a
 * comma, a double quote, a carriage return or a line feed, in which case it is
 * wrapped in double quotes with each inner quote doubled. `ParseRow` is the
 * matching reader; the round trip `ParseRow(EncodeRow(cells)) == Some(cells)`
 * shows the encoding loses nothing, and in particular keeps nil apart from "".
 */
module Csv {
  import opened Wrappers
  import opened Text

  /** One cell of a CSV row: absent (nil) or a string. */
  datatype Cell = Nil | Str(s: string)

  predicate Quotable(c: char) {
    c == ',' || c == '"' || c == '\r' || c == '\n'
  }

  /** A string must be quoted when it is empty or holds a separator, a quote or a line break. */
  predicate NeedsQuotes(s: string) {
    s == [] || exists i :: 0 <= i < |s| && Quotable(s[i])
  }

  /** Each double quote written twice, every other character kept. */
  function DoubleQuotes(s: string): string
  {
    if s == [] then []
    else (if s[0] == '"' then "\"\"" else [s[0]]) + DoubleQuotes(s[1..])
  }

  /** The text of one cell. */
  function EncodeCell(c: Cell): (r: string)
    ensures c.Nil? ==> r == []
    ensures c.Str? ==> (|r| > 0 && r[0] == '"' <==> NeedsQuotes(c.s))
    ensures c.Str? && !NeedsQuotes(c.s) ==> r == c.s
  {
    match c
    case Nil => []
    case Str(s) => if NeedsQuotes(s) then "\"" + DoubleQuotes(s) + "\"" else s
  }

  function Fields(cells: seq<Cell>): (r: seq<string>)
    ensures |r| == |cells|
  {
    if cells == [] then [] else [EncodeCell(cells[0])] + Fields(cells[1..])
  }

  /** One row: the cells' texts joined by commas. */
  function EncodeRow(cells: seq<Cell>): string
  {
    Join(Fields(cells), ',')
  }

  // --------------------------------------------------------------- reader

  /** Reads an unquoted cell: everything up to the next comma. */
  function ScanUnquoted(s: string): (r: (string, string))
    ensures r.0 + r.1 == s
    ensures ',' !in r.0
    ensures r.1 == [] || r.1[0] == ','
  {
    if s == [] || s[0] == ',' then ([], s)
    else
      var (t, rest) := ScanUnquoted(s[1..]);
      ([s[0]] + t, rest)
  }

  /**
   * Reads the inside of a quoted cell, starting just after its opening
   * quote: a doubled quote stands for one quote, a single quote closes the
   * cell. None when the closing quote is missing.
   */
  function ScanQuoted(s: string): (r: Option<(string, string)>)
    ensures r.Some? ==> |r.value.1| < |s|
  {
    if s == [] then None
    else if s[0] == '"' then
      if |s| >= 2 && s[1] == '"' then
        match ScanQuoted(s[2..])
        case None => None
        case Some((t, rest)) => Some(("\"" + t, rest))
      else Some(([], s[1..]))
    else
      match ScanQuoted(s[1..])
      case None => None
      case Some((t, rest)) => Some(([s[0]] + t, rest))
  }

  /** Reads one cell and returns what follows it; a stray quote or line break in an unquoted cell is refused. */
  function ParseField(s: string): (r: Option<(Cell, string)>)
    ensures r.Some? ==> |r.value.1| <= |s|
  {
    if s != [] && s[0] == '"' then
      match ScanQuoted(s[1..])
      case None => None
      case Some((t, rest)) => Some((Str(t), rest))
    else
      var (t, rest) := ScanUnquoted(s);
      if exists i :: 0 <= i < |t| && Quotable(t[i]) then None
      else Some((if t == [] then Nil else Str(t), rest))
  }

  /** Reads a whole row; each cell must be followed by a comma or the end of the text. */
  function ParseRow(s: string): Option<seq<Cell>>
    decreases |s|
  {
    match ParseField(s)
    case None => None
    case Some((c, rest)) =>
      if rest == [] then Some([c])
      else if rest[0] != ',' then None
      else
        match ParseRow(rest[1..])
        case None => None
        case Some(cs) => Some([c] + cs)
  }

  // --------------------------------------------------------------- round trip

  lemma {:induction false} ScanUnquotedPlain(t: string, rest: string)
    requires ',' !in t
    requires rest == [] || rest[0] == ','
    ensures ScanUnquoted(t + rest) == (t, rest)
  {
    if t == [] {
      assert t + rest == rest;
    } else {
      assert (t + rest)[0] == t[0] && t[0] != ',';
      assert (t + rest)[1..] == t[1..] + rest;
      ScanUnquotedPlain(t[1..], rest);
      assert [t[0]] + t[1..] == t;
    }
  }

  lemma {:induction false} ScanQuotedEscaped(t: string, rest: string)
    requires rest == [] || rest[0] != '"'
    ensures ScanQuoted(DoubleQuotes(t) + "\"" + rest) == Some((t, rest))
  {
    var s := DoubleQuotes(t) + "\"" + rest;
    if t == [] {
      assert s == "\"" + rest;
      assert s[1..] == rest;
    } else if t[0] == '"' {
      assert s == "\"\"" + (DoubleQuotes(t[1..]) + "\"" + rest);
      assert s[2..] == DoubleQuotes(t[1..]) + "\"" + rest;
      ScanQuotedEscaped(t[1..], rest);
      assert "\"" + t[1..] == t;
    } else {
      assert s == [t[0]] + (DoubleQuotes(t[1..]) + "\"" + rest);
      assert s[1..] == DoubleQuotes(t[1..]) + "\"" + rest;
      ScanQuotedEscaped(t[1..], rest);
      assert [t[0]] + t[1..] == t;
    }
  }

  /** A cell's text, followed by a comma or nothing, reads back as that cell. */
  lemma ParseFieldEncoded(c: Cell, rest: string)
    requires rest == [] || rest[0] == ','
    ensures ParseField(EncodeCell(c) + rest) == Some((c, rest))
  {
    match c
    case Nil =>
      assert EncodeCell(c) + rest == rest;
    case Str(t) =>
      if NeedsQuotes(t) {
        var s := EncodeCell(c) + rest;
        assert s[1..] == DoubleQuotes(t) + "\"" + rest;
        ScanQuotedEscaped(t, rest);
      } else {
        ScanUnquotedPlain(t, rest);
      }
  }

  /** Writing a non-empty row and reading it back gives the same cells. */
  lemma {:induction false} RowRoundTrip(cells: seq<Cell>)
    requires |cells| >= 1
    ensures ParseRow(EncodeRow(cells)) == Some(cells)
  {
    var fs := Fields(cells);
    if |cells| == 1 {
      var e := EncodeCell(cells[0]);
      assert fs == [e];
      assert EncodeRow(cells) == e;
      assert e + [] == e;
      ParseFieldEncoded(cells[0], []);
      assert ParseField(e) == Some((cells[0], []));
      assert [cells[0]] == cells;
    } else {
      assert fs[1..] == Fields(cells[1..]);
      var tail := EncodeRow(cells[1..]);
      assert EncodeRow(cells) == EncodeCell(cells[0]) + ([','] + tail);
      ParseFieldEncoded(cells[0], [','] + tail);
      assert ([','] + tail)[1..] == tail;
      RowRoundTrip(cells[1..]);
      assert [cells[0]] + cells[1..] == cells;
    }
  }

  /** A nil cell and an empty-string cell are written differently. */
  lemma NilIsNotEmptyString()
    ensures EncodeCell(Nil) == ""
    ensures EncodeCell(Str("")) == "\"\""
  {
  }

  /** A cell with an apostrophe and a colon is written raw. */
  lemma PlainCell()
    ensures EncodeCell(Str("I'm: ok")) == "I'm: ok"
  {
    assert !NeedsQuotes("I'm: ok") by {
      forall i | 0 <= i < 7 ensures !Quotable("I'm: ok"[i]) { }
    }
  }

  lemma {:induction false} DoubleQuotesAppend(a: string, b: string)
    ensures DoubleQuotes(a + b) == DoubleQuotes(a) + DoubleQuotes(b)
    decreases |a|
  {
    if a == [] {
      assert a + b == b;
    } else {
      assert (a + b)[1..] == a[1..] + b;
      DoubleQuotesAppend(a[1..], b);
    }
  }

  lemma {:induction false} NoQuotesKept(s: string)
    requires '"' !in s
    ensures DoubleQuotes(s) == s
    decreases |s|
  {
    if s != [] {
      NoQuotesKept(s[1..]);
    }
  }

  /** Text holding a comma and no quote is wrapped in quotes and otherwise kept. */
  lemma CommaCell(a: string, b: string)
    requires '"' !in a && '"' !in b
    ensures EncodeCell(Str(a + "," + b)) == "\"" + (a + "," + b) + "\""
  {
    var s := a + "," + b;
    assert NeedsQuotes(s) by { assert s[|a|] == ','; }
    assert DoubleQuotes(s) == s by { NoQuotesKept(s); }
  }

  /** A quote inside a cell is doubled and the cell quoted. */
  lemma QuoteCell(a: string, b: string)
    requires '"' !in a && '"' !in b
    ensures EncodeCell(Str(a + "\"" + b)) == "\"" + (a + "\"\"" + b) + "\""
  {
    var s := a + "\"" + b;
    assert NeedsQuotes(s) by { assert s[|a|] == '"'; }
    DoubledQuote(a, b);
  }

  lemma DoubledQuote(a: string, b: string)
    requires '"' !in a && '"' !in b
    ensures DoubleQuotes(a + "\"" + b) == a + "\"\"" + b
  {
    var r := "\"" + b;
    assert a + "\"" + b == a + r;
    DoubleQuotesAppend(a, r);
    NoQuotesKept(a);
    QuoteFirst(b);
  }

  lemma QuoteFirst(b: string)
    requires '"' !in b
    ensures DoubleQuotes("\"" + b) == "\"\"" + b
  {
    assert ("\"" + b)[1..] == b;
    NoQuotesKept(b);
  }

  /** A row of two or more cells is its first cell, a comma and the rest of the row. */
  lemma EncodeRowCons(c: Cell, cs: seq<Cell>)
    requires |cs| >= 1
    ensures EncodeRow([c] + cs) == EncodeCell(c) + "," + EncodeRow(cs)
  {
    assert ([c] + cs)[1..] == cs;
  }

  predicate Raw(s: string) {
    s != [] && forall i :: 0 <= i < |s| ==> !Quotable(s[i])
  }

  /**
   * A trend location with no parent and an empty country name, as the
   * Worldwide entry is: the parent column stays empty and the country is
   * written as two quotes.
   */
  lemma RootLocationRow(woeid: string, kind: string, name: string)
    requires Raw(woeid) && Raw(kind) && Raw(name)
    ensures EncodeRow([Str(woeid), Nil, Str(kind), Str(name), Str("")])
         == woeid + ",," + kind + "," + name + ",\"\""
  {
    var tail := [Str(kind), Str(name), Str("")];
    NamedCountryless(kind, name);
    assert EncodeRow([Nil] + tail) == "," + kind + "," + name + ",\"\"" by { EncodeRowCons(Nil, tail); }
    assert EncodeRow([Str(woeid), Nil] + tail) == woeid + ",," + kind + "," + name + ",\"\"" by {
      assert [Str(woeid), Nil] + tail == [Str(woeid)] + ([Nil] + tail);
      EncodeRowCons(Str(woeid), [Nil] + tail);
    }
    assert [Str(woeid), Nil] + tail == [Str(woeid), Nil, Str(kind), Str(name), Str("")];
  }

  lemma NamedCountryless(kind: string, name: string)
    requires Raw(kind) && Raw(name)
    ensures EncodeRow([Str(kind), Str(name), Str("")]) == kind + "," + name + ",\"\""
  {
    var last := [Str("")];
    assert EncodeRow(last) == "\"\"" by {
      assert Fields(last) == [EncodeCell(Str(""))];
    }
    assert EncodeRow([Str(name)] + last) == name + ",\"\"" by { EncodeRowCons(Str(name), last); }
    assert EncodeRow([Str(kind)] + ([Str(name)] + last)) == kind + "," + name + ",\"\"" by {
      EncodeRowCons(Str(kind), [Str(name)] + last);
    }
    assert [Str(kind)] + ([Str(name)] + last) == [Str(kind), Str(name), Str("")];
  }
}
