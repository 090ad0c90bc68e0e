/**
 * The three plain-text layouts of the listings.
 *
 * Long mode and the key/value views print a table: every column but the
 * last is left-justified to the width of its widest cell (header included)
 * plus a two-space gutter, and the last column is written as it is.
 * Short mode prints the items side by side, each padded to the longest item
 * plus two, and the caller strips the trailing blanks. Tweets and direct
 * messages print one line each: the screen name right-justified in twenty
 * positions, a colon, the text and the age in parentheses.
 */
module Table {
  import opened Wrappers
  import opened Text

  // ------------------------------------------------------------ maxima

  /** The largest of a list of numbers, 0 for none. */
  function MaxOf(xs: seq<nat>): (m: nat)
    ensures forall i :: 0 <= i < |xs| ==> xs[i] <= m
    ensures xs == [] ==> m == 0
    ensures xs != [] ==> exists i :: 0 <= i < |xs| && xs[i] == m
  {
    if xs == [] then 0
    else
      var t := MaxOf(xs[1..]);
      if xs[0] >= t then xs[0]
      else
        assert exists i :: 0 <= i < |xs[1..]| && xs[1..][i] == t;
        var i :| 0 <= i < |xs[1..]| && xs[1..][i] == t;
        assert xs[i + 1] == t;
        t
  }

  function Lengths(xs: seq<string>): (r: seq<nat>)
    ensures |r| == |xs| && forall i :: 0 <= i < |xs| ==> r[i] == |xs[i]|
  {
    seq(|xs|, i requires 0 <= i < |xs| => |xs[i]|)
  }

  /** The longest length among some strings. */
  function MaxLen(xs: seq<string>): nat
  {
    MaxOf(Lengths(xs))
  }

  // ------------------------------------------------------------ long mode

  /** Number of columns: the length of the longest row. */
  function Arity(rows: seq<seq<string>>): nat
  {
    MaxOf(seq(|rows|, i requires 0 <= i < |rows| => |rows[i]|))
  }

  /** Column `j`, a short row contributing an empty cell. */
  function Column(rows: seq<seq<string>>, j: nat): (c: seq<string>)
    ensures |c| == |rows|
  {
    seq(|rows|, i requires 0 <= i < |rows| => if j < |rows[i]| then rows[i][j] else "")
  }

  /** The width of every column: its widest cell. */
  function Widths(rows: seq<seq<string>>): (w: seq<nat>)
    ensures |w| == Arity(rows)
  {
    seq(Arity(rows), j requires 0 <= j < Arity(rows) => MaxLen(Column(rows, j)))
  }

  /** One table line: every cell but the last padded to its column's width plus two. */
  function Line(cells: seq<string>, widths: seq<nat>): string
    requires |cells| <= |widths|
  {
    if |cells| == 0 then ""
    else if |cells| == 1 then cells[0]
    else LJust(cells[0], widths[0] + 2) + Line(cells[1..], widths[1..])
  }

  /** Where column `j` starts: the widths of the columns before it, each plus two. */
  function Offset(widths: seq<nat>, j: nat): nat
    requires j <= |widths|
  {
    if j == 0 then 0 else widths[0] + 2 + Offset(widths[1..], j - 1)
  }

  /** The table printed for some rows (the header being the first row). */
  function Render(rows: seq<seq<string>>): (lines: seq<string>)
    ensures |lines| == |rows|
  {
    var w := Widths(rows);
    seq(|rows|, i requires 0 <= i < |rows| =>
      WidthsCover(rows, i);
      Line(rows[i], w))
  }

  /** Every row fits in the computed columns. */
  lemma WidthsCover(rows: seq<seq<string>>, i: nat)
    requires i < |rows|
    ensures |rows[i]| <= |Widths(rows)|
  {
    var lens := seq(|rows|, k requires 0 <= k < |rows| => |rows[k]|);
    assert lens[i] == |rows[i]|;
  }

  lemma CellFits(rows: seq<seq<string>>, i: nat, j: nat)
    requires i < |rows| && j < |rows[i]|
    ensures j < |Widths(rows)| && |rows[i][j]| <= Widths(rows)[j]
  {
    WidthsCover(rows, i);
    var c := Column(rows, j);
    assert Widths(rows)[j] == MaxOf(Lengths(c));
    assert c[i] == rows[i][j];
    assert Lengths(c)[i] == |rows[i][j]|;
  }

  /**
   * Each column is exactly as wide as its widest cell: no cell is wider, and
   * unless the column is empty throughout some cell has that width.
   */
  lemma WidthsAreMaxima(rows: seq<seq<string>>)
    ensures forall i :: 0 <= i < |rows| ==> |rows[i]| <= |Widths(rows)|
    ensures forall i, j :: 0 <= i < |rows| && 0 <= j < |rows[i]| ==> |rows[i][j]| <= Widths(rows)[j]
    ensures forall j :: 0 <= j < |Widths(rows)| ==>
      Widths(rows)[j] == 0 || exists i :: 0 <= i < |rows| && j < |rows[i]| && |rows[i][j]| == Widths(rows)[j]
  {
    var w := Widths(rows);
    forall i | 0 <= i < |rows| ensures |rows[i]| <= |w| {
      WidthsCover(rows, i);
    }
    forall i, j | 0 <= i < |rows| && 0 <= j < |rows[i]|
      ensures |rows[i][j]| <= w[j]
    {
      CellFits(rows, i, j);
    }
    forall j | 0 <= j < |w| && w[j] != 0
      ensures exists i :: 0 <= i < |rows| && j < |rows[i]| && |rows[i][j]| == w[j]
    {
      var c := Column(rows, j);
      assert w[j] == MaxOf(Lengths(c));
      var i :| 0 <= i < |c| && Lengths(c)[i] == w[j];
      assert |c[i]| == w[j];
      assert j < |rows[i]| && c[i] == rows[i][j];
    }
  }

  /** `c` is written in `line` starting at column `o`. */
  predicate CellAt(line: string, o: int, c: string)
  {
    0 <= o && o + |c| <= |line| && line[o..o + |c|] == c
  }

  /** Columns `lo` up to `hi` of `line` exist and are blank. */
  predicate BlankBetween(line: string, lo: int, hi: int)
  {
    0 <= lo <= hi <= |line| && forall p :: lo <= p < hi ==> line[p] == ' '
  }

  /**
   * The layout of one line: cell `j` starts at `Offset(widths, j)`; a cell
   * other than the last is followed by blanks up to the next column, and the
   * line ends with the last cell.
   */
  lemma LineLayout(cells: seq<string>, widths: seq<nat>, line: string, j: nat)
    requires |cells| <= |widths| && line == Line(cells, widths)
    requires forall k :: 0 <= k < |cells| ==> |cells[k]| <= widths[k]
    requires j < |cells|
    ensures CellAt(line, Offset(widths, j), cells[j])
    ensures j + 1 < |cells| ==> BlankBetween(line, Offset(widths, j) + |cells[j]|, Offset(widths, j + 1))
    ensures j + 1 == |cells| ==> |line| == Offset(widths, j) + |cells[j]|
  {
    LineCell(cells, widths, j);
    if j + 1 < |cells| {
      LineGap(cells, widths, j);
    } else {
      LineEnd(cells, widths);
    }
  }

  lemma {:induction false} LineCell(cells: seq<string>, widths: seq<nat>, j: nat)
    requires |cells| <= |widths|
    requires forall k :: 0 <= k < |cells| ==> |cells[k]| <= widths[k]
    requires j < |cells|
    ensures CellAt(Line(cells, widths), Offset(widths, j), cells[j])
  {
    if |cells| == 1 {
      assert Line(cells, widths) == cells[0];
      assert Offset(widths, 0) == 0;
      assert cells[0][0..|cells[0]|] == cells[0];
    } else {
      var head := LJust(cells[0], widths[0] + 2);
      var rest := Line(cells[1..], widths[1..]);
      assert Line(cells, widths) == head + rest;
      if j == 0 {
        assert Offset(widths, 0) == 0;
        CellAtFront(head, rest, cells[0]);
      } else {
        LineCell(cells[1..], widths[1..], j - 1);
        assert cells[1..][j - 1] == cells[j];
        assert Offset(widths, j) == |head| + Offset(widths[1..], j - 1);
        CellAfter(head, rest, Offset(widths[1..], j - 1), cells[j]);
      }
    }
  }

  /** A line ends with its last cell: nothing is padded after it. */
  lemma {:induction false} LineEnd(cells: seq<string>, widths: seq<nat>)
    requires 0 < |cells| <= |widths|
    requires forall k :: 0 <= k < |cells| ==> |cells[k]| <= widths[k]
    ensures |Line(cells, widths)| == Offset(widths, |cells| - 1) + |cells[|cells| - 1]|
  {
    var n := |cells|;
    if n == 1 {
      assert Line(cells, widths) == cells[0];
      assert Offset(widths, 0) == 0;
    } else {
      LineEnd(cells[1..], widths[1..]);
      assert cells[1..][n - 2] == cells[n - 1];
      assert Offset(widths, n - 1) == widths[0] + 2 + Offset(widths[1..], n - 2);
      assert |LJust(cells[0], widths[0] + 2)| == widths[0] + 2;
    }
  }

  lemma {:induction false} LineGap(cells: seq<string>, widths: seq<nat>, j: nat)
    requires |cells| <= |widths|
    requires forall k :: 0 <= k < |cells| ==> |cells[k]| <= widths[k]
    requires j + 1 < |cells|
    ensures BlankBetween(Line(cells, widths), Offset(widths, j) + |cells[j]|, Offset(widths, j + 1))
  {
    var head := LJust(cells[0], widths[0] + 2);
    var rest := Line(cells[1..], widths[1..]);
    assert Line(cells, widths) == head + rest;
    if j == 0 {
      assert Offset(widths, 0) == 0;
      assert Offset(widths, 1) == |head| by {
        assert Offset(widths[1..], 0) == 0;
      }
      BlankPadding(head, rest, |cells[0]|);
    } else {
      LineGap(cells[1..], widths[1..], j - 1);
      assert cells[1..][j - 1] == cells[j];
      assert Offset(widths, j) == |head| + Offset(widths[1..], j - 1);
      assert Offset(widths, j + 1) == |head| + Offset(widths[1..], j);
      BlankAfter(head, rest, Offset(widths[1..], j - 1) + |cells[j]|, Offset(widths[1..], j));
    }
  }

  lemma CellAtFront(a: string, b: string, c: string)
    requires |c| <= |a| && a[..|c|] == c
    ensures CellAt(a + b, 0, c)
  {
    assert (a + b)[0..|c|] == a[..|c|];
  }

  /** A placement in the second part of a concatenation, shifted past the first. */
  lemma CellAfter(a: string, b: string, o: nat, c: string)
    requires CellAt(b, o, c)
    ensures CellAt(a + b, |a| + o, c)
  {
    assert (a + b)[|a| + o..|a| + o + |c|] == b[o..o + |c|];
  }

  lemma BlankPadding(a: string, b: string, k: nat)
    requires k <= |a| && forall p :: k <= p < |a| ==> a[p] == ' '
    ensures BlankBetween(a + b, k, |a|)
  {
    forall p | k <= p < |a| ensures (a + b)[p] == ' ' {
      assert (a + b)[p] == a[p];
    }
  }

  lemma BlankAfter(a: string, b: string, lo: nat, hi: nat)
    requires BlankBetween(b, lo, hi)
    ensures BlankBetween(a + b, |a| + lo, |a| + hi)
  {
    forall p | |a| + lo <= p < |a| + hi ensures (a + b)[p] == ' ' {
      assert (a + b)[p] == b[p - |a|];
    }
  }

  /**
   * In the rendered table cell `(i, j)` sits at column offset
   * `Offset(Widths(rows), j)` of line `i`, so every row's cells line up.
   */
  lemma RenderAligned(rows: seq<seq<string>>, i: nat, j: nat)
    requires i < |rows| && j < |rows[i]|
    ensures |rows[i]| <= |Widths(rows)|
    ensures CellAt(Render(rows)[i], Offset(Widths(rows), j), rows[i][j])
    ensures j + 1 < |rows[i]| ==>
      BlankBetween(Render(rows)[i], Offset(Widths(rows), j) + |rows[i][j]|, Offset(Widths(rows), j + 1))
  {
    RenderRow(rows, i);
    LineLayout(rows[i], Widths(rows), Render(rows)[i], j);
  }

  /** Line `i` of the table is row `i` laid out in the common column widths, which it fits. */
  lemma RenderRow(rows: seq<seq<string>>, i: nat)
    requires i < |rows|
    ensures |rows[i]| <= |Widths(rows)|
    ensures forall k :: 0 <= k < |rows[i]| ==> |rows[i][k]| <= Widths(rows)[k]
    ensures Render(rows)[i] == Line(rows[i], Widths(rows))
  {
    WidthsCover(rows, i);
    forall k | 0 <= k < |rows[i]| ensures |rows[i][k]| <= Widths(rows)[k] {
      CellFits(rows, i, k);
    }
  }

  /** The key/value view of one record: a two-column table without a header. */
  function KeyValue(pairs: seq<(string, string)>): (lines: seq<string>)
    ensures |lines| == |pairs|
  {
    Render(KeyValueRows(pairs))
  }

  function KeyValueRows(pairs: seq<(string, string)>): (rows: seq<seq<string>>)
    ensures |rows| == |pairs|
    ensures forall k :: 0 <= k < |pairs| ==> rows[k] == [pairs[k].0, pairs[k].1]
  {
    seq(|pairs|, k requires 0 <= k < |pairs| => [pairs[k].0, pairs[k].1])
  }

  /** The labels of a key/value view. */
  function Keys(pairs: seq<(string, string)>): (keys: seq<string>)
    ensures |keys| == |pairs|
    ensures forall k :: 0 <= k < |pairs| ==> keys[k] == pairs[k].0
  {
    seq(|pairs|, k requires 0 <= k < |pairs| => pairs[k].0)
  }

  /** In the key/value view every value starts two columns after the longest key. */
  lemma KeyValueAligned(pairs: seq<(string, string)>, i: nat)
    requires i < |pairs|
    ensures KeyValue(pairs)[i] == LJust(pairs[i].0, MaxLen(Keys(pairs)) + 2) + pairs[i].1
  {
    var rows := KeyValueRows(pairs);
    var ws := Widths(rows);
    assert |ws| == 2 && ws[0] == MaxLen(Keys(pairs)) by {
      WidthsCover(rows, i);
      var lens := seq(|rows|, k requires 0 <= k < |rows| => |rows[k]|);
      assert lens[0] == 2;
      assert Column(rows, 0) == Keys(pairs);
    }
    assert KeyValue(pairs)[i] == Line(rows[i], ws);
    assert Line(rows[i], ws) == LJust(pairs[i].0, ws[0] + 2) + pairs[i].1 by {
      assert rows[i] == [pairs[i].0, pairs[i].1] && rows[i][1..] == [pairs[i].1];
      assert Line([pairs[i].1], ws[1..]) == pairs[i].1;
    }
  }

  // ------------------------------------------------------------ short mode

  /** Short mode: every item left-justified to the longest item plus two. */
  function InColumns(items: seq<string>): string
  {
    Concat(PadAll(items, MaxLen(items) + 2))
  }

  /** Every item left-justified to `w`, where no item is longer than `w`. */
  function PadAll(items: seq<string>, w: nat): (r: seq<string>)
    requires forall k :: 0 <= k < |items| ==> |items[k]| <= w
    ensures |r| == |items|
    ensures forall k :: 0 <= k < |items| ==> |r[k]| == w && r[k] == LJust(items[k], w)
  {
    seq(|items|, k requires 0 <= k < |items| => LJust(items[k], w))
  }

  function Concat(xs: seq<string>): string
  {
    if xs == [] then "" else xs[0] + Concat(xs[1..])
  }

  lemma {:induction false} ConcatAppend(a: seq<string>, b: seq<string>)
    ensures Concat(a + b) == Concat(a) + Concat(b)
  {
    if a == [] {
      assert a + b == b;
    } else {
      assert (a + b)[1..] == a[1..] + b;
      ConcatAppend(a[1..], b);
    }
  }

  lemma {:induction false} ConcatLength(xs: seq<string>, w: nat)
    requires forall k :: 0 <= k < |xs| ==> |xs[k]| == w
    ensures |Concat(xs)| == |xs| * w
  {
    if xs != [] {
      ConcatLength(xs[1..], w);
      assert |xs| * w == w + (|xs| - 1) * w;
    }
  }

  /** Pieces of one width `w` laid end to end: piece `i` starts at `i * w`. */
  lemma ConcatEven(xs: seq<string>, w: nat, i: nat)
    requires forall k :: 0 <= k < |xs| ==> |xs[k]| == w
    requires i < |xs|
    ensures |Concat(xs)| == |xs| * w
    ensures CellAt(Concat(xs), i * w, xs[i])
  {
    var before, after := xs[..i], xs[i + 1..];
    assert Concat(xs) == Concat(before) + (xs[i] + Concat(after)) by {
      assert xs == before + ([xs[i]] + after);
      ConcatAppend(before, [xs[i]] + after);
      ConcatAppend([xs[i]], after);
      assert Concat([xs[i]]) == xs[i] by {
        assert [xs[i]][1..] == [];
      }
    }
    assert |Concat(before)| == i * w by { ConcatLength(before, w); }
    ConcatLength(xs, w);
    CellAtFront(xs[i], Concat(after), xs[i]);
    CellAfter(Concat(before), xs[i] + Concat(after), 0, xs[i]);
  }

  /**
   * In short mode item `i` starts at `i * w`, where `w` is the longest item
   * plus two, and is followed by blanks up to the next item: at least two.
   */
  lemma InColumnsLayout(items: seq<string>, w: nat, i: nat)
    requires w == MaxLen(items) + 2
    requires i < |items|
    ensures |items[i]| + 2 <= w
    ensures |InColumns(items)| == |items| * w
    ensures CellAt(InColumns(items), i * w, items[i])
    ensures BlankBetween(InColumns(items), i * w + |items[i]|, i * w + w)
  {
    MaxLenBound(items);
    PaddedLayout(items, w, i);
  }

  lemma MaxLenBound(items: seq<string>)
    ensures forall k :: 0 <= k < |items| ==> |items[k]| <= MaxLen(items)
  {
    forall k | 0 <= k < |items| ensures |items[k]| <= MaxLen(items) {
      assert Lengths(items)[k] == |items[k]|;
    }
  }

  lemma PaddedLayout(items: seq<string>, w: nat, i: nat)
    requires forall k :: 0 <= k < |items| ==> |items[k]| <= w
    requires i < |items|
    ensures |Concat(PadAll(items, w))| == |items| * w
    ensures CellAt(Concat(PadAll(items, w)), i * w, items[i])
    ensures BlankBetween(Concat(PadAll(items, w)), i * w + |items[i]|, i * w + w)
  {
    var padded := PadAll(items, w);
    ConcatEven(padded, w, i);
    PaddedCell(Concat(padded), i * w, padded[i], items[i]);
  }

  /** Where a padded cell is placed, its text comes first and blanks fill the rest. */
  lemma PaddedCell(s: string, o: int, cell: string, item: string)
    requires CellAt(s, o, cell) && |item| <= |cell| && cell[..|item|] == item
    requires forall p :: |item| <= p < |cell| ==> cell[p] == ' '
    ensures CellAt(s, o, item)
    ensures BlankBetween(s, o + |item|, o + |cell|)
  {
    forall p | o <= p < o + |cell| ensures s[p] == cell[p - o] {
      assert s[o..o + |cell|][p - o] == s[p];
    }
    assert s[o..o + |item|] == cell[..|item|];
  }

  /**
   * With trailing blanks stripped, the short listing is every item but the
   * last padded to the common width, then the last item as it is.
   */
  lemma InColumnsStripped(items: seq<string>, w: nat)
    requires items != [] && w == MaxLen(items) + 2
    requires var last := items[|items| - 1]; last != [] && !IsBlank(last[|last| - 1])
    ensures forall k :: 0 <= k < |items| - 1 ==> |items[k]| <= w
    ensures RStrip(InColumns(items)) == Concat(PadAll(items[..|items| - 1], w)) + items[|items| - 1]
  {
    var n := |items|;
    MaxLenBound(items);
    var front := Concat(PadAll(items[..n - 1], w));
    assert InColumns(items) == front + LJust(items[n - 1], w) by {
      InColumnsSnoc(items, w);
    }
    StripPadding(InColumns(items), front, items[n - 1], w);
  }

  /** Stripping removes exactly the padding after an item that ends in a visible character. */
  lemma StripPadding(s: string, front: string, item: string, w: nat)
    requires item != [] && !IsBlank(item[|item| - 1])
    requires s == front + LJust(item, w)
    ensures RStrip(s) == front + item
  {
    var last := LJust(item, w);
    var p := front + item;
    assert s[..|p|] == p by {
      assert last[..|item|] == item;
    }
    forall i | |p| <= i < |s| ensures IsBlank(s[i]) {
      assert s[i] == last[i - |front|];
    }
    RStripUnique(s, p);
  }

  lemma InColumnsSnoc(items: seq<string>, w: nat)
    requires items != [] && w == MaxLen(items) + 2
    ensures forall k :: 0 <= k < |items| ==> |items[k]| <= w
    ensures InColumns(items) == Concat(PadAll(items[..|items| - 1], w)) + LJust(items[|items| - 1], w)
  {
    var n := |items|;
    MaxLenBound(items);
    var padded := PadAll(items, w);
    assert InColumns(items) == Concat(padded[..n - 1]) + padded[n - 1] by {
      ConcatSnoc(padded);
    }
    assert padded[..n - 1] == PadAll(items[..n - 1], w) by {
      PadAllPrefix(items, w, n - 1);
    }
  }

  /** The concatenation of a non-empty list is that of all but the last piece, then the last piece. */
  lemma ConcatSnoc(xs: seq<string>)
    requires xs != []
    ensures Concat(xs) == Concat(xs[..|xs| - 1]) + xs[|xs| - 1]
  {
    var n := |xs|;
    assert xs == xs[..n - 1] + [xs[n - 1]];
    ConcatAppend(xs[..n - 1], [xs[n - 1]]);
    assert Concat([xs[n - 1]]) == xs[n - 1] by {
      assert [xs[n - 1]][1..] == [];
    }
  }

  lemma PadAllPrefix(items: seq<string>, w: nat, m: nat)
    requires forall k :: 0 <= k < |items| ==> |items[k]| <= w
    requires m <= |items|
    ensures PadAll(items[..m], w) == PadAll(items, w)[..m]
  {
    forall k | 0 <= k < m ensures PadAll(items[..m], w)[k] == PadAll(items, w)[k] {
      assert items[..m][k] == items[k];
    }
  }

  // ------------------------------------------------------------ tweet lines

  /** A tweet or direct message in the one-line listing. */
  function StatusLine(name: string, text: string, age: string): string
  {
    RJust(name, 20) + ": " + Tail(text, age)
  }

  /** What follows the name column: the text, then the age in parentheses. */
  function Tail(text: string, age: string): string
  {
    text + " (" + age + ")"
  }

  /** The position of the last occurrence of `c`, if any. */
  function LastIndex(s: string, c: char): (r: Option<nat>)
    ensures r.Some? ==> r.value < |s| && s[r.value] == c && c !in s[r.value + 1..]
    ensures r.None? ==> c !in s
  {
    if s == [] then None
    else if s[|s| - 1] == c then Some(|s| - 1)
    else
      var r := LastIndex(s[..|s| - 1], c);
      assert s == s[..|s| - 1] + [s[|s| - 1]];
      if r.Some? then
        assert s[r.value + 1..] == s[..|s| - 1][r.value + 1..] + [s[|s| - 1]];
        r
      else r
  }

  /** Drops leading blanks. */
  function LStripSpaces(s: string): (r: string)
    ensures r == [] || r[0] != ' '
    ensures |r| <= |s| && r == s[|s| - |r|..]
    ensures forall i :: 0 <= i < |s| - |r| ==> s[i] == ' '
  {
    if s == [] || s[0] != ' ' then s else LStripSpaces(s[1..])
  }

  /**
   * Reads a one-line listing entry back into name, text and age: the name is
   * the first twenty positions less their padding, and the rest is read by
   * `ParseTail`.
   */
  function ParseStatusLine(line: string): Option<(string, string, string)>
  {
    if |line| < 22 || line[20] != ':' || line[21] != ' ' then None
    else
      match ParseTail(line[22..])
      case None => None
      case Some((text, age)) => Some((LStripSpaces(line[..20]), text, age))
  }

  /** Splits `text (age)` at the last opening parenthesis. */
  function ParseTail(rest: string): Option<(string, string)>
  {
    if rest == [] || rest[|rest| - 1] != ')' then None
    else
      match LastIndex(rest, '(')
      case None => None
      case Some(k) =>
        if k == 0 || rest[k - 1] != ' ' then None
        else Some((rest[..k - 1], rest[k + 1..|rest| - 1]))
  }

  /**
   * The twenty-position name column: any name of at most twenty characters
   * that does not begin with a blank, and any text and age (the age without
   * an opening parenthesis), can be read back from the line.
   */
  lemma StatusLineRoundTrip(name: string, text: string, age: string)
    requires 0 < |name| <= 20 && name[0] != ' '
    requires '(' !in age
    ensures |StatusLine(name, text, age)| == 20 + 2 + |text| + 2 + |age| + 1
    ensures ParseStatusLine(StatusLine(name, text, age)) == Some((name, text, age))
  {
    var pad := RJust(name, 20);
    var tail := Tail(text, age);
    PadStrips(name);
    NameColumn(pad, tail);
    TailRoundTrip(text, age);
    assert ParseStatusLine(pad + ": " + tail) == Some((name, text, age));
  }

  /** A line made of a 20-position column, the separator and a tail splits back into the three. */
  lemma NameColumn(pad: string, tail: string)
    requires |pad| == 20
    ensures var line := pad + ": " + tail;
      |line| == 22 + |tail| && line[20] == ':' && line[21] == ' ' && line[..20] == pad && line[22..] == tail
  {
  }

  /** The padding of the name column comes off again. */
  lemma PadStrips(name: string)
    requires 0 < |name| <= 20 && name[0] != ' '
    ensures |RJust(name, 20)| == 20
    ensures LStripSpaces(RJust(name, 20)) == name
  {
    assert RJust(name, 20) == Spaces(20 - |name|) + name;
    LStripPadded(20 - |name|, name);
  }

  /** The text and the age come back from `text (age)` when the age has no opening parenthesis. */
  lemma TailRoundTrip(text: string, age: string)
    requires '(' !in age
    ensures ParseTail(Tail(text, age)) == Some((text, age))
  {
    var rest := Tail(text, age);
    var k := |text| + 1;
    assert rest[k - 1] == ' ' && rest[k] == '(';
    assert LastIndex(rest, '(') == Some(k) by {
      assert rest[k + 1..] == age + ")";
      LastIndexUnique(rest, '(', k);
    }
    assert rest[..k - 1] == text;
    assert rest[k + 1..|rest| - 1] == age;
  }

  lemma LastIndexUnique(s: string, c: char, k: nat)
    requires k < |s| && s[k] == c && c !in s[k + 1..]
    ensures LastIndex(s, c) == Some(k)
  {
  }

  lemma {:induction false} LStripPadded(n: nat, name: string)
    requires name != [] && name[0] != ' '
    ensures LStripSpaces(Spaces(n) + name) == name
  {
    if n == 0 {
      assert Spaces(0) + name == name;
    } else {
      assert (Spaces(n) + name)[1..] == Spaces(n - 1) + name;
      LStripPadded(n - 1, name);
    }
  }

  // ------------------------------------------------------------ ruler

  function Repeat(unit: string, n: nat): (s: string)
    ensures |s| == n * |unit|
  {
    if n == 0 then "" else unit + Repeat(unit, n - 1)
  }

  /** The ruler: a mark every fifth position across 140 columns. */
  function Ruler(): string
  {
    Repeat("----|", 28)
  }

  lemma {:induction false} RepeatMarks(n: nat)
    ensures forall i :: 0 <= i < 5 * n ==> Repeat("----|", n)[i] == if i % 5 == 4 then '|' else '-'
  {
    if n > 0 {
      RepeatMarks(n - 1);
      var s := Repeat("----|", n);
      assert s == "----|" + Repeat("----|", n - 1);
      forall i | 0 <= i < 5 * n ensures s[i] == if i % 5 == 4 then '|' else '-' {
        if i >= 5 {
          assert s[i] == Repeat("----|", n - 1)[i - 5];
          assert (i - 5) % 5 == i % 5;
        }
      }
    }
  }

  /** The ruler is 140 characters long, with `|` exactly at every fifth position. */
  lemma RulerShape()
    ensures |Ruler()| == 140
    ensures forall i :: 0 <= i < 140 ==> Ruler()[i] == if i % 5 == 4 then '|' else '-'
  {
    RepeatMarks(28);
  }
}
