/**
 * Standard output as the commands see it: a buffer that only grows. Each
 * command renders its listing and writes it line by line; the examples
 * capture this buffer and compare it with the expected text.
 */
module Console {
  import opened Text
  import opened Csv
  import opened Table

  /** The text of `lines`, each followed by a line break. */
  function Lines(lines: seq<string>): string
  {
    if lines == [] then "" else lines[0] + "\n" + Lines(lines[1..])
  }

  lemma {:induction false} LinesAppend(a: seq<string>, b: seq<string>)
    ensures Lines(a + b) == Lines(a) + Lines(b)
  {
    if a == [] {
      assert a + b == b;
    } else {
      assert (a + b)[1..] == a[1..] + b;
      LinesAppend(a[1..], b);
    }
  }

  lemma {:induction false} LinesAsJoin(lines: seq<string>)
    ensures Lines(lines) == Join(lines + [""], '\n')
  {
    if lines != [] {
      LinesAsJoin(lines[1..]);
      assert (lines + [""])[1..] == lines[1..] + [""];
    }
  }

  /**
   * Output loses nothing: when no line holds a line break, cutting the text
   * at its line breaks gives the lines back, followed by the empty rest
   * after the final break.
   */
  lemma LinesSplit(lines: seq<string>)
    requires forall i :: 0 <= i < |lines| ==> '\n' !in lines[i]
    ensures Split(Lines(lines), '\n') == lines + [""]
  {
    LinesAsJoin(lines);
    SplitJoin(lines + [""], '\n');
  }

  /** The rows of a CSV listing, one text line per row. */
  function CsvLines(rows: seq<seq<Cell>>): (lines: seq<string>)
    ensures |lines| == |rows|
    ensures forall i :: 0 <= i < |rows| ==> lines[i] == EncodeRow(rows[i])
  {
    seq(|rows|, i requires 0 <= i < |rows| => EncodeRow(rows[i]))
  }

  class Output {
    /** Everything written so far. */
    var text: string

    constructor ()
      ensures text == ""
    {
      text := "";
    }

    /** Writes one line. */
    method Puts(line: string)
      modifies this
      ensures text == old(text) + line + "\n"
    {
      text := text + line + "\n";
    }

    /** Writes the lines in order. */
    method PutLines(lines: seq<string>)
      modifies this
      ensures text == old(text) + Lines(lines)
    {
      var i := 0;
      while i < |lines|
        invariant 0 <= i <= |lines|
        invariant text == old(text) + Lines(lines[..i])
      {
        LinesAppend(lines[..i], [lines[i]]);
        assert lines[..i + 1] == lines[..i] + [lines[i]];
        assert Lines([lines[i]]) == lines[i] + "\n" + Lines([]);
        Puts(lines[i]);
        i := i + 1;
      }
      assert lines[..i] == lines;
    }

    /** Long mode and the key/value view: an aligned table. */
    method PrintTable(rows: seq<seq<string>>)
      modifies this
      ensures text == old(text) + Lines(Render(rows))
    {
      PutLines(Render(rows));
    }

    /** Short mode: the items on one line, each padded to the longest plus two. */
    method PrintInColumns(items: seq<string>)
      modifies this
      ensures items == [] ==> text == old(text)
      ensures items != [] ==> text == old(text) + InColumns(items) + "\n"
    {
      if items != [] {
        Puts(InColumns(items));
      }
    }

    /** CSV mode: one encoded row per line. */
    method PrintCsv(rows: seq<seq<Cell>>)
      modifies this
      ensures text == old(text) + Lines(CsvLines(rows))
    {
      PutLines(CsvLines(rows));
    }
  }
}
