/**
 * What a command prints in long mode and in CSV mode.
 *
 * Long mode prints an aligned table: a header naming the columns, then one
 * row per record in the order the listing is arranged in. CSV mode prints
 * the column names joined by commas, unquoted, then one encoded row per
 * record.
 */
module Listings {
  import opened Wrappers
  import opened Text
  import opened Numbers
  import opened Times
  import opened Csv
  import opened Records
  import opened Table
  import opened Sorting
  import opened Console

  // ------------------------------------------------------------ any record

  /** A header as CSV cells. */
  function Plain(names: seq<string>): (cells: seq<Cell>)
    ensures |cells| == |names|
  {
    seq(|names|, i requires 0 <= i < |names| => Str(names[i]))
  }

  /** A long listing: the header, then the rows, as one aligned table. */
  function LongListing(header: seq<string>, rows: seq<seq<string>>): (lines: seq<string>)
    ensures |lines| == |rows| + 1
  {
    Render([header] + rows)
  }

  /** A CSV listing: the header, then one encoded row per record. */
  function CsvListing(header: seq<string>, rows: seq<seq<Cell>>): (lines: seq<string>)
    ensures |lines| == |rows| + 1
  {
    CsvLines([Plain(header)] + rows)
  }

  /**
   * In a long listing every header name and every cell of row `i` starts at
   * its column's offset, the same offset on every line.
   */
  lemma LongLayout(header: seq<string>, rows: seq<seq<string>>, i: nat, j: nat)
    requires i < |rows| && j < |header| && j < |rows[i]|
    ensures j < |Widths([header] + rows)|
    ensures CellAt(LongListing(header, rows)[0], Offset(Widths([header] + rows), j), header[j])
    ensures CellAt(LongListing(header, rows)[i + 1], Offset(Widths([header] + rows), j), rows[i][j])
  {
    var t := [header] + rows;
    assert t[0] == header && t[i + 1] == rows[i];
    RenderAligned(t, 0, j);
    RenderAligned(t, i + 1, j);
  }

  /**
   * In a CSV listing the first line is the column names joined by commas,
   * and line `i + 1` reads back as the cells of row `i`.
   */
  lemma CsvLayout(header: seq<string>, rows: seq<seq<Cell>>, i: nat)
    requires |header| >= 1 && forall k :: 0 <= k < |header| ==> !NeedsQuotes(header[k])
    requires i < |rows| && |rows[i]| >= 1
    ensures CsvListing(header, rows)[0] == Join(header, ',')
    ensures CsvListing(header, rows)[i + 1] == EncodeRow(rows[i])
    ensures ParseRow(CsvListing(header, rows)[i + 1]) == Some(rows[i])
  {
    CsvHeaderLine(header, rows);
    CsvRowLine(header, rows, i);
  }

  lemma CsvHeaderLine(header: seq<string>, rows: seq<seq<Cell>>)
    requires forall k :: 0 <= k < |header| ==> !NeedsQuotes(header[k])
    ensures CsvListing(header, rows)[0] == Join(header, ',')
  {
    assert ([Plain(header)] + rows)[0] == Plain(header);
    PlainFields(header);
  }

  lemma CsvRowLine(header: seq<string>, rows: seq<seq<Cell>>, i: nat)
    requires i < |rows| && |rows[i]| >= 1
    ensures CsvListing(header, rows)[i + 1] == EncodeRow(rows[i])
    ensures ParseRow(CsvListing(header, rows)[i + 1]) == Some(rows[i])
  {
    assert ([Plain(header)] + rows)[i + 1] == rows[i];
    RowRoundTrip(rows[i]);
  }

  /** Names that need no quoting are written as they are. */
  lemma {:induction false} PlainFields(names: seq<string>)
    requires forall k :: 0 <= k < |names| ==> !NeedsQuotes(names[k])
    ensures Fields(Plain(names)) == names
  {
    if names != [] {
      assert Plain(names)[1..] == Plain(names[1..]);
      PlainFields(names[1..]);
      assert EncodeCell(Str(names[0])) == names[0];
    }
  }

  // ------------------------------------------------------------ users

  function UserLongRows(users: seq<User>): (rows: seq<seq<string>>)
    ensures |rows| == |users|
  {
    seq(|users|, i requires 0 <= i < |users| => UserLongRow(users[i]))
  }

  function UserCsvRows(users: seq<User>): (rows: seq<seq<Cell>>)
    ensures |rows| == |users|
  {
    seq(|users|, i requires 0 <= i < |users| => UserCsvRow(users[i]))
  }

  /** The table a long user listing prints. */
  function UserTable(k: SortKey, reverse: bool, users: seq<User>): seq<seq<string>>
  {
    [UserHeader] + UserLongRows(Arrange(k, reverse, users))
  }

  /**
   * A long user listing: the header, then the arranged users, every column
   * aligned across all lines.
   */
  lemma UserLongLayout(k: SortKey, reverse: bool, users: seq<User>, i: nat, j: nat)
    requires i < |users| && j < |UserHeader|
    ensures j < |Widths(UserTable(k, reverse, users))|
    ensures CellAt(Render(UserTable(k, reverse, users))[0], Offset(Widths(UserTable(k, reverse, users)), j), UserHeader[j])
    ensures CellAt(Render(UserTable(k, reverse, users))[i + 1], Offset(Widths(UserTable(k, reverse, users)), j),
                   UserLongRow(Arrange(k, reverse, users)[i])[j])
  {
    var rows := UserLongRows(Arrange(k, reverse, users));
    assert rows[i] == UserLongRow(Arrange(k, reverse, users)[i]);
    LongLayout(UserHeader, rows, i, j);
  }

  /** A CSV user listing. */
  function UserCsvListing(k: SortKey, reverse: bool, users: seq<User>): (lines: seq<string>)
    ensures |lines| == |users| + 1
  {
    CsvListing(UserHeader, UserCsvRows(Arrange(k, reverse, users)))
  }

  /**
   * A CSV user listing: the unquoted header, then one line per user in the
   * arranged order, each reading back as that user.
   */
  lemma UserCsvLayout(k: SortKey, reverse: bool, users: seq<User>, i: nat)
    requires i < |users|
    requires forall u :: u in users ==> Valid(u.since)
    ensures UserCsvListing(k, reverse, users)[0] == Join(UserHeader, ',')
    ensures UserCsvListing(k, reverse, users)[i + 1] == EncodeRow(UserCsvRow(Arrange(k, reverse, users)[i]))
    ensures ParseRow(UserCsvListing(k, reverse, users)[i + 1]).Some?
    ensures UserFromCsv(ParseRow(UserCsvListing(k, reverse, users)[i + 1]).value) == Some(Arrange(k, reverse, users)[i])
  {
    var arranged := Arrange(k, reverse, users);
    var rows := UserCsvRows(arranged);
    assert rows[i] == UserCsvRow(arranged[i]);
    assert arranged[i] in multiset(users);
    UserHeaderPlain();
    CsvLayout(UserHeader, rows, i);
    UserCsvRoundTrip(arranged[i]);
  }

  lemma UserHeaderPlain()
    ensures forall k :: 0 <= k < |UserHeader| ==> !NeedsQuotes(UserHeader[k])
  {
  }

  /** The header line of a CSV user listing. */
  lemma UserHeaderLine()
    ensures Join(UserHeader, ',')
         == "ID" + "," + ("Since" + "," + ("Tweets" + "," + ("Favorites" + "," + ("Listed" + "," + ("Following" + ","
          + ("Followers" + "," + ("Screen name" + "," + "Name")))))))
  {
  }

  // ------------------------------------------------------------ tweets and messages

  function PostLongRows(posts: seq<Post>): (rows: seq<seq<string>>)
    ensures |rows| == |posts|
  {
    seq(|posts|, i requires 0 <= i < |posts| => PostLongRow(posts[i]))
  }

  function PostCsvRows(posts: seq<Post>): (rows: seq<seq<Cell>>)
    ensures |rows| == |posts|
  {
    seq(|posts|, i requires 0 <= i < |posts| => PostCsvRow(posts[i]))
  }

  /** The table a long listing of tweets or messages prints. */
  function PostTable(reverse: bool, posts: seq<Post>): seq<seq<string>>
  {
    [PostHeader] + PostLongRows(ArrangePosts(reverse, posts))
  }

  /** A long listing of tweets or messages: the header, then the posts in the service's order or reversed. */
  lemma PostLongLayout(reverse: bool, posts: seq<Post>, i: nat, j: nat)
    requires i < |posts| && j < |PostHeader|
    ensures j < |Widths(PostTable(reverse, posts))|
    ensures CellAt(Render(PostTable(reverse, posts))[0], Offset(Widths(PostTable(reverse, posts)), j), PostHeader[j])
    ensures CellAt(Render(PostTable(reverse, posts))[i + 1], Offset(Widths(PostTable(reverse, posts)), j),
                   PostLongRow(posts[if reverse then |posts| - 1 - i else i])[j])
  {
    var rows := PostLongRows(ArrangePosts(reverse, posts));
    assert rows[i] == PostLongRow(posts[if reverse then |posts| - 1 - i else i]);
    LongLayout(PostHeader, rows, i, j);
  }

  function PostCsvListing(reverse: bool, posts: seq<Post>): (lines: seq<string>)
    ensures |lines| == |posts| + 1
  {
    CsvListing(PostHeader, PostCsvRows(ArrangePosts(reverse, posts)))
  }

  /** A CSV listing of tweets or messages: the unquoted header, then one line per post, each reading back as that post. */
  lemma PostCsvLayout(reverse: bool, posts: seq<Post>, i: nat)
    requires i < |posts|
    requires forall p :: p in posts ==> Valid(p.postedAt)
    ensures PostCsvListing(reverse, posts)[0] == Join(PostHeader, ',')
    ensures ParseRow(PostCsvListing(reverse, posts)[i + 1]).Some?
    ensures PostFromCsv(ParseRow(PostCsvListing(reverse, posts)[i + 1]).value)
         == Some(posts[if reverse then |posts| - 1 - i else i])
  {
    var p := posts[if reverse then |posts| - 1 - i else i];
    var rows := PostCsvRows(ArrangePosts(reverse, posts));
    assert rows[i] == PostCsvRow(p);
    PostHeaderPlain();
    CsvLayout(PostHeader, rows, i);
    PostCsvRoundTrip(p);
  }

  lemma PostHeaderPlain()
    ensures forall k :: 0 <= k < |PostHeader| ==> !NeedsQuotes(PostHeader[k])
  {
  }

  /** The header line of a CSV listing of tweets or messages. */
  lemma PostHeaderLine()
    ensures Join(PostHeader, ',') == "ID" + "," + ("Posted at" + "," + ("Screen name" + "," + "Text"))
  {
  }

  // ------------------------------------------------------------ trend locations

  function PlaceLongRows(places: seq<Place>): (rows: seq<seq<string>>)
    ensures |rows| == |places|
  {
    seq(|places|, i requires 0 <= i < |places| => PlaceLongRow(places[i]))
  }

  function PlaceCsvRows(places: seq<Place>): (rows: seq<seq<Cell>>)
    ensures |rows| == |places|
  {
    seq(|places|, i requires 0 <= i < |places| => PlaceCsvRow(places[i]))
  }

  /** The table a long listing of trend locations prints. */
  function PlaceTable(unsorted: bool, reverse: bool, places: seq<Place>): seq<seq<string>>
  {
    [PlaceHeader] + PlaceLongRows(ArrangePlaces(unsorted, reverse, places))
  }

  /** A long listing of trend locations: the header, then the arranged places, every column aligned. */
  lemma PlaceLongLayout(unsorted: bool, reverse: bool, places: seq<Place>, i: nat, j: nat)
    requires i < |places| && j < |PlaceHeader|
    ensures j < |Widths(PlaceTable(unsorted, reverse, places))|
    ensures CellAt(Render(PlaceTable(unsorted, reverse, places))[0], Offset(Widths(PlaceTable(unsorted, reverse, places)), j), PlaceHeader[j])
    ensures CellAt(Render(PlaceTable(unsorted, reverse, places))[i + 1], Offset(Widths(PlaceTable(unsorted, reverse, places)), j),
                   PlaceLongRow(ArrangePlaces(unsorted, reverse, places)[i])[j])
  {
    var rows := PlaceLongRows(ArrangePlaces(unsorted, reverse, places));
    assert rows[i] == PlaceLongRow(ArrangePlaces(unsorted, reverse, places)[i]);
    LongLayout(PlaceHeader, rows, i, j);
  }

  function PlaceCsvListing(unsorted: bool, reverse: bool, places: seq<Place>): (lines: seq<string>)
    ensures |lines| == |places| + 1
  {
    CsvListing(PlaceHeader, PlaceCsvRows(ArrangePlaces(unsorted, reverse, places)))
  }

  /** A CSV listing of trend locations: the unquoted header, then one line per place, each reading back as that place. */
  lemma PlaceCsvLayout(unsorted: bool, reverse: bool, places: seq<Place>, i: nat)
    requires i < |places|
    ensures PlaceCsvListing(unsorted, reverse, places)[0] == Join(PlaceHeader, ',')
    ensures ParseRow(PlaceCsvListing(unsorted, reverse, places)[i + 1]).Some?
    ensures PlaceFromCsv(ParseRow(PlaceCsvListing(unsorted, reverse, places)[i + 1]).value)
         == Some(ArrangePlaces(unsorted, reverse, places)[i])
  {
    var arranged := ArrangePlaces(unsorted, reverse, places);
    var rows := PlaceCsvRows(arranged);
    assert rows[i] == PlaceCsvRow(arranged[i]);
    PlaceHeaderPlain();
    CsvLayout(PlaceHeader, rows, i);
    PlaceCsvRoundTrip(arranged[i]);
  }

  lemma PlaceHeaderPlain()
    ensures forall k :: 0 <= k < |PlaceHeader| ==> !NeedsQuotes(PlaceHeader[k])
  {
  }

  /** The header line of a CSV listing of trend locations. */
  lemma PlaceHeaderLine()
    ensures Join(PlaceHeader, ',') == "WOEID" + "," + ("Parent ID" + "," + ("Type" + "," + ("Name" + "," + "Country")))
  {
  }
}
