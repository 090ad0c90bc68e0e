/**
 * The records the listings show and the row each layout builds from them.
 *
 * A user row carries the identifier, the creation date, five counts, the
 * screen name and the full name. Long mode writes the counts grouped in
 * thousands, the date as "Mon DD  YYYY" and the screen name with an "@";
 * CSV writes the counts and the identifier plainly, the date as
 * "YYYY-MM-DD HH:MM:SS +0000" and the bare screen name. Tweets and direct
 * messages share one row shape (identifier, time, screen name, text), and
 * trend locations have an optional parent and a possibly empty country.
 * Each CSV row has a reader that recovers the record from it.
 */
module Records {
  import opened Wrappers
  import opened Text
  import opened Numbers
  import opened Times
  import opened Csv

  datatype User = User(
    id: nat, since: DateTime,
    tweets: nat, favorites: nat, listed: nat, following: nat, followers: nat,
    screenName: string, name: string)

  /** A tweet or a direct message. */
  datatype Post = Post(id: nat, postedAt: DateTime, screenName: string, text: string)

  /**
   * What the profile view shows about an account beyond its user record:
   * the biography, location and home page it gives, whether the
   * authenticated account follows it, and its latest tweet.
   */
  datatype Profile = Profile(user: User, bio: string, location: string, url: string, followed: bool, latest: Post)

  /** A place that has trending topics. */
  datatype Place = Place(woeid: nat, parentId: Option<nat>, kind: string, name: string, country: string)

  const UserHeader: seq<string> :=
    ["ID", "Since", "Tweets", "Favorites", "Listed", "Following", "Followers", "Screen name", "Name"]
  const PostHeader: seq<string> := ["ID", "Posted at", "Screen name", "Text"]
  const PlaceHeader: seq<string> := ["WOEID", "Parent ID", "Type", "Name", "Country"]

  /** How a screen name is shown outside CSV. */
  function Handle(screenName: string): string
  {
    "@" + screenName
  }

  function Counts(u: User): seq<nat>
  {
    [u.tweets, u.favorites, u.listed, u.following, u.followers]
  }

  // ------------------------------------------------------------ users

  function UserLongRow(u: User): (r: seq<string>)
    ensures |r| == |UserHeader|
  {
    [NatToString(u.id), LongDate(u.since)] + GroupedAll(Counts(u)) + [Handle(u.screenName), u.name]
  }

  function UserCsvRow(u: User): (r: seq<Cell>)
    ensures |r| == |UserHeader|
  {
    [Str(NatToString(u.id)), Str(CsvTime(u.since))] + PlainAll(Counts(u)) + [Str(u.screenName), Str(u.name)]
  }

  /** Long mode's count columns: each count grouped in thousands. */
  function GroupedAll(ns: seq<nat>): (r: seq<string>)
    ensures |r| == |ns|
  {
    seq(|ns|, i requires 0 <= i < |ns| => Grouped(ns[i]))
  }

  /** CSV's count columns: each count in plain decimal. */
  function PlainAll(ns: seq<nat>): (r: seq<Cell>)
    ensures |r| == |ns|
  {
    seq(|ns|, i requires 0 <= i < |ns| => Str(NatToString(ns[i])))
  }

  /** A numeric CSV cell. */
  function NatCell(c: Cell): Option<nat>
  {
    if c.Str? then ParseNat(c.s) else None
  }

  /** Reads a user back from the cells of a CSV row. */
  function UserFromCsv(cells: seq<Cell>): Option<User>
  {
    if |cells| != 9 || !cells[1].Str? || !cells[7].Str? || !cells[8].Str? then None
    else
      var id, since := NatCell(cells[0]), ParseCsvTime(cells[1].s);
      var tw, fa, li, fo, fl := NatCell(cells[2]), NatCell(cells[3]), NatCell(cells[4]), NatCell(cells[5]), NatCell(cells[6]);
      if id.None? || since.None? || tw.None? || fa.None? || li.None? || fo.None? || fl.None? then None
      else Some(User(id.value, since.value, tw.value, fa.value, li.value, fo.value, fl.value, cells[7].s, cells[8].s))
  }

  /** A user's CSV row determines the user. */
  lemma UserCsvRoundTrip(u: User)
    requires Valid(u.since)
    ensures UserFromCsv(UserCsvRow(u)) == Some(u)
  {
    var cells, c := UserCsvRow(u), Counts(u);
    assert NatCell(cells[0]) == Some(u.id) by { ParseNatToString(u.id); }
    assert cells[1].Str? && ParseCsvTime(cells[1].s) == Some(u.since) by { CsvTimeRoundTrip(u.since); }
    forall k | 2 <= k < 7 ensures NatCell(cells[k]) == Some(c[k - 2]) {
      CountColumns(u, k);
      ParseNatToString(c[k - 2]);
    }
    assert cells[7] == Str(u.screenName) && cells[8] == Str(u.name);
  }

  /**
   * Long mode and CSV show the same figures: each count column of the long
   * row, read back without its commas, is the number the CSV row holds.
   */
  lemma CountsAgree(u: User, k: nat)
    requires 2 <= k < 7
    ensures UserCsvRow(u)[k].Str?
    ensures Ungroup(UserLongRow(u)[k]) == ParseNat(UserCsvRow(u)[k].s) == Some(Counts(u)[k - 2])
  {
    CountColumns(u, k);
    CountCellsAgree(Counts(u)[k - 2]);
  }

  lemma CountColumns(u: User, k: nat)
    requires 2 <= k < 7
    ensures UserLongRow(u)[k] == Grouped(Counts(u)[k - 2])
    ensures UserCsvRow(u)[k] == Str(NatToString(Counts(u)[k - 2]))
  {
    var c := Counts(u);
    assert UserLongRow(u)[k] == GroupedAll(c)[k - 2];
    assert UserCsvRow(u)[k] == PlainAll(c)[k - 2];
  }

  lemma CountCellsAgree(n: nat)
    ensures Ungroup(Grouped(n)) == ParseNat(NatToString(n)) == Some(n)
  {
    GroupedRoundTrip(n);
    ParseNatToString(n);
  }

  /** The long-mode date names the calendar day of the CSV timestamp, which holds the whole instant. */
  lemma DatesAgree(u: User)
    requires Valid(u.since)
    ensures ParseLongDate(UserLongRow(u)[1]) == Some((u.since.year, u.since.month, u.since.day))
    ensures ParseCsvTime(UserCsvRow(u)[1].s) == Some(u.since)
  {
    LongDateRoundTrip(u.since);
    CsvTimeRoundTrip(u.since);
  }

  // ------------------------------------------------------------ tweets and messages

  function PostLongRow(p: Post): (r: seq<string>)
    ensures |r| == |PostHeader|
  {
    [NatToString(p.id), LongDate(p.postedAt), Handle(p.screenName), p.text]
  }

  function PostCsvRow(p: Post): (r: seq<Cell>)
    ensures |r| == |PostHeader|
  {
    [Str(NatToString(p.id)), Str(CsvTime(p.postedAt)), Str(p.screenName), Str(p.text)]
  }

  function PostFromCsv(cells: seq<Cell>): Option<Post>
  {
    if |cells| != 4 || !cells[1].Str? || !cells[2].Str? || !cells[3].Str? then None
    else
      var id, at := NatCell(cells[0]), ParseCsvTime(cells[1].s);
      if id.None? || at.None? then None
      else Some(Post(id.value, at.value, cells[2].s, cells[3].s))
  }

  /** A post's CSV row determines the post. */
  lemma PostCsvRoundTrip(p: Post)
    requires Valid(p.postedAt)
    ensures PostFromCsv(PostCsvRow(p)) == Some(p)
  {
    ParseNatToString(p.id);
    CsvTimeRoundTrip(p.postedAt);
  }

  /** The address of a tweet. */
  function PostUrl(screenName: string, id: nat): string
  {
    Join(["https:", "", "twitter.com", screenName, "status", NatToString(id)], '/')
  }

  /** The address is the author's page followed by "/status/" and the tweet's identifier. */
  lemma PostUrlText(screenName: string, id: nat)
    ensures PostUrl(screenName, id) == "https://twitter.com/" + screenName + "/status/" + NatToString(id)
  {
    var d := NatToString(id);
    var xs := ["https:", "", "twitter.com", screenName, "status", d];
    var j4 := Join(xs[4..], '/');
    assert j4 == "status" + "/" + d by {
      assert xs[4..] == ["status", d];
      assert xs[4..][1..] == [d];
      assert Join([d], '/') == d;
    }
    var j3 := Join(xs[3..], '/');
    assert j3 == screenName + "/" + j4 by {
      assert xs[3..][1..] == xs[4..];
    }
    var j2 := Join(xs[2..], '/');
    assert j2 == "twitter.com" + "/" + j3 by {
      assert xs[2..][1..] == xs[3..];
    }
    var j1 := Join(xs[1..], '/');
    assert j1 == "" + "/" + j2 by {
      assert xs[1..][1..] == xs[2..];
    }
    assert Join(xs, '/') == "https:" + "/" + j1;
    assert "https:" + "/" + ("" + "/" + ("twitter.com" + "/" + j3)) == "https://twitter.com/" + j3;
    assert "https://twitter.com/" + (screenName + "/" + ("status" + "/" + d))
        == "https://twitter.com/" + screenName + "/status/" + d;
  }

  /** The address names the author and the tweet: splitting it on slashes gives both back. */
  lemma PostUrlParts(screenName: string, id: nat)
    requires '/' !in screenName
    ensures var parts := Split(PostUrl(screenName, id), '/');
      |parts| == 6 && parts[3] == screenName && ParseNat(parts[5]) == Some(id)
  {
    var xs := ["https:", "", "twitter.com", screenName, "status", NatToString(id)];
    DigitsAvoid(NatToString(id), '/');
    assert forall i :: 0 <= i < |xs| ==> '/' !in xs[i];
    SplitJoin(xs, '/');
    ParseNatToString(id);
  }

  /** The key/value view of one tweet. */
  function PostView(p: Post, retweets: nat, source: string): (pairs: seq<(string, string)>)
    ensures |pairs| == 7
  {
    [("ID", NatToString(p.id)), ("Text", p.text), ("Screen name", Handle(p.screenName)),
     ("Posted at", LongDate(p.postedAt)), ("Retweets", Grouped(retweets)), ("Source", source),
     ("URL", PostUrl(p.screenName, p.id))]
  }

  /** The label of line `i` of the profile view. */
  function ProfileLabel(i: nat): string
  {
    match i
    case 0 => "ID"
    case 1 => "Name"
    case 2 => "Bio"
    case 3 => "Location"
    case 4 => "URL"
    case 5 => "Status"
    case 6 => "Last update"
    case 7 => "Since"
    case 8 => "Tweets"
    case 9 => "Favorites"
    case 10 => "Listed"
    case 11 => "Following"
    case _ => "Followers"
  }

  /** The labels of the profile view, in the order it prints them. */
  function ProfileLabels(): (labels: seq<string>)
    ensures |labels| == 13
  {
    seq(13, i requires 0 <= i < 13 => ProfileLabel(i))
  }

  /**
   * Value `i` of the profile view, `age` being the phrase for how long ago
   * the latest tweet was posted. The identifier is written plainly and the
   * counts grouped in thousands.
   */
  function ProfileValue(pr: Profile, age: string, i: nat): string
  {
    match i
    case 0 => NatToString(pr.user.id)
    case 1 => pr.user.name
    case 2 => pr.bio
    case 3 => pr.location
    case 4 => pr.url
    case 5 => if pr.followed then "Following" else "Not following"
    case 6 => pr.latest.text + " (" + age + ")"
    case 7 => LongDate(pr.user.since)
    case 8 => Grouped(pr.user.tweets)
    case 9 => Grouped(pr.user.favorites)
    case 10 => Grouped(pr.user.listed)
    case 11 => Grouped(pr.user.following)
    case _ => Grouped(pr.user.followers)
  }

  /** The key/value view of one account: each label with its value. */
  function ProfilePairs(pr: Profile, age: string): (pairs: seq<(string, string)>)
    ensures |pairs| == |ProfileLabels()|
  {
    seq(|ProfileLabels()|, i requires 0 <= i < |ProfileLabels()| => (ProfileLabels()[i], ProfileValue(pr, age, i)))
  }

  // ------------------------------------------------------------ trend locations

  function PlaceLongRow(p: Place): (r: seq<string>)
    ensures |r| == |PlaceHeader|
  {
    [NatToString(p.woeid), if p.parentId.Some? then NatToString(p.parentId.value) else "",
     p.kind, p.name, p.country]
  }

  function PlaceCsvRow(p: Place): (r: seq<Cell>)
    ensures |r| == |PlaceHeader|
  {
    [Str(NatToString(p.woeid)), if p.parentId.Some? then Str(NatToString(p.parentId.value)) else Nil,
     Str(p.kind), Str(p.name), Str(p.country)]
  }

  function PlaceFromCsv(cells: seq<Cell>): Option<Place>
  {
    if |cells| != 5 || !cells[2].Str? || !cells[3].Str? || !cells[4].Str? then None
    else
      var woeid := NatCell(cells[0]);
      var parent := if cells[1].Nil? then Some(None) else if NatCell(cells[1]).Some? then Some(NatCell(cells[1])) else None;
      if woeid.None? || parent.None? then None
      else Some(Place(woeid.value, parent.value, cells[2].s, cells[3].s, cells[4].s))
  }

  /**
   * A place's CSV row determines the place, the missing parent and the empty
   * country included: the first is written as nothing, the second as `""`.
   */
  lemma PlaceCsvRoundTrip(p: Place)
    ensures PlaceFromCsv(PlaceCsvRow(p)) == Some(p)
    ensures p.parentId.None? ==> EncodeCell(PlaceCsvRow(p)[1]) == ""
    ensures p.country == "" ==> EncodeCell(PlaceCsvRow(p)[4]) == "\"\""
  {
    ParseNatToString(p.woeid);
    if p.parentId.Some? {
      ParseNatToString(p.parentId.value);
    }
  }
}
