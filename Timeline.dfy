/**
 * Timelines, mentions, favorites and direct messages in the one-line
 * layout: the author right-justified to twenty characters, a colon, the
 * text as written, and the age in parentheses. Posts keep the order the
 * service returns them in; `--reverse` prints them backwards.
 */
module Timeline {
  import opened Wrappers
  import opened Text
  import opened Numbers
  import opened Times
  import opened Records
  import opened Table
  import opened Sorting

  /** One post, its age measured against `now`; None when the age has no phrase in this model. */
  function PostLine(p: Post, now: DateTime): Option<string>
  {
    match TimeAgo(p.postedAt, now)
    case None => None
    case Some(age) => Some(StatusLine(p.screenName, p.text, age))
  }

  /** Applies `f` to every element; None as soon as one has no result. */
  function MapAll<A, B>(f: A -> Option<B>, xs: seq<A>): (r: Option<seq<B>>)
    ensures r.Some? ==> |r.value| == |xs|
    ensures r.Some? <==> forall i :: 0 <= i < |xs| ==> f(xs[i]).Some?
    ensures r.Some? ==> forall i :: 0 <= i < |xs| ==> f(xs[i]) == Some(r.value[i])
  {
    if xs == [] then Some([])
    else match (f(xs[0]), MapAll(f, xs[1..]))
      case (Some(y), Some(ys)) => Some([y] + ys)
      case _ =>
        assert forall i :: 1 <= i < |xs| ==> xs[1..][i - 1] == xs[i];
        None
  }

  lemma MapAllReversed<A, B>(f: A -> Option<B>, xs: seq<A>)
    ensures MapAll(f, Reverse(xs)).Some? <==> MapAll(f, xs).Some?
    ensures MapAll(f, xs).Some? ==> MapAll(f, Reverse(xs)).value == Reverse(MapAll(f, xs).value)
  {
    var rev := Reverse(xs);
    var n := |xs|;
    forall i | 0 <= i < n ensures f(rev[i]) == f(xs[n - 1 - i]) {
      assert rev[i] == xs[n - 1 - i];
    }
    forall i | 0 <= i < n ensures f(xs[i]) == f(rev[n - 1 - i]) {
      assert rev[n - 1 - i] == xs[i];
    }
  }

  /** The one-line listing, in the service's order or reversed. */
  function Listing(posts: seq<Post>, now: DateTime, reverse: bool): Option<seq<string>>
  {
    MapAll((p: Post) => PostLine(p, now), ArrangePosts(reverse, posts))
  }

  /** `--reverse` prints exactly the lines of the plain listing, last first. */
  lemma ListingReversed(posts: seq<Post>, now: DateTime)
    ensures Listing(posts, now, true).Some? <==> Listing(posts, now, false).Some?
    ensures Listing(posts, now, false).Some? ==>
      Listing(posts, now, true).value == Reverse(Listing(posts, now, false).value)
  {
    MapAllReversed((p: Post) => PostLine(p, now), posts);
  }

  /**
   * A line can be read back into author, text and age when the author's
   * name fits the column.
   */
  lemma PostLineReadable(p: Post, now: DateTime)
    requires PostLine(p, now).Some?
    requires 0 < |p.screenName| <= 20 && p.screenName[0] != ' '
    ensures |PostLine(p, now).value| >= 24 + |p.text|
    ensures ParseStatusLine(PostLine(p, now).value) == Some((p.screenName, p.text, TimeAgo(p.postedAt, now).value))
  {
    var age := TimeAgo(p.postedAt, now).value;
    assert '(' !in age by { AgePhraseShape(p.postedAt, now); }
    StatusLineRoundTrip(p.screenName, p.text, age);
  }

  lemma AgePhraseShape(posted: DateTime, now: DateTime)
    requires TimeAgo(posted, now).Some?
    ensures '(' !in TimeAgo(posted, now).value
  {
    var m := MinutesBetween(posted, now);
    if m < 525600 {
      var n := (m + 21600) / 43200;
      DigitsAvoid(NatToString(n), '(');
    }
  }

  /**
   * A message from sferik sent about a year before now, as the direct
   * message listing prints it: the name pushed right by fourteen blanks.
   */
  lemma SferikMessageLine(p: Post, now: DateTime)
    requires p.screenName == "sferik" && TimeAgo(p.postedAt, now) == Some("about 1 year ago")
    ensures PostLine(p, now) == Some("              sferik: " + p.text + " (about 1 year ago)")
  {
    var age := "about 1 year ago";
    SferikLine(p.text, age);
    assert PostLine(p, now) == Some(StatusLine(p.screenName, p.text, age));
    assert "              sferik: " + p.text + " (" + age + ")"
        == "              sferik: " + p.text + " (about 1 year ago)";
  }

  lemma SferikLine(text: string, age: string)
    ensures StatusLine("sferik", text, age) == "              sferik: " + text + " (" + age + ")"
  {
    assert Spaces(14) == "              ";
    assert RJust("sferik", 20) == "              sferik";
  }

  // ------------------------------------------------------------ one tweet

  /** The `status` view of one tweet: its details as a key/value table. */
  function StatusView(p: Post, retweets: nat, source: string): (lines: seq<string>)
    ensures |lines| == 7
  {
    KeyValue(PostView(p, retweets, source))
  }

  /**
   * The `status` view: seven labelled lines whose values all start in
   * column 13, two past "Screen name", the longest label.
   */
  lemma StatusViewLines(p: Post, retweets: nat, source: string)
    ensures StatusView(p, retweets, source)[0] == "ID           " + NatToString(p.id)
    ensures StatusView(p, retweets, source)[1] == "Text         " + p.text
    ensures StatusView(p, retweets, source)[2] == "Screen name  @" + p.screenName
    ensures StatusView(p, retweets, source)[3] == "Posted at    " + LongDate(p.postedAt)
    ensures StatusView(p, retweets, source)[4] == "Retweets     " + Grouped(retweets)
    ensures StatusView(p, retweets, source)[5] == "Source       " + source
    ensures StatusView(p, retweets, source)[6] == "URL          " + PostUrl(p.screenName, p.id)
  {
    StatusIdRow(p, retweets, source);
    StatusTextRow(p, retweets, source);
    StatusScreenNameRow(p, retweets, source);
    StatusPostedRow(p, retweets, source);
    StatusRetweetsRow(p, retweets, source);
    StatusSourceRow(p, retweets, source);
    StatusUrlRow(p, retweets, source);
  }

  lemma StatusIdRow(p: Post, retweets: nat, source: string)
    ensures StatusView(p, retweets, source)[0] == "ID           " + NatToString(p.id)
  {
    StatusRow(p, retweets, source, 0, "ID", NatToString(p.id));
    assert LJust("ID", 13) == "ID           ";
  }

  lemma StatusTextRow(p: Post, retweets: nat, source: string)
    ensures StatusView(p, retweets, source)[1] == "Text         " + p.text
  {
    StatusRow(p, retweets, source, 1, "Text", p.text);
    assert LJust("Text", 13) == "Text         ";
  }

  lemma StatusScreenNameRow(p: Post, retweets: nat, source: string)
    ensures StatusView(p, retweets, source)[2] == "Screen name  @" + p.screenName
  {
    StatusRow(p, retweets, source, 2, "Screen name", Handle(p.screenName));
    HandleAfter("Screen name  ", p.screenName);
    assert LJust("Screen name", 13) == "Screen name  ";
  }

  lemma StatusPostedRow(p: Post, retweets: nat, source: string)
    ensures StatusView(p, retweets, source)[3] == "Posted at    " + LongDate(p.postedAt)
  {
    StatusRow(p, retweets, source, 3, "Posted at", LongDate(p.postedAt));
    assert LJust("Posted at", 13) == "Posted at    ";
  }

  lemma StatusRetweetsRow(p: Post, retweets: nat, source: string)
    ensures StatusView(p, retweets, source)[4] == "Retweets     " + Grouped(retweets)
  {
    StatusRow(p, retweets, source, 4, "Retweets", Grouped(retweets));
    assert LJust("Retweets", 13) == "Retweets     ";
  }

  lemma StatusSourceRow(p: Post, retweets: nat, source: string)
    ensures StatusView(p, retweets, source)[5] == "Source       " + source
  {
    StatusRow(p, retweets, source, 5, "Source", source);
    assert LJust("Source", 13) == "Source       ";
  }

  lemma StatusUrlRow(p: Post, retweets: nat, source: string)
    ensures StatusView(p, retweets, source)[6] == "URL          " + PostUrl(p.screenName, p.id)
  {
    StatusRow(p, retweets, source, 6, "URL", PostUrl(p.screenName, p.id));
    assert LJust("URL", 13) == "URL          ";
  }

  /** A handle written after a prefix is the prefix, the at sign, the name. */
  lemma HandleAfter(prefix: string, name: string)
    ensures prefix + Handle(name) == prefix + "@" + name
  {
  }

  /** Row `i` of the view is its label padded to 13 columns, then its value. */
  lemma StatusRow(p: Post, retweets: nat, source: string, i: int, key: string, value: string)
    requires 0 <= i < 7 && PostView(p, retweets, source)[i] == (key, value)
    ensures StatusView(p, retweets, source)[i] == LJust(key, 13) + value
  {
    var pairs := PostView(p, retweets, source);
    assert pairs[0].0 == "ID" && pairs[1].0 == "Text" && pairs[2].0 == "Screen name";
    assert pairs[3].0 == "Posted at" && pairs[4].0 == "Retweets" && pairs[5].0 == "Source" && pairs[6].0 == "URL";
    StatusLabelWidth(Keys(pairs));
    KeyValueAligned(pairs, i);
  }

  lemma StatusLabelWidth(keys: seq<string>)
    requires |keys| == 7 && |keys[0]| == 2 && |keys[1]| == 4 && |keys[2]| == 11
    requires |keys[3]| == 9 && |keys[4]| == 8 && |keys[5]| == 6 && |keys[6]| == 3
    ensures MaxLen(keys) == 11
  {
    var ls := Lengths(keys);
    assert ls[2] == 11;
    assert forall i :: 0 <= i < |ls| ==> ls[i] <= 11;
  }
}
