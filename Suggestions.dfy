/**
 * The five accounts the suggestion service recommends in the command's
 * examples, and the order each sort key prints them in.
 */
module Suggestions {
  import opened Times
  import opened Records
  import opened Sorting
  import opened Text
  import opened Table

  const Antpires := User(40514587, DateTime(2009, 5, 16, 18, 24, 33), 183, 2, 2, 198, 158, "antpires", "AntonioPires")
  const Jtrupiano := User(14736332, DateTime(2008, 5, 11, 19, 46, 6), 3850, 117, 99, 545, 802, "jtrupiano", "John Trupiano")
  const Maccman := User(2006261, DateTime(2007, 3, 23, 12, 36, 14), 4497, 9, 171, 967, 2028, "maccman", "Alex MacCaw")
  const Mlroach := User(14451152, DateTime(2008, 4, 20, 12, 5, 38), 6251, 10, 20, 403, 299, "mlroach", "Matt Laroche")
  const Stuntmann := User(16052754, DateTime(2008, 8, 30, 8, 22, 57), 24, 0, 1, 5, 42, "stuntmann82", "stuntmann82")

  /** The reply, in the order the service sends it. */
  const Reply: seq<User> := [Jtrupiano, Mlroach, Antpires, Maccman, Stuntmann]

  function ScreenNames(users: seq<User>): seq<string>
  {
    seq(|users|, i requires 0 <= i < |users| => users[i].screenName)
  }

  const ByScreenName: seq<User> := [Antpires, Jtrupiano, Maccman, Mlroach, Stuntmann]

  lemma ByScreenNamePermutes()
    ensures multiset(ByScreenName) == multiset(Reply)
  {
  }

  lemma ByScreenNameNames()
    ensures ScreenNames(ByScreenName) == ["antpires", "jtrupiano", "maccman", "mlroach", "stuntmann82"]
  {
  }

  lemma ByScreenNameIds()
    ensures DistinctIds(ByScreenName)
  {
  }

  lemma ByScreenNameLinks()
    ensures forall i :: 0 <= i < 4 ==> UserPrecedes(ByName, ByScreenName[i], ByScreenName[i + 1])
  {
  }

  const ByFavoriteCount: seq<User> := [Stuntmann, Antpires, Maccman, Mlroach, Jtrupiano]

  lemma ByFavoriteCountPermutes()
    ensures multiset(ByFavoriteCount) == multiset(Reply)
  {
  }

  lemma ByFavoriteCountNames()
    ensures ScreenNames(ByFavoriteCount) == ["stuntmann82", "antpires", "maccman", "mlroach", "jtrupiano"]
  {
  }

  lemma ByFavoriteCountIds()
    ensures DistinctIds(ByFavoriteCount)
  {
  }

  lemma ByFavoriteCountLinks()
    ensures forall i :: 0 <= i < 4 ==> UserPrecedes(ByFavorites, ByFavoriteCount[i], ByFavoriteCount[i + 1])
  {
  }

  const ByTweetCount: seq<User> := [Stuntmann, Antpires, Jtrupiano, Maccman, Mlroach]

  lemma ByTweetCountPermutes()
    ensures multiset(ByTweetCount) == multiset(Reply)
  {
  }

  lemma ByTweetCountNames()
    ensures ScreenNames(ByTweetCount) == ["stuntmann82", "antpires", "jtrupiano", "maccman", "mlroach"]
  {
  }

  lemma ByTweetCountIds()
    ensures DistinctIds(ByTweetCount)
  {
  }

  lemma ByTweetCountLinks()
    ensures forall i :: 0 <= i < 4 ==> UserPrecedes(ByTweets, ByTweetCount[i], ByTweetCount[i + 1])
  {
  }

  const ByCreation: seq<User> := [Maccman, Mlroach, Jtrupiano, Stuntmann, Antpires]

  lemma ByCreationPermutes()
    ensures multiset(ByCreation) == multiset(Reply)
  {
  }

  lemma ByCreationNames()
    ensures ScreenNames(ByCreation) == ["maccman", "mlroach", "jtrupiano", "stuntmann82", "antpires"]
  {
  }

  lemma ByCreationIds()
    ensures DistinctIds(ByCreation)
  {
  }

  lemma ByCreationLinks()
    ensures forall i :: 0 <= i < 4 ==> UserPrecedes(ByPosted, ByCreation[i], ByCreation[i + 1])
  {
  }

  /** By default the accounts are listed by screen name, whatever order the service sends them in. */
  lemma ByNameOrder(reply: seq<User>)
    requires multiset(reply) == multiset(Reply)
    ensures ScreenNames(Arrange(ByName, false, reply)) == ["antpires", "jtrupiano", "maccman", "mlroach", "stuntmann82"]
  {
    ByScreenNamePermutes();
    ByScreenNameNames();
    ByScreenNameIds();
    ByScreenNameLinks();
    ArrangedAs(ByName, reply, ByScreenName);
  }

  /** With `--favorites` they are listed by how many tweets each has marked as a favorite, whatever order the service sends them in. */
  lemma ByFavoritesOrder(reply: seq<User>)
    requires multiset(reply) == multiset(Reply)
    ensures ScreenNames(Arrange(ByFavorites, false, reply)) == ["stuntmann82", "antpires", "maccman", "mlroach", "jtrupiano"]
  {
    ByFavoriteCountPermutes();
    ByFavoriteCountNames();
    ByFavoriteCountIds();
    ByFavoriteCountLinks();
    ArrangedAs(ByFavorites, reply, ByFavoriteCount);
  }

  /** With `--tweets` they are listed by how many tweets each has posted, whatever order the service sends them in. */
  lemma ByTweetsOrder(reply: seq<User>)
    requires multiset(reply) == multiset(Reply)
    ensures ScreenNames(Arrange(ByTweets, false, reply)) == ["stuntmann82", "antpires", "jtrupiano", "maccman", "mlroach"]
  {
    ByTweetCountPermutes();
    ByTweetCountNames();
    ByTweetCountIds();
    ByTweetCountLinks();
    ArrangedAs(ByTweets, reply, ByTweetCount);
  }

  /** With `--posted` they are listed by when each account was created, whatever order the service sends them in. */
  lemma ByPostedOrder(reply: seq<User>)
    requires multiset(reply) == multiset(Reply)
    ensures ScreenNames(Arrange(ByPosted, false, reply)) == ["maccman", "mlroach", "jtrupiano", "stuntmann82", "antpires"]
  {
    ByCreationPermutes();
    ByCreationNames();
    ByCreationIds();
    ByCreationLinks();
    ArrangedAs(ByPosted, reply, ByCreation);
  }

  /** Followers, following and list memberships all rank the five accounts the same way. */
  const ByAudience: seq<User> := [Stuntmann, Antpires, Mlroach, Jtrupiano, Maccman]

  lemma ByAudiencePermutes()
    ensures multiset(ByAudience) == multiset(Reply)
  {
  }

  lemma ByAudienceNames()
    ensures ScreenNames(ByAudience) == ["stuntmann82", "antpires", "mlroach", "jtrupiano", "maccman"]
  {
  }

  lemma ByAudienceIds()
    ensures DistinctIds(ByAudience)
  {
  }

  lemma ByAudienceLinks(k: SortKey)
    requires k == ByFollowers || k == ByFollowing || k == ByListed
    ensures forall i :: 0 <= i < 4 ==> UserPrecedes(k, ByAudience[i], ByAudience[i + 1])
  {
  }

  /**
   * With `--followers`, `--friends` (the number of accounts followed) or
   * `--listed` the accounts come out in the same order, whatever order the
   * service sends them in.
   */
  lemma ByAudienceOrder(k: SortKey, reply: seq<User>)
    requires k == ByFollowers || k == ByFollowing || k == ByListed
    requires multiset(reply) == multiset(Reply)
    ensures ScreenNames(Arrange(k, false, reply)) == ["stuntmann82", "antpires", "mlroach", "jtrupiano", "maccman"]
  {
    ByAudiencePermutes();
    ByAudienceNames();
    ByAudienceIds();
    ByAudienceLinks(k);
    ArrangedAs(k, reply, ByAudience);
  }

  /** With `--unsorted` the accounts keep the service's order. */
  lemma UnsortedOrder()
    ensures ScreenNames(Arrange(Unsorted, false, Reply)) == ["jtrupiano", "mlroach", "antpires", "maccman", "stuntmann82"]
  {
    ArrangeUnsorted(Reply);
    ReplyNames();
  }

  lemma ReplyNames()
    ensures ScreenNames(Reply) == ["jtrupiano", "mlroach", "antpires", "maccman", "stuntmann82"]
  {
  }

  /** With `--reverse` the screen-name order is printed backwards. */
  lemma ReversedOrder(reply: seq<User>)
    requires multiset(reply) == multiset(Reply)
    ensures ScreenNames(Arrange(ByName, true, reply)) == ["stuntmann82", "mlroach", "maccman", "jtrupiano", "antpires"]
  {
    ByNameOrder(reply);
    ArrangeReversed(ByName, reply);
    NamesReversed(Arrange(ByName, false, reply));
    ReversedNames();
  }

  lemma {:induction false} NamesReversed(users: seq<User>)
    ensures ScreenNames(Reverse(users)) == Reverse(ScreenNames(users))
  {
    if users != [] {
      var ns := ScreenNames(users);
      assert Reverse(users) == Reverse(users[1..]) + [users[0]];
      assert ns == [ns[0]] + ns[1..];
      assert Reverse(ns) == Reverse(ns[1..]) + [ns[0]];
      assert ScreenNames(users[1..]) == ns[1..];
      NamesReversed(users[1..]);
      NamesAppend(Reverse(users[1..]), [users[0]]);
    }
  }

  lemma NamesAppend(a: seq<User>, b: seq<User>)
    ensures ScreenNames(a + b) == ScreenNames(a) + ScreenNames(b)
  {
  }

  lemma ReversedNames()
    ensures Reverse(["antpires", "jtrupiano", "maccman", "mlroach", "stuntmann82"])
         == ["stuntmann82", "mlroach", "maccman", "jtrupiano", "antpires"]
  {
  }

  function Handles(names: seq<string>): (r: seq<string>)
    ensures |r| == |names|
    ensures forall i :: 0 <= i < |names| ==> r[i] == Handle(names[i])
  {
    if names == [] then [] else [Handle(names[0])] + Handles(names[1..])
  }

  /** The short listing as printed, trailing blanks dropped. */
  function ShortListing(users: seq<User>): string
  {
    RStrip(InColumns(Handles(ScreenNames(users))))
  }

  /**
   * Five handles in short mode: the longest, twelve characters, sets the
   * column width to fourteen; each handle but the last is padded to it.
   */
  lemma FavoritesColumns(items: seq<string>)
    requires |items| == 5
    requires items[0] == Handle("stuntmann82") && items[1] == Handle("antpires") && items[2] == Handle("maccman")
    requires items[3] == Handle("mlroach") && items[4] == Handle("jtrupiano")
    ensures RStrip(InColumns(items))
         == items[0] + Spaces(2) + items[1] + Spaces(5) + items[2] + Spaces(6) + items[3] + Spaces(6) + items[4]
  {
    FavoritesWidth(items);
    assert items[4][|items[4]| - 1] == 'o';
    InColumnsStripped(items, 14);
    FourPadded(items[..4]);
  }

  lemma FourPadded(items: seq<string>)
    requires |items| == 4
    requires |items[0]| == 12 && |items[1]| == 9 && |items[2]| == 8 && |items[3]| == 8
    ensures Concat(PadAll(items, 14)) == items[0] + Spaces(2) + items[1] + Spaces(5) + items[2] + Spaces(6) + items[3] + Spaces(6)
  {
    var ps := PadAll(items, 14);
    ConcatFour(ps);
    assert ps[0] == items[0] + Spaces(2) && ps[1] == items[1] + Spaces(5);
    assert ps[2] == items[2] + Spaces(6) && ps[3] == items[3] + Spaces(6);
  }

  lemma FavoritesWidth(items: seq<string>)
    requires |items| == 5
    requires |items[0]| == 12 && |items[1]| == 9 && |items[2]| == 8 && |items[3]| == 8 && |items[4]| == 10
    ensures MaxLen(items) == 12
  {
    var ls := Lengths(items);
    assert ls[0] == 12;
    assert forall i :: 0 <= i < |ls| ==> ls[i] <= 12;
  }

  lemma ConcatFour(ps: seq<string>)
    requires |ps| == 4
    ensures Concat(ps) == ps[0] + ps[1] + ps[2] + ps[3]
  {
    assert ps[1..][1..] == ps[2..] && ps[2..][1..] == ps[3..] && ps[3..][1..] == [];
    assert Concat(ps[3..]) == ps[3];
    assert Concat(ps[2..]) == ps[2] + ps[3];
    assert Concat(ps[1..]) == ps[1] + (ps[2] + ps[3]);
  }

  /**
   * The short listing sorted by favorites, exactly as printed: handles in
   * columns of fourteen, the last one unpadded.
   */
  lemma FavoritesListing(reply: seq<User>)
    requires multiset(reply) == multiset(Reply)
    ensures ShortListing(Arrange(ByFavorites, false, reply))
         == Handle("stuntmann82") + Spaces(2) + Handle("antpires") + Spaces(5) + Handle("maccman") + Spaces(6)
          + Handle("mlroach") + Spaces(6) + Handle("jtrupiano")
  {
    var names := ScreenNames(Arrange(ByFavorites, false, reply));
    assert names == ["stuntmann82", "antpires", "maccman", "mlroach", "jtrupiano"] by {
      ByFavoritesOrder(reply);
    }
    var hs := Handles(names);
    assert hs[0] == Handle("stuntmann82") && hs[1] == Handle("antpires") && hs[2] == Handle("maccman");
    assert hs[3] == Handle("mlroach") && hs[4] == Handle("jtrupiano");
    FavoritesColumns(hs);
  }
}
