/**
 * The sort engine. A listing is ordered by one named key, ascending, with
 * ties broken by the record's identifier; by default users are ordered by
 * screen name and places by name. The key "unsorted" keeps the order the
 * service returned, and the reverse flag reverses whatever order results.
 *
 * The engine is a stable insertion sort over any total preorder; its result
 * is sorted and a permutation of its input, and for records with distinct
 * identifiers it is the only such sequence, so it does not depend on the
 * order the records arrived in.
 */
module Sorting {
  import opened Wrappers
  import opened Times
  import opened Records

  // ------------------------------------------------------------ generic engine

  ghost predicate Total<T(!new)>(prec: (T, T) -> bool) {
    forall a, b :: prec(a, b) || prec(b, a)
  }

  ghost predicate Transitive<T(!new)>(prec: (T, T) -> bool) {
    forall a, b, c :: prec(a, b) && prec(b, c) ==> prec(a, c)
  }

  predicate Sorted<T>(prec: (T, T) -> bool, s: seq<T>) {
    forall i, j :: 0 <= i < j < |s| ==> prec(s[i], s[j])
  }

  /** Places `x` before the first element it precedes. */
  function Insert<T>(prec: (T, T) -> bool, x: T, s: seq<T>): (r: seq<T>)
    ensures multiset(r) == multiset(s) + multiset{x}
    ensures |r| == |s| + 1
  {
    if s == [] || prec(x, s[0]) then [x] + s
    else
      assert s == [s[0]] + s[1..];
      [s[0]] + Insert(prec, x, s[1..])
  }

  function Sort<T>(prec: (T, T) -> bool, s: seq<T>): (r: seq<T>)
    ensures multiset(r) == multiset(s)
    ensures |r| == |s|
  {
    if s == [] then []
    else
      assert s == [s[0]] + s[1..];
      Insert(prec, s[0], Sort(prec, s[1..]))
  }

  lemma {:induction false} InsertSorted<T(!new)>(prec: (T, T) -> bool, x: T, s: seq<T>)
    requires Total(prec) && Transitive(prec)
    requires Sorted(prec, s)
    ensures Sorted(prec, Insert(prec, x, s))
  {
    if s == [] || prec(x, s[0]) {
    } else {
      InsertSorted(prec, x, s[1..]);
      var r := Insert(prec, x, s[1..]);
      assert prec(s[0], x);
      forall y | y in multiset(r) ensures prec(s[0], y) {
        assert y in multiset(s[1..]) + multiset{x};
        if y in multiset(s[1..]) {
          var k :| 0 <= k < |s[1..]| && s[1..][k] == y;
          assert s[k + 1] == y;
        }
      }
      forall j | 0 <= j < |r| ensures prec(s[0], r[j]) {
        assert r[j] in multiset(r);
      }
    }
  }

  /** The engine's output is in order. */
  lemma {:induction false} SortSorted<T(!new)>(prec: (T, T) -> bool, s: seq<T>)
    requires Total(prec) && Transitive(prec)
    ensures Sorted(prec, Sort(prec, s))
  {
    if s != [] {
      SortSorted(prec, s[1..]);
      InsertSorted(prec, s[0], Sort(prec, s[1..]));
    }
  }

  /** Input that is already in order comes out unchanged. */
  lemma {:induction false} SortOfSorted<T>(prec: (T, T) -> bool, s: seq<T>)
    requires Sorted(prec, s)
    ensures Sort(prec, s) == s
  {
    if s != [] {
      SortOfSorted(prec, s[1..]);
      assert s[1..] == [] || prec(s[0], s[1..][0]);
      assert [s[0]] + s[1..] == s;
    }
  }

  /** Sorting twice gives what sorting once gives. */
  lemma SortIdempotent<T(!new)>(prec: (T, T) -> bool, s: seq<T>)
    requires Total(prec) && Transitive(prec)
    ensures Sort(prec, Sort(prec, s)) == Sort(prec, s)
  {
    SortSorted(prec, s);
    SortOfSorted(prec, Sort(prec, s));
  }

  /**
   * Two ordered sequences holding the same elements are equal, provided
   * elements that precede each other coincide (the tie-break makes every
   * record distinct).
   */
  lemma {:induction false} SortedUnique<T>(prec: (T, T) -> bool, a: seq<T>, b: seq<T>)
    requires Sorted(prec, a) && Sorted(prec, b) && multiset(a) == multiset(b)
    requires forall x, y :: x in a && y in a && prec(x, y) && prec(y, x) ==> x == y
    requires forall x :: x in a ==> prec(x, x)
    ensures a == b
  {
    if a != [] {
      SameFirst(prec, a, b);
      DropFirst(a, b);
      forall x, y | x in a[1..] && y in a[1..] && prec(x, y) && prec(y, x) ensures x == y {
        assert x in a && y in a;
      }
      SortedUnique(prec, a[1..], b[1..]);
      assert a == [a[0]] + a[1..] && b == [b[0]] + b[1..];
    }
  }

  /** Both ordered sequences start with the same element. */
  lemma SameFirst<T>(prec: (T, T) -> bool, a: seq<T>, b: seq<T>)
    requires a != [] && Sorted(prec, a) && Sorted(prec, b) && multiset(a) == multiset(b)
    requires forall x, y :: x in a && y in a && prec(x, y) && prec(y, x) ==> x == y
    requires forall x :: x in a ==> prec(x, x)
    ensures b != [] && a[0] == b[0]
  {
    assert a[0] in multiset(b);
    assert b[0] in multiset(a);
    var i :| 0 <= i < |a| && a[i] == b[0];
    var j :| 0 <= j < |b| && b[j] == a[0];
    assert prec(a[0], b[0]);
    assert prec(b[0], a[0]);
  }

  lemma DropFirst<T>(a: seq<T>, b: seq<T>)
    requires a != [] && b != [] && a[0] == b[0] && multiset(a) == multiset(b)
    ensures multiset(a[1..]) == multiset(b[1..])
  {
    assert a == [a[0]] + a[1..] && b == [b[0]] + b[1..];
    assert multiset(a[1..]) == multiset(a) - multiset{a[0]};
    assert multiset(b[1..]) == multiset(b) - multiset{b[0]};
  }

  // ------------------------------------------------------------ reversal

  function Reverse<T>(s: seq<T>): (r: seq<T>)
    ensures |r| == |s|
    ensures forall i :: 0 <= i < |s| ==> r[i] == s[|s| - 1 - i]
  {
    if s == [] then [] else Reverse(s[1..]) + [s[0]]
  }

  lemma ReverseReverse<T>(s: seq<T>)
    ensures Reverse(Reverse(s)) == s
  {
  }

  lemma {:induction false} ReverseMultiset<T>(s: seq<T>)
    ensures multiset(Reverse(s)) == multiset(s)
  {
    if s != [] {
      ReverseMultiset(s[1..]);
      assert s == [s[0]] + s[1..];
    }
  }

  // ------------------------------------------------------------ keys

  datatype SortKey = ByName | ByTweets | ByFavorites | ByListed | ByFollowing | ByFollowers | ByPosted | Unsorted

  /** The command-line flag that selects each key; following counts are selected by "friends". */
  function FlagOf(k: SortKey): string
  {
    match k
    case ByName => ""
    case ByTweets => "tweets"
    case ByFavorites => "favorites"
    case ByListed => "listed"
    case ByFollowing => "friends"
    case ByFollowers => "followers"
    case ByPosted => "posted"
    case Unsorted => "unsorted"
  }

  /** The key a flag selects; no flag selects the name. */
  function KeyOfFlag(flag: string): (k: Option<SortKey>)
    ensures k.Some? ==> FlagOf(k.value) == flag
  {
    if flag == "" then Some(ByName)
    else if flag == "tweets" then Some(ByTweets)
    else if flag == "favorites" then Some(ByFavorites)
    else if flag == "listed" then Some(ByListed)
    else if flag == "friends" then Some(ByFollowing)
    else if flag == "followers" then Some(ByFollowers)
    else if flag == "posted" then Some(ByPosted)
    else if flag == "unsorted" then Some(Unsorted)
    else None
  }

  /** Every key has its own flag. */
  lemma FlagsSelectKeys(k: SortKey)
    ensures KeyOfFlag(FlagOf(k)) == Some(k)
  {
  }

  /** Code-point order on strings, a proper prefix first. */
  predicate StrLt(a: string, b: string)
  {
    if a == [] then b != []
    else if b == [] then false
    else a[0] < b[0] || (a[0] == b[0] && StrLt(a[1..], b[1..]))
  }

  lemma {:induction false} StrLtTrichotomy(a: string, b: string)
    ensures a == b || StrLt(a, b) || StrLt(b, a)
    ensures !(StrLt(a, b) && StrLt(b, a))
    ensures !StrLt(a, a)
  {
    if a != [] && b != [] {
      StrLtTrichotomy(a[1..], b[1..]);
      if a[0] == b[0] && a[1..] == b[1..] {
        assert a == [a[0]] + a[1..] && b == [b[0]] + b[1..];
      }
      StrLtTrichotomy(a[1..], a[1..]);
    } else if a != [] {
      StrLtTrichotomy(a[1..], a[1..]);
    }
  }

  lemma {:induction false} StrLtTransitive(a: string, b: string, c: string)
    requires StrLt(a, b) && StrLt(b, c)
    ensures StrLt(a, c)
  {
    if a != [] && a[0] == b[0] && b[0] == c[0] {
      StrLtTransitive(a[1..], b[1..], c[1..]);
    }
  }

  /** Chronological order of two timestamps. */
  predicate Earlier(a: DateTime, b: DateTime)
  {
    if a.year != b.year then a.year < b.year
    else if a.month != b.month then a.month < b.month
    else if a.day != b.day then a.day < b.day
    else if a.hour != b.hour then a.hour < b.hour
    else if a.minute != b.minute then a.minute < b.minute
    else a.second < b.second
  }

  /** The count a numeric key reads. */
  function Count(k: SortKey, u: User): nat
  {
    match k
    case ByTweets => u.tweets
    case ByFavorites => u.favorites
    case ByListed => u.listed
    case ByFollowing => u.following
    case ByFollowers => u.followers
    case _ => 0
  }

  predicate KeyLess(k: SortKey, a: User, b: User)
  {
    if k == ByName then StrLt(a.screenName, b.screenName)
    else if k == ByPosted then Earlier(a.since, b.since)
    else Count(k, a) < Count(k, b)
  }

  predicate KeySame(k: SortKey, a: User, b: User)
  {
    if k == ByName then a.screenName == b.screenName
    else if k == ByPosted then a.since == b.since
    else Count(k, a) == Count(k, b)
  }

  /** `a` may come before `b`: a smaller key, or the same key and an identifier no larger. */
  predicate UserPrecedes(k: SortKey, a: User, b: User)
  {
    KeyLess(k, a, b) || (KeySame(k, a, b) && a.id <= b.id)
  }

  lemma KeyOrder(k: SortKey, a: User, b: User)
    ensures KeySame(k, a, b) || KeyLess(k, a, b) || KeyLess(k, b, a)
    ensures !(KeyLess(k, a, b) && KeyLess(k, b, a))
    ensures !(KeyLess(k, a, b) && KeySame(k, a, b))
  {
    if k == ByName {
      StrLtTrichotomy(a.screenName, b.screenName);
    }
  }

  lemma KeyLessTransitive(k: SortKey, a: User, b: User, c: User)
    requires (KeyLess(k, a, b) || KeySame(k, a, b)) && (KeyLess(k, b, c) || KeySame(k, b, c))
    ensures KeyLess(k, a, c) || (KeySame(k, a, b) && KeySame(k, b, c))
    ensures KeySame(k, a, b) && KeySame(k, b, c) ==> KeySame(k, a, c)
  {
    if k == ByName && StrLt(a.screenName, b.screenName) && StrLt(b.screenName, c.screenName) {
      StrLtTransitive(a.screenName, b.screenName, c.screenName);
    }
  }

  function UserOrder(k: SortKey): (prec: (User, User) -> bool)
  {
    (a, b) => UserPrecedes(k, a, b)
  }

  /** Every key orders users totally and transitively; records that precede each other have equal key and identifier. */
  lemma UserOrderIsPreorder(k: SortKey)
    ensures Total(UserOrder(k)) && Transitive(UserOrder(k))
    ensures forall a, b :: UserPrecedes(k, a, b) && UserPrecedes(k, b, a) ==> KeySame(k, a, b) && a.id == b.id
  {
    forall a, b ensures UserPrecedes(k, a, b) || UserPrecedes(k, b, a) {
      KeyOrder(k, a, b);
    }
    forall a, b, c | UserPrecedes(k, a, b) && UserPrecedes(k, b, c) ensures UserPrecedes(k, a, c) {
      KeyLessTransitive(k, a, b, c);
    }
    forall a, b | UserPrecedes(k, a, b) && UserPrecedes(k, b, a) ensures KeySame(k, a, b) && a.id == b.id {
      KeyOrder(k, a, b);
    }
  }

  /** Users come in order of their identifiers at most once each. */
  predicate DistinctIds(s: seq<User>) {
    forall i, j :: 0 <= i < |s| && 0 <= j < |s| && s[i].id == s[j].id ==> i == j
  }

  // ------------------------------------------------------------ arranging a listing

  /** The order a listing is printed in. */
  function Arrange(k: SortKey, reverse: bool, users: seq<User>): (r: seq<User>)
    ensures multiset(r) == multiset(users)
  {
    var base := if k == Unsorted then users else Sort(UserOrder(k), users);
    ReverseMultiset(base);
    if reverse then Reverse(base) else base
  }

  /** "unsorted" prints the service's order, or its exact reversal. */
  lemma ArrangeUnsorted(users: seq<User>)
    ensures Arrange(Unsorted, false, users) == users
    ensures Arrange(Unsorted, true, users) == Reverse(users)
  {
  }

  /** Reverse prints exactly the reversal of the forward order, for every key. */
  lemma ArrangeReversed(k: SortKey, users: seq<User>)
    ensures Arrange(k, true, users) == Reverse(Arrange(k, false, users))
    ensures Reverse(Arrange(k, true, users)) == Arrange(k, false, users)
  {
    ReverseReverse(Arrange(k, false, users));
  }

  /**
   * With a key, the forward order is ascending in (key, identifier) and the
   * reversed order descending.
   */
  lemma ArrangeOrdered(k: SortKey, users: seq<User>)
    requires k != Unsorted
    ensures forall i, j :: 0 <= i < j < |users| ==> UserPrecedes(k, Arrange(k, false, users)[i], Arrange(k, false, users)[j])
    ensures forall i, j :: 0 <= i < j < |users| ==> UserPrecedes(k, Arrange(k, true, users)[j], Arrange(k, true, users)[i])
  {
    UserOrderIsPreorder(k);
    SortSorted(UserOrder(k), users);
  }

  /**
   * Users with distinct identifiers are printed in an order that depends on
   * the users alone, not on the order the service returned them in.
   */
  lemma ArrangeIgnoresArrival(k: SortKey, reverse: bool, s: seq<User>, t: seq<User>)
    requires k != Unsorted
    requires multiset(s) == multiset(t) && DistinctIds(s)
    ensures Arrange(k, reverse, s) == Arrange(k, reverse, t)
  {
    var prec := UserOrder(k);
    UserOrderIsPreorder(k);
    SortSorted(prec, s);
    SortSorted(prec, t);
    var a, b := Sort(prec, s), Sort(prec, t);
    forall x, y | x in a && y in a && prec(x, y) && prec(y, x) ensures x == y {
      assert x in multiset(s) && y in multiset(s);
      var i :| 0 <= i < |s| && s[i] == x;
      var j :| 0 <= j < |s| && s[j] == y;
    }
    SortedUnique(prec, a, b);
  }

  /** The same listing sorted twice by the same key comes out the same. */
  lemma ArrangeStable(k: SortKey, users: seq<User>)
    requires k != Unsorted
    ensures Arrange(k, false, Arrange(k, false, users)) == Arrange(k, false, users)
  {
    UserOrderIsPreorder(k);
    SortIdempotent(UserOrder(k), users);
  }

  /** An order given link by link is an order. */
  lemma {:induction false} SortedByNeighbours<T>(prec: (T, T) -> bool, s: seq<T>)
    requires forall a, b, c :: prec(a, b) && prec(b, c) ==> prec(a, c)
    requires forall i :: 0 <= i < |s| - 1 ==> prec(s[i], s[i + 1])
    ensures Sorted(prec, s)
  {
    if |s| > 1 {
      SortedByNeighbours(prec, s[1..]);
      forall j | 1 < j < |s| ensures prec(s[0], s[j]) {
        assert prec(s[1], s[j]) by { assert s[1..][0] == s[1] && s[1..][j - 1] == s[j]; }
      }
    }
  }

  /**
   * The printed order is determined: a listing holding the same users as
   * the service's reply, with distinct identifiers and in ascending (key,
   * identifier) order, is the one printed.
   */
  lemma ArrangedAs(k: SortKey, users: seq<User>, expected: seq<User>)
    requires k != Unsorted && DistinctIds(expected) && multiset(expected) == multiset(users)
    requires forall i :: 0 <= i < |expected| - 1 ==> UserPrecedes(k, expected[i], expected[i + 1])
    ensures Arrange(k, false, users) == expected
  {
    UserOrderIsPreorder(k);
    SortedByNeighbours(UserOrder(k), expected);
    SortOfSorted(UserOrder(k), expected);
    ArrangeIgnoresArrival(k, false, expected, users);
  }

  // ------------------------------------------------------------ places

  /** Places are listed by name, ties by identifier. */
  predicate PlacePrecedes(a: Place, b: Place)
  {
    StrLt(a.name, b.name) || (a.name == b.name && a.woeid <= b.woeid)
  }

  function PlaceOrder(): (prec: (Place, Place) -> bool)
  {
    (a, b) => PlacePrecedes(a, b)
  }

  function ArrangePlaces(unsorted: bool, reverse: bool, places: seq<Place>): (r: seq<Place>)
    ensures multiset(r) == multiset(places)
  {
    var base := if unsorted then places else Sort(PlaceOrder(), places);
    ReverseMultiset(base);
    if reverse then Reverse(base) else base
  }

  /** Tweets and messages keep the service's order; the reverse flag prints them backwards. */
  function ArrangePosts(reverse: bool, posts: seq<Post>): (r: seq<Post>)
    ensures multiset(r) == multiset(posts)
    ensures |r| == |posts|
    ensures forall i :: 0 <= i < |posts| ==> r[i] == posts[if reverse then |posts| - 1 - i else i]
  {
    ReverseMultiset(posts);
    if reverse then Reverse(posts) else posts
  }

  /** Places come out in name order, and reversed on request. */
  lemma ArrangePlacesOrdered(places: seq<Place>)
    ensures forall i, j :: 0 <= i < j < |places| ==> PlacePrecedes(ArrangePlaces(false, false, places)[i], ArrangePlaces(false, false, places)[j])
    ensures ArrangePlaces(false, true, places) == Reverse(ArrangePlaces(false, false, places))
    ensures ArrangePlaces(true, false, places) == places
  {
    var prec := PlaceOrder();
    forall a, b ensures prec(a, b) || prec(b, a) {
      StrLtTrichotomy(a.name, b.name);
    }
    forall a, b, c | prec(a, b) && prec(b, c) ensures prec(a, c) {
      if StrLt(a.name, b.name) && StrLt(b.name, c.name) {
        StrLtTransitive(a.name, b.name, c.name);
      }
    }
    SortSorted(prec, places);
  }
}
