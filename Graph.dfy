/**
 * The follower-graph commands. `disciples` lists the accounts that follow a
 * user without being followed back, `leaders` the accounts a user follows
 * that do not follow back, and `friends` the accounts that do both. Each
 * command fetches the two identifier lists, combines them, and resolves
 * the result through one lookup whose `user_id` parameter is the
 * identifiers joined by commas. A user named on the command line is passed
 * as `screen_name`, or as `user_id` when `--id` is given.
 */
module Graph {
  import opened Wrappers
  import opened Text

  function Elems(s: seq<nat>): set<nat> {
    set x | x in s
  }

  predicate Distinct(s: seq<nat>) {
    forall i, j :: 0 <= i < j < |s| ==> s[i] != s[j]
  }

  /** `s` without any copy of `x`. */
  function Drop(s: seq<nat>, x: nat): (r: seq<nat>)
    ensures forall y :: y in r <==> y in s && y != x
    ensures |r| <= |s|
  {
    if s == [] then []
    else if s[0] == x then Drop(s[1..], x)
    else [s[0]] + Drop(s[1..], x)
  }

  /**
   * The identifiers of `a`, each once, in the order of their first
   * appearance, that are in `b` when `inside` holds and not in `b` otherwise.
   */
  function Keep(a: seq<nat>, b: seq<nat>, inside: bool): (r: seq<nat>)
    ensures forall x :: x in r <==> x in a && (x in b <==> inside)
    ensures Distinct(r)
    decreases |a|
  {
    if a == [] then []
    else if (a[0] in b) == inside then [a[0]] + Keep(Drop(a[1..], a[0]), b, inside)
    else Keep(a[1..], b, inside)
  }

  /** Followers who are not friends. */
  function Disciples(followers: seq<nat>, friends: seq<nat>): seq<nat>
  {
    Keep(followers, friends, false)
  }

  /** Friends who are not followers. */
  function Leaders(friends: seq<nat>, followers: seq<nat>): seq<nat>
  {
    Keep(friends, followers, false)
  }

  /** Friends who are also followers. */
  function Mutual(friends: seq<nat>, followers: seq<nat>): seq<nat>
  {
    Keep(friends, followers, true)
  }

  /**
   * Every follower is a disciple or a mutual friend and never both; every
   * friend is a leader or a mutual friend and never both.
   */
  lemma Partition(friends: seq<nat>, followers: seq<nat>, x: nat)
    ensures x in followers ==> (x in Disciples(followers, friends) <==> x !in Mutual(friends, followers))
    ensures x in friends ==> (x in Leaders(friends, followers) <==> x !in Mutual(friends, followers))
    ensures x in Disciples(followers, friends) || x in Mutual(friends, followers) ==> x in followers
    ensures x in Leaders(friends, followers) || x in Mutual(friends, followers) ==> x in friends
    ensures !(x in Disciples(followers, friends) && x in Leaders(friends, followers))
  {
  }

  /** Mutual friendship is symmetric: both directions hold the same accounts. */
  lemma MutualSymmetric(a: seq<nat>, b: seq<nat>)
    ensures Elems(Mutual(a, b)) == Elems(Mutual(b, a))
  {
  }

  lemma {:induction false} DistinctCard(s: seq<nat>)
    requires Distinct(s)
    ensures |Elems(s)| == |s|
  {
    if s != [] {
      DistinctCard(s[1..]);
      assert Elems(s) == Elems(s[1..]) + {s[0]};
      assert s[0] !in Elems(s[1..]);
    }
  }

  lemma {:induction false} CardBound(s: seq<nat>)
    ensures |Elems(s)| <= |s|
  {
    if s != [] {
      CardBound(s[1..]);
      assert Elems(s) == Elems(s[1..]) + {s[0]};
    }
  }

  lemma SubsetCard(small: set<nat>, big: set<nat>)
    requires small <= big
    ensures |small| <= |big|
    decreases big
  {
    if small != {} {
      var x :| x in small;
      SubsetCard(small - {x}, big - {x});
    }
  }

  /** There are no more mutual friends than friends, nor than followers. */
  lemma MutualBound(a: seq<nat>, b: seq<nat>)
    ensures |Mutual(a, b)| <= |a| && |Mutual(a, b)| <= |b|
  {
    var m := Mutual(a, b);
    DistinctCard(m);
    CardBound(a);
    CardBound(b);
    SubsetCard(Elems(m), Elems(a));
    SubsetCard(Elems(m), Elems(b));
  }

  // ------------------------------------------------------------ the lookup

  function Decimals(ids: seq<nat>): (r: seq<string>)
    ensures |r| == |ids|
    ensures forall i :: 0 <= i < |ids| ==> r[i] == NatToString(ids[i])
  {
    if ids == [] then [] else [NatToString(ids[0])] + Decimals(ids[1..])
  }

  /** The `user_id` parameter of a lookup: the decimal identifiers joined by commas. */
  function LookupParam(ids: seq<nat>): string
  {
    Join(Decimals(ids), ',')
  }

  /** Reads every piece of a comma-separated list as an identifier. */
  function ParseIds(pieces: seq<string>): (r: Option<seq<nat>>)
    ensures r.Some? ==> |r.value| == |pieces|
  {
    if pieces == [] then Some([])
    else match (ParseNat(pieces[0]), ParseIds(pieces[1..]))
      case (Some(n), Some(ns)) => Some([n] + ns)
      case _ => None
  }

  /** A lookup parameter names exactly the identifiers it was built from, in order. */
  lemma LookupParamRoundTrip(ids: seq<nat>)
    requires ids != []
    ensures ParseIds(Split(LookupParam(ids), ',')) == Some(ids)
  {
    var ds := Decimals(ids);
    forall i | 0 <= i < |ds| ensures ',' !in ds[i] {
      DigitsAvoid(ds[i], ',');
    }
    SplitJoin(ds, ',');
    DecimalsParse(ids);
  }

  lemma {:induction false} DecimalsParse(ids: seq<nat>)
    ensures ParseIds(Decimals(ids)) == Some(ids)
  {
    if ids != [] {
      ParseNatToString(ids[0]);
      DecimalsParse(ids[1..]);
      assert Decimals(ids)[1..] == Decimals(ids[1..]);
      assert [ids[0]] + ids[1..] == ids;
    }
  }

  /** The two disciples of the examples are looked up together. */
  lemma DisciplesLookup(a: nat, b: nat)
    requires a == 213747670 && b == 428004849
    ensures LookupParam([a, b]) == "213747670" + "," + "428004849"
  {
    LookupPair(a, b);
    FirstDiscipleDigits(a);
    SecondDiscipleDigits(b);
  }

  /** Two identifiers are sent as their decimals around one comma. */
  lemma LookupPair(a: nat, b: nat)
    ensures LookupParam([a, b]) == NatToString(a) + "," + NatToString(b)
  {
    var ds := Decimals([a, b]);
    assert ds == [NatToString(a), NatToString(b)];
    assert ds[1..] == [NatToString(b)];
    assert Join(ds[1..], ',') == NatToString(b);
  }

  lemma FirstDiscipleDigits(n: nat)
    requires n == 213747670
    ensures NatToString(n) == "213747670"
  {
    DigitsAppend("", '2');
    assert "" + ['2'] == "2";
    assert DigitsValue("2") == 2;
    DigitsAppend("2", '1');
    assert "2" + ['1'] == "21";
    assert DigitsValue("21") == 21;
    DigitsAppend("21", '3');
    assert "21" + ['3'] == "213";
    assert DigitsValue("213") == 213;
    DigitsAppend("213", '7');
    assert "213" + ['7'] == "2137";
    assert DigitsValue("2137") == 2137;
    DigitsAppend("2137", '4');
    assert "2137" + ['4'] == "21374";
    assert DigitsValue("21374") == 21374;
    DigitsAppend("21374", '7');
    assert "21374" + ['7'] == "213747";
    assert DigitsValue("213747") == 213747;
    DigitsAppend("213747", '6');
    assert "213747" + ['6'] == "2137476";
    assert DigitsValue("2137476") == 2137476;
    DigitsAppend("2137476", '7');
    assert "2137476" + ['7'] == "21374767";
    assert DigitsValue("21374767") == 21374767;
    DigitsAppend("21374767", '0');
    assert "21374767" + ['0'] == "213747670";
    CanonicalDigits("213747670");
  }

  lemma SecondDiscipleDigits(n: nat)
    requires n == 428004849
    ensures NatToString(n) == "428004849"
  {
    DigitsAppend("", '4');
    assert "" + ['4'] == "4";
    assert DigitsValue("4") == 4;
    DigitsAppend("4", '2');
    assert "4" + ['2'] == "42";
    assert DigitsValue("42") == 42;
    DigitsAppend("42", '8');
    assert "42" + ['8'] == "428";
    assert DigitsValue("428") == 428;
    DigitsAppend("428", '0');
    assert "428" + ['0'] == "4280";
    assert DigitsValue("4280") == 4280;
    DigitsAppend("4280", '0');
    assert "4280" + ['0'] == "42800";
    assert DigitsValue("42800") == 42800;
    DigitsAppend("42800", '4');
    assert "42800" + ['4'] == "428004";
    assert DigitsValue("428004") == 428004;
    DigitsAppend("428004", '8');
    assert "428004" + ['8'] == "4280048";
    assert DigitsValue("4280048") == 4280048;
    DigitsAppend("4280048", '4');
    assert "4280048" + ['4'] == "42800484";
    assert DigitsValue("42800484") == 42800484;
    DigitsAppend("42800484", '9');
    assert "42800484" + ['9'] == "428004849";
    CanonicalDigits("428004849");
  }

  // ------------------------------------------------------------ subjects

  /** How a user named on the command line is passed to the service. */
  datatype Subject = ScreenName(name: string) | UserId(id: string)

  function SubjectOf(arg: string, byId: bool): (s: Subject)
  {
    if byId then UserId(arg) else ScreenName(arg)
  }

  /** The request parameter that carries a subject. */
  function Param(s: Subject): (p: (string, string))
  {
    match s
    case ScreenName(n) => ("screen_name", n)
    case UserId(i) => ("user_id", i)
  }

  /** Recovers the argument and the `--id` flag from a request parameter. */
  function ArgumentOf(p: (string, string)): Option<(string, bool)>
  {
    if p.0 == "user_id" then Some((p.1, true))
    else if p.0 == "screen_name" then Some((p.1, false))
    else None
  }

  /**
   * The argument is sent verbatim, under `user_id` exactly when `--id` is
   * given and under `screen_name` otherwise.
   */
  lemma SubjectDispatch(arg: string, byId: bool)
    ensures Param(SubjectOf(arg, byId)).1 == arg
    ensures Param(SubjectOf(arg, byId)).0 == "user_id" <==> byId
    ensures Param(SubjectOf(arg, byId)).0 == "screen_name" <==> !byId
    ensures ArgumentOf(Param(SubjectOf(arg, byId))) == Some((arg, byId))
  {
  }
}
