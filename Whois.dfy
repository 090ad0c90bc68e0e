/**
 * The profile view `whois` prints for one account: a key/value table of
 * thirteen labelled lines, the values starting two columns after the
 * longest label.
 */
module Whois {
  import opened Wrappers
  import opened Text
  import opened Numbers
  import opened Times
  import opened Records
  import opened Table

  /** The profile view, `age` being the phrase for the latest tweet's age. */
  function ProfileView(pr: Profile, age: string): (lines: seq<string>)
    ensures |lines| == 13
  {
    KeyValue(ProfilePairs(pr, age))
  }

  /** The `whois` view against the clock `now`; None when the latest tweet's age has no phrase in this model. */
  function UserView(pr: Profile, now: DateTime): (lines: Option<seq<string>>)
    ensures lines.Some? <==> TimeAgo(pr.latest.postedAt, now).Some?
    ensures lines.Some? ==> lines.value == ProfileView(pr, TimeAgo(pr.latest.postedAt, now).value)
  {
    match TimeAgo(pr.latest.postedAt, now)
    case None => None
    case Some(age) => Some(ProfileView(pr, age))
  }

  /**
   * The profile view: thirteen labelled lines, each label padded to 13
   * columns (two past "Last update", the longest label) and followed by its
   * value; the latest tweet is followed by its age in parentheses.
   */
  lemma ProfileViewLines(pr: Profile, age: string)
    ensures ProfileView(pr, age)[0] == LJust("ID", 13) + NatToString(pr.user.id)
    ensures ProfileView(pr, age)[1] == LJust("Name", 13) + pr.user.name
    ensures ProfileView(pr, age)[2] == LJust("Bio", 13) + pr.bio
    ensures ProfileView(pr, age)[3] == LJust("Location", 13) + pr.location
    ensures ProfileView(pr, age)[4] == LJust("URL", 13) + pr.url
    ensures ProfileView(pr, age)[5] == LJust("Status", 13) + (if pr.followed then "Following" else "Not following")
    ensures ProfileView(pr, age)[6] == LJust("Last update", 13) + (pr.latest.text + " (" + age + ")")
    ensures ProfileView(pr, age)[7] == LJust("Since", 13) + LongDate(pr.user.since)
    ensures ProfileView(pr, age)[8] == LJust("Tweets", 13) + Grouped(pr.user.tweets)
    ensures ProfileView(pr, age)[9] == LJust("Favorites", 13) + Grouped(pr.user.favorites)
    ensures ProfileView(pr, age)[10] == LJust("Listed", 13) + Grouped(pr.user.listed)
    ensures ProfileView(pr, age)[11] == LJust("Following", 13) + Grouped(pr.user.following)
    ensures ProfileView(pr, age)[12] == LJust("Followers", 13) + Grouped(pr.user.followers)
  {
    ProfileIdRow(pr, age);
    ProfileNameRow(pr, age);
    ProfileBioRow(pr, age);
    ProfileLocationRow(pr, age);
    ProfileUrlRow(pr, age);
    ProfileStatusRow(pr, age);
    ProfileUpdateRow(pr, age);
    ProfileSinceRow(pr, age);
    ProfileTweetsRow(pr, age);
    ProfileFavoritesRow(pr, age);
    ProfileListedRow(pr, age);
    ProfileFollowingRow(pr, age);
    ProfileFollowersRow(pr, age);
  }

  lemma ProfileIdRow(pr: Profile, age: string)
    ensures ProfileView(pr, age)[0] == LJust("ID", 13) + NatToString(pr.user.id)
  {
    ProfileRow(pr, age, 0, "ID", NatToString(pr.user.id));
  }

  lemma ProfileNameRow(pr: Profile, age: string)
    ensures ProfileView(pr, age)[1] == LJust("Name", 13) + pr.user.name
  {
    ProfileRow(pr, age, 1, "Name", pr.user.name);
  }

  lemma ProfileBioRow(pr: Profile, age: string)
    ensures ProfileView(pr, age)[2] == LJust("Bio", 13) + pr.bio
  {
    ProfileRow(pr, age, 2, "Bio", pr.bio);
  }

  lemma ProfileLocationRow(pr: Profile, age: string)
    ensures ProfileView(pr, age)[3] == LJust("Location", 13) + pr.location
  {
    ProfileRow(pr, age, 3, "Location", pr.location);
  }

  lemma ProfileUrlRow(pr: Profile, age: string)
    ensures ProfileView(pr, age)[4] == LJust("URL", 13) + pr.url
  {
    ProfileRow(pr, age, 4, "URL", pr.url);
  }

  lemma ProfileStatusRow(pr: Profile, age: string)
    ensures ProfileView(pr, age)[5] == LJust("Status", 13) + (if pr.followed then "Following" else "Not following")
  {
    ProfileRow(pr, age, 5, "Status", if pr.followed then "Following" else "Not following");
  }

  lemma ProfileUpdateRow(pr: Profile, age: string)
    ensures ProfileView(pr, age)[6] == LJust("Last update", 13) + (pr.latest.text + " (" + age + ")")
  {
    ProfileRow(pr, age, 6, "Last update", pr.latest.text + " (" + age + ")");
  }

  lemma ProfileSinceRow(pr: Profile, age: string)
    ensures ProfileView(pr, age)[7] == LJust("Since", 13) + LongDate(pr.user.since)
  {
    ProfileRow(pr, age, 7, "Since", LongDate(pr.user.since));
  }

  lemma ProfileTweetsRow(pr: Profile, age: string)
    ensures ProfileView(pr, age)[8] == LJust("Tweets", 13) + Grouped(pr.user.tweets)
  {
    ProfileRow(pr, age, 8, "Tweets", Grouped(pr.user.tweets));
  }

  lemma ProfileFavoritesRow(pr: Profile, age: string)
    ensures ProfileView(pr, age)[9] == LJust("Favorites", 13) + Grouped(pr.user.favorites)
  {
    ProfileRow(pr, age, 9, "Favorites", Grouped(pr.user.favorites));
  }

  lemma ProfileListedRow(pr: Profile, age: string)
    ensures ProfileView(pr, age)[10] == LJust("Listed", 13) + Grouped(pr.user.listed)
  {
    ProfileRow(pr, age, 10, "Listed", Grouped(pr.user.listed));
  }

  lemma ProfileFollowingRow(pr: Profile, age: string)
    ensures ProfileView(pr, age)[11] == LJust("Following", 13) + Grouped(pr.user.following)
  {
    ProfileRow(pr, age, 11, "Following", Grouped(pr.user.following));
  }

  lemma ProfileFollowersRow(pr: Profile, age: string)
    ensures ProfileView(pr, age)[12] == LJust("Followers", 13) + Grouped(pr.user.followers)
  {
    ProfileRow(pr, age, 12, "Followers", Grouped(pr.user.followers));
  }

  /** Row `i` of the profile view is its label padded to 13 columns, then its value. */
  lemma ProfileRow(pr: Profile, age: string, i: nat, key: string, value: string)
    requires i < 13 && ProfileLabel(i) == key && ProfileValue(pr, age, i) == value
    ensures ProfileView(pr, age)[i] == LJust(key, 13) + value
  {
    var pairs := ProfilePairs(pr, age);
    ProfileKeys(pr, age);
    ProfileLabelWidth();
    KeyValueAligned(pairs, i);
    assert pairs[i] == (key, value);
  }

  /** The keys of the profile pairs are the profile labels. */
  lemma ProfileKeys(pr: Profile, age: string)
    ensures Keys(ProfilePairs(pr, age)) == ProfileLabels()
  {
  }

  /** "Last update" is the longest label. */
  lemma ProfileLabelWidth()
    ensures MaxLen(ProfileLabels()) == 11
  {
    var ls := Lengths(ProfileLabels());
    assert ls[6] == |ProfileLabel(6)| == 11;
    forall i | 0 <= i < |ls| ensures ls[i] <= 11 {
      assert ls[i] == |ProfileLabel(i)|;
    }
  }
}
