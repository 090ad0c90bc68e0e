# t — the Twitter command-line client, as its behaviour suite pins it

`t` is a command-line client for Twitter. Each command fetches records from
the service, then arranges them and prints them in one of four layouts:

- **short**: handles on one line, padded into even columns;
- **one-line**: for tweets and direct messages, the author right-justified to
  twenty characters, then the text and its age;
- **long**: an aligned table with a header;
- **CSV**: with a header.

Listings of users are sorted by screen name unless a sort flag picks another
key:

- `--tweets`, `--favorites`, `--listed`, `--friends`, `--followers`, `--posted`;
- `--unsorted` keeps the service's order;
- `--reverse` reverses whatever order was chosen.

`disciples`, `leaders` and `friends` combine the follower and friend
identifier lists of an account, then resolve the result with one lookup.
`follow` and `unfollow` require at least one user and retry a request that
meets "service unavailable", three attempts in all. Output goes to standard
output. The behaviour is fixed against a frozen clock, 2011-11-24 16:20:00 UTC.

The model is a set of Dafny modules:

| module | what it holds |
|---|---|
| `Wrappers` | `Option` and `Result` |
| `Text` | padding, stripping, decimal digits, join and split |
| `Numbers` | counts grouped in thousands (`1,871`) |
| `Times` | calendar dates, the two date formats, the relative age of a post |
| `Csv` | CSV field quoting and a reader for the rows it writes |
| `Records` | users, tweets/messages and trend locations, and the long and CSV row of each |
| `Table` | the aligned-table renderer, the short-mode columns, the one-line status layout, the ruler |
| `Sorting` | the sort engine: keys and flags, a stable insertion sort, reverse, unsorted |
| `Suggestions` | the `suggest` example data and the orders every flag gives for it |
| `Graph` | disciples, leaders and mutual friends; the lookup parameter; `--id` dispatch |
| `Remote` | service replies, the three-attempt retry, mutations with no subject, cursor pagination |
| `Console` | standard output as a buffer that only grows (`class Output`) |
| `Timeline` | one-line listings of tweets and direct messages, `--reverse`, the `status` view |
| `Listings` | whole long and CSV listings: the header, then the arranged records |
| `Whois` | the profile view of one account |

Standard output is modelled imperatively: `Console.Output` has one `text`
field, and its methods append to it. The retry and the cursor walk are
methods with loops. Each of these methods is proved against a specification
function. Everything else is functions on values, with lemmas about them.

Where a choice was needed, the model takes these readings:

- Sort ties are broken by ascending identifier.
- Screen names compare by character code.
- The set operations list each identifier once, in the order of its first
  appearance in the left-hand list.

## Model

| member | source | states |
|---|---|---|
| Csv.EncodeCell | spec/cli_spec.rb:582-597 | nil becomes the empty field; a string is quoted exactly when it is empty or holds a comma, a quote or a line break; an unquoted field is written verbatim |
| Csv.RowRoundTrip | spec/cli_spec.rb:581-597 | reading back an encoded row gives back every cell, nil and empty string kept apart |
| Csv.ParseFieldEncoded | spec/cli_spec.rb:587-597 | one encoded field, followed by the rest of its row, reads back as that field and leaves the rest |
| Csv.ScanQuotedEscaped | spec/cli_spec.rb:592 | doubled quotes inside a quoted field read back as single quotes, and the closing quote ends the field |
| Csv.NilIsNotEmptyString | spec/cli_spec.rb:2376-2380 | a missing value is written as nothing, an empty string as `""` |
| Csv.PlainCell | spec/cli_spec.rb:582 | a field with an apostrophe and a colon is written raw |
| Csv.CommaCell | spec/cli_spec.rb:587 | a field that holds a comma and no double quote is written unchanged between two double quotes |
| Csv.QuoteCell | spec/cli_spec.rb:592 | a field that holds one double quote is written between two double quotes with that quote doubled |
| Csv.RootLocationRow | spec/cli_spec.rb:2380 | a location without a parent and with an empty country gives `woeid,,kind,name,""` |
| Numbers.GroupedRoundTrip | spec/cli_spec.rb:397-399 | removing the separators from a grouped count gives back the count |
| Numbers.GroupedShape | spec/cli_spec.rb:397-399 | a grouped count has a comma before every third digit from the right and digits elsewhere |
| Numbers.GroupedDigits | spec/cli_spec.rb:2034-2039 | a grouped count is its plain decimal form with commas added |
| Numbers.SmallCountUnchanged | spec/cli_spec.rb:399 | a count below 1000 is written without a separator |
| Times.CsvTimeRoundTrip | spec/cli_spec.rb:137-147 | the CSV time `YYYY-MM-DD HH:MM:SS +0000` of a valid date reads back as that date |
| Times.LongDateRoundTrip | spec/cli_spec.rb:158-168 | the long-mode date is twelve characters, `Mon DD  YYYY` with a space-padded day, and reads back as year, month and day |
| Times.NextDayIsOneDayLater | spec/cli_spec.rb:14 | the day after a valid date is 86400 seconds later, so elapsed time follows the calendar |
| Times.AgeBands | spec/cli_spec.rb:118-127 | a post has an age phrase exactly when it is 60 to about 456 days old, and the phrase is "about 1 year ago" exactly from 365 days on |
| Times.MonthsAreNearest | spec/cli_spec.rb:1470-1486 | below a year the phrase is "N months ago", with N the whole number of 30-day months nearest to the age |
| Times.YearOldSamples | spec/cli_spec.rb:118-127 | the newest and oldest direct messages, sent in October and September 2010, are "about 1 year ago" |
| Times.SevenMonthSamples | spec/cli_spec.rb:1470-1486 | mentions posted on 23 April 2011 are "7 months ago" |
| Times.EightMonthsAgo | spec/cli_spec.rb:1661-1682 | any time on 6 April 2011 is "8 months ago" (also 1947 and 2501) |
| Records.UserCsvRoundTrip | spec/cli_spec.rb:345-350 | a user's CSV row reads back as that user |
| Records.CountsAgree | spec/cli_spec.rb:348-350 | each count column reads as the same number in long mode, grouped, and in CSV, plain |
| Records.DatesAgree | spec/cli_spec.rb:348-350 | the long-mode and CSV dates of a user both name the day the account was created |
| Records.PostCsvRoundTrip | spec/cli_spec.rb:137-147 | a tweet's or message's CSV row reads back as that post |
| Records.PostUrlText | spec/cli_spec.rb:1950 | a tweet's address is `https://twitter.com/<name>/status/<id>` |
| Records.PostUrlParts | spec/cli_spec.rb:1950 | splitting the address on slashes gives back the author and the identifier |
| Records.PlaceCsvRoundTrip | spec/cli_spec.rb:2374-2380 | a location's CSV row reads back as that location; no parent gives an empty field, an empty country gives `""` |
| Table.WidthsAreMaxima | spec/cli_spec.rb:397-399 | each column is as wide as its widest cell, header included, and no wider |
| Table.RenderAligned | spec/cli_spec.rb:2391-2396 | in every row, each cell starts at its column's offset, and the next column starts only after the cell and two blanks |
| Table.LineLayout | spec/cli_spec.rb:158-168 | a row is its cells, each but the last padded to its column width plus two |
| Table.KeyValueAligned | spec/cli_spec.rb:1944-1950 | in the key/value view every value starts two columns after the longest key |
| Table.InColumnsLayout | spec/cli_spec.rb:369 | short mode puts item i at column i·w, w the longest item plus two, followed only by blanks |
| Table.InColumnsStripped | spec/cli_spec.rb:1973 | after trailing blanks are stripped, short mode is the padded items followed by the last item unpadded |
| Table.StatusLineRoundTrip | spec/cli_spec.rb:118-127 | a one-line post has the name right-justified to 20 columns, and the line reads back as name, text and age |
| Table.RulerShape | spec/cli_spec.rb:1921-1926 | the ruler is 140 characters, `----\|` repeated |
| Text.RStripUnique | spec/cli_spec.rb:339 | stripping trailing blanks gives the unique prefix that ends in a non-blank and is followed only by blanks |
| Text.SplitJoin | spec/cli_spec.rb:322 | splitting a joined list on a separator that no piece contains gives back the pieces |
| Text.ParseNatToString | spec/cli_spec.rb:322 | a decimal identifier reads back as itself |
| Sorting.SortSorted | spec/cli_spec.rb:1991-2024 | the sort returns its input in ascending order (a permutation, by `Sort`'s contract) |
| Sorting.SortedUnique | spec/cli_spec.rb:1991-2024 | two orderings of one collection that are both ascending under an order without ties are identical |
| Sorting.ReverseReverse | spec/cli_spec.rb:2066-2072 | reversing twice gives back the list |
| Sorting.FlagsSelectKeys | spec/cli_spec.rb:1991-2090 | each sort key is selected by its own flag |
| Sorting.UserOrderIsPreorder | spec/cli_spec.rb:1991-2090 | every user key gives a total, transitive order, and users equal under it share the key and the identifier |
| Sorting.Arrange | spec/cli_spec.rb:1955-2090 | arranging users keeps exactly the users given |
| Sorting.ArrangeUnsorted | spec/cli_spec.rb:2084-2090 | `--unsorted` keeps the service's order, and with `--reverse` gives its exact reversal |
| Sorting.ArrangeReversed | spec/cli_spec.rb:2066-2072 | `--reverse` gives the exact reversal of the order the key gives |
| Sorting.ArrangeOrdered | spec/cli_spec.rb:1991-2081 | a key orders its users ascending, and `--reverse` descending |
| Sorting.ArrangeIgnoresArrival | spec/cli_spec.rb:2084-2090 | with a key, the order does not depend on the order the service sent |
| Sorting.ArrangeStable | spec/cli_spec.rb:1991-2081 | sorting an arranged list again changes nothing |
| Sorting.ArrangedAs | spec/cli_spec.rb:1982-2081 | a list of the same users, with distinct identifiers and adjacent entries in key order, is the arranged list |
| Sorting.ArrangePosts | spec/cli_spec.rb:1566-1582 | tweets and messages keep the service's order, and `--reverse` gives its exact reversal, with the same posts |
| Sorting.ArrangePlacesOrdered | spec/cli_spec.rb:2366-2415 | locations are sorted by name; `--reverse` reverses that; `--unsorted` keeps the service's order |
| Suggestions.ByNameOrder | spec/cli_spec.rb:1973 | by default the suggestions are antpires, jtrupiano, maccman, mlroach, stuntmann82 |
| Suggestions.ByFavoritesOrder | spec/cli_spec.rb:1997 | `--favorites` gives stuntmann82, antpires, maccman, mlroach, jtrupiano |
| Suggestions.ByAudienceOrder | spec/cli_spec.rb:2000-2024 | `--followers`, `--friends` and `--listed` each give stuntmann82, antpires, mlroach, jtrupiano, maccman |
| Suggestions.ByPostedOrder | spec/cli_spec.rb:2057-2063 | `--posted` gives maccman, mlroach, jtrupiano, stuntmann82, antpires |
| Suggestions.ByTweetsOrder | spec/cli_spec.rb:2075-2081 | `--tweets` gives stuntmann82, antpires, jtrupiano, maccman, mlroach |
| Suggestions.UnsortedOrder | spec/cli_spec.rb:2084-2090 | `--unsorted` gives jtrupiano, mlroach, antpires, maccman, stuntmann82, the service's order |
| Suggestions.ReversedOrder | spec/cli_spec.rb:2066-2072 | `--reverse` gives stuntmann82, mlroach, maccman, jtrupiano, antpires |
| Suggestions.FavoritesListing | spec/cli_spec.rb:1991-1998 | the short `--favorites` listing is exactly the expected line of handles in 14-character columns |
| Graph.Keep | spec/cli_spec.rb:315-339 | the kept identifiers are those of the left list that are, or are not, in the right one, each once |
| Graph.Partition | spec/cli_spec.rb:1103-1111 | every follower is a disciple or a mutual friend, never both; every friend is a leader or a mutual friend, never both; nobody is both disciple and leader |
| Graph.MutualSymmetric | spec/cli_spec.rb:1103-1111 | the mutual friends of A and B are those of B and A |
| Graph.MutualBound | spec/cli_spec.rb:1103-1111 | there are no more mutual friends than friends, nor than followers |
| Graph.LookupParamRoundTrip | spec/cli_spec.rb:322 | the comma-joined lookup parameter names exactly the identifiers it was built from, in order |
| Graph.DisciplesLookup | spec/cli_spec.rb:322 | the two disciples are looked up as `213747670,428004849` |
| Graph.SubjectDispatch | spec/cli_spec.rb:464-472 | a named user is sent verbatim, as `user_id` exactly when `--id` is given and as `screen_name` otherwise |
| Remote.AttemptsCounted | spec/cli_spec.rb:764-775 | one to three attempts are made; every attempt but the last met "unavailable", and fewer than three stop at a different reply |
| Remote.FirstAnswerDecides | spec/cli_spec.rb:764-775 | the first reply that is not "unavailable" decides the outcome and ends the attempts |
| Remote.DownAfterThree | spec/cli_spec.rb:764-775 | the outcome is "Twitter is down or being upgraded." exactly when the first three replies are all "unavailable", and then there are three attempts |
| Remote.AlwaysDown | spec/cli_spec.rb:2463-2473 | a service that always answers 502 is tried three times, and the command fails with the fixed message |
| Remote.Retry | spec/cli_spec.rb:764-775 | the retry loop makes the specified number of attempts and returns the specified outcome |
| Remote.Mutate | spec/cli_spec.rb:726-731 | no users is an invalid argument before any request; otherwise each user is tried in turn under the retry, and the first failure ends the command |
| Remote.Paginate | spec/cli_spec.rb:315-320 | the cursor loop starts at -1 and returns what the cursor walk specifies |
| Remote.WalkLossless | spec/cli_spec.rb:315-320 | following the cursors to 0 returns every page's identifiers, concatenated in order |
| Remote.SinglePage | spec/cli_spec.rb:316 | a first page whose next cursor is 0 is the whole list |
| Console.LinesSplit | spec/cli_spec.rb:13 | output loses nothing: cutting it at line breaks gives back the lines written |
| Console.Output.constructor | spec/cli_spec.rb:13 | the captured output starts empty |
| Console.Output.Puts | spec/cli_spec.rb:118 | writing a line appends it and a line break, and nothing else changes |
| Console.Output.PutLines | spec/cli_spec.rb:118-127 | writing lines appends each, in order, with its line break |
| Console.Output.PrintTable | spec/cli_spec.rb:397-399 | a long listing appends the rendered table |
| Console.Output.PrintInColumns | spec/cli_spec.rb:369 | a short listing appends the padded items and a line break, and nothing when there are none |
| Console.Output.PrintCsv | spec/cli_spec.rb:345-350 | a CSV listing appends one encoded row per line |
| Timeline.MapAll | spec/cli_spec.rb:118-127 | every post gets its line, in order, or the listing has no result |
| Timeline.ListingReversed | spec/cli_spec.rb:1470-1486 | `--reverse` prints exactly the lines of the plain listing, last first (1566-1582) |
| Timeline.PostLineReadable | spec/cli_spec.rb:1470-1486 | a post's line reads back as its author, its text and its age |
| Timeline.SferikMessageLine | spec/cli_spec.rb:118 | a message from sferik sent about a year ago is fourteen blanks, `sferik: `, the text and `(about 1 year ago)` |
| Timeline.StatusViewLines | spec/cli_spec.rb:1944-1950 | the `status` view is seven labelled lines whose values start in column 13 |
| Listings.LongLayout | spec/cli_spec.rb:158-168 | in a long listing the header is line 0 and row i is line i+1, and each header name and cell starts at its column's offset |
| Listings.CsvLayout | spec/cli_spec.rb:137-147 | in a CSV listing line 0 is the unquoted column names joined by commas, and line i+1 is row i encoded, reading back as that row |
| Listings.UserLongLayout | spec/cli_spec.rb:394-399 | a long user listing is the header, then the users in arranged order, every column aligned |
| Listings.UserCsvLayout | spec/cli_spec.rb:343-350 | a CSV user listing is the header line, then one line per user in arranged order, each reading back as that user |
| Listings.UserHeaderLine | spec/cli_spec.rb:348 | the CSV user header is `ID,Since,Tweets,Favorites,Listed,Following,Followers,Screen name,Name` |
| Listings.PostLongLayout | spec/cli_spec.rb:158-168 | a long listing of messages is the header, then the posts in the service's order (reversed under `--reverse`), every column aligned |
| Listings.PostCsvLayout | spec/cli_spec.rb:135-147 | a CSV listing of messages is the header line, then one line per post, each reading back as that post |
| Listings.PostHeaderLine | spec/cli_spec.rb:137 | the CSV post header is `ID,Posted at,Screen name,Text` |
| Listings.PlaceLongLayout | spec/cli_spec.rb:2389-2396 | a long listing of trend locations is the header, then the arranged places, every column aligned |
| Listings.PlaceCsvLayout | spec/cli_spec.rb:2372-2380 | a CSV listing of trend locations is the header line, then one line per place, each reading back as that place |
| Listings.PlaceHeaderLine | spec/cli_spec.rb:2374 | the CSV location header is `WOEID,Parent ID,Type,Name,Country` |
| Whois.UserView | spec/cli_spec.rb:2652-2670 | the profile view exists exactly when the latest tweet's age has a phrase, and is then the thirteen-line view with that phrase |
| Whois.ProfileViewLines | spec/cli_spec.rb:2654-2670 | the profile lines are ID, Name, Bio, Location, URL, Status, Last update, Since, Tweets, Favorites, Listed, Following and Followers, in that order, each label padded to 13 columns and followed by its value; counts are grouped, the date is in long form, and the latest tweet is followed by its age in parentheses |

## Left out

- OAuth authorisation, PIN prompts and the credentials file: interactive input and files.
- HTTP endpoints, query parameters and the `--number` count: thin wrappers over the remote service.
- Geolocation for `update` and `reply`: external network calls. Floating-point latitude and longitude are left out with it.
- `open` and the browser it launches.
- The confirmation sentences of `follow`, `unfollow`, `block` and the other mutations.
- `trends` and its hashtag filter. Only the short-mode layout the listing shares is modelled.
- Terminal-width wrapping of short-mode columns. No listing in the behaviour is wide enough to wrap.
- Times.TimeAgo: weaker than the client's relative-age phrases. It has a phrase only for "N months ago" (60 to 364 days) and "about 1 year ago" (365 to 456 days), the two bands the behaviour samples. Any other age is `None`.
- Times.AgeInWords: the same two bands only, with the same reason.
- Timeline.PostLine: no line for a post whose age falls outside those two bands.
- Table.StatusLineRoundTrip: stated only for screen names of at most 20 characters. A longer name is not padded, and the model does not claim a longer line reads back.
- Remote.Paginate: the cursor walk takes a page bound and fails with `TooManyPages` past it. The client has no such bound, but termination on an arbitrary service needs one.
- Graph.LookupParam: models one lookup for the whole list. Any batching of long identifier lists is left out.
- Remote.Mutate: the request body beyond the subject parameter is not modelled.
- Sorting.StrLt: screen names compare by character code. Case folding, if the client does any, is not modelled; the example names are all lower case.
- Times.AgeBands: the band limits (60, 365 and 456.25 days, that is 86400, 525600 and 657000 minutes) and the rounding of months to the nearest whole number, halves up, follow Rails' `distance_of_time_in_words`. The behaviour only samples ages inside the bands. Times.MonthsAreNearest rests on the same reading.
- Whois.UserView: the Status value for a followed account ("Following") and the handling of a profile with missing fields are not pinned by the behaviour. A profile whose latest tweet's age has no phrase gives `None`, as Times.TimeAgo does.
- The wording of the error for a mutation with no users (`Remote.NoUsersMessage`): only the fact that an error is raised is fixed, so the text is a placeholder.
