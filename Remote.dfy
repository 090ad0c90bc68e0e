/**
 * The calls to the remote service. A mutating call (follow, unfollow, ...)
 * that the service answers with "unavailable" (HTTP 502) is attempted again,
 * at most three times in all, after which the command fails with the fixed
 * message "Twitter is down or being upgraded."; any other refusal is
 * reported at once. A mutating command given no users is refused before any
 * call is made. Identifier listings are walked page by page from cursor -1
 * until the service returns cursor 0.
 *
 * The service is a parameter: `reply(k)` is its answer to the k-th attempt
 * of a call, and `fetch(c)` its answer for the page at cursor `c`.
 */
module Remote {
  import opened Wrappers

  /** The service's answer to one attempt. */
  datatype Reply<T> = Success(value: T) | Unavailable | Rejected(message: string)

  /** Why a command fails. */
  datatype Failure =
    | RemoteUnavailable(message: string)
    | RemoteRejected(message: string)
    | InvalidArgument(message: string)
    | TooManyPages

  const MaxAttempts: nat := 3
  const DownMessage: string := "Twitter is down or being upgraded."
  /**
   * The text of the error raised when a mutation names no users. The
   * behaviour fixes only that an error is raised, not its wording; this text
   * is a placeholder.
   */
  const NoUsersMessage: string := "No users given"

  // ------------------------------------------------------------ retry

  /** The number of attempts made from attempt `k` on. */
  function AttemptsFrom<T>(reply: nat -> Reply<T>, k: nat): nat
    requires k < MaxAttempts
    decreases MaxAttempts - k
  {
    if reply(k).Unavailable? && k + 1 < MaxAttempts then AttemptsFrom(reply, k + 1) else k + 1
  }

  /** The number of attempts one call takes. */
  function Attempts<T>(reply: nat -> Reply<T>): nat
  {
    AttemptsFrom(reply, 0)
  }

  /** What one call comes to: the answer of its last attempt. */
  function Outcome<T>(reply: nat -> Reply<T>): Result<T, Failure>
  {
    var n := Attempts(reply);
    assert 1 <= n by { AttemptsCounted(reply); }
    match reply(n - 1)
    case Success(v) => Ok(v)
    case Rejected(m) => Err(RemoteRejected(m))
    case Unavailable => Err(RemoteUnavailable(DownMessage))
  }

  lemma {:induction false} AttemptsFromCounted<T>(reply: nat -> Reply<T>, k: nat)
    requires k < MaxAttempts
    requires forall i :: 0 <= i < k ==> reply(i).Unavailable?
    ensures k + 1 <= AttemptsFrom(reply, k) <= MaxAttempts
    ensures forall i :: 0 <= i < AttemptsFrom(reply, k) - 1 ==> reply(i).Unavailable?
    ensures AttemptsFrom(reply, k) < MaxAttempts ==> !reply(AttemptsFrom(reply, k) - 1).Unavailable?
    decreases MaxAttempts - k
  {
    if reply(k).Unavailable? && k + 1 < MaxAttempts {
      AttemptsFromCounted(reply, k + 1);
    }
  }

  /**
   * A call is attempted one to three times; every attempt but the last was
   * answered "unavailable", and the last was not unless it was the third.
   */
  lemma AttemptsCounted<T>(reply: nat -> Reply<T>)
    ensures 1 <= Attempts(reply) <= MaxAttempts
    ensures forall i :: 0 <= i < Attempts(reply) - 1 ==> reply(i).Unavailable?
    ensures Attempts(reply) < MaxAttempts ==> !reply(Attempts(reply) - 1).Unavailable?
  {
    AttemptsFromCounted(reply, 0);
  }

  /** The first answer other than "unavailable" decides the call, and no attempt follows it. */
  lemma FirstAnswerDecides<T>(reply: nat -> Reply<T>, k: nat)
    requires k < MaxAttempts && !reply(k).Unavailable?
    requires forall i :: 0 <= i < k ==> reply(i).Unavailable?
    ensures Attempts(reply) == k + 1
    ensures reply(k).Success? ==> Outcome(reply) == Ok(reply(k).value)
    ensures reply(k).Rejected? ==> Outcome(reply) == Err(RemoteRejected(reply(k).message))
  {
    AttemptsCounted(reply);
  }

  /**
   * The fixed message is reported exactly when the first three attempts are
   * all answered "unavailable", and then exactly three attempts were made.
   */
  lemma DownAfterThree<T>(reply: nat -> Reply<T>)
    ensures Outcome(reply) == Err(RemoteUnavailable(DownMessage))
        <==> reply(0).Unavailable? && reply(1).Unavailable? && reply(2).Unavailable?
    ensures reply(0).Unavailable? && reply(1).Unavailable? && reply(2).Unavailable? ==> Attempts(reply) == 3
  {
    AttemptsCounted(reply);
  }

  /** A service that always answers 502 sees exactly three attempts and the fixed message. */
  lemma AlwaysDown<T>(reply: nat -> Reply<T>)
    requires forall k :: reply(k) == Unavailable
    ensures Attempts(reply) == 3
    ensures Outcome(reply) == Err(RemoteUnavailable("Twitter is down or being upgraded."))
  {
    DownAfterThree(reply);
  }

  /** Performs one call, attempting it again while the service is unavailable. */
  method Retry<T>(reply: nat -> Reply<T>) returns (r: Result<T, Failure>, attempts: nat)
    ensures attempts == Attempts(reply)
    ensures r == Outcome(reply)
  {
    attempts := 1;
    var answer := reply(0);
    while answer.Unavailable? && attempts < MaxAttempts
      invariant 1 <= attempts <= MaxAttempts
      invariant answer == reply(attempts - 1)
      invariant Attempts(reply) == AttemptsFrom(reply, attempts - 1)
      decreases MaxAttempts - attempts
    {
      answer := reply(attempts);
      attempts := attempts + 1;
    }
    match answer
    case Success(v) => r := Ok(v);
    case Rejected(m) => r := Err(RemoteRejected(m));
    case Unavailable => r := Err(RemoteUnavailable(DownMessage));
  }

  // ------------------------------------------------------------ mutations

  /** The answers the service gives for the `i`-th subject. */
  function RepliesFor<T>(reply: (nat, nat) -> Reply<T>, i: nat): nat -> Reply<T>
  {
    (k: nat) => reply(i, k)
  }

  /**
   * Applies a mutation to each subject in turn, stopping at the first that
   * fails. `attempts[i]` counts the calls made for the i-th subject.
   */
  method Mutate<T>(subjects: seq<string>, reply: (nat, nat) -> Reply<T>)
    returns (r: Result<seq<T>, Failure>, attempts: seq<nat>)
    ensures subjects == [] ==> r == Err(InvalidArgument(NoUsersMessage)) && attempts == []
    ensures |attempts| <= |subjects|
    ensures forall i :: 0 <= i < |attempts| ==> attempts[i] == Attempts(RepliesFor(reply, i))
    ensures r.Ok? ==> |attempts| == |subjects| == |r.value|
    ensures r.Ok? ==> forall i :: 0 <= i < |subjects| ==> Outcome(RepliesFor(reply, i)) == Ok(r.value[i])
    ensures r.Err? && subjects != [] ==>
      |attempts| >= 1 && Outcome(RepliesFor(reply, |attempts| - 1)) == Err(r.error)
      && forall i :: 0 <= i < |attempts| - 1 ==> Outcome(RepliesFor(reply, i)).Ok?
  {
    if subjects == [] {
      return Err(InvalidArgument(NoUsersMessage)), [];
    }
    var done: seq<T> := [];
    attempts := [];
    var i := 0;
    while i < |subjects|
      invariant 0 <= i <= |subjects|
      invariant |done| == |attempts| == i
      invariant forall j :: 0 <= j < i ==> attempts[j] == Attempts(RepliesFor(reply, j))
      invariant forall j :: 0 <= j < i ==> Outcome(RepliesFor(reply, j)) == Ok(done[j])
    {
      var one, n := Retry(RepliesFor(reply, i));
      attempts := attempts + [n];
      if one.Err? {
        return Err(one.error), attempts;
      }
      done := done + [one.value];
      i := i + 1;
    }
    r := Ok(done);
  }

  // ------------------------------------------------------------ pagination

  /** The identifiers of the pages from cursor `c` on, reading at most `pages` pages. */
  function Walk(fetch: int -> Result<(seq<nat>, int), Failure>, c: int, pages: nat): Result<seq<nat>, Failure>
    decreases pages
  {
    if pages == 0 then Err(TooManyPages)
    else match fetch(c)
      case Err(e) => Err(e)
      case Ok((ids, next)) =>
        if next == 0 then Ok(ids)
        else match Walk(fetch, next, pages - 1)
          case Err(e) => Err(e)
          case Ok(rest) => Ok(ids + rest)
  }

  /**
   * Walks a listing from cursor -1, reading at most `maxPages` pages; a
   * failed page discards everything read before it.
   */
  method Paginate(fetch: int -> Result<(seq<nat>, int), Failure>, maxPages: nat)
    returns (r: Result<seq<nat>, Failure>)
    ensures r == Walk(fetch, -1, maxPages)
  {
    var ids: seq<nat> := [];
    var cursor := -1;
    var left: nat := maxPages;
    assert Walk(fetch, -1, maxPages) == Prefixed(ids, Walk(fetch, cursor, left)) by {
      PrefixedEmpty(Walk(fetch, cursor, left));
    }
    while true
      invariant left <= maxPages
      invariant Walk(fetch, -1, maxPages) == Prefixed(ids, Walk(fetch, cursor, left))
      decreases left
    {
      if left == 0 {
        return Err(TooManyPages);
      }
      match fetch(cursor)
      case Err(e) =>
        return Err(e);
      case Ok((page, next)) =>
        if next == 0 {
          return Ok(ids + page);
        }
        PrefixedTwice(ids, page, Walk(fetch, next, left - 1));
        ids := ids + page;
        cursor := next;
        left := left - 1;
    }
  }

  /** A walk's result with `ids` read before it. */
  function Prefixed(ids: seq<nat>, r: Result<seq<nat>, Failure>): Result<seq<nat>, Failure>
  {
    match r
    case Err(e) => Err(e)
    case Ok(rest) => Ok(ids + rest)
  }

  lemma PrefixedEmpty(r: Result<seq<nat>, Failure>)
    ensures Prefixed([], r) == r
  {
    if r.Ok? {
      assert [] + r.value == r.value;
    }
  }

  lemma PrefixedTwice(ids: seq<nat>, page: seq<nat>, r: Result<seq<nat>, Failure>)
    ensures Prefixed(ids, Prefixed(page, r)) == Prefixed(ids + page, r)
  {
    if r.Ok? {
      assert ids + (page + r.value) == ids + page + r.value;
    }
  }

  /** One page per cursor, following each page's next cursor, the last one 0. */
  ghost predicate Chain(fetch: int -> Result<(seq<nat>, int), Failure>, cursors: seq<int>, pages: seq<seq<nat>>)
  {
    |cursors| == |pages| + 1 && |pages| >= 1 && cursors[|pages|] == 0
    && (forall i :: 1 <= i < |pages| ==> cursors[i] != 0)
    && forall i :: 0 <= i < |pages| ==> fetch(cursors[i]) == Ok((pages[i], cursors[i + 1]))
  }

  function Flatten(pages: seq<seq<nat>>): seq<nat>
  {
    if pages == [] then [] else pages[0] + Flatten(pages[1..])
  }

  /**
   * A walk is lossless: when the cursors chain to 0, the result is every
   * page's identifiers, in the order they were read, duplicates kept.
   */
  lemma {:induction false} WalkLossless(fetch: int -> Result<(seq<nat>, int), Failure>, cursors: seq<int>, pages: seq<seq<nat>>, fuel: nat)
    requires Chain(fetch, cursors, pages)
    requires fuel >= |pages|
    ensures Walk(fetch, cursors[0], fuel) == Ok(Flatten(pages))
  {
    if |pages| > 1 {
      var cs, ps := cursors[1..], pages[1..];
      assert Chain(fetch, cs, ps) by {
        forall i | 0 <= i < |ps| ensures fetch(cs[i]) == Ok((ps[i], cs[i + 1])) {
          assert fetch(cursors[i + 1]) == Ok((pages[i + 1], cursors[i + 2]));
        }
      }
      WalkLossless(fetch, cs, ps, fuel - 1);
    } else {
      assert pages[1..] == [];
      assert Flatten(pages) == pages[0] + [];
      assert pages[0] + [] == pages[0];
    }
  }

  /** The listings of the examples fit on one page: one request at cursor -1. */
  lemma SinglePage(fetch: int -> Result<(seq<nat>, int), Failure>, ids: seq<nat>)
    requires fetch(-1) == Ok((ids, 0))
    ensures Walk(fetch, -1, 1) == Ok(ids)
  {
  }
}
