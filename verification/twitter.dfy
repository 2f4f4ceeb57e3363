/**
 * The Twitter client as the retention engine sees it: fixed responses to the
 * four calls it makes, and the trace of calls it issued. Times are integer
 * nanoseconds; durations are Go's `time.Duration`, an int64 of nanoseconds.
 */
module Twitter {
  import opened Wrappers
  import opened Strconv

  /** A point in time, in nanoseconds. */
  type Instant = int

  /** Go's `time.Duration`: int64 nanoseconds. */
  type Duration = Int64

  /**
   * A tweet as fetched. `createdAt` is the outcome of `CreatedAtTime()`:
   * `None` when the platform's timestamp string did not parse.
   * `inReplyToStatusId` is 0 when the tweet is not a reply.
   */
  datatype Tweet = Tweet(id: Int64, createdAt: Option<Instant>, text: string, inReplyToStatusId: Int64)

  datatype User = User(screenName: string)

  type ApiError = string

  /**
   * The responses of the client for one invocation. `search` answers a query
   * string and a `since_id` lower bound; `deleteTweet` answers an ID.
   */
  datatype Client = Client(
    timeline: Result<seq<Tweet>, ApiError>,
    me: Result<User, ApiError>,
    search: (string, Int64) -> Result<seq<Tweet>, ApiError>,
    deleteTweet: Int64 -> Result<Tweet, ApiError>)

  /** One request to the client; a deletion also records whether it failed. */
  datatype Call =
    | GetUserTimeline
    | GetSelf
    | GetSearch(query: string, sinceId: Int64)
    | DeleteTweet(id: Int64, trimUser: bool, failed: bool)

  /**
   * Go's `now.Sub(since)` (what `time.Since` computes): the difference,
   * saturated to the range of a Duration.
   */
  function Elapsed(now: Instant, since: Instant): (d: Duration)
    ensures MinInt64 <= now - since <= MaxInt64 ==> d == now - since
    ensures now - since > MaxInt64 ==> d == MaxInt64
    ensures now - since < MinInt64 ==> d == MinInt64
  {
    if now - since > MaxInt64 then MaxInt64
    else if now - since < MinInt64 then MinInt64
    else now - since
  }

  /**
   * Saturation never makes a young tweet old: the age check passes only when
   * the true difference exceeds the limit, and it does pass whenever the true
   * difference exceeds a limit below the largest Duration; symmetrically for
   * the recency check.
   */
  lemma ElapsedComparesTrueAge(now: Instant, since: Instant, limit: Duration)
    ensures Elapsed(now, since) > limit ==> now - since > limit
    ensures now - since > limit && limit < MaxInt64 ==> Elapsed(now, since) > limit
    ensures Elapsed(now, since) < limit ==> now - since < limit
    ensures now - since < limit && limit > MinInt64 ==> Elapsed(now, since) < limit
  {
  }

  /** The IDs of the deletions requested in a trace, in order. */
  function DeleteRequests(calls: seq<Call>): seq<Int64>
    decreases |calls|
  {
    if |calls| == 0 then []
    else (if calls[0].DeleteTweet? then [calls[0].id] else []) + DeleteRequests(calls[1..])
  }

  /** The `since_id` of each reply search in a trace, in order. */
  function Searches(calls: seq<Call>): seq<Int64>
    decreases |calls|
  {
    if |calls| == 0 then []
    else (if calls[0].GetSearch? then [calls[0].sinceId] else []) + Searches(calls[1..])
  }

  /** The number of identity lookups in a trace. */
  function SelfLookups(calls: seq<Call>): nat
    decreases |calls|
  {
    if |calls| == 0 then 0
    else (if calls[0].GetSelf? then 1 else 0) + SelfLookups(calls[1..])
  }

  lemma {:induction false} DeleteRequestsDistribute(a: seq<Call>, b: seq<Call>)
    ensures DeleteRequests(a + b) == DeleteRequests(a) + DeleteRequests(b)
    decreases |a|
  {
    if |a| == 0 {
      assert a + b == b;
    } else {
      var ab := a + b;
      assert ab[0] == a[0];
      assert ab[1..] == a[1..] + b;
      DeleteRequestsDistribute(a[1..], b);
      assert DeleteRequests(ab) == DeleteRequests([ab[0]]) + DeleteRequests(ab[1..]);
    }
  }

  lemma {:induction false} SearchesDistribute(a: seq<Call>, b: seq<Call>)
    ensures Searches(a + b) == Searches(a) + Searches(b)
    decreases |a|
  {
    if |a| == 0 {
      assert a + b == b;
    } else {
      var ab := a + b;
      assert ab[0] == a[0];
      assert ab[1..] == a[1..] + b;
      SearchesDistribute(a[1..], b);
      assert Searches(ab) == Searches([ab[0]]) + Searches(ab[1..]);
    }
  }

  lemma {:induction false} SelfLookupsDistribute(a: seq<Call>, b: seq<Call>)
    ensures SelfLookups(a + b) == SelfLookups(a) + SelfLookups(b)
    decreases |a|
  {
    if |a| == 0 {
      assert a + b == b;
    } else {
      var ab := a + b;
      assert ab[0] == a[0];
      assert ab[1..] == a[1..] + b;
      SelfLookupsDistribute(a[1..], b);
      assert SelfLookups(ab) == SelfLookups([ab[0]]) + SelfLookups(ab[1..]);
    }
  }

  /** The projections of a trace are computed piecewise over its parts. */
  lemma ProjectionsDistribute(a: seq<Call>, b: seq<Call>)
    ensures DeleteRequests(a + b) == DeleteRequests(a) + DeleteRequests(b)
    ensures Searches(a + b) == Searches(a) + Searches(b)
    ensures SelfLookups(a + b) == SelfLookups(a) + SelfLookups(b)
  {
    DeleteRequestsDistribute(a, b);
    SearchesDistribute(a, b);
    SelfLookupsDistribute(a, b);
  }
}
