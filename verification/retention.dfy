/**
 * The retention-decision engine: fetch the account's timeline, and for every
 * tweet whose timestamp parses, request its deletion when it is older than the
 * age limit, not allow-listed, and has no direct reply newer than the
 * interaction limit. Each engine operation returns the trace of client calls
 * it made.
 */
module Retention {
  import opened Wrappers
  import opened Strconv
  import opened AllowList
  import opened Twitter

  // ---------------------------------------------------------------------
  // Timeline

  /** `getTimeline`: the fetched tweets, or the empty timeline and the error. */
  function GetTimeline(client: Client): (r: (seq<Tweet>, Option<ApiError>))
    ensures r.1.None? <==> client.timeline.Ok?
    ensures r.1.None? ==> r.0 == client.timeline.value
    ensures r.1.Some? ==> r.0 == [] && r.1.value == client.timeline.error
  {
    match client.timeline
    case Ok(tweets) => (tweets, None)
    case Err(e) => ([], Some(e))
  }

  // ---------------------------------------------------------------------
  // Replies

  /** The search query for replies addressed to `user`. */
  function SearchQuery(user: User): string {
    "to:" + user.screenName
  }

  /**
   * The statuses that reply directly to `tweetId`, in their original order:
   * each matching status is kept as often as it was returned, every other
   * status is dropped.
   */
  function DirectReplies(statuses: seq<Tweet>, tweetId: Int64): (replies: seq<Tweet>)
    ensures forall t :: t in replies <==> t in statuses && t.inReplyToStatusId == tweetId
    ensures forall t :: multiset(replies)[t] == if t.inReplyToStatusId == tweetId then multiset(statuses)[t] else 0
    ensures |replies| <= |statuses|
    decreases |statuses|
  {
    if |statuses| == 0 then []
    else
      assert statuses == [statuses[0]] + statuses[1..];
      (if statuses[0].inReplyToStatusId == tweetId then [statuses[0]] else [])
      + DirectReplies(statuses[1..], tweetId)
  }

  datatype Lookup = Lookup(replies: seq<Tweet>, calls: seq<Call>)

  /**
   * `getRepliesForTweet`: look up the account, search for tweets addressed to
   * it since `tweetId`, and keep the direct replies. A failing lookup or search
   * gives no replies, and nothing is called after the failing call.
   */
  function GetRepliesForTweet(client: Client, tweetId: Int64): (r: Lookup)
    ensures client.me.Err? ==> r == Lookup([], [GetSelf])
    ensures client.me.Ok? ==> r.calls == [GetSelf, GetSearch(SearchQuery(client.me.value), tweetId)]
    ensures client.me.Ok? && client.search(SearchQuery(client.me.value), tweetId).Err? ==> r.replies == []
    ensures client.me.Ok? && client.search(SearchQuery(client.me.value), tweetId).Ok? ==>
      var statuses := client.search(SearchQuery(client.me.value), tweetId).value;
      && r.replies == DirectReplies(statuses, tweetId)
      && (forall t :: t in r.replies <==> t in statuses && t.inReplyToStatusId == tweetId)
      && (forall t :: multiset(r.replies)[t] == if t.inReplyToStatusId == tweetId then multiset(statuses)[t] else 0)
  {
    match client.me
    case Err(_) => Lookup([], [GetSelf])
    case Ok(user) =>
      var query := SearchQuery(user);
      var calls := [GetSelf, GetSearch(query, tweetId)];
      match client.search(query, tweetId)
      case Err(_) => Lookup([], calls)
      case Ok(statuses) => Lookup(DirectReplies(statuses, tweetId), calls)
  }

  // ---------------------------------------------------------------------
  // Ongoing interaction

  /** A reply is recent when its timestamp parses and it is strictly younger than `limit`. */
  predicate IsRecent(reply: Tweet, limit: Duration, now: Instant) {
    reply.createdAt.Some? && Elapsed(now, reply.createdAt.value) < limit
  }

  /** The loop of `hasOngoingInteractions`: stop at the first recent reply, skip unparseable ones. */
  function AnyRecent(replies: seq<Tweet>, limit: Duration, now: Instant): (found: bool)
    ensures found <==> exists i :: 0 <= i < |replies| && IsRecent(replies[i], limit, now)
    decreases |replies|
  {
    if |replies| == 0 then false
    else if replies[0].createdAt.None? then AnyRecent(replies[1..], limit, now)
    else if Elapsed(now, replies[0].createdAt.value) < limit then true
    else AnyRecent(replies[1..], limit, now)
  }

  /**
   * The reference meaning of "ongoing interaction": the account lookup and the
   * search both succeed, and the search found a direct reply that is recent.
   */
  ghost predicate OngoingInteraction(client: Client, tweetId: Int64, limit: Duration, now: Instant) {
    && client.me.Ok?
    && client.search(SearchQuery(client.me.value), tweetId).Ok?
    && exists reply :: reply in client.search(SearchQuery(client.me.value), tweetId).value
         && reply.inReplyToStatusId == tweetId && IsRecent(reply, limit, now)
  }

  datatype Check = Check(ongoing: bool, calls: seq<Call>)

  /** `hasOngoingInteractions`. Lookup failures count as no interaction (fail open). */
  function HasOngoingInteractions(client: Client, tweetId: Int64, limit: Duration, now: Instant): (r: Check)
    ensures r.ongoing <==> OngoingInteraction(client, tweetId, limit, now)
    ensures r.calls == GetRepliesForTweet(client, tweetId).calls
  {
    var lookup := GetRepliesForTweet(client, tweetId);
    var found := AnyRecent(lookup.replies, limit, now);
    assert found ==> OngoingInteraction(client, tweetId, limit, now) by {
      if found {
        var i :| 0 <= i < |lookup.replies| && IsRecent(lookup.replies[i], limit, now);
        assert lookup.replies[i] in lookup.replies;
      }
    }
    assert OngoingInteraction(client, tweetId, limit, now) ==> found by {
      if OngoingInteraction(client, tweetId, limit, now) {
        var statuses := client.search(SearchQuery(client.me.value), tweetId).value;
        var reply :| reply in statuses && reply.inReplyToStatusId == tweetId && IsRecent(reply, limit, now);
        assert reply in lookup.replies;
        var i :| 0 <= i < |lookup.replies| && lookup.replies[i] == reply;
      }
    }
    Check(found, lookup.calls)
  }

  // ---------------------------------------------------------------------
  // The scan

  /** Reference: the tweet passes the checks made before any reply search. */
  ghost predicate IsCandidate(whitelist: seq<string>, t: Tweet, ageLimit: Duration, now: Instant) {
    && t.createdAt.Some?
    && Elapsed(now, t.createdAt.value) > ageLimit
    && FormatInt(t.id) !in whitelist
  }

  /** Reference: the tweet is due for deletion. */
  ghost predicate ShouldDelete(client: Client, whitelist: seq<string>, t: Tweet,
                               ageLimit: Duration, interactionLimit: Duration, now: Instant) {
    IsCandidate(whitelist, t, ageLimit, now) && !OngoingInteraction(client, t.id, interactionLimit, now)
  }

  /**
   * One iteration of `deleteFromTimeline`. The three checks are made in
   * order and short-circuit, so the reply search only happens for a tweet that
   * is old enough and not allow-listed.
   */
  function VisitTweet(client: Client, whitelist: seq<string>, t: Tweet,
                      ageLimit: Duration, interactionLimit: Duration, now: Instant): (calls: seq<Call>)
    ensures DeleteRequests(calls) == if ShouldDelete(client, whitelist, t, ageLimit, interactionLimit, now) then [t.id] else []
    ensures Searches(calls) == if IsCandidate(whitelist, t, ageLimit, now) && client.me.Ok? then [t.id] else []
    ensures SelfLookups(calls) == if IsCandidate(whitelist, t, ageLimit, now) then 1 else 0
    ensures !IsCandidate(whitelist, t, ageLimit, now) ==> calls == []
    ensures IsCandidate(whitelist, t, ageLimit, now) ==> |calls| >= 1 && calls[0] == GetSelf
    ensures IsCandidate(whitelist, t, ageLimit, now) && client.me.Ok? ==>
      |calls| >= 2 && calls[1] == GetSearch(SearchQuery(client.me.value), t.id)
    ensures ShouldDelete(client, whitelist, t, ageLimit, interactionLimit, now) ==>
      |calls| >= 1 && calls[|calls| - 1] == DeleteTweet(t.id, true, client.deleteTweet(t.id).Err?)
  {
    match t.createdAt
    case None => []
    case Some(created) =>
      if Elapsed(now, created) > ageLimit && !IsWhitelisted(whitelist, t.id) then
        var check := HasOngoingInteractions(client, t.id, interactionLimit, now);
        assert DeleteRequests(check.calls) == [] by {
          assert check.calls[1..] == [] || DeleteRequests(check.calls[1..][1..]) == [];
        }
        if check.ongoing then
          check.calls
        else
          var deletion := DeleteTweet(t.id, true, client.deleteTweet(t.id).Err?);
          ProjectionsDistribute(check.calls, [deletion]);
          check.calls + [deletion]
      else
        []
  }

  /** The loop of `deleteFromTimeline` over the fetched tweets, in order. */
  function Scan(client: Client, whitelist: seq<string>, tweets: seq<Tweet>,
                ageLimit: Duration, interactionLimit: Duration, now: Instant): (calls: seq<Call>)
    ensures |DeleteRequests(calls)| <= |tweets|
    decreases |tweets|
  {
    if |tweets| == 0 then []
    else
      var first := VisitTweet(client, whitelist, tweets[0], ageLimit, interactionLimit, now);
      var rest := Scan(client, whitelist, tweets[1..], ageLimit, interactionLimit, now);
      ProjectionsDistribute(first, rest);
      first + rest
  }

  /** `deleteFromTimeline`: fetch the timeline (empty on error) and scan it. */
  function DeleteFromTimeline(client: Client, whitelist: seq<string>,
                              ageLimit: Duration, interactionLimit: Duration, now: Instant): (calls: seq<Call>)
    ensures |calls| >= 1 && calls[0] == GetUserTimeline
    ensures client.timeline.Err? ==> calls == [GetUserTimeline]
  {
    [GetUserTimeline] + Scan(client, whitelist, GetTimeline(client).0, ageLimit, interactionLimit, now)
  }

  // ---------------------------------------------------------------------
  // The invocation

  /**
   * The settings of one invocation. The durations are the outcomes of
   * `time.ParseDuration` on the configured strings (`None` when one did not
   * parse); `whitelist` is the raw colon-separated setting.
   */
  datatype Config = Config(maxTweetAge: Option<Duration>, interactionTimeout: Option<Duration>, whitelist: string)

  datatype Response = Response(statusCode: string, message: string)

  const Completed: Response := Response("200", "No more tweets to delete")

  /**
   * `ephemeral` as written: a duration that failed to parse is used as 0,
   * the scan runs, and the fixed completion response is returned.
   */
  function Ephemeral(client: Client, config: Config, now: Instant): (r: (Response, seq<Call>))
    ensures r.0 == Response("200", "No more tweets to delete")
    ensures r.1 == DeleteFromTimeline(client, GetWhitelist(config.whitelist),
                                      config.maxTweetAge.GetOr(0), config.interactionTimeout.GetOr(0), now)
  {
    var calls := DeleteFromTimeline(client, GetWhitelist(config.whitelist),
                                    config.maxTweetAge.GetOr(0), config.interactionTimeout.GetOr(0), now);
    (Completed, calls)
  }

  /**
   * `ephemeral` with a malformed duration treated as a configuration error:
   * nothing is called and no response is produced.
   */
  function EphemeralChecked(client: Client, config: Config, now: Instant): (r: Result<(Response, seq<Call>), string>)
    ensures r.Err? <==> config.maxTweetAge.None? || config.interactionTimeout.None?
    ensures r.Ok? ==> r.value.0 == Completed
    ensures r.Ok? ==> r.value.1 == DeleteFromTimeline(client, GetWhitelist(config.whitelist),
                                      config.maxTweetAge.value, config.interactionTimeout.value, now)
  {
    if config.maxTweetAge.None? || config.interactionTimeout.None? then
      Err("malformed duration setting")
    else
      Ok(Ephemeral(client, config, now))
  }
}
