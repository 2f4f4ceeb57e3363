/**
 * Concrete scenarios of the engine, proved for fixed inputs: one tweet on the timeline, the replies the
 * search returns, an age limit of 720h and an interaction limit of 48h.
 */
module Scenarios {
  import opened Wrappers
  import opened Strconv
  import opened AllowList
  import opened Twitter
  import opened Retention
  import opened RetentionProperties

  const Hour: Duration := 3_600_000_000_000
  const Now: Instant := 1_700_000_000_000_000_000

  /** A client whose timeline holds `t` and whose every search returns `statuses`. */
  function SingleTweetClient(t: Tweet, statuses: seq<Tweet>): Client {
    Client(Ok([t]), Ok(User("owner")), (query, sinceId) => Ok(statuses), id => Ok(t))
  }

  function Posted(id: Int64, hoursAgo: nat): Tweet
  {
    Tweet(id, Some(Now - hoursAgo * Hour), "", 0)
  }

  function ReplyTo(id: Int64, hoursAgo: nat): Tweet
    requires 0 <= id <= 1000
  {
    Tweet(id + 1000, Some(Now - hoursAgo * Hour), "", id)
  }

  /** Requested deletions for a single-tweet client. */
  function Deleted(t: Tweet, statuses: seq<Tweet>, whitelist: string): (ids: seq<Int64>)
    ensures ids == [] || ids == [t.id]
  {
    var calls := DeleteFromTimeline(SingleTweetClient(t, statuses), GetWhitelist(whitelist), 720 * Hour, 48 * Hour, Now);
    DeletesExactlyEligible(SingleTweetClient(t, statuses), GetWhitelist(whitelist), 720 * Hour, 48 * Hour, Now);
    DeleteRequests(calls)
  }

  /** An allow-listed tweet, 2000h old with no replies, is kept. */
  lemma AllowListedKept()
    ensures Deleted(Posted(42, 2000), [], "42") == []
  {
  }

  /** A tweet 1h old is kept. */
  lemma YoungKept()
    ensures Deleted(Posted(7, 1), [], "") == []
  {
  }

  /** A 1000h-old tweet with a 2h-old direct reply is kept. */
  lemma OngoingInteractionKept()
    ensures Deleted(Posted(9, 1000), [ReplyTo(9, 2)], "") == []
  {
    var t := Posted(9, 1000);
    var client := SingleTweetClient(t, [ReplyTo(9, 2)]);
    assert ReplyTo(9, 2) in client.search(SearchQuery(client.me.value), 9).value;
    assert OngoingInteraction(client, 9, 48 * Hour, Now);
    DeletesExactlyEligible(client, [], 720 * Hour, 48 * Hour, Now);
  }

  /** A 1000h-old tweet whose only direct reply is 500h old is deleted. */
  lemma StaleInteractionDeleted()
    ensures Deleted(Posted(11, 1000), [ReplyTo(11, 500)], "") == [11]
  {
    var t := Posted(11, 1000);
    var client := SingleTweetClient(t, [ReplyTo(11, 500)]);
    assert !OngoingInteraction(client, 11, 48 * Hour, Now);
    assert FormatInt(11) !in [];
    DeletesExactlyEligible(client, [], 720 * Hour, 48 * Hour, Now);
  }

  /** A reply whose timestamp does not parse is no evidence of interaction. */
  lemma UnparseableReplyIgnored()
    ensures Deleted(Posted(13, 1000), [Tweet(14, None, "", 13)], "") == [13]
  {
    var client := SingleTweetClient(Posted(13, 1000), [Tweet(14, None, "", 13)]);
    assert !OngoingInteraction(client, 13, 48 * Hour, Now);
    DeletesExactlyEligible(client, [], 720 * Hour, 48 * Hour, Now);
  }

  /** A failed timeline fetch deletes nothing and still reports completion. */
  lemma TimelineErrorCompletes(client: Client, config: Config)
    requires client.timeline.Err?
    ensures Ephemeral(client, config, Now).0 == Response("200", "No more tweets to delete")
    ensures DeleteRequests(Ephemeral(client, config, Now).1) == []
  {
  }

  /**
   * As written, a maximum age that fails to parse (Go's ParseDuration rejects
   * "30d") is used as 0, so a tweet posted one hour ago is deleted.
   */
  lemma MalformedMaxAgeDeletesRecentTweet()
    ensures var client := SingleTweetClient(Posted(21, 1), []);
      DeleteRequests(Ephemeral(client, Config(None, Some(48 * Hour), ""), Now).1) == [21]
  {
    var client := SingleTweetClient(Posted(21, 1), []);
    assert !OngoingInteraction(client, 21, 48 * Hour, Now);
    DeletesExactlyEligible(client, [], 0, 48 * Hour, Now);
  }

  /** With the malformed setting rejected, the same invocation calls nothing and deletes nothing. */
  lemma MalformedMaxAgeRejected()
    ensures EphemeralChecked(SingleTweetClient(Posted(21, 1), []), Config(None, Some(48 * Hour), ""), Now).Err?
  {
  }
}
