/**
 * What the scan as a whole guarantees: the deletions it requests are exactly
 * the timeline's tweets that are due, in timeline order and at most once each;
 * reply searches happen only for tweets that passed the age and allow-list
 * checks; a failed timeline fetch deletes nothing; and delete failures do not
 * change what else is requested.
 */
module RetentionProperties {
  import opened Wrappers
  import opened Strconv
  import opened AllowList
  import opened Twitter
  import opened Retention

  /** Reference: the IDs of the tweets due for deletion, in timeline order. */
  ghost function EligibleIds(client: Client, whitelist: seq<string>, tweets: seq<Tweet>,
                             ageLimit: Duration, interactionLimit: Duration, now: Instant): seq<Int64>
    decreases |tweets|
  {
    if |tweets| == 0 then []
    else (if ShouldDelete(client, whitelist, tweets[0], ageLimit, interactionLimit, now) then [tweets[0].id] else [])
         + EligibleIds(client, whitelist, tweets[1..], ageLimit, interactionLimit, now)
  }

  /** Reference: the IDs of the tweets that pass the age and allow-list checks, in timeline order. */
  ghost function CandidateIds(whitelist: seq<string>, tweets: seq<Tweet>, ageLimit: Duration, now: Instant): seq<Int64>
    decreases |tweets|
  {
    if |tweets| == 0 then []
    else (if IsCandidate(whitelist, tweets[0], ageLimit, now) then [tweets[0].id] else [])
         + CandidateIds(whitelist, tweets[1..], ageLimit, now)
  }

  /** The tweets the timeline fetch yields: its value, or none on error. */
  function Fetched(client: Client): (tweets: seq<Tweet>)
    ensures tweets == GetTimeline(client).0
  {
    if client.timeline.Ok? then client.timeline.value else []
  }

  ghost predicate UniqueIds(tweets: seq<Tweet>) {
    forall i, j :: 0 <= i < j < |tweets| ==> tweets[i].id != tweets[j].id
  }

  // ---------------------------------------------------------------------
  // Replies

  /** Filtering the search results works piecewise, so it keeps their order. */
  lemma {:induction false} DirectRepliesDistribute(a: seq<Tweet>, b: seq<Tweet>, tweetId: Int64)
    ensures DirectReplies(a + b, tweetId) == DirectReplies(a, tweetId) + DirectReplies(b, tweetId)
    decreases |a|
  {
    if |a| == 0 {
      assert a + b == b;
    } else {
      assert (a + b)[0] == a[0];
      assert (a + b)[1..] == a[1..] + b;
      DirectRepliesDistribute(a[1..], b, tweetId);
    }
  }

  lemma {:induction false} DirectRepliesKeepsMatches(statuses: seq<Tweet>, tweetId: Int64)
    requires forall i :: 0 <= i < |statuses| ==> statuses[i].inReplyToStatusId == tweetId
    ensures DirectReplies(statuses, tweetId) == statuses
    decreases |statuses|
  {
    if |statuses| > 0 {
      DirectRepliesKeepsMatches(statuses[1..], tweetId);
    }
  }

  lemma DirectRepliesDropsOthers(statuses: seq<Tweet>, tweetId: Int64)
    requires forall i :: 0 <= i < |statuses| ==> statuses[i].inReplyToStatusId != tweetId
    ensures DirectReplies(statuses, tweetId) == []
    decreases |statuses|
  {
  }

  /**
   * A search returning unrelated tweets followed by direct replies yields
   * exactly those replies, so as many replies as there were matching statuses.
   */
  lemma RepliesOfMixedSearch(client: Client, tweetId: Int64, others: seq<Tweet>, matching: seq<Tweet>)
    requires client.me.Ok?
    requires client.search(SearchQuery(client.me.value), tweetId) == Ok(others + matching)
    requires forall i :: 0 <= i < |others| ==> others[i].inReplyToStatusId != tweetId
    requires forall i :: 0 <= i < |matching| ==> matching[i].inReplyToStatusId == tweetId
    ensures GetRepliesForTweet(client, tweetId).replies == matching
    ensures |GetRepliesForTweet(client, tweetId).replies| == |matching|
  {
    DirectRepliesDistribute(others, matching, tweetId);
    DirectRepliesKeepsMatches(matching, tweetId);
    DirectRepliesDropsOthers(others, tweetId);
  }

  // ---------------------------------------------------------------------
  // The scan against the references

  lemma {:induction false} ScanDeletesEligible(client: Client, whitelist: seq<string>, tweets: seq<Tweet>,
                                               ageLimit: Duration, interactionLimit: Duration, now: Instant)
    ensures DeleteRequests(Scan(client, whitelist, tweets, ageLimit, interactionLimit, now))
         == EligibleIds(client, whitelist, tweets, ageLimit, interactionLimit, now)
    decreases |tweets|
  {
    if |tweets| > 0 {
      var first := VisitTweet(client, whitelist, tweets[0], ageLimit, interactionLimit, now);
      var rest := Scan(client, whitelist, tweets[1..], ageLimit, interactionLimit, now);
      ProjectionsDistribute(first, rest);
      ScanDeletesEligible(client, whitelist, tweets[1..], ageLimit, interactionLimit, now);
    }
  }

  lemma {:induction false} ScanSearchesCandidates(client: Client, whitelist: seq<string>, tweets: seq<Tweet>,
                                                  ageLimit: Duration, interactionLimit: Duration, now: Instant)
    ensures Searches(Scan(client, whitelist, tweets, ageLimit, interactionLimit, now))
         == (if client.me.Ok? then CandidateIds(whitelist, tweets, ageLimit, now) else [])
    ensures SelfLookups(Scan(client, whitelist, tweets, ageLimit, interactionLimit, now))
         == |CandidateIds(whitelist, tweets, ageLimit, now)|
    decreases |tweets|
  {
    if |tweets| > 0 {
      var first := VisitTweet(client, whitelist, tweets[0], ageLimit, interactionLimit, now);
      var rest := Scan(client, whitelist, tweets[1..], ageLimit, interactionLimit, now);
      ProjectionsDistribute(first, rest);
      ScanSearchesCandidates(client, whitelist, tweets[1..], ageLimit, interactionLimit, now);
    }
  }

  /**
   * The deletions `deleteFromTimeline` requests are exactly the due tweets of
   * the fetched timeline, in timeline order.
   */
  lemma DeletesExactlyEligible(client: Client, whitelist: seq<string>,
                               ageLimit: Duration, interactionLimit: Duration, now: Instant)
    ensures DeleteRequests(DeleteFromTimeline(client, whitelist, ageLimit, interactionLimit, now))
         == EligibleIds(client, whitelist, Fetched(client), ageLimit, interactionLimit, now)
  {
    var rest := Scan(client, whitelist, Fetched(client), ageLimit, interactionLimit, now);
    ProjectionsDistribute([GetUserTimeline], rest);
    ScanDeletesEligible(client, whitelist, Fetched(client), ageLimit, interactionLimit, now);
  }

  /**
   * Short-circuit evaluation: one identity lookup per tweet that passed the
   * age and allow-list checks, one reply search for each of them when the
   * lookup succeeds, and none for any other tweet.
   */
  lemma SearchesOnlyCandidates(client: Client, whitelist: seq<string>,
                               ageLimit: Duration, interactionLimit: Duration, now: Instant)
    ensures Searches(DeleteFromTimeline(client, whitelist, ageLimit, interactionLimit, now))
         == (if client.me.Ok? then CandidateIds(whitelist, Fetched(client), ageLimit, now) else [])
    ensures SelfLookups(DeleteFromTimeline(client, whitelist, ageLimit, interactionLimit, now))
         == |CandidateIds(whitelist, Fetched(client), ageLimit, now)|
  {
    var rest := Scan(client, whitelist, Fetched(client), ageLimit, interactionLimit, now);
    ProjectionsDistribute([GetUserTimeline], rest);
    ScanSearchesCandidates(client, whitelist, Fetched(client), ageLimit, interactionLimit, now);
  }

  // ---------------------------------------------------------------------
  // Membership and multiplicity

  lemma {:induction false} EligibleIdsMembership(client: Client, whitelist: seq<string>, tweets: seq<Tweet>,
                                                 ageLimit: Duration, interactionLimit: Duration, now: Instant, id: Int64)
    ensures id in EligibleIds(client, whitelist, tweets, ageLimit, interactionLimit, now)
        <==> exists i :: 0 <= i < |tweets| && tweets[i].id == id
               && ShouldDelete(client, whitelist, tweets[i], ageLimit, interactionLimit, now)
    decreases |tweets|
  {
    if |tweets| > 0 {
      EligibleIdsMembership(client, whitelist, tweets[1..], ageLimit, interactionLimit, now, id);
      if exists i :: 0 <= i < |tweets| && tweets[i].id == id
           && ShouldDelete(client, whitelist, tweets[i], ageLimit, interactionLimit, now) {
        var i :| 0 <= i < |tweets| && tweets[i].id == id
           && ShouldDelete(client, whitelist, tweets[i], ageLimit, interactionLimit, now);
        if i > 0 {
          assert tweets[1..][i - 1] == tweets[i];
        }
      }
      if id in EligibleIds(client, whitelist, tweets[1..], ageLimit, interactionLimit, now) {
        var i :| 0 <= i < |tweets| - 1 && tweets[1..][i].id == id
           && ShouldDelete(client, whitelist, tweets[1..][i], ageLimit, interactionLimit, now);
        assert tweets[i + 1] == tweets[1..][i];
      }
    }
  }

  /** With unique IDs, a tweet is requested once when it is due and never otherwise. */
  lemma {:induction false} EligibleIdsCount(client: Client, whitelist: seq<string>, tweets: seq<Tweet>,
                                            ageLimit: Duration, interactionLimit: Duration, now: Instant, k: nat)
    requires UniqueIds(tweets)
    requires k < |tweets|
    ensures multiset(EligibleIds(client, whitelist, tweets, ageLimit, interactionLimit, now))[tweets[k].id]
         == if ShouldDelete(client, whitelist, tweets[k], ageLimit, interactionLimit, now) then 1 else 0
    decreases |tweets|
  {
    var id := tweets[k].id;
    var head := if ShouldDelete(client, whitelist, tweets[0], ageLimit, interactionLimit, now) then [tweets[0].id] else [];
    var rest := EligibleIds(client, whitelist, tweets[1..], ageLimit, interactionLimit, now);
    assert multiset(head + rest) == multiset(head) + multiset(rest);
    if k == 0 {
      EligibleIdsMembership(client, whitelist, tweets[1..], ageLimit, interactionLimit, now, id);
      assert id !in rest;
    } else {
      assert tweets[1..][k - 1] == tweets[k];
      EligibleIdsCount(client, whitelist, tweets[1..], ageLimit, interactionLimit, now, k - 1);
      assert tweets[0].id != id;
    }
  }

  /**
   * Each timeline entry is requested for deletion exactly once when it is due
   * (timestamp parses, older than the age limit, not allow-listed, no recent
   * direct reply found) and never when it is not.
   */
  lemma DeletedOnceIffDue(client: Client, whitelist: seq<string>,
                          ageLimit: Duration, interactionLimit: Duration, now: Instant, k: nat)
    requires client.timeline.Ok? && UniqueIds(client.timeline.value)
    requires k < |client.timeline.value|
    ensures var t := client.timeline.value[k];
      multiset(DeleteRequests(DeleteFromTimeline(client, whitelist, ageLimit, interactionLimit, now)))[t.id]
      == if ShouldDelete(client, whitelist, t, ageLimit, interactionLimit, now) then 1 else 0
  {
    DeletesExactlyEligible(client, whitelist, ageLimit, interactionLimit, now);
    EligibleIdsCount(client, whitelist, client.timeline.value, ageLimit, interactionLimit, now, k);
  }

  /** Fail safe: an entry whose own timestamp does not parse is never deleted. */
  lemma UnparseableNeverDeleted(client: Client, whitelist: seq<string>,
                                ageLimit: Duration, interactionLimit: Duration, now: Instant, k: nat)
    requires client.timeline.Ok? && UniqueIds(client.timeline.value)
    requires k < |client.timeline.value| && client.timeline.value[k].createdAt.None?
    ensures client.timeline.value[k].id !in DeleteRequests(DeleteFromTimeline(client, whitelist, ageLimit, interactionLimit, now))
  {
    DeletedOnceIffDue(client, whitelist, ageLimit, interactionLimit, now, k);
  }

  /**
   * An ID that is allow-listed, or that has an ongoing interaction, is due in
   * no entry: both protections depend on the ID alone.
   */
  lemma {:induction false} ProtectedIdNotEligible(client: Client, whitelist: seq<string>, tweets: seq<Tweet>,
                                                  ageLimit: Duration, interactionLimit: Duration, now: Instant, id: Int64)
    requires FormatInt(id) in whitelist || OngoingInteraction(client, id, interactionLimit, now)
    ensures id !in EligibleIds(client, whitelist, tweets, ageLimit, interactionLimit, now)
    decreases |tweets|
  {
    if |tweets| > 0 {
      ProtectedIdNotEligible(client, whitelist, tweets[1..], ageLimit, interactionLimit, now, id);
    }
  }

  /**
   * An allow-listed entry is never deleted, whatever its age or replies, even
   * when other entries share its ID.
   */
  lemma AllowListedNeverDeleted(client: Client, whitelist: seq<string>,
                                ageLimit: Duration, interactionLimit: Duration, now: Instant, k: nat)
    requires client.timeline.Ok?
    requires k < |client.timeline.value| && IsWhitelisted(whitelist, client.timeline.value[k].id)
    ensures client.timeline.value[k].id !in DeleteRequests(DeleteFromTimeline(client, whitelist, ageLimit, interactionLimit, now))
  {
    DeletesExactlyEligible(client, whitelist, ageLimit, interactionLimit, now);
    ProtectedIdNotEligible(client, whitelist, client.timeline.value, ageLimit, interactionLimit, now,
                           client.timeline.value[k].id);
  }

  /** An entry no older than the age limit (as a saturated Duration) is never deleted. */
  lemma YoungNeverDeleted(client: Client, whitelist: seq<string>,
                          ageLimit: Duration, interactionLimit: Duration, now: Instant, k: nat)
    requires client.timeline.Ok? && UniqueIds(client.timeline.value)
    requires k < |client.timeline.value|
    requires var t := client.timeline.value[k]; t.createdAt.Some? && now - t.createdAt.value <= ageLimit
    ensures client.timeline.value[k].id !in DeleteRequests(DeleteFromTimeline(client, whitelist, ageLimit, interactionLimit, now))
  {
    DeletedOnceIffDue(client, whitelist, ageLimit, interactionLimit, now, k);
  }

  /**
   * An entry with a direct reply among the search results that is strictly
   * younger than the interaction limit is never deleted. This includes a
   * reply dated in the future (negative age, as clock skew produces). The
   * only limit excluded is the smallest Duration, below which no saturated
   * age can fall. Other entries sharing the ID are spared as well.
   */
  lemma RecentReplyProtects(client: Client, whitelist: seq<string>,
                            ageLimit: Duration, interactionLimit: Duration, now: Instant, k: nat, reply: Tweet)
    requires client.timeline.Ok?
    requires k < |client.timeline.value|
    requires var t := client.timeline.value[k];
      && client.me.Ok?
      && client.search(SearchQuery(client.me.value), t.id).Ok?
      && reply in client.search(SearchQuery(client.me.value), t.id).value
      && reply.inReplyToStatusId == t.id
      && reply.createdAt.Some? && now - reply.createdAt.value < interactionLimit
    requires interactionLimit > MinInt64
    ensures client.timeline.value[k].id !in DeleteRequests(DeleteFromTimeline(client, whitelist, ageLimit, interactionLimit, now))
  {
    var id := client.timeline.value[k].id;
    ElapsedComparesTrueAge(now, reply.createdAt.value, interactionLimit);
    assert OngoingInteraction(client, id, interactionLimit, now);
    DeletesExactlyEligible(client, whitelist, ageLimit, interactionLimit, now);
    ProtectedIdNotEligible(client, whitelist, client.timeline.value, ageLimit, interactionLimit, now, id);
  }

  /**
   * Fail open: when the identity lookup fails, every entry that passes the
   * age and allow-list checks is deleted, replies or not.
   */
  lemma LookupFailureDeletesCandidates(client: Client, whitelist: seq<string>,
                                       ageLimit: Duration, interactionLimit: Duration, now: Instant)
    requires client.me.Err?
    ensures DeleteRequests(DeleteFromTimeline(client, whitelist, ageLimit, interactionLimit, now))
         == CandidateIds(whitelist, Fetched(client), ageLimit, now)
  {
    DeletesExactlyEligible(client, whitelist, ageLimit, interactionLimit, now);
    EligibleIsCandidateWithoutLookup(client, whitelist, Fetched(client), ageLimit, interactionLimit, now);
  }

  lemma {:induction false} EligibleIsCandidateWithoutLookup(client: Client, whitelist: seq<string>, tweets: seq<Tweet>,
                                                            ageLimit: Duration, interactionLimit: Duration, now: Instant)
    requires client.me.Err?
    ensures EligibleIds(client, whitelist, tweets, ageLimit, interactionLimit, now) == CandidateIds(whitelist, tweets, ageLimit, now)
    decreases |tweets|
  {
    if |tweets| > 0 {
      EligibleIsCandidateWithoutLookup(client, whitelist, tweets[1..], ageLimit, interactionLimit, now);
    }
  }

  /** A failed timeline fetch requests no deletions and makes no other call. */
  lemma TimelineErrorDeletesNothing(client: Client, whitelist: seq<string>,
                                    ageLimit: Duration, interactionLimit: Duration, now: Instant)
    requires client.timeline.Err?
    ensures DeleteRequests(DeleteFromTimeline(client, whitelist, ageLimit, interactionLimit, now)) == []
    ensures Searches(DeleteFromTimeline(client, whitelist, ageLimit, interactionLimit, now)) == []
  {
  }

  lemma {:induction false} EligibleIgnoresDeletes(client: Client, deleteTweet: Int64 -> Result<Tweet, ApiError>,
                                                  whitelist: seq<string>, tweets: seq<Tweet>,
                                                  ageLimit: Duration, interactionLimit: Duration, now: Instant)
    ensures EligibleIds(client.(deleteTweet := deleteTweet), whitelist, tweets, ageLimit, interactionLimit, now)
         == EligibleIds(client, whitelist, tweets, ageLimit, interactionLimit, now)
    decreases |tweets|
  {
    if |tweets| > 0 {
      EligibleIgnoresDeletes(client, deleteTweet, whitelist, tweets[1..], ageLimit, interactionLimit, now);
    }
  }

  /**
   * A failed delete does not stop the scan: whatever the platform answers to
   * the deletions, the same deletions are requested.
   */
  lemma DeleteFailuresDoNotStopScan(client: Client, deleteTweet: Int64 -> Result<Tweet, ApiError>,
                                    whitelist: seq<string>, ageLimit: Duration, interactionLimit: Duration, now: Instant)
    ensures DeleteRequests(DeleteFromTimeline(client.(deleteTweet := deleteTweet), whitelist, ageLimit, interactionLimit, now))
         == DeleteRequests(DeleteFromTimeline(client, whitelist, ageLimit, interactionLimit, now))
  {
    DeletesExactlyEligible(client, whitelist, ageLimit, interactionLimit, now);
    DeletesExactlyEligible(client.(deleteTweet := deleteTweet), whitelist, ageLimit, interactionLimit, now);
    EligibleIgnoresDeletes(client, deleteTweet, whitelist, Fetched(client), ageLimit, interactionLimit, now);
  }
}
