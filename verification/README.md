# ephemeral-serverless retention engine, in Dafny

This project models the retention-decision engine of *ephemeral*, a scheduled
function that deletes the account's own tweets once they are older than a
configured age. A tweet is kept if its ID is on a colon-separated allow-list
(`WHITELIST`). It is also kept if a direct reply to it is newer than the
interaction timeout. All of this lives in `main.go`.

The Twitter client is represented by its responses. A `Client` value holds:

- the outcome of `GetUserTimeline`;
- the outcome of `GetSelf`;
- the search as a function from query and `since_id` to an outcome;
- the delete as a function from tweet ID to an outcome.

The engine operations (`GetRepliesForTweet`, `HasOngoingInteractions`,
`VisitTweet`, `Scan`, `DeleteFromTimeline`, `Ephemeral`) return the trace of
client calls they made (`seq<Call>`). The IDs a run asked to delete
(`DeleteRequests`), the IDs it searched replies for (`Searches`) and the number
of identity lookups (`SelfLookups`) are projections of that trace.

Time is modelled as integer nanoseconds, with one `now` for the whole
invocation. Durations are Go's `time.Duration`, an int64 of nanoseconds.
`time.Since` is Go's `Time.Sub`, which saturates at the Duration range
(`Twitter.Elapsed`). `CreatedAtTime()` is represented by its outcome, an
`Option<Instant>`. `time.ParseDuration` is represented the same way.

Files:

- `wrappers.dfy`: `Option` and `Result`.
- `strconv.dfy`: `strconv.FormatInt(x, 10)` and its inverse.
- `allow_list.dfy`: `getWhitelist`, `isWhitelisted`, and Go's `strings.Split` / `strings.Join` on `:`.
- `twitter.dfy`: tweets, the client, the call trace, and elapsed time.
- `retention.dfy`: `getTimeline`, `getRepliesForTweet`, `hasOngoingInteractions`, `deleteFromTimeline` and `ephemeral`.
- `retention_properties.dfy`: theorems about the whole scan, checked against reference definitions (`EligibleIds`, `CandidateIds`).
- `scenarios.dfy`: concrete scenarios, proved rather than executed.

The reference definitions are declarative. `OngoingInteraction` says the
lookup and the search succeed and some returned direct reply is recent.
`IsCandidate` says the timestamp parses, the tweet is older than the age limit,
and its rendering is not listed. `ShouldDelete` is `IsCandidate` and no ongoing
interaction. The engine's functions are proved equal to them.

Two details of the code decide edge cases:

- A reply counts as recent only when it is strictly younger than the interaction timeout, because main.go:108 compares with `<`. A reply exactly as old as the timeout does not protect its tweet.
- Errors from `time.ParseDuration` are discarded (main.go:145-146), and the duration becomes 0. See Findings.

The timestamp-based theorems about single entries (`DeletedOnceIffDue`,
`UnparseableNeverDeleted`, `YoungNeverDeleted`) assume that timeline IDs are
unique, as platform-assigned IDs are. With duplicate IDs, "this ID is never
requested" cannot follow from one entry's timestamp alone. The allow-list and
reply protections depend only on the ID, so `AllowListedNeverDeleted` and
`RecentReplyProtects` hold without that assumption.

## Model

| member | source | states |
|---|---|---|
| Strconv.FormatInt | main.go:90 | The rendering is a canonical decimal (no sign unless negative, no padding zeros) and starts with '-' exactly when the ID is negative |
| Strconv.DigitsRoundTrip | main.go:90 | The digit string of a natural number denotes that number |
| Strconv.FormatIntRoundTrip | main.go:90 | Parsing the rendering of an integer gives the integer back |
| Strconv.CanonicalRoundTrip | main.go:90 | Every canonical decimal string is the rendering of the number it denotes, so renderings are exactly the canonical strings |
| Strconv.FormatIntInjective | main.go:89-98 | Two integers have the same rendering iff they are equal |
| AllowList.Split | main.go:53 | Splitting on ':' yields one more segment than there are colons, and no segment contains ':' |
| AllowList.JoinSplit | main.go:53 | Joining the segments with ':' rebuilds the original string |
| AllowList.SplitJoin | main.go:53 | Any non-empty list of colon-free entries is recovered by splitting its ':'-join |
| AllowList.GetWhitelist | main.go:49-54 | The empty setting gives the empty list; any other setting gives colon-free entries, one more than its colons, that join back to it |
| AllowList.TwoEntrySetting | main_test.go:53-57 | The two-entry setting of the tests splits into exactly its two entries |
| AllowList.Contains | main.go:91-97 | The scan that stops at the first equal entry finds the key iff the key is in the list |
| AllowList.IsWhitelisted | main.go:89-98 | An ID is listed iff its base-10 rendering equals some entry exactly |
| AllowList.EntryMatchesOnlyItsId | main_test.go:59-81 | The entry rendered from one ID matches that ID and no other (no prefix or neighbour matching) |
| AllowList.EntryMatchesSomeId | main.go:89-98 | An entry matches some int64 ID iff it is already canonical and in range, so entries such as "007" or "+7" match nothing |
| AllowList.SettingProtectsExactlyListedIds | main.go:89-98 | A setting made by joining the renderings of some IDs lists exactly those IDs; with no IDs the empty setting lists none |
| Twitter.Elapsed | main.go:108 | Elapsed time is the true difference when it fits in a Duration and saturates at the Duration bounds otherwise |
| Twitter.ElapsedComparesTrueAge | main.go:126 | A tweet passes the age check only if its true age exceeds the limit, and always does when the limit is below the largest Duration; the same holds for the recency check |
| Retention.GetTimeline | main.go:56-65 | A failed fetch yields the empty timeline and its error; a successful fetch yields the fetched tweets and no error |
| Retention.DirectReplies | main.go:80-86 | Every status replying to the tweet is kept as many times as it was returned, every other status is dropped, and never more statuses than were returned |
| Retention.GetRepliesForTweet | main.go:67-87 | A failed identity lookup yields no replies and no further call; a failed search yields no replies after exactly the lookup and the "to:" search since the tweet's ID; otherwise the replies are exactly the results filtered to direct replies, keeping their order and multiplicity |
| Retention.AnyRecent | main.go:102-113 | The reply loop returns true iff some reply has a parseable timestamp strictly younger than the limit; unparseable replies never count |
| Retention.HasOngoingInteractions | main.go:100-114 | Ongoing interaction holds iff the lookup and search succeed and a returned direct reply is recent; it makes only the calls of the reply lookup |
| Retention.VisitTweet | main.go:122-134 | One entry is requested for deletion iff it is due; its reply search happens iff it passed the age and allow-list checks and the lookup succeeded; an entry failing those checks makes no call, a candidate's calls start with the identity lookup then the "to:" search, and a due entry's last call is its delete with `trimUser` true |
| Retention.Scan | main.go:121-135 | The scan never requests more deletions than there are timeline entries |
| Retention.DeleteFromTimeline | main.go:116-137 | The timeline is fetched first; a failed fetch ends the run with no other call |
| Retention.Ephemeral | main.go:139-154 | The invocation always answers status "200" with "No more tweets to delete", and an unparseable duration is used as 0 |
| Retention.EphemeralChecked | main.go:145-146 | With malformed durations rejected, the invocation fails iff a duration did not parse; otherwise it behaves as `Ephemeral` with the parsed durations |
| RetentionProperties.DirectRepliesDistribute | main.go:80-86 | Filtering replies works piecewise over concatenated results, so it keeps their original order |
| RetentionProperties.RepliesOfMixedSearch | main_test.go:134-162 | Unrelated statuses followed by direct replies yield exactly those replies, as many as there were |
| RetentionProperties.ScanDeletesEligible | main.go:121-135 | The deletions the loop requests are exactly the IDs of the due entries, in timeline order |
| RetentionProperties.ScanSearchesCandidates | main.go:126 | The loop searches replies exactly for the entries that passed the age and allow-list checks (none if the lookup fails), with one identity lookup each |
| RetentionProperties.DeletesExactlyEligible | main.go:116-137 | The deletions of a run are exactly the due entries of the fetched timeline, in order |
| RetentionProperties.SearchesOnlyCandidates | main.go:126 | Short-circuit evaluation: a run searches replies only for entries that passed the age and allow-list checks, and for all of them when the identity lookup succeeds (none otherwise), with one identity lookup per such entry |
| RetentionProperties.EligibleIdsMembership | main.go:121-135 | An ID is among the due IDs iff some timeline entry with that ID is due |
| RetentionProperties.EligibleIdsCount | main.go:121-135 | With unique IDs, each entry's ID occurs once among the due IDs if it is due, and not at all otherwise |
| RetentionProperties.DeletedOnceIffDue | main.go:121-135 | With unique IDs, every timeline entry is requested for deletion exactly once if it is due and never otherwise |
| RetentionProperties.UnparseableNeverDeleted | main.go:122-124 | An entry whose own timestamp does not parse is never deleted |
| RetentionProperties.AllowListedNeverDeleted | main.go:126 | An allow-listed entry is never deleted, even when other entries share its ID |
| RetentionProperties.YoungNeverDeleted | main.go:126 | An entry whose age is at most the age limit is never deleted |
| RetentionProperties.RecentReplyProtects | main.go:108-110 | An entry with a returned direct reply strictly younger than the interaction limit is never deleted, including replies dated in the future and limits of 0 or less, except the smallest Duration (where Go's saturated age cannot fall below the limit); other entries sharing the ID are spared too |
| RetentionProperties.LookupFailureDeletesCandidates | main.go:71-74 | Fail open: when the identity lookup fails, every entry passing the age and allow-list checks is deleted |
| RetentionProperties.TimelineErrorDeletesNothing | main.go:117-120 | A failed timeline fetch leads to no deletion and no reply search |
| RetentionProperties.DeleteFailuresDoNotStopScan | main.go:127-132 | The requested deletions are the same whatever the platform answers to deletions, so a failed delete does not stop the scan |
| Scenarios.AllowListedKept | main.go:126 | An allow-listed tweet 2000h old with no replies is kept |
| Scenarios.YoungKept | main.go:126 | A tweet 1h old under a 720h limit is kept |
| Scenarios.OngoingInteractionKept | main.go:108-110 | A 1000h-old tweet with a 2h-old direct reply under a 48h window is kept |
| Scenarios.StaleInteractionDeleted | main.go:126-127 | A 1000h-old tweet whose only direct reply is 500h old is deleted |
| Scenarios.UnparseableReplyIgnored | main.go:103-107 | A reply with an unparseable timestamp does not keep an old tweet |
| Scenarios.TimelineErrorCompletes | main.go:148-153 | A failed timeline fetch deletes nothing and still reports "200" / "No more tweets to delete" |
| Scenarios.MalformedMaxAgeDeletesRecentTweet | main.go:145 | As written, an unparseable maximum age makes a 1h-old tweet deletable |
| Scenarios.MalformedMaxAgeRejected | main.go:145 | With malformed settings rejected, that invocation is refused |

## Left out

- `setVariables` and `getenv` (main.go:31-47) read OS environment variables and panic when one is missing. The model takes the settings as a `Config` value.
- The anaconda client, OAuth setup, logger setup and the Lambda entry point `main` (main.go:140-143, main.go:156-159) are foreign library and network code. The client is represented only by its responses.
- Client responses are treated as fixed functions of the request arguments, so `GetSelf` answers the same on every call in one invocation. A real client may answer differently on repeated calls.
- RubyDate parsing inside `CreatedAtTime()` and `time.ParseDuration` are library internals. The model takes their outcomes as `Option` values.
- Each `time.Since` call reads the wall clock. The model uses one `now` for the whole run, so it does not cover the clock moving during a scan.
- The `log.Print` output is diagnostic only and is not modelled. This includes "DELETED ID" being logged even when the delete fails.
- The request parameters `count=200`, `include_rts=true` and `since_id` (main.go:57-59, main.go:68-70) are server-side details. The timeline and search results are arbitrary sequences. `since_id` picks the search response and is recorded in the `GetSearch` call; its server-side effect, returning only statuses newer than that ID, is not modelled.
- Go strings are byte sequences and the model uses `seq<char>`. This changes nothing here: the split is on the ASCII ':' and entries are compared with ASCII digit renderings.
- `getRepliesForTweet` builds its result in the search response's own backing array (`Statuses[:0]`). This aliasing has no observable effect, because each write lands at or before the element being read.

## Findings

| source | as written | input that shows it | evidently intended | confidence | as-written member | corrected member |
|---|---|---|---|---|---|---|
| main.go:145-146 | An error from `time.ParseDuration` is discarded, so the age limit becomes 0 and every parseable, unlisted tweet without a recent reply is deleted | `MAX_TWEET_AGE=30d` (Go durations have no `d` unit) with a tweet posted 1h ago | A malformed duration setting aborts the run before any scanning | medium; not executed | Retention.Ephemeral, shown by Scenarios.MalformedMaxAgeDeletesRecentTweet | Retention.EphemeralChecked, with Scenarios.MalformedMaxAgeRejected |
