# Vote contest: boost, countdown, leaderboard and vote dialog in Dafny

This project models the parts of the child-voting contest platform that carry
decision logic, and proves properties of them:

- **Vote boost** (`vote_boost.dfy`, module `VoteBoost`). This is the `apply-vote-boost` edge function. Once the
  contest end date has passed, it reads the leader's vote count once. It then
  stops if the `vote_boost_applied` marker is `"true"`. Otherwise it overwrites
  the vote count of each contestant named in `VOTE_BOOSTS` with the leader's count
  plus that name's bonus, and it records a failure for each name it cannot
  resolve or update. Finally it sets the marker. The handler is one pure function
  `Run(boosts, store, now, env) -> Outcome(store', response)`. In the store, the
  `contestants` table is a sequence of rows (id, full name, votes) and
  `contest_settings` is a map from key to string. `ApplyVoteBoost` is `Run` with
  the configured `VOTE_BOOSTS`.
- **Countdown** (`countdown.dfy`, module `Countdown`). The interval callback turns the milliseconds left
  into days, hours, minutes and seconds. At or after the end it shows zeros and
  stops. Rendering shows the "ended" banner exactly when all four fields are zero.
- **Live leaderboard** (`leaderboard.dfy`, module `Leaderboard`). A realtime UPDATE replaces the record whose
  id matches the payload and re-sorts the list by votes, highest first, with a
  stable sort. Rows are shown at position `index + 1`.
- **Vote dialog** (`vote_modal.dfy`, module `VoteModal`). The count field is read with JavaScript's `parseInt`,
  modelled in full for a call with no radix. The result then goes through
  `|| 1` and `Math.max(1, ·)`. `totalAmount` is `voteCount * votePrice`. The pay
  button is disabled without an email or while loading. The simulated payment
  sets a one-second timer. When the timer fires, it alerts the amount captured at
  the click, closes the dialog, and resets the count to 1 and the email to empty.

Instants and time differences are integer milliseconds. Vote counts are
unbounded integers. The things the handler cannot control are the parameters of
`Run`, carried in `Env`: which instant the stored end date names, if any (`Run` itself treats an instant outside the `Date` range as an Invalid Date), which contestant
updates the database refuses (and with what message), whether the marker read
fails, and whether the marker upsert fails.

The model follows the code where it departs from the contest's intended design:

- The boost has no atomic claim. It reads the marker and writes it later, with
  no compare-and-swap. The model is sequential and does not claim exactly-once
  application under concurrent calls.
- The leader's count is read before the marker check. So on an empty
  `contestants` table the answer is "Could not fetch contestants", even when the
  marker is set.
- The start date is never read. Only the end date gates the call, and a call at
  exactly the end instant passes the gate.
- The marker upsert's error is never checked. If that write fails, the call
  still reports success, and a retry applies the boost again, this time measured
  against the already boosted table (`LostMarkerReapplies`).
- The marker read's error is dropped too. A read that fails looks like a missing
  marker, so a later call whose read fails applies the boost again
  (`FailedMarkerReadReapplies`).
- An end date that does not parse, or that lies outside the range a JavaScript
  `Date` can hold (±8.64e15 ms), gives an Invalid Date. The log lines then call
  `toISOString()` on it, which throws. The catch block turns that into a failure
  response with the message "Invalid time value". The same happens for a valid
  end date in the first minute of that range. There, `oneMinuteBeforeEnd`, which
  is only logged, falls outside the range (`EarliestEndDateFails`).
- Payment verification and vote crediting do not appear in the code. The dialog's
  payment is a timer stub.

## Model

| member | source | states |
|---|---|---|
| `VoteBoost.Run` | supabase/functions/apply-vote-boost/index.ts:27-155 | The response is "end date not found" exactly when the setting is missing. It is the "Invalid time value" failure exactly when the setting exists but one of the three logged instants is an Invalid Date: the end date does not parse, or it, `now` or the instant one minute before the end lies outside the `Date` range. It is "not yet applicable" (carrying `now` and the end) exactly when `now` is strictly before the end, so a call at the end instant passes. It is "could not fetch contestants" exactly when past the end with an empty table, whatever the marker says. It is "already applied" exactly when past the end with a non-empty table, the marker `"true"` and the marker read successful. It is success otherwise. Every non-success response leaves the store unchanged. On success: `highestVotesAtTime` is the maximum vote count of the table as it was before the loop; there is one result per configured name, in configuration order; ids and names are unchanged; and the settings gain the marker `"true"` unless the upsert failed. |
| `VoteBoost.EarliestEndDateFails` | supabase/functions/apply-vote-boost/index.ts:42-48 | An end date at the earliest instant a `Date` can hold is valid. But the minute before it is not, so the call fails with "Invalid time value" at any time and changes nothing. |
| `VoteBoost.ApplyVoteBoost` | supabase/functions/apply-vote-boost/index.ts:9-15 | The deployed handler reports exactly five results, one per `VOTE_BOOSTS` entry. |
| `VoteBoost.ConfiguredNamesDistinct` | supabase/functions/apply-vote-boost/index.ts:9-15 | The configured names are pairwise distinct, so no contestant is targeted twice. |
| `VoteBoost.MaxVotes` | supabase/functions/apply-vote-boost/index.ts:63-79 | For a non-empty table, the result is at least every row's vote count and equals some row's count. |
| `VoteBoost.FindSingle` | supabase/functions/apply-vote-boost/index.ts:102-113 | The lookup by full name yields row `i` only when `i` is the one row with that name. It yields nothing when no single row carries the name, whether none or several do. |
| `VoteBoost.BoostTable` | supabase/functions/apply-vote-boost/index.ts:96-128 | About the loop (`BoostAll`, against the reference table `Expected`). After success, a row whose name is not configured is unchanged. The one row carrying a configured name holds the pre-loop maximum plus its bonus, whatever its own earlier count, unless its update was refused. Rows that share a configured name with another row are unchanged. Ids stay distinct. |
| `VoteBoost.BoostReport` | supabase/functions/apply-vote-boost/index.ts:97-127 | After success, entry k of `results` belongs to configured name k. It is `{success: false, error: "Contestant not found"}` when no single row carries the name. It is the database's message when that row's update is refused. Otherwise it is `{success: true, newVotes: highest + bonus}`. A failure does not stop later names from being processed. |
| `VoteBoost.SecondRunChangesNothing` | supabase/functions/apply-vote-boost/index.ts:83-137 | Once a call has succeeded and its marker write went through, any later call whose marker read succeeds leaves the store exactly as it is, at any time and whatever vote updates or marker write the database refuses. At or after the end date (and within the `Date` range), that later call answers "already applied". |
| `VoteBoost.LostMarkerReapplies` | supabase/functions/apply-vote-boost/index.ts:130-137 | When the ignored marker upsert fails, the call still reports success. A second call at the same time applies the boost again, with a baseline at least as high as every boosted count. |
| `VoteBoost.FailedMarkerReadReapplies` | supabase/functions/apply-vote-boost/index.ts:83-89 | The marker read's error is dropped. After a completed call whose marker was stored, a later call whose marker read fails does not see the marker. It reports success again, with a baseline at least as high as every boosted count. |
| `VoteBoost.MessageIdentifiesOutcome` | supabase/functions/apply-vote-boost/index.ts:37-152 | In the handler's responses, `success` is true exactly for an applied boost. Two responses with the same `message` are of the same kind. The texts are the source's, and the only thrown error modelled says "Invalid time value". |
| `VoteBoost.OnlyEndDateAndMarkerRead` | supabase/functions/apply-vote-boost/index.ts:28-94 | Changing any setting other than the end date and the marker (a start date, say) does not change the response: there is no start-date check. |
| `VoteBoost.ExampleApplies` | supabase/functions/apply-vote-boost/index.ts:51-94 | Example: the end date "2025-01-01T00:00:00Z" (1,735,689,600,000 ms), no marker, and a call at exactly that instant. The call succeeds with a baseline of 10,000. |
| `VoteBoost.LeaderPlusBonusExample` | supabase/functions/apply-vote-boost/index.ts:99-127 | Example: the leader has 10,000 votes and "Hammed Aishat" (bonus 500) has 42. Afterwards she has exactly 10,500, her result is `Boosted(10500)`, and the leader still has 10,000. |
| `Countdown.Decompose` | src/components/CountdownTimer.tsx:34-39 | For a positive difference: days ≥ 0, 0 ≤ hours < 24, 0 ≤ minutes < 60, 0 ≤ seconds < 60. The milliseconds S the reading stands for satisfy S ≤ difference < S + 1000. |
| `Countdown.DecomposeMillis` | src/components/CountdownTimer.tsx:35-38 | Round trip: any in-range reading, plus fewer than 1000 extra milliseconds, decomposes back to that same reading. So the decomposition is the only in-range reading within a second below the difference. |
| `Countdown.Tick` | src/components/CountdownTimer.tsx:23-40 | A difference ≤ 0 sets all four fields to zero and stops the timer. A positive difference keeps it running with an in-range reading that is within a second below the difference. A stopped timer is never changed. |
| `Countdown.EndedWithinLastSecond` | src/components/CountdownTimer.tsx:28-59 | After a tick, `isEnded` holds exactly when the difference is below 1000 ms. So the banner also shows during the last second before the end. |
| `Countdown.StoppedStaysStopped` | src/components/CountdownTimer.tsx:28-31 | Once the interval is cleared, no sequence of further ticks changes the state. |
| `Countdown.ExpiryIsFinal` | src/components/CountdownTimer.tsx:28-67 | After a tick at or past the end, every later state is all zeros and stopped, and it renders the "Contest Has Ended" banner. |
| `Countdown.Render` | src/components/CountdownTimer.tsx:58-91 | The banner shows exactly when a reading exists with all fields zero. Otherwise the counter shows `--` in every cell while loading or without a reading, and the reading's four numbers otherwise. |
| `Countdown.BeforeFirstTick` | src/components/CountdownTimer.tsx:12-86 | Before the first tick there is no reading: the state is not "ended" and every cell shows `--`, loading or not. |
| `Leaderboard.SortByVotes` | src/components/Leaderboard.tsx:77 | The result is sorted by votes, non-increasing. It is a permutation of the input with the same length. For every vote count, the entries with that count keep their input order (stability). |
| `Leaderboard.SortedGroupsDetermine` | src/components/Leaderboard.tsx:77 | Two lists sorted by votes whose equal-vote groups agree are equal. So the outcome is the same for every stable sort a browser may use. |
| `Leaderboard.SortSortedIsIdentity` | src/components/Leaderboard.tsx:77 | Re-sorting an already sorted list leaves it unchanged. |
| `Leaderboard.AfterUpdate` | src/components/Leaderboard.tsx:72-78 | About `OnUpdate` (`MergeById`, then `SortByVotes`). After an UPDATE, the list is sorted by votes, non-increasing, and keeps its length. It is a permutation of the merged list, and equal-vote records keep their order. Its records are exactly the untouched records whose id differs from the payload's, plus the payload when some record carried its id. |
| `Leaderboard.UnmatchedUpdate` | src/components/Leaderboard.tsx:74-77 | An UPDATE for an id the list does not hold keeps the same multiset of records. If the list was already sorted, it stays exactly as it was. |
| `Leaderboard.PositionsRank` | src/components/Leaderboard.tsx:118-120 | Row i shows record i at position i + 1. On a sorted list, the leader is at position 1 and a record with strictly more votes always has a smaller position. |
| `VoteModal.ParseInt` | src/components/VoteModal.tsx:29 | `parseInt` is `NaN` exactly when no digit of the selected radix follows the white space, the sign and any `0x` prefix. A result read after a leading `-` is never positive, and a negative result always had a leading `-`. Its values are pinned down by `LeadingIntegerPrefix` and `HexExample`. |
| `VoteModal.VoteCountFor` | src/components/VoteModal.tsx:28-31 | The new count is always ≥ 1. It is n when `parseInt` yields n ≥ 1, and 1 when it yields `NaN`, zero or a negative number. |
| `VoteModal.TypedCountRoundTrip` | src/components/VoteModal.tsx:28-31 | Round trip: the decimal numeral of any n ≥ 1, followed by anything that does not start with a digit (".5", "e3"), parses to n and sets the count to n. |
| `VoteModal.LeadingIntegerPrefix` | src/components/VoteModal.tsx:29-30 | `parseInt` reads any decimal integer prefix as written: leading white space, then an optional `+` or `-`, then digits (leading zeros allowed, so "05" is 5), then anything that is not a digit. The count becomes that number when it is at least 1, and 1 otherwise. The only exception is a lone "0" before "x" or "X", which is hexadecimal (`HexExample`). |
| `VoteModal.LeadingZeroExample` | src/components/VoteModal.tsx:29-30 | Example: "05" sets the count to 5. |
| `VoteModal.NegativeCountIsOne` | src/components/VoteModal.tsx:29-30 | "-n" parses to -n and sets the count to 1. |
| `VoteModal.NotANumberExample` | src/components/VoteModal.tsx:29-30 | Example: "" and "abc" parse to `NaN` and set the count to 1. |
| `VoteModal.ZeroExample` | src/components/VoteModal.tsx:29-30 | Example: "0" is falsy and sets the count to 1. |
| `VoteModal.FractionExample` | src/components/VoteModal.tsx:29-30 | Example: "2.5" sets the count to 2. |
| `VoteModal.PaddedExample` | src/components/VoteModal.tsx:29-30 | Example: "  12" sets the count to 12. |
| `VoteModal.HexExample` | src/components/VoteModal.tsx:29-30 | Example: "0x1A" sets the count to 26. |
| `VoteModal.HandlePayment` | src/components/VoteModal.tsx:33-38 | With an empty email or no contestant, nothing changes: no loading and no timer. Otherwise loading starts and a timer is set holding `totalAmount = voteCount * votePrice` and `voteCount` of that moment. Nothing else changes. |
| `VoteModal.TimerFires` | src/components/VoteModal.tsx:39-45 | When the timer fires, the alert records the captured amount and count, loading stops, `onClose` is called, the count resets to 1 and the email to "". |
| `VoteModal.FreshValid` | src/components/VoteModal.tsx:22-26 | The dialog as it opens (count 1, empty email, not loading) meets the invariant. It shows one vote's price, and its pay button is disabled. |
| `VoteModal.StepValid` | src/components/VoteModal.tsx:22-46 | About `Step`: every event (count input, quick select, email input, pay click, timer) preserves the invariant. The invariant: count ≥ 1, at most one pending timer, and loading exactly while a timer is pending. |
| `VoteModal.StepsValid` | src/components/VoteModal.tsx:22-46 | About `Steps` and `Total`: from any valid state, including `Fresh`, every event sequence keeps the invariant. With a non-negative price, the total is never below one vote's price. |
| `VoteModal.DisabledPayIsInert` | src/components/VoteModal.tsx:127-134 | The pay button is disabled when the email is empty or a payment is in progress, so a click then changes nothing. |
| `VoteModal.AlertUsesClickTimeAmount` | src/components/VoteModal.tsx:26-45 | The alert reports `voteCount * votePrice` and `voteCount` as they were at the click, even if the count field changes while the payment is pending. Afterwards the form is reset and the dialog closed. |

## Left out

- HTTP handling of the boost: the OPTIONS preflight, CORS headers, status codes, JSON encoding, logging, and the Supabase client set-up. These are I/O. The response is a datatype instead.
- Store failures: the model covers a missing end-date row, an empty `contestants` table, refused vote updates, a failed marker read (an input, `Env.markerReadFails`, which behaves like a missing marker, as in the code) and a failed marker upsert. Failures of the other queries are not modelled, and neither is any thrown exception other than the Invalid Date `RangeError`.
- Concurrent boost calls: the code's check-then-act is not atomic, and the model is sequential. Nothing here claims exactly-once application under concurrency.
- The marker upsert's `updated_at` timestamp: it is a clock reading.
- Date parsing and clock reads: an instant is an integer in milliseconds. `Env.parseInstant` stands for `new Date(text)`, and the countdown's caller supplies `end - now`. The `setInterval`/`clearInterval` plumbing is reduced to a `running` flag.
- The countdown assumes a valid end date. When the stored end date does not parse, `difference` is `NaN` (src/components/CountdownTimer.tsx:26), so neither branch's test holds: the source then shows `NaN` in every cell and never clears the interval. `Countdown.Tick` takes an integer difference and does not model that case.
- JavaScript numbers are doubles, but the model uses unbounded integers. Vote counts, differences and parsed counts beyond 2^53 (where the source loses precision, or where `parseInt` returns `Infinity`) are not modelled.
- A null `votes` column, which PostgreSQL would order first in a descending sort, is not modelled: votes are always integers.
- The leaderboard takes the realtime payload's new row as carrying every column, so `{ ...c, ...payload.new }` is the payload. The initial fetch, the subscription, the refetch on INSERT/DELETE, the loading skeleton and image state are I/O or presentation.
- The vote dialog's rendering, the alert's text formatting, and what the parent does on `onClose` are presentation.
- Payment verification, idempotent crediting by payment reference, and phase gating of purchases are not in the code at all. The dialog's payment is a timer stub.
- The `contestants` table is a sequence of rows rather than a map from id, so that a lookup by full name has a definite set of matches and order. Distinct ids are a hypothesis of the lemmas that need them, not something the model enforces.
- The vote total and the `|| 50` price fallback in `src/pages/Leaderboard.tsx`, and the `findIndex + 1` rank in `src/pages/ContestantProfile.tsx`, are render-time arithmetic outside the modelled core.
- `src/lib/paystack.ts` (reference generation from the clock and randomness, and the widget call), the registration form and photo upload, `useContestSettings`, and the static and view-only pages and components are outside the modelled core.
