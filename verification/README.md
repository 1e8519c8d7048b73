# Rabotka back end: models and proofs

The parts of the back end where a guarantee spans many calls, many runs or every input,
written as state machines, classes and functions, with the guarantees proved as lemmas.
`dafny verify dfyconfig.toml` checks the project.

| files | what they are about |
|---|---|
| `Redis`, `OtpStore` | the server (values with an expiry, a clock, SET EX, GET, INCR, EXPIRE, DEL) and the one-time-code functions on it |
| `OtpRuns`, `OtpIdentifiers`, `OtpInterleaved`, `OtpLockout`, `SendCap`, `FixedWindow` | one-time codes over whole runs: calls one at a time, those of many identifiers mixed, SET and DEL interleaved with guesses, the day's lockout with calls under way, the cap on sends |
| `SignupToken`, `SignupRuns` | sign-up tokens and their upload allowance |
| `KycMove`, `KycRuns`, `KycOutcome`, `KycReport` | the bucket migration: the run itself, any sequence of stopped runs, what one run does for each key, what it reports |
| `EcmaDate`, `Recurrence`, `SeriesOverlap`, `Expander`, `WrittenSeries`, `SeriesRepair` | dates as ECMA-262 computes them, the steps of a repeating event, the overlap filter, the dates and rows the service writes, the repair |
| `TemplateText`, `TemplateVar`, `TemplateStable` | the text of a template variable, as UTF-16 code units: the passes, the cap and the fallback, and what sanitizing twice does |
| `SqlClause`, `TextSearch`, `TierPaging` | the search clause read with SQL's precedence, and paging across tiers |
| `CancellationRule`, `PrivateAddress`, `LedgerRestore` | the repeated-cancellation rule, the IPv4 test, the ledger restore |

A class method states its new state as a function of the old one. The theorems about runs
are stated on that function: a run is any sequence of steps, and an invariant is carried
over it. Each bound that comes from calls overlapping, or from an interval that slides over
two windows, is exact: a lemma builds a run that reaches it. `Basics` holds what several
modules share.

## What the proofs found

- **Codes whose store is interleaved.** With SET and DEL apart, one code meets at most
  5 + 4r wrong guesses, r being how often its counter is reset while it lives. At most one
  reset of a code can come from an expiry. A whole run meets at most 9 wrong guesses per
  store, and 4 - c more if a counter at c, from 1 to 4, was left over from before it. All
  of these are reached, for every r, every c and every number of stores. With whole calls
  there is no reset and the bound is 5.
- **Sends and misses in a sliding interval.** A window starts with an event it counts, so
  any 15 minutes hold at most 9 accepted sends and any 24 hours at most 39 counted misses
  of calls made one at a time. With k guesses under way one lifetime of the day's counter
  counts 19 + k, and any 24 hours 37 + 2k. All are reached, for every k.
- **Uploads of a sign-up token.** Twelve for whole calls. Each call caught between its
  read and its count while the token is consumed can add one: 12 + k, which is reached.
- **`sanitizeTemplateVariable` is not idempotent on every string.** Half a tag character,
  a zero-width joiner and the other half leave the tag character behind, and only a second
  pass removes it. Normal form and idempotence hold exactly when the text has no two halves
  of a format character with nothing between them but characters that are taken out (a CR,
  which becomes a newline, keeps them apart). No well-formed Unicode string has.
- **`freeTextVar` can be emptied on the way out.** On that same string it gives the tag
  character instead of the fallback, and the provider mapper's own sanitizing turns that
  into an empty variable. For every value: the mapper leaves the variable as it is exactly
  when every two halves the value brings together come together past the cut, so for a
  value that fits the budget exactly when it has none. The budget itself is never exceeded.
- **The repair script's step is not the expander's.** The comment on
  scripts/repair-overlapping-series.ts:36 says it matches `RecurrenceExpanderService.addUnits`.
  It does exactly when the anchor's date exists in the month it lands in; otherwise
  `Date.UTC` overflows where `addUnits` falls back to the month's last day.
- **The filter looks at the first interval only, and so does the service.** Both are exact
  for daily and weekly series. A monthly or yearly series may pass and overlap later: thirty
  days from 1 January 2026, three times or more, does. Among 25 monthly or 3 yearly rows,
  two overlap exactly when the series lasts more than 28 days (29 when it falls on the 29th
  or 30th) or 365 days.
- **A preview without a window.** The cancel never suspends when the window is not positive.
  The preview then looks no cancellation up, yet says it would suspend at a threshold of at
  most 1, which the one cancellation reaches. They agree in every other case.
- **Years 0 to 99** are read by `Date.UTC` as 1900 to 1999. The steps have their stated
  lengths if and only if the year they land in is not one of them.
- **The bucket migration verifies by size.** Sizes are never lost. Content is lost by a
  deleting pass exactly when an object of the same size and other content was already in
  the destination, or was what the copy put there. With truthful HEAD requests the branch
  that refuses to delete is never taken, and `deleted` also counts keys whose source was
  already gone.

## Model

| member | source | states |
|---|---|---|
| `OtpStore.StoreOtp` | src/modules/auth/otp-store.ts:67-75 | the code is live for 300 s, its miss counter is gone, and every other key of the server is as it was |
| `OtpStore.VerifyAndDeleteOtp` | src/modules/auth/otp-store.ts:47-60 | the reply says whether a live code equals the guess; without a live code nothing changes; a match ends the code and its counter; a miss counts one more, with the expiry on the first, and at the limit ends both; no other key is touched |
| `OtpStore.ConsumeOtp` | src/modules/auth/otp-store.ts:78-94 | the same with the fifth miss as the limit and 300 s on the counter, answered as a boolean |
| `OtpStore.AssertCanSendOtp` | src/modules/auth/otp-store.ts:97-111 | counts the send on a counter that expires 15 minutes after its first, and refuses exactly from the sixth on |
| `OtpStore.AssertNotLockedOut` | src/modules/auth/otp-store.ts:123-134 | refuses exactly when the day's counter is at 20 or more, an absent one being 0 |
| `OtpStore.RecordMiss` | src/modules/auth/otp-store.ts:137-143 | one more on the counter, which expires a day after its first |
| `OtpStore.ConsumeOtpWithLockout` | src/modules/auth/otp-store.ts:149-160 | locked out: refused with the server untouched; else the answer of the guess, and a miss counted on the day after the guess |
| `OtpStore.CountedCounter` | src/modules/auth/otp-store.ts:101-104 | INCR then EXPIRE on 1: the count goes up by one, a live counter keeps its expiry and a dead one gets a fresh one |
| `OtpStore.GuessKeepsCounters` | src/modules/auth/otp-store.ts:155-158 | a guess leaves the day's counter and its expiry alone and both counters hold numbers |
| `OtpStore.StoreTouches` | src/modules/auth/otp-store.ts:73-74 | storing a code leaves every key but the code's and its counter's as it was |
| `OtpStore.GuessTouches` | src/modules/auth/otp-store.ts:48-59 | so does a guess, right or wrong |
| `OtpStore.CountTouches` | src/modules/auth/otp-store.ts:101-104 | counting a send or a miss leaves every other key as it was |
| `OtpRuns.StepKeepsInvariant` | src/modules/auth/otp-store.ts:47-94 | every store, guess and tick keeps: a live code is the last stored, its counter is the number of misses it has met and expires no earlier than it does |
| `OtpRuns.GuessesPerCode` | src/modules/auth/otp-store.ts:47-94 | over every run a code meets at most five wrong guesses and one right one, none right once five were wrong, and its counter never expires first |
| `OtpRuns.GuessSucceedsIff` | src/modules/auth/otp-store.ts:47-94 | a guess succeeds iff it is the last code stored, less than 300 s old, unused and met by fewer than five misses |
| `OtpRuns.WrongGuessesPerRun` | src/modules/auth/otp-store.ts:47-94 | wrong guesses against live codes in a run are at most 5 times its stores |
| `OtpIdentifiers.AsIfAlone` | src/modules/auth/otp-store.ts:47-94 | however the stores and guesses of any number of identifiers, and counts on other keys, are mixed, an identifier's code and miss counter are what its own calls alone would have left |
| `OtpIdentifiers.GuessSucceedsIff` | src/modules/auth/otp-store.ts:47-94 | in such a mix a guess succeeds iff it is the last code stored for that identifier, under 300 s old, unused and met by fewer than five misses for it |
| `OtpIdentifiers.OthersChangeNothing` | src/modules/auth/otp-store.ts:47-94 | calls for other identifiers leave the answer to every guess as it was, time aside |
| `OtpInterleaved.StepKeepsInvariant` | src/modules/auth/otp-store.ts:47-75 | with SET and DEL apart every step keeps: a code's misses are paid for by its resets and by what its counter holds |
| `OtpInterleaved.GuessesPerCode` | src/modules/auth/otp-store.ts:47-75 | in every interleaving a code meets at most 5 + 4r wrong guesses for r resets of its counter, at most one of them an expiry, and at most one right guess |
| `OtpInterleaved.WrongGuessesPerRun` | src/modules/auth/otp-store.ts:47-75 | in every interleaving at most 9 wrong guesses per SET, and over the whole run 4 - c more if a counter at c was left over, so at most 3 |
| `OtpInterleaved.BoundIsReached` | src/modules/auth/otp-store.ts:67-75 | for every r there is a run in which one code is reset r times and meets 5 + 4r wrong guesses |
| `OtpInterleaved.StepPays` | src/modules/auth/otp-store.ts:47-75 | every step keeps: the misses so far and the guesses the server is still good for are paid for by nine per SET |
| `OtpInterleaved.NinePerStoreAreReached` | src/modules/auth/otp-store.ts:67-75 | for every number of stores and every counter left over a run that meets the bound |
| `OtpInterleaved.WholeCallsNeverReset` | src/modules/auth/otp-store.ts:67-75 | a run of whole calls is the interleaved run with each DEL right after its SET: same server, same guesses per code, no reset |
| `FixedWindow.AnyInterval` | src/modules/auth/otp-store.ts:97-143 | a counter with a fixed window lets any interval of that length hold at most twice the limit less one |
| `SendCap.AcceptedPerInterval` | src/modules/auth/otp-store.ts:97-111 | over every run any half-open 15 minutes hold at most 9 accepted sends |
| `SendCap.NineAreReached` | src/modules/auth/otp-store.ts:97-111 | a run in which 15 minutes hold nine |
| `SendCap.SendRefusedIff` | src/modules/auth/otp-store.ts:101-110 | a send is refused iff five were accepted since a moment less than 15 minutes ago at which the first of them was |
| `SendCap.SendsNeverLengthen` | src/modules/auth/otp-store.ts:101-104 | no send within a window, refused or not, moves its end |
| `OtpLockout.StepKeepsInvariant` | src/modules/auth/otp-store.ts:119-160 | with check, evaluation and count as separate steps and at most k calls under way, the day's count plus the calls under way stays within 19 + k, and the counter is the misses of its lifetime |
| `OtpLockout.MissesPerDay` | src/modules/auth/otp-store.ts:119-160 | one lifetime of the day's counter records at most 19 + k misses, any 24 hours at most 37 + 2k |
| `OtpLockout.OneCallAtATime` | src/modules/auth/otp-store.ts:119-160 | for k = 1: at most 20 in a lifetime and 39 in any 24 hours |
| `OtpLockout.BoundIsReached` | src/modules/auth/otp-store.ts:149-160 | for every k a run whose first lifetime records 19 + k misses |
| `OtpLockout.DayIsReached` | src/modules/auth/otp-store.ts:149-160 | for every k a run in which 24 hours record 37 + 2k misses, for k = 1 thirty-nine |
| `OtpLockout.LockoutHolds` | src/modules/auth/otp-store.ts:123-143 | over every run an identifier is locked out iff the current lifetime, less than a day old, has counted 20 misses |
| `OtpLockout.WholeCall` | src/modules/auth/otp-store.ts:149-160 | the three steps on end are one call of the unsplit function: same server, nothing left under way |
| `SignupToken.IssueSignupToken` | src/modules/auth/signup-token.ts:40-52 | the record is stored for an hour under the token returned, which reads back as the identity |
| `SignupToken.ReadSignupToken` | src/modules/auth/signup-token.ts:59-83 | a token that is missing, empty or over 128 characters reads as nothing, any other as what its key holds |
| `SignupToken.BarePhone` | src/modules/auth/signup-token.ts:66-66 | stored text reads as a WhatsApp sign-up with that phone iff it is not empty and does not open with a brace, and as nothing else |
| `SignupToken.RecordIs` | src/modules/auth/signup-token.ts:68-82 | a record reads as a business iff its entry says so and it has an email, as WhatsApp iff its entry says so and it has a phone |
| `SignupToken.CountSignupUpload` | src/modules/auth/signup-token.ts:89-99 | allowed iff the token reads as an identity and fewer than 12 uploads were counted; counts only for a token that reads, on a counter that lasts an hour from its first, and touches no other key |
| `SignupToken.ConsumeSignupToken` | src/modules/auth/signup-token.ts:102-107 | both of the token's keys are gone and it reads as nothing |
| `SignupRuns.StepKeepsInvariant` | src/modules/auth/signup-token.ts:40-107 | every step keeps for every issued token: it is live iff unspent and under an hour old, its upload counter lasts at least as long and is what it was granted |
| `SignupRuns.UnusedIsIssued` | src/modules/auth/signup-token.ts:40-52 | a token nobody has used or looked at is issued, whatever else is under way, and reads back |
| `SignupRuns.ReadsBack` | src/modules/auth/signup-token.ts:40-83 | over every run a token reads as the identity it was issued for until an hour passes or it is consumed, then as nothing |
| `SignupRuns.DeadStaysDead` | src/modules/auth/signup-token.ts:59-107 | a token that has read as nothing never reads as anything again |
| `SignupRuns.UploadsPerToken` | src/modules/auth/signup-token.ts:89-107 | with at most k calls between read and count a token is granted at most 12 + k uploads in its life |
| `SignupRuns.UploadAllowedIff` | src/modules/auth/signup-token.ts:89-99 | whole calls: at most 12 in a life, and allowed iff the token lives and fewer than 12 were |
| `SignupRuns.BoundIsReached` | src/modules/auth/signup-token.ts:89-107 | for every k a run that grants 12 + k |
| `KycMove.Storage.Move` | prisma/backfill-kyc-storage-keys.ts:183-274 | the loop over keys, with its counters, list and report, leaves the buckets, list and counters of the run specified, and no report when a copy throws |
| `KycMove.Storage.MoveKey` | prisma/backfill-kyc-storage-keys.ts:203-271 | one key: what it does to both buckets and the list, and what it adds to each of the four counters |
| `KycMove.Storage.CopySource` | prisma/backfill-kyc-storage-keys.ts:222-251 | throws iff it applies and the copy does; the private object is what the copy put; listed as unverified iff it did not throw and the size that arrived is not the source's; counted only when verified, or when nothing is applied |
| `KycMove.Storage.DeleteSource` | prisma/backfill-kyc-storage-keys.ts:253-270 | deletes the public object iff both flags are on and the destination is present, and lists the key iff they are on and it is not |
| `KycRuns.RunsKeep` | prisma/backfill-kyc-storage-keys.ts:183-274 | every state of every sequence of runs keeps, for every key: the public object unchanged or a private one of its size, and everything no run touched |
| `KycRuns.StopsAnywhere` | prisma/backfill-kyc-storage-keys.ts:203-271 | a run can be stopped in every one of its states, so the histories include them all |
| `KycOutcome.StopsIff` | prisma/backfill-kyc-storage-keys.ts:223-234 | a run ends early iff it applies and the copy of a key that needs one throws |
| `KycOutcome.EveryKeyHandled` | prisma/backfill-kyc-storage-keys.ts:203-271 | for any flags and copies, every key before a stop: listed as absent iff in neither bucket and as unverified iff its copy left another size, deleted when asked to iff not listed, its private object what the copy put or as it was |
| `KycOutcome.NothingAfterTheStop` | prisma/backfill-kyc-storage-keys.ts:224-234 | the keys after the one whose copy throws keep both objects and are not listed |
| `KycOutcome.CountersAreClasses` | prisma/backfill-kyc-storage-keys.ts:198-273 | already there and missing are the keys that were so beforehand, and copied plus unverified those that needed a copy, for any flags and copies |
| `KycRuns.NothingLost` | prisma/backfill-kyc-storage-keys.ts:183-274 | over any runs, flags, stops and failing copies a key that began in the public bucket is there unchanged or in the private one at its size; a key that did not is where it was |
| `KycRuns.ContentKept` | prisma/backfill-kyc-storage-keys.ts:236-248 | the same for the object itself, if no copy puts another object of the right size |
| `KycRuns.ContentLostIff` | prisma/backfill-kyc-storage-keys.ts:203-271 | one deleting pass loses the content of a key iff an object of its size and other content was in the destination or was what a copy that reported success put there |
| `KycReport.ReportAddsUp` | prisma/backfill-kyc-storage-keys.ts:198-273 | a completed run counts every key once: total = copied + already there + missing + unverified, the list holds exactly the last two, and deleted = copied + already there when deleting and 0 otherwise |
| `KycReport.EveryKeySettled` | prisma/backfill-kyc-storage-keys.ts:203-271 | after a completed deleting run each key is listed with its public object untouched, or only in the private bucket at its size |
| `KycReport.SuccessfulRun` | prisma/backfill-kyc-storage-keys.ts:203-273 | if every copy succeeds the run ends, its counters are the number of keys to copy, there and gone beforehand, and the buckets are exactly the migrated ones |
| `KycReport.DryRun` | prisma/backfill-kyc-storage-keys.ts:223-253 | without --apply neither bucket changes at any moment and the counters are those same numbers |
| `KycReport.DryRunPredicts` | prisma/backfill-kyc-storage-keys.ts:198-273 | the dry run's counts are those of the applied run, and copied + already there is what it will delete |
| `KycReport.SecondRunCopiesNothing` | prisma/backfill-kyc-storage-keys.ts:203-273 | after a run whose copies succeed the next one, with any flags, copies nothing and finds the same keys missing |
| `KycReport.ResumesRatherThanRestarts` | prisma/backfill-kyc-storage-keys.ts:183-274 | after any stopped, refused or failing runs a successful one ends with exactly the buckets it would have left without them |
| `EcmaDate.DayFromYearFormula` | scripts/repair-overlapping-series.ts:41-51 | counting days year by year is the closed form of section 21.4.1 of ECMA-262, leap rules included |
| `EcmaDate.CivilRoundTrip` | scripts/repair-overlapping-series.ts:43-45 | the year, month and date read back from a day number are the ones it was made of, for every valid date |
| `EcmaDate.TimeOfDay` | scripts/repair-overlapping-series.ts:46-49 | hours, minutes, seconds and milliseconds put together again are the time within the day |
| `Recurrence.DaysStep` | scripts/repair-overlapping-series.ts:29-52 | a daily or weekly step lasts one or seven days iff the year is not one of 0 to 99 |
| `Recurrence.MonthStep` | scripts/repair-overlapping-series.ts:29-52 | a monthly step lasts the number of days of the start's own month, overflow included, iff the year is not one of 0 to 99 |
| `Recurrence.YearStep` | scripts/repair-overlapping-series.ts:29-52 | a yearly step lasts 366 days when a 29 February falls between the two month starts and 365 otherwise, iff the next year is not one of 0 to 99 |
| `Recurrence.RepeatGap` | scripts/repair-overlapping-series.ts:37-56 | repeats k and k + 1 counted from the anchor are apart by a day, a week, the length of the month k on, or a year of 365 or 366 days |
| `SeriesOverlap.NeverOverlapsIff` | scripts/repair-overlapping-series.ts:37-56 | repeats counted by `shift`, k periods and k + 1 periods from the anchor, never overlap for any k iff the series lasts at most 1, 7, 28 or 365 days |
| `SeriesOverlap.FilterIsExactForDays` | scripts/repair-overlapping-series.ts:80-84 | a daily or weekly series passes iff it is shorter than its step, and one that passes never overlaps |
| `Expander.AddUnitsDay` | src/modules/event/services/recurrence-expander.service.ts:93-137 | every repeat written keeps the time of day and falls on the anchor's date in its month or on that month's last |
| `Expander.StepMatchesExpanderIff` | scripts/repair-overlapping-series.ts:36-52 | the script's first step is the expander's plus as many days as the date overflows, so they agree iff the date exists in the month landed in |
| `WrittenSeries.Expand` | src/modules/event/services/recurrence-expander.service.ts:47-83 | rows have consecutive indices from startIndex, below 365 and below the count if there is one, starts by `addUnits` not after until or the horizon, and the anchor's length; fewer than maxRows are written only if the next index or start is past one of these, and from year 100 on exactly the repeats the rule allows are, although the loop stops at the first it does not |
| `WrittenSeries.NoOverlapIff` | src/modules/event/services/recurrence-expander.service.ts:47-83 | rows never overlap if the series lasts at most 1, 7, 28 (29 on the 29th and 30th) or 365 days, and only if it does once there are 2, 2, 25 or 3 of them |
| `WrittenSeries.EnoughIsLeast` | src/modules/event/services/recurrence-expander.service.ts:47-83 | those numbers of rows are the least: with one less a series from 1 March 2027 a day over never overlaps |
| `WrittenSeries.PassingSeriesOverlapsIff` | scripts/repair-overlapping-series.ts:80-84 | a series that passes the filter overlaps in its rows iff it is longer than the shortest step of its frequency and shorter than its first interval by `shift`; no daily or weekly one does |
| `WrittenSeries.AdmittedSeriesOverlapsIff` | src/modules/event/services/event-series.service.ts:146-152 | a series is admitted iff it is shorter than the first interval of its rows, and an admitted one overlaps iff it is longer than the shortest step of its frequency |
| `WrittenSeries.ThirtyDaysFromJanuary` | scripts/repair-overlapping-series.ts:80-84 | every monthly series of over 28 and at most 30 days from 1 to 28 January of a common year passes, is admitted, and in February's row runs into March's |
| `WrittenSeries.PassingSeriesCanOverlap` | scripts/repair-overlapping-series.ts:80-84 | thirty days from 1 January 2026 every month, three times or more: passes, is admitted, overlaps |
| `SeriesRepair.Calendar.Repair` | scripts/repair-overlapping-series.ts:62-159 | bad minutes, nothing flagged and a dry run change nothing; after an apply every flagged series and each of its events ends the given minutes after its own start, exactly for whole minutes and within a millisecond else, and nothing else changes |
| `SeriesRepair.Calendar.ClampEvents` | scripts/repair-overlapping-series.ts:127-141 | exactly the events of the series end the given minutes after their own start; no start and no series id changes |
| `SeriesRepair.ClampedEndIs` | scripts/repair-overlapping-series.ts:136-138 | the end is the start and so many minutes of 60000 ms, its fraction of a millisecond dropped toward 1970 |
| `SeriesRepair.FlaggedAfter` | scripts/repair-overlapping-series.ts:80-84 | a series is flagged after the repair iff it was before and the length asked for reaches its own first interval |
| `SeriesRepair.NothingFlaggedAfter` | scripts/repair-overlapping-series.ts:124-153 | a length below every flagged interval leaves nothing flagged, and no unflagged series and none of its events changes |
| `SeriesRepair.UnderADayIsEnough` | scripts/repair-overlapping-series.ts:124-153 | any length of at most a millisecond less than a day leaves nothing flagged, from year 100 on |
| `SeriesRepair.RepairedNeverOverlap` | scripts/repair-overlapping-series.ts:124-153 | cut to a millisecond less than a day or shorter, a flagged series never overlaps again, in the script's repeats or in any number of rows the service writes |
| `TemplateText.SanitizedIsNormalIff` | src/common/utils/whatsapp-template-text.util.ts:34-52 | for every string: no control character, newline, tab or double space and no white space at the edges; no format character iff the string has no two halves of one with only removed characters between them |
| `TemplateText.SanitizeAgainIff` | src/common/utils/whatsapp-template-text.util.ts:34-52 | a second pass changes nothing iff the string has no two such halves |
| `TemplateText.SanitizedIsNormal` | src/common/utils/whatsapp-template-text.util.ts:34-52 | for every well-formed Unicode string the output is normal and a second pass changes nothing |
| `TemplateText.BrokenStringNeedsTwoPasses` | src/common/utils/whatsapp-template-text.util.ts:45-45 | a string of three code units that only a second pass empties |
| `TemplateVar.NothingVisibleLost` | src/common/utils/whatsapp-template-text.util.ts:34-52 | for every string everything of it that shows, format characters aside, comes out whole and in order, and nothing else shows but separators |
| `TemplateVar.ParagraphsShow` | src/common/utils/whatsapp-template-text.util.ts:39-49 | two normal texts apart by one newline, written CR, LF or CR LF, come out apart by a space, by more newlines apart by one separator between single spaces |
| `TemplateVar.CappedLengthIff` | src/common/utils/whatsapp-template-text.util.ts:95-108 | the result fits max iff max is at least 1 or the text fitted anyway |
| `TemplateVar.CappedShape` | src/common/utils/whatsapp-template-text.util.ts:95-108 | a text too long comes out as a prefix and an ellipsis; where the prefix ends is fixed by the last space in the last fifth of the budget |
| `TemplateVar.CappedBelowOne` | src/common/utils/whatsapp-template-text.util.ts:95-108 | where the cut falls when max leaves no room for the ellipsis |
| `TemplateVar.CappedNormal` | src/common/utils/whatsapp-template-text.util.ts:95-108 | capping a normal text keeps it normal, within max, unchanged by sanitizing, and not empty unless it was |
| `TemplateVar.VariableFits` | src/common/constants/whatsapp-templates.ts:301-309 | for every value, with a normal fallback within max, the variable is neither empty nor over max |
| `TemplateVar.VariableIs` | src/common/constants/whatsapp-templates.ts:301-309 | for every value: the fallback if nothing of the value shows; else the sanitized text, with all that shows of the value, if it fits, and its capped form if it does not |
| `TemplateVar.VariableIsCut` | src/common/constants/whatsapp-templates.ts:301-309 | when it does not fit: a prefix of the sanitized text by the cap's cut, and an ellipsis; what shows of it is a beginning of what shows of the value |
| `TemplateStable.SanitizedConcat` | src/common/utils/whatsapp-template-text.util.ts:34-52 | after a half that stays a half the passes treat the rest of the string by itself, so the output up to there is a prefix of the whole output |
| `TemplateStable.VariableIsStableIff` | src/common/constants/whatsapp-templates.ts:293-309 | for every value: sanitizing the variable again leaves it as it is iff it is normal, iff every two halves the value brings together come together past the cut; it never exceeds max |
| `TemplateStable.VariableIsStable` | src/common/constants/whatsapp-templates.ts:293-309 | for a value that sanitizes to at most max, stable iff it has no two such halves; stable at any length if it has none, as no well-formed value has |
| `TemplateStable.BrokenVariableIsEmptied` | src/common/constants/whatsapp-templates.ts:301-309 | a value whose variable is a tag character, which the second sanitizing empties |
| `SqlClause.OrsInParentheses` | src/common/queries/text-search.ts:104-104 | alternatives joined by OR in parentheses parse as their disjunction, as one operand whatever follows |
| `SqlClause.AndsParse` | src/common/queries/text-search.ts:183-186 | operands joined by AND parse as their conjunction |
| `TextSearch.MatchMeans` | src/common/queries/text-search.ts:171-187 | parsed with AND binding tighter than OR, alone or after any filters, `match` holds of a row iff the filters do and every word is in its own text or puts it in one of its sectors |
| `TextSearch.DirectMeans` | src/common/queries/text-search.ts:171-187 | likewise `direct`, iff every word is in the row's own text |
| `TextSearch.DirectImpliesMatching` | src/common/queries/text-search.ts:164-170 | a row of the first kind is one of the second |
| `TextSearch.ParenthesesNeeded` | src/common/queries/text-search.ts:178-182 | without the parentheses a row with only the first of two words gets in |
| `TierPaging.TiersPartition` | src/common/queries/text-search.ts:190-197 | each hit goes to exactly one tier, once for each time it was found |
| `TierPaging.TiersOfSearch` | src/common/queries/text-search.ts:164-197 | the first tier is exactly the rows with every word in their own text, the second exactly the rows that match for a sector |
| `TierPaging.PageByTier` | src/common/queries/text-search.ts:204-227 | the loop returns positions skip to skip + take of the tiers laid end to end, and their total, for any number of tiers, empty ones included |
| `TierPaging.PagesListEveryRow` | src/common/queries/text-search.ts:204-227 | pages of a positive size list every row once, all of the first tier before any of the second |
| `CancellationRule.PreviewAgreesIff` | src/modules/application/application.service.ts:1550-1562 | for every threshold and window the preview says it would suspend iff the cancel at the same instant does, except without a window at a threshold of at most 1; without a finite positive threshold neither does |
| `CancellationRule.CountsIff` | src/modules/application/application.constants.ts:102-131 | the five statuses that count and no other |
| `CancellationRule.RemainingIs` | src/modules/application/application.constants.ts:138-155 | for a positive threshold: the count after this one, and what remains is how many more counted cancellations it takes to be suspended |
| `CancellationRule.NeverSuspendedIff` | src/modules/application/cancellation-counter.ts:13-27 | over a worker's whole history the rule never fires iff every closed stretch of windowDays holds fewer counted cancellations than the threshold |
| `PrivateAddress.V4ToIntIsPositional` | src/common/utils/private-address.util.ts:17-21 | for all octets the wrapped signed shifts give the address read in base 256 |
| `PrivateAddress.InPrefixIff` | src/common/utils/private-address.util.ts:33-36 | for every prefix length and base the mask test holds iff the base has no bits past the prefix and the address lies in its block |
| `PrivateAddress.VerdictIff` | src/common/utils/private-address.util.ts:5-37 | for all addresses the verdict is membership in the nine ranges (cf. section 2.2.2 of RFC 6890) |
| `LedgerRestore.Ledger.Restore` | prisma/restore-wallet-transactions.ts:82-135 | the loop, stopped between payments or not, leaves the books and the counts specified; restored and skipped add up to the payments seen |
| `LedgerRestore.Ledger.FindFirst` | prisma/restore-wallet-transactions.ts:94-100 | finds a transaction iff there is one of that type and reference |
| `LedgerRestore.TypesAre` | prisma/restore-wallet-transactions.ts:38-43 | the four payment types that are booked and the transaction type of each |
| `LedgerRestore.WhatIsBooked` | prisma/restore-wallet-transactions.ts:82-135 | a live run adds as many transactions as it counts restored, each with the type, amount and id of a payment that had none |
| `LedgerRestore.MoneyIsConserved` | prisma/restore-wallet-transactions.ts:82-135 | over any live, dry or stopped runs the balance less the backfilled total never changes, no payment is backfilled twice, and no transaction is touched |
| `LedgerRestore.EveryPaymentBooked` | prisma/restore-wallet-transactions.ts:82-135 | after a complete live run every payment of a known type has its transaction |
| `LedgerRestore.NextRunRestoresNone` | prisma/restore-wallet-transactions.ts:92-108 | the run after it, live or dry, restores none and changes nothing |
| `LedgerRestore.DryRunPredicts` | prisma/restore-wallet-transactions.ts:115-134 | a dry run changes nothing and counts what the live run will restore |
| `LedgerRestore.ExactlyOnce` | prisma/restore-wallet-transactions.ts:82-135 | after any stopped or dry runs a complete live one leaves the balance one run would have: what it was plus what was owed |

## Left out

- S3, Prisma, HTTP, NestJS, WhatsApp and DNS calls, logging and configuration: only the maps and commands the functions above use are kept.
- The Redis wire protocol and its errors: a command on a key of the wrong kind is excluded by a precondition of the method, or leaves a run as it is.
- A crash between INCR and EXPIRE: the pair is one step.
- SHA-256 and token randomness: a key keeps the token itself, and a token issued is one nobody has used.
- The JSON text of a sign-up record: a stored object is kept parsed, and text that opens with a brace without being one reads as nothing.
- A HEAD request that fails: `headSize` answers null for it, and the model takes HEAD to be truthful. Two operators at once are not modelled.
- The rest of the KYC script: deriving the storage keys, and the table and url of a listed key.
- SeriesOverlap.NeverOverlapsIff: does not bound dates at the year 275760, past which `Date` has no value; only the interval of the filter does. It speaks of the script's `shift`; the rows are in WrittenSeries.
- WrittenSeries.NoOverlapIff: below 2, 2, 25 or 3 rows states one direction only; the other fails there, by WrittenSeries.EnoughIsLeast.
- WrittenSeries.Expand: takes the count, the rows and the start index as natural numbers, and edits that split a series are not modelled.
- SeriesOverlap.FirstInterval: anchors before year 100 are covered by the step lemmas of Recurrence only.
- SeriesRepair.Calendar.Repair: the minutes are a real number, so what is not a finite number is refused outside it and the rounding of doubles is not captured. A stop part-way through an apply is not either.
- Unicode tables: white space, control and format characters are those of Unicode 15.
- TemplateVar.CappedShape: compares with four fifths of the budget exactly, where the source multiplies by 0.8 in floating point.
- The text similarity behind each SQL test, `searchTokens` and `sectorsOf`: a test is an uninterpreted predicate on a row, and words and sectors are given. `searchClauses` of no words, which its callers exclude, is not modelled.
- TierPaging.PageByTier: the rows do not change while pages are read, and `fetch.count` agrees with `fetch.rows`.
- CancellationRule.NeverSuspendedIff: takes a whole number of days, and the suspension write itself, which touches active accounts only, is not modelled.
- IPv6, `isIP`, brackets and the splitting at dots: the model starts from the four parts.
- Restore runs at the same time, and the creation of the system wallet.
