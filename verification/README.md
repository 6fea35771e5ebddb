# Spaced-repetition scheduling of permanent-recall-nuxt

This project models the two pieces of real logic in the application's server:

- **The review-date generator of the bulk import** (`server/api/passages/bulk.post.ts`).
  A passage created on day `createdAt` is due every day of its first week
  (`addDays(createdAt, 0..6)`), then once a week for three weeks
  (`addWeeks(createdAt, 1..3)`), then once a month for eleven months
  (`addMonths(createdAt, 1..11)`). `getReviewDates(createdAt, now)` lists the
  due days that are not after `now`, phase by phase. The bulk handler dates
  item `i` of `n` at `addDays(now, i - n + 1)`, so the oldest item comes first
  and the newest is dated today. It then writes one review row per generated
  date, with `date` and `createdAt` both set to that date.
- **The review-list classifier** (`server/api/passages/review-list.get.ts`).
  Every passage is annotated with `latestReviewDate`, which is
  `reviews[0].createdAt` when it has reviews and `null` otherwise. Four
  independent `filter` calls then sort the passages into the daily, weekly,
  monthly and yearly buckets, and `all` is the four buckets concatenated.

The modules follow the source:

- `Calendar` (calendar.dfy) holds the date arithmetic behind `addDays`,
  `addWeeks` and `addMonths`:
  - an instant is a whole day number, with day 0 = 1970-01-01;
  - the calendar is the proleptic Gregorian calendar of ECMAScript;
  - it has ECMAScript's `MakeDay` overflow: `setMonth` and `setDate` roll
    surplus months into years and surplus days into the following months, with
    no clamping.
- `Schedule` (schedule.dfy) holds `getReviewDates`, in two forms:
  - the three loops as written;
  - a functional reference (`ReviewDates`, `Candidates`, `UpTo`).
- `BulkImport` (bulk_import.dfy) holds the handler loop, and how its records
  look to the review list.
- `ReviewList` (review_list.dfy) holds the classifier. It also has a
  reference statement of the classification (`BucketOf`: the review count's
  tier, and whether the latest review is old enough for it), which the four
  filters are proved to match.

Three properties of the code are easy to miss:

- `addMonths` does not clamp to the end of the target month (Calendar.AddMonthsCivil, Calendar.JanuaryThirtyFirstRollsOver).
- The weekly days 7, 14 and 21 never coincide with the daily days 0..6 (Schedule.CandidatesIncreasing).
- Some passages fall into no bucket at all (ReviewList.ReviewedTodayIsOmitted, ReviewList.NotDueIsOmitted).

The date helpers `isToday`, `weekBefore`, `monthBefore` and `yearBefore` come
from a utilities module that is not part of this model. They are a `Clock`
parameter: a predicate and three threshold days, fixed for one request.

## Model

| member | source | states |
|---|---|---|
| Calendar.AddDays | server/api/passages/bulk.post.ts:15-19 | `setDate(getDate() + days)` through MakeDay lands exactly `days` days later, whichever month and year boundaries the date overflows |
| Calendar.AddWeeks | server/api/passages/bulk.post.ts:21-23 | `addWeeks(d, w)` is `addDays(d, 7 * w)`, i.e. the day `7 * w` days later |
| Calendar.CivilFromDayRoundTrip | server/api/passages/bulk.post.ts:15-29 | reading a day's year, month and date (`getMonth`/`getDate`) and rebuilding it with MakeDay gives back the same day |
| Calendar.CivilRoundTrip | server/api/passages/bulk.post.ts:15-29 | a valid calendar date rebuilt with MakeDay and read back is unchanged, the other half of the round trip |
| Calendar.CivilFromDayInjective | server/api/passages/bulk.post.ts:15-29 | two days have the same calendar date exactly when they are the same day |
| Calendar.AddMonthsCivil | server/api/passages/bulk.post.ts:25-29 | `setMonth(getMonth() + months)` keeps the date when the target month is long enough; otherwise the surplus days roll into the next month, with no clamping |
| Calendar.AddMonthsStep | server/api/passages/bulk.post.ts:25-29 | one more month adds exactly the length of the month passed over, between 28 and 31 days |
| Calendar.AddMonthsBounds | server/api/passages/bulk.post.ts:25-29 | `months` months later lies between `28 * months` and `31 * months` days later |
| Calendar.AddMonthsIncreasing | server/api/passages/bulk.post.ts:25-29 | more months always give a strictly later day |
| Calendar.JanuaryThirtyFirstRollsOver | server/api/passages/bulk.post.ts:25-29 | January 31st plus one month is March 3rd, or March 2nd in a leap year, not the end of February |
| Calendar.JanuaryThirtyFirstElevenMonths | server/api/passages/bulk.post.ts:25-29 | January 31st plus eleven months is December 31st of the same year |
| Schedule.UpTo | server/api/passages/bulk.post.ts:41 | the `if (d <= now) push(d)` filter keeps a day exactly when it is in the input and not after `now`; every kept day is at most `now`, and no more days than the input are kept |
| Schedule.ReviewDates | server/api/passages/bulk.post.ts:35-56 | the generated list has at most 7 + 3 + 11 = 21 dates, and none is after `now` |
| Schedule.GetReviewDates | server/api/passages/bulk.post.ts:35-57 | the three loops as written return the filtered daily phase, then the filtered weekly phase, then the filtered monthly phase |
| Schedule.DailyPhase | server/api/passages/bulk.post.ts:39-42 | the first loop pushes exactly the days `createdAt + 0..6` that are not after `now`, in order |
| Schedule.WeeklyPhase | server/api/passages/bulk.post.ts:45-48 | the second loop pushes exactly the days 7, 14 and 21 after creation that are not after `now`, in order |
| Schedule.MonthlyPhase | server/api/passages/bulk.post.ts:51-54 | the third loop pushes exactly the days one to eleven months after creation that are not after `now`, in order |
| Schedule.CandidatesIncreasing | server/api/passages/bulk.post.ts:35-56 | the 21 candidate days are strictly increasing across all three phases: the weekly phase never repeats a daily day, and the concatenation is already chronological |
| Schedule.ReviewDatesPrefix | server/api/passages/bulk.post.ts:35-56 | the generated list is the strictly increasing prefix of the full schedule made of the days not after `now`, and every later candidate day is after `now` |
| Schedule.PhasesIncreasing | server/api/passages/bulk.post.ts:39-54 | each phase's candidate days (daily, weekly, monthly) are strictly increasing on their own |
| Schedule.PhasePrefix | server/api/passages/bulk.post.ts:39-54 | within each phase the days kept are a prefix of that phase's candidates, and every candidate of the phase past that prefix is after `now` |
| Schedule.ReviewDatesMonotone | server/api/passages/bulk.post.ts:39-54 | a later `now` only extends each phase's list, and the whole list, as a prefix |
| Schedule.ReviewDatesBeforeCreation | server/api/passages/bulk.post.ts:39-54 | before the creation day the list is empty |
| Schedule.ReviewDatesFromCreation | server/api/passages/bulk.post.ts:39-41 | from the creation day on, the first date is the creation day itself; on the creation day the list is exactly `[createdAt]` |
| Schedule.ReviewDatesFirstWeek | server/api/passages/bulk.post.ts:39-42 | within the first week the list is the creation day and each following day up to `now`, one per day |
| Schedule.DailyPhaseCount | server/api/passages/bulk.post.ts:39-42 | the daily phase holds one date per elapsed day, including the creation day, up to seven |
| Schedule.WeeklyPhaseCount | server/api/passages/bulk.post.ts:45-48 | the weekly phase holds one date per elapsed whole week, up to three |
| Schedule.ReviewDatesComplete | server/api/passages/bulk.post.ts:35-56 | once the eleventh month is reached, the list is the whole schedule of 21 dates |
| Schedule.ReviewDatesCompleteAfter341Days | server/api/passages/bulk.post.ts:35-56 | 341 days after creation the list always holds all 21 dates |
| BulkImport.CreateItem | server/api/passages/bulk.post.ts:69-93 | item `i` of `total` is dated `total - 1 - i` days before `now`, with `updatedAt` equal to `createdAt`, and gets the generated dates for that day |
| BulkImport.Import | server/api/passages/bulk.post.ts:63-96 | one record per input, in input order, with creation days strictly increasing by item, none after `now`, the last on `now`; each record's first review is on its creation day |
| BulkImport.ImportedDays | server/api/passages/bulk.post.ts:65-70 | records dated `n - 1 - i` days before `now` have strictly increasing creation days, none after `now`, the last on `now`, and each starts with a creation-day review |
| BulkImport.FirstReviewOnCreation | server/api/passages/bulk.post.ts:70-89 | every imported passage gets a review row dated on its creation day |
| BulkImport.Rows | server/api/passages/bulk.post.ts:86-91 | one review row per generated date, with `date`, `createdAt` and `updatedAt` all set to the date |
| BulkImport.StoredReviewsNewestFirst | server/api/passages/bulk.post.ts:83-93 | the rows of an imported passage, read back newest first, are in the order the review list expects, and their latest review date is the last generated date |
| BulkImport.ImportedNeverYearly | server/api/passages/bulk.post.ts:83-93 | an imported passage has at most 21 reviews, so the review list never puts it in the yearly bucket |
| BulkImport.RecentImportNotListed | server/api/passages/bulk.post.ts:63-93 | an item dated fewer than six days ago has one review per elapsed day, the latest today, so the review list shows it in no bucket while that day is today |
| BulkImport.OldImportIsMonthly | server/api/passages/bulk.post.ts:63-93 | an item dated at least 341 days ago has all 21 reviews, the latest eleven months after creation; it is listed monthly exactly when that review is before `monthBefore()` |
| ReviewList.LatestReviewDate | server/api/passages/review-list.get.ts:28-30 | `latestReviewDate` is null exactly when there are no reviews, and otherwise is the first review's `createdAt` |
| ReviewList.AnnotateAll | server/api/passages/review-list.get.ts:25-32 | one annotated entry per fetched passage, in the same order, each carrying its passage |
| ReviewList.Filter | server/api/passages/review-list.get.ts:34-62 | `Array.prototype.filter` keeps an element exactly when it is in the input and passes the predicate, and never gets longer |
| ReviewList.GetReviewLists | server/api/passages/review-list.get.ts:25-70 | each bucket holds a passage exactly when the reference classification puts it there; `all` holds exactly the passages that have a bucket, and is no longer than the input |
| ReviewList.FiltersMatchBuckets | server/api/passages/review-list.get.ts:34-62 | each of the four filter predicates accepts a passage exactly when the reference classification gives it that bucket |
| ReviewList.BucketsFit | server/api/passages/review-list.get.ts:34-69 | the four buckets together are no longer than the list they were filtered from |
| ReviewList.BucketsMatch | server/api/passages/review-list.get.ts:34-62 | each filtered bucket holds a passage's entry exactly when its bucket is that filter's |
| ReviewList.BucketsKeepInputOrder | server/api/passages/review-list.get.ts:34-69 | every bucket is a subsequence of the fetched list, and `all` is daily, weekly, monthly and yearly concatenated in that order |
| ReviewList.AtMostOneBucket | server/api/passages/review-list.get.ts:34-62 | no passage is listed in two buckets |
| ReviewList.FilterPartition | server/api/passages/review-list.get.ts:34-69 | filters with pairwise exclusive predicates, concatenated, hold each element exactly as often as one filter by their disjunction |
| ReviewList.AllHasNoDuplicates | server/api/passages/review-list.get.ts:69 | `all` holds no entry more often than the fetched list does, and so has no duplicates when the fetched list has none |
| ReviewList.NeverReviewedIsDaily | server/api/passages/review-list.get.ts:34-37 | a passage with no reviews is listed daily and nowhere else |
| ReviewList.ReviewedTodayIsOmitted | server/api/passages/review-list.get.ts:38-62 | a passage with one to six reviews, the latest of them today, is listed nowhere |
| ReviewList.NotDueIsOmitted | server/api/passages/review-list.get.ts:41-62 | a passage in the weekly, monthly or yearly count range whose latest review is not strictly before that range's threshold is listed nowhere |
| ReviewList.LatestIsMostRecent | server/api/passages/review-list.get.ts:20-30 | with reviews newest first and each `createdAt` equal to its `date`, the latest review date is the greatest review date |

## Left out

- Persistence. The model has no Prisma `passage.create`, `review.createMany` or `findMany`:
  - a created passage is the record the handler writes, with its review dates;
  - the fetched passages are an input sequence, with reviews newest first as the query orders them.
- Database ids. The passage `id` is a parameter.
- The `reviewDates.length > 0` guard before `createMany` (bulk.post.ts:84). Every imported item is dated on or before `now`, so its list is never empty (BulkImport.Import).
- The helper bodies. `isToday`, `weekBefore`, `monthBefore`, `yearBefore` and `getCaller` come from a utilities module that is not part of this model. The first four are the `Clock` parameter; the caller's id is a parameter.
- Request parsing. The zod schema validation and the other HTTP handlers (users, roles, settings, login, register, passage CRUD) are thin wrappers around persistence.
- Time of day, time zones, daylight-saving time and milliseconds of JavaScript `Date`. Instants are whole day numbers.
  - The bulk import handler only ever shifts `now` by whole days and months, so every date it generates has the same time of day as `now`.
  - The `ReviewList` lemmas hold for any integer instants and any `Clock` thresholds: nothing in them depends on the unit being a day.
  - BulkImport.OldImportIsMonthly compares with `monthBefore()` on whole days. In the program a latest review made earlier on the threshold's own day is before the threshold instant; on whole days it is not, so the boundary day of that if-and-only-if is the one place where time of day would matter.
- The JavaScript `Date` range limit of ±8.64e15 ms. Day numbers are unbounded.
