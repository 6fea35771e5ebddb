/**
 The bulk-import handler: it stores a list of passages as if they had been
 created one per day, the last of them today, and back-fills for each the
 reviews its schedule would have produced up to today.

 Persistence is left out: a created passage is the record the handler would
 write, together with the review rows it would insert for it. The caller's id
 and the request's `now` are parameters.
 */
module BulkImport {
  import opened Calendar
  import opened Schedule
  import ReviewList

  /** One item of the request body. */
  datatype PassageInput = PassageInput(prompt: string, reference: string, text: string)

  /**
   A stored passage as the handler writes it, with the dates of the review
   rows it inserts for it, in the order it inserts them.
   */
  datatype Created = Created(
    input: PassageInput,
    userId: int,
    createdAt: Day,
    updatedAt: Day,
    reviewDates: seq<Day>)

  /** The review rows written for a list of dates: each row's `date`, `createdAt` and `updatedAt` are the date. */
  function Rows(dates: seq<Day>): (rows: seq<ReviewList.Review>)
    ensures |rows| == |dates|
    ensures forall k :: 0 <= k < |rows| ==> rows[k].date == dates[k] && rows[k].createdAt == dates[k] && rows[k].updatedAt == dates[k]
  {
    seq(|dates|, k requires 0 <= k < |dates| => ReviewList.Review(dates[k], dates[k], dates[k]))
  }

  /**
   What the handler writes for one item created on `createdAt`: its review
   dates are the days of the full schedule up to `now`, which is what
   `getReviewDates` returns (ReviewDatesPrefix).
   */
  function NewPassage(input: PassageInput, userId: int, createdAt: Day, now: Day): Created
  {
    Created(input, userId, createdAt, createdAt, UpTo(Candidates(createdAt), now))
  }

  /**
   One iteration of the handler loop: item `i` of `total` is dated
   `addDays(now, i - total + 1)`, that is `total - 1 - i` days before `now`, and
   gets a review row for each date of its schedule up to `now`.
   */
  method CreateItem(input: PassageInput, userId: int, now: Day, total: nat, i: nat) returns (c: Created)
    ensures c == NewPassage(input, userId, now - (total - 1 - i), now)
  {
    var createdAt := AddDays(now, i - total + 1);
    var dates := GetReviewDates(createdAt, now);
    ReviewDatesPrefix(createdAt, now);
    c := Created(input, userId, createdAt, createdAt, dates);
  }

  /**
   The handler loop: item `i` of `n` is created `n - 1 - i` days before `now`,
   so creation days increase by one from item to item and the last item is
   created on `now`; every item gets at least its creation-day review.
   */
  method Import(inputs: seq<PassageInput>, userId: int, now: Day) returns (created: seq<Created>)
    ensures |created| == |inputs|
    ensures forall i :: 0 <= i < |created| ==>
              created[i] == NewPassage(inputs[i], userId, now - (|inputs| - 1 - i), now)
    ensures forall i, j :: 0 <= i < j < |created| ==> created[i].createdAt < created[j].createdAt
    ensures forall i :: 0 <= i < |created| ==> created[i].createdAt <= now
    ensures |created| > 0 ==> created[|created| - 1].createdAt == now
    ensures forall i :: 0 <= i < |created| ==>
              |created[i].reviewDates| >= 1 && created[i].reviewDates[0] == created[i].createdAt
  {
    var total := |inputs|;
    created := [];
    for i := 0 to total
      invariant |created| == i
      invariant forall k :: 0 <= k < i ==> created[k] == NewPassage(inputs[k], userId, now - (total - 1 - k), now)
    {
      var c := CreateItem(inputs[i], userId, now, total, i);
      var prev := created;
      created := prev + [c];
      assert forall k :: 0 <= k < i ==> created[k] == prev[k];
    }
    ImportedDays(inputs, userId, now, created);
  }

  /** The facts the handler's result keeps about creation days and first reviews, from the per-item records. */
  lemma ImportedDays(inputs: seq<PassageInput>, userId: int, now: Day, created: seq<Created>)
    requires |created| == |inputs|
    requires forall i :: 0 <= i < |created| ==>
               created[i] == NewPassage(inputs[i], userId, now - (|inputs| - 1 - i), now)
    ensures forall i, j :: 0 <= i < j < |created| ==> created[i].createdAt < created[j].createdAt
    ensures forall i :: 0 <= i < |created| ==> created[i].createdAt <= now
    ensures |created| > 0 ==> created[|created| - 1].createdAt == now
    ensures forall i :: 0 <= i < |created| ==>
              |created[i].reviewDates| >= 1 && created[i].reviewDates[0] == created[i].createdAt
  {
    forall i | 0 <= i < |created|
      ensures created[i].createdAt == now - (|inputs| - 1 - i)
      ensures |created[i].reviewDates| >= 1 && created[i].reviewDates[0] == created[i].createdAt
    {
      FirstReviewOnCreation(inputs[i], userId, now - (|inputs| - 1 - i), now);
    }
  }

  /** Every item gets its creation-day review, the first row written for it. */
  lemma FirstReviewOnCreation(input: PassageInput, userId: int, createdAt: Day, now: Day)
    requires createdAt <= now
    ensures var c := NewPassage(input, userId, createdAt, now);
            |c.reviewDates| >= 1 && c.reviewDates[0] == createdAt
  {
    ReviewDatesFromCreation(createdAt, now);
  }

  // ---------------------------------------------------------------------------
  // Imported passages as the review list sees them
  // ---------------------------------------------------------------------------

  /** The rows of `reviews` in reverse order. */
  function Reversed(reviews: seq<ReviewList.Review>): (r: seq<ReviewList.Review>)
    ensures |r| == |reviews|
    ensures forall k :: 0 <= k < |r| ==> r[k] == reviews[|reviews| - 1 - k]
  {
    seq(|reviews|, k requires 0 <= k < |reviews| => reviews[|reviews| - 1 - k])
  }

  /**
   A created passage as the review list fetches it: its review rows, each with
   `date` and `createdAt` set to the review date, ordered by `date`, newest first.
   */
  function Stored(c: Created, id: int): ReviewList.Passage
  {
    ReviewList.Passage(id, c.createdAt, Reversed(Rows(c.reviewDates)))
  }

  /** Rows written for increasing dates, read back newest first, start with the last date. */
  lemma NewestFirstRows(dates: seq<Day>)
    requires Increasing(dates)
    ensures ReviewList.NewestFirst(Reversed(Rows(dates)))
    ensures |dates| > 0 ==> ReviewList.LatestReviewDate(Reversed(Rows(dates))) == ReviewList.Some(dates[|dates| - 1])
  {
    var reviews := Reversed(Rows(dates));
    forall i, j | 0 <= i < j < |reviews|
      ensures reviews[i].date >= reviews[j].date
    {
      assert reviews[i].date == dates[|dates| - 1 - i];
      assert reviews[j].date == dates[|dates| - 1 - j];
    }
  }

  /**
   The review rows of an imported passage, read back newest first, are in the
   order the review list expects, and their latest review date is the last
   generated date.
   */
  lemma StoredReviewsNewestFirst(input: PassageInput, userId: int, createdAt: Day, now: Day, id: int)
    requires createdAt <= now
    ensures var dates := ReviewDates(createdAt, now);
            var reviews := Stored(NewPassage(input, userId, createdAt, now), id).reviews;
            && ReviewList.NewestFirst(reviews)
            && ReviewList.LatestReviewDate(reviews) == ReviewList.Some(dates[|dates| - 1])
  {
    ReviewDatesPrefix(createdAt, now);
    ReviewDatesFromCreation(createdAt, now);
    NewestFirstRows(ReviewDates(createdAt, now));
  }

  /**
   An imported passage has at most 21 reviews, fewer than the yearly range
   needs, so the review list never puts it in the yearly bucket.
   */
  lemma ImportedNeverYearly(input: PassageInput, userId: int, createdAt: Day, now: Day, id: int, clock: ReviewList.Clock)
    ensures |Stored(NewPassage(input, userId, createdAt, now), id).reviews| <= 21
    ensures ReviewList.BucketOf(Stored(NewPassage(input, userId, createdAt, now), id), clock) != ReviewList.Some(ReviewList.Yearly)
  {
  }

  /**
   An item created fewer than six days before `now` has between one and six
   reviews, the latest on `now` itself; while `now` is today the review list
   shows it in no bucket. The newest item of every import is such an item.
   */
  lemma RecentImportNotListed(input: PassageInput, userId: int, age: nat, now: Day, id: int, clock: ReviewList.Clock)
    requires age < 6
    requires clock.isToday(now)
    ensures |Stored(NewPassage(input, userId, now - age, now), id).reviews| == age + 1
    ensures ReviewList.BucketOf(Stored(NewPassage(input, userId, now - age, now), id), clock) == ReviewList.None
  {
    var c := NewPassage(input, userId, now - age, now);
    RecentDates(now - age, now);
    LatestStoredRow(c, id);
  }

  /** The dates written for an item created fewer than seven days ago: one per day, the last on `now`. */
  lemma RecentDates(createdAt: Day, now: Day)
    requires createdAt <= now < createdAt + 7
    ensures |UpTo(Candidates(createdAt), now)| == now - createdAt + 1
    ensures UpTo(Candidates(createdAt), now)[now - createdAt] == now
  {
    ReviewDatesPrefix(createdAt, now);
    ReviewDatesFirstWeek(createdAt, now);
  }

  /** The newest stored row of a created passage is its last review date. */
  lemma LatestStoredRow(c: Created, id: int)
    requires |c.reviewDates| > 0
    ensures |Stored(c, id).reviews| == |c.reviewDates|
    ensures Stored(c, id).reviews[0].createdAt == c.reviewDates[|c.reviewDates| - 1]
  {
  }

  /**
   An item created at least 341 days before `now` has its whole schedule of
   21 reviews, the latest eleven months after its creation; that count lies in
   the monthly range, so it is listed monthly once that review is older than
   `monthBefore()`, and nowhere before.
   */
  lemma OldImportIsMonthly(input: PassageInput, userId: int, createdAt: Day, now: Day, id: int, clock: ReviewList.Clock)
    requires createdAt + 341 <= now
    ensures var p := Stored(NewPassage(input, userId, createdAt, now), id);
            && |p.reviews| == 21
            && ReviewList.LatestReviewDate(p.reviews) == ReviewList.Some(AddMonths(createdAt, 11))
            && ReviewList.BucketOf(p, clock) ==
                 if AddMonths(createdAt, 11) < clock.monthBefore then ReviewList.Some(ReviewList.Monthly) else ReviewList.None
  {
    var c := NewPassage(input, userId, createdAt, now);
    CompleteDates(createdAt, now);
    LatestStoredRow(c, id);
  }

  /** The dates written for an item created at least 341 days ago: all 21, the last eleven months on. */
  lemma CompleteDates(createdAt: Day, now: Day)
    requires createdAt + 341 <= now
    ensures |UpTo(Candidates(createdAt), now)| == 21
    ensures UpTo(Candidates(createdAt), now)[20] == AddMonths(createdAt, 11)
  {
    AddMonthsBounds(createdAt, 11);
    ReviewDatesPrefix(createdAt, now);
    ReviewDatesComplete(createdAt, now);
    assert Candidates(createdAt)[20] == MonthlyDates(createdAt)[10];
  }
}
