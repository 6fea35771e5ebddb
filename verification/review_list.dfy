/**
 The review-list handler: it annotates every passage of the caller with the
 date of its latest review and sorts the passages into four buckets (daily,
 weekly, monthly, yearly) by four independent filters, then concatenates the
 buckets into `all`.

 The date helpers `isToday`, `weekBefore`, `monthBefore` and `yearBefore` are
 imported from a utilities module that is not part of this model; they are
 taken as a `Clock` value fixed for the duration of one request.
 */
module ReviewList {
  import opened Calendar

  datatype Option<T> = None | Some(value: T)

  /**
   A stored review. The handler fetches reviews ordered by `date`, newest
   first, and reads the latest review date from `createdAt`; `updatedAt` is
   stored but never read by the classifier.
   */
  datatype Review = Review(date: Day, createdAt: Day, updatedAt: Day)

  /** A stored passage with its reviews as the query returns them (newest `date` first). */
  datatype Passage = Passage(id: int, createdAt: Day, reviews: seq<Review>)

  /** The four date helpers of the utilities module, as seen during one request. */
  datatype Clock = Clock(isToday: Day -> bool, weekBefore: Day, monthBefore: Day, yearBefore: Day)

  /** `PassageWithLatestReview`: a passage together with its `latestReviewDate`. */
  datatype Annotated = Annotated(passage: Passage, latestReviewDate: Option<Day>)

  /** What the handler returns. */
  datatype ReviewLists = ReviewLists(
    daily: seq<Annotated>,
    weekly: seq<Annotated>,
    monthly: seq<Annotated>,
    yearly: seq<Annotated>,
    all: seq<Annotated>)

  /** Review-count boundaries of the weekly, monthly and yearly filters. */
  const WeeklyFrom: nat := 7
  const MonthlyFrom: nat := 11
  const YearlyFrom: nat := 23

  // ---------------------------------------------------------------------------
  // The handler
  // ---------------------------------------------------------------------------

  /** `reviews.length ? reviews[0].createdAt : null`. */
  function LatestReviewDate(reviews: seq<Review>): (r: Option<Day>)
    ensures r.None? <==> |reviews| == 0
    ensures r.Some? ==> r.value == reviews[0].createdAt
  {
    if |reviews| > 0 then Some(reviews[0].createdAt) else None
  }

  function Annotate(p: Passage): (a: Annotated)
    ensures a.passage == p
  {
    Annotated(p, LatestReviewDate(p.reviews))
  }

  function AnnotateAll(passages: seq<Passage>): (r: seq<Annotated>)
    ensures |r| == |passages|
    ensures forall i :: 0 <= i < |r| ==> r[i] == Annotate(passages[i])
  {
    seq(|passages|, i requires 0 <= i < |passages| => Annotate(passages[i]))
  }

  /** The daily filter: no reviews, or fewer than seven and the latest not today. */
  predicate InDaily(a: Annotated, clock: Clock)
  {
    var count := |a.passage.reviews|;
    count == 0 || a.latestReviewDate.None? || (count < WeeklyFrom && !clock.isToday(a.latestReviewDate.value))
  }

  /** The weekly filter: 7..10 reviews and the latest before `weekBefore()`. */
  predicate InWeekly(a: Annotated, clock: Clock)
  {
    var count := |a.passage.reviews|;
    a.latestReviewDate.Some? && count >= WeeklyFrom && count < MonthlyFrom && a.latestReviewDate.value < clock.weekBefore
  }

  /** The monthly filter: 11..22 reviews and the latest before `monthBefore()`. */
  predicate InMonthly(a: Annotated, clock: Clock)
  {
    var count := |a.passage.reviews|;
    a.latestReviewDate.Some? && count >= MonthlyFrom && count < YearlyFrom && a.latestReviewDate.value < clock.monthBefore
  }

  /** The yearly filter: 23 or more reviews and the latest before `yearBefore()`. */
  predicate InYearly(a: Annotated, clock: Clock)
  {
    var count := |a.passage.reviews|;
    a.latestReviewDate.Some? && count >= YearlyFrom && a.latestReviewDate.value < clock.yearBefore
  }

  /** The four filter callbacks of the handler, for one request's clock. */
  function DailyFilter(clock: Clock): Annotated -> bool { a => InDaily(a, clock) }
  function WeeklyFilter(clock: Clock): Annotated -> bool { a => InWeekly(a, clock) }
  function MonthlyFilter(clock: Clock): Annotated -> bool { a => InMonthly(a, clock) }
  function YearlyFilter(clock: Clock): Annotated -> bool { a => InYearly(a, clock) }

  /** `Array.prototype.filter`: the elements satisfying `p`, in their original order. */
  function Filter(s: seq<Annotated>, p: Annotated -> bool): (r: seq<Annotated>)
    ensures |r| <= |s|
    ensures forall x :: x in r <==> x in s && p(x)
  {
    if |s| == 0 then []
    else (if p(s[0]) then [s[0]] else []) + Filter(s[1..], p)
  }

  /** The handler body: annotate, filter four times, concatenate. */
  function GetReviewLists(passages: seq<Passage>, clock: Clock): (r: ReviewLists)
    ensures |r.all| <= |passages|
    ensures forall i :: 0 <= i < |passages| ==>
              var a := Annotate(passages[i]);
              && (a in r.daily <==> BucketOf(passages[i], clock) == Some(Daily))
              && (a in r.weekly <==> BucketOf(passages[i], clock) == Some(Weekly))
              && (a in r.monthly <==> BucketOf(passages[i], clock) == Some(Monthly))
              && (a in r.yearly <==> BucketOf(passages[i], clock) == Some(Yearly))
              && (a in r.all <==> BucketOf(passages[i], clock).Some?)
  {
    var annotated := AnnotateAll(passages);
    var daily := Filter(annotated, DailyFilter(clock));
    var weekly := Filter(annotated, WeeklyFilter(clock));
    var monthly := Filter(annotated, MonthlyFilter(clock));
    var yearly := Filter(annotated, YearlyFilter(clock));
    BucketsFit(annotated, clock);
    BucketsMatch(passages, clock);
    ReviewLists(daily, weekly, monthly, yearly, daily + weekly + monthly + yearly)
  }

  // ---------------------------------------------------------------------------
  // An independent statement of the classification
  // ---------------------------------------------------------------------------

  datatype Tier = Daily | Weekly | Monthly | Yearly

  /** The tier a review count belongs to. */
  function TierOf(count: nat): Tier
  {
    if count < WeeklyFrom then Daily
    else if count < MonthlyFrom then Weekly
    else if count < YearlyFrom then Monthly
    else Yearly
  }

  /** Whether a passage of the given tier whose latest review was on `latest` is due. */
  predicate Due(tier: Tier, latest: Day, clock: Clock)
  {
    match tier
    case Daily => !clock.isToday(latest)
    case Weekly => latest < clock.weekBefore
    case Monthly => latest < clock.monthBefore
    case Yearly => latest < clock.yearBefore
  }

  /**
   The bucket a passage is listed in: never-reviewed passages are always due
   daily; otherwise the tier of its review count, if its latest review is old
   enough for that tier, and no bucket at all if not.
   */
  function BucketOf(p: Passage, clock: Clock): Option<Tier>
  {
    if |p.reviews| == 0 then Some(Daily)
    else
      var tier := TierOf(|p.reviews|);
      if Due(tier, p.reviews[0].createdAt, clock) then Some(tier) else None
  }

  /** Each of the four filters accepts exactly the passages whose bucket it is. */
  lemma FiltersMatchBuckets(p: Passage, clock: Clock)
    ensures InDaily(Annotate(p), clock) <==> BucketOf(p, clock) == Some(Daily)
    ensures InWeekly(Annotate(p), clock) <==> BucketOf(p, clock) == Some(Weekly)
    ensures InMonthly(Annotate(p), clock) <==> BucketOf(p, clock) == Some(Monthly)
    ensures InYearly(Annotate(p), clock) <==> BucketOf(p, clock) == Some(Yearly)
  {
  }

  // ---------------------------------------------------------------------------
  // Filtering and concatenation
  // ---------------------------------------------------------------------------

  /** `sub` is `s` with some elements left out and the rest kept in order. */
  predicate IsSubsequence<T(==)>(sub: seq<T>, s: seq<T>)
    decreases |s|
  {
    |sub| == 0 ||
    (|s| > 0 && ((sub[0] == s[0] && IsSubsequence(sub[1..], s[1..])) || IsSubsequence(sub, s[1..])))
  }

  predicate NoDuplicates<T(==)>(s: seq<T>)
  {
    forall i, j :: 0 <= i < j < |s| ==> s[i] != s[j]
  }

  /** Filtering keeps the relative order of the elements it keeps. */
  lemma {:induction false} FilterIsSubsequence(s: seq<Annotated>, p: Annotated -> bool)
    ensures IsSubsequence(Filter(s, p), s)
    decreases |s|
  {
    if |s| > 0 {
      FilterIsSubsequence(s[1..], p);
      if p(s[0]) {
        var f := Filter(s, p);
        assert f == [s[0]] + Filter(s[1..], p);
        assert f[0] == s[0] && f[1..] == Filter(s[1..], p);
      } else {
        assert Filter(s, p) == Filter(s[1..], p);
      }
    }
  }

  /** A filter keeps every copy of an element it accepts and no copy of one it rejects. */
  lemma {:induction false} FilterCount(s: seq<Annotated>, p: Annotated -> bool, x: Annotated)
    ensures multiset(Filter(s, p))[x] == if p(x) then multiset(s)[x] else 0
    decreases |s|
  {
    if |s| > 0 {
      FilterCount(s[1..], p, x);
      assert s == [s[0]] + s[1..];
      assert Filter(s, p) == (if p(s[0]) then [s[0]] else []) + Filter(s[1..], p);
    }
  }

  /** Every bag of a filtered sequence is contained in the original's. */
  lemma FilterMultiset(s: seq<Annotated>, p: Annotated -> bool)
    ensures multiset(Filter(s, p)) <= multiset(s)
  {
    forall x
      ensures multiset(Filter(s, p))[x] <= multiset(s)[x]
    {
      FilterCount(s, p, x);
    }
  }

  /**
   Four filters with pairwise exclusive predicates, concatenated, hold each
   element exactly as often as one filter by their disjunction.
   */
  lemma FilterPartition(s: seq<Annotated>, p1: Annotated -> bool, p2: Annotated -> bool,
                        p3: Annotated -> bool, p4: Annotated -> bool, any: Annotated -> bool)
    requires forall x :: any(x) <==> p1(x) || p2(x) || p3(x) || p4(x)
    requires forall x :: !(p1(x) && p2(x)) && !(p1(x) && p3(x)) && !(p1(x) && p4(x))
    requires forall x :: !(p2(x) && p3(x)) && !(p2(x) && p4(x)) && !(p3(x) && p4(x))
    ensures multiset(Filter(s, p1) + Filter(s, p2) + Filter(s, p3) + Filter(s, p4)) == multiset(Filter(s, any))
  {
    var all := Filter(s, p1) + Filter(s, p2) + Filter(s, p3) + Filter(s, p4);
    forall x
      ensures multiset(all)[x] == multiset(Filter(s, any))[x]
    {
      FilterCount(s, p1, x);
      FilterCount(s, p2, x);
      FilterCount(s, p3, x);
      FilterCount(s, p4, x);
      FilterCount(s, any, x);
    }
  }

  /** A sequence without duplicates holds each element at most once. */
  lemma {:induction false} NoDuplicatesMultiset<T>(s: seq<T>, x: T)
    requires NoDuplicates(s)
    ensures multiset(s)[x] <= 1
    decreases |s|
  {
    if |s| > 0 {
      assert s == [s[0]] + s[1..];
      NoDuplicatesMultiset(s[1..], x);
      if s[0] == x {
        assert x !in s[1..];
      }
    }
  }

  /** A sequence whose bag fits into that of a duplicate-free sequence has no duplicates either. */
  lemma SubBagNoDuplicates<T>(t: seq<T>, s: seq<T>)
    requires multiset(t) <= multiset(s)
    requires NoDuplicates(s)
    ensures NoDuplicates(t)
  {
    forall i, j | 0 <= i < j < |t|
      ensures t[i] != t[j]
    {
      if t[i] == t[j] {
        var x := t[i];
        assert t == t[..i] + [x] + t[i + 1..j] + [x] + t[j + 1..];
        assert multiset(t)[x] >= 2;
        NoDuplicatesMultiset(s, x);
        assert false;
      }
    }
  }

  /** The four buckets together are no longer than the list they were filtered from. */
  lemma BucketsFit(annotated: seq<Annotated>, clock: Clock)
    ensures |Filter(annotated, DailyFilter(clock)) + Filter(annotated, WeeklyFilter(clock))
             + Filter(annotated, MonthlyFilter(clock)) + Filter(annotated, YearlyFilter(clock))| <= |annotated|
  {
    var any := a => InDaily(a, clock) || InWeekly(a, clock) || InMonthly(a, clock) || InYearly(a, clock);
    var all := Filter(annotated, DailyFilter(clock)) + Filter(annotated, WeeklyFilter(clock))
               + Filter(annotated, MonthlyFilter(clock)) + Filter(annotated, YearlyFilter(clock));
    assert multiset(all) <= multiset(annotated) by {
      FilterPartition(annotated, DailyFilter(clock), WeeklyFilter(clock), MonthlyFilter(clock), YearlyFilter(clock), any);
      FilterMultiset(annotated, any);
    }
    var rest := multiset(annotated) - multiset(all);
    assert multiset(annotated) == multiset(all) + rest;
  }

  /** A passage's annotation is in the bucket of each filter exactly when that bucket is its `BucketOf`. */
  lemma BucketsMatch(passages: seq<Passage>, clock: Clock)
    ensures forall i :: 0 <= i < |passages| ==>
              var a := Annotate(passages[i]);
              var annotated := AnnotateAll(passages);
              && (a in Filter(annotated, DailyFilter(clock)) <==> BucketOf(passages[i], clock) == Some(Daily))
              && (a in Filter(annotated, WeeklyFilter(clock)) <==> BucketOf(passages[i], clock) == Some(Weekly))
              && (a in Filter(annotated, MonthlyFilter(clock)) <==> BucketOf(passages[i], clock) == Some(Monthly))
              && (a in Filter(annotated, YearlyFilter(clock)) <==> BucketOf(passages[i], clock) == Some(Yearly))
  {
    var annotated := AnnotateAll(passages);
    forall i | 0 <= i < |passages|
      ensures var a := Annotate(passages[i]);
              && (a in Filter(annotated, DailyFilter(clock)) <==> BucketOf(passages[i], clock) == Some(Daily))
              && (a in Filter(annotated, WeeklyFilter(clock)) <==> BucketOf(passages[i], clock) == Some(Weekly))
              && (a in Filter(annotated, MonthlyFilter(clock)) <==> BucketOf(passages[i], clock) == Some(Monthly))
              && (a in Filter(annotated, YearlyFilter(clock)) <==> BucketOf(passages[i], clock) == Some(Yearly))
    {
      assert annotated[i] == Annotate(passages[i]);
      FiltersMatchBuckets(passages[i], clock);
    }
  }

  // ---------------------------------------------------------------------------
  // Properties of the handler's result
  // ---------------------------------------------------------------------------

  /**
   Every bucket keeps its passages in the order of the fetched list, and `all`
   lists the daily, weekly, monthly and yearly buckets one after another.
   */
  lemma BucketsKeepInputOrder(passages: seq<Passage>, clock: Clock)
    ensures var r := GetReviewLists(passages, clock);
            var annotated := AnnotateAll(passages);
            && IsSubsequence(r.daily, annotated)
            && IsSubsequence(r.weekly, annotated)
            && IsSubsequence(r.monthly, annotated)
            && IsSubsequence(r.yearly, annotated)
            && r.all == r.daily + r.weekly + r.monthly + r.yearly
  {
    var annotated := AnnotateAll(passages);
    FilterIsSubsequence(annotated, DailyFilter(clock));
    FilterIsSubsequence(annotated, WeeklyFilter(clock));
    FilterIsSubsequence(annotated, MonthlyFilter(clock));
    FilterIsSubsequence(annotated, YearlyFilter(clock));
  }

  /** No passage is listed in two buckets. */
  lemma AtMostOneBucket(passages: seq<Passage>, clock: Clock, a: Annotated)
    ensures var r := GetReviewLists(passages, clock);
            && (a in r.daily ==> a !in r.weekly && a !in r.monthly && a !in r.yearly)
            && (a in r.weekly ==> a !in r.monthly && a !in r.yearly)
            && (a in r.monthly ==> a !in r.yearly)
  {
  }

  /** Annotating keeps distinct passages distinct. */
  lemma AnnotateAllNoDuplicates(passages: seq<Passage>)
    requires NoDuplicates(passages)
    ensures NoDuplicates(AnnotateAll(passages))
  {
    var annotated := AnnotateAll(passages);
    forall i, j | 0 <= i < j < |annotated|
      ensures annotated[i] != annotated[j]
    {
      assert annotated[i].passage == passages[i];
      assert annotated[j].passage == passages[j];
    }
  }

  /**
   `all` holds no element more often than the fetched list does, so it has no
   duplicates when the fetched list has none.
   */
  lemma AllHasNoDuplicates(passages: seq<Passage>, clock: Clock)
    ensures multiset(GetReviewLists(passages, clock).all) <= multiset(AnnotateAll(passages))
    ensures NoDuplicates(passages) ==> NoDuplicates(GetReviewLists(passages, clock).all)
  {
    var annotated := AnnotateAll(passages);
    var r := GetReviewLists(passages, clock);
    var any := a => InDaily(a, clock) || InWeekly(a, clock) || InMonthly(a, clock) || InYearly(a, clock);
    FilterPartition(annotated, DailyFilter(clock), WeeklyFilter(clock), MonthlyFilter(clock), YearlyFilter(clock), any);
    FilterMultiset(annotated, any);
    if NoDuplicates(passages) {
      AnnotateAllNoDuplicates(passages);
      SubBagNoDuplicates(r.all, annotated);
    }
  }

  /** A passage that was never reviewed is listed daily, and nowhere else. */
  lemma NeverReviewedIsDaily(passages: seq<Passage>, clock: Clock, i: nat)
    requires i < |passages| && |passages[i].reviews| == 0
    ensures var r := GetReviewLists(passages, clock);
            var a := Annotate(passages[i]);
            a in r.daily && a !in r.weekly && a !in r.monthly && a !in r.yearly
  {
  }

  /** A passage with one to six reviews, the latest of them today, is listed nowhere. */
  lemma ReviewedTodayIsOmitted(passages: seq<Passage>, clock: Clock, i: nat)
    requires i < |passages|
    requires 1 <= |passages[i].reviews| < WeeklyFrom
    requires clock.isToday(passages[i].reviews[0].createdAt)
    ensures Annotate(passages[i]) !in GetReviewLists(passages, clock).all
  {
  }

  /**
   A passage whose review count puts it in the weekly, monthly or yearly range,
   but whose latest review is not strictly before that range's threshold, is
   listed nowhere.
   */
  lemma NotDueIsOmitted(passages: seq<Passage>, clock: Clock, i: nat)
    requires i < |passages| && |passages[i].reviews| > 0
    requires var n, latest := |passages[i].reviews|, passages[i].reviews[0].createdAt;
             || (WeeklyFrom <= n < MonthlyFrom && latest >= clock.weekBefore)
             || (MonthlyFrom <= n < YearlyFrom && latest >= clock.monthBefore)
             || (YearlyFrom <= n && latest >= clock.yearBefore)
    ensures Annotate(passages[i]) !in GetReviewLists(passages, clock).all
  {
  }

  /** Reviews as the query returns them: newest `date` first. */
  predicate NewestFirst(reviews: seq<Review>)
  {
    forall i, j :: 0 <= i < j < |reviews| ==> reviews[i].date >= reviews[j].date
  }

  /**
   With reviews newest first and each review's `createdAt` equal to its `date`
   (as the bulk import writes them), the latest review date is the greatest
   review date of the passage.
   */
  lemma LatestIsMostRecent(reviews: seq<Review>)
    requires NewestFirst(reviews)
    requires forall k :: 0 <= k < |reviews| ==> reviews[k].createdAt == reviews[k].date
    ensures LatestReviewDate(reviews).Some? ==>
              (forall k :: 0 <= k < |reviews| ==> reviews[k].date <= LatestReviewDate(reviews).value)
  {
    if |reviews| > 0 {
      forall k | 0 < k < |reviews|
        ensures reviews[k].date <= reviews[0].date
      {
      }
    }
  }
}
