/**
 The review-date generator of the bulk-import handler (`getReviewDates`).

 A passage created on day `createdAt` is due for review every day of its first
 week, then once a week for three more weeks, then once a month for eleven
 months. The generator lists, phase by phase, the due days that are not after
 `now`; it neither sorts nor de-duplicates the concatenation. The lemmas below
 show that the candidate days are in fact strictly increasing, so the result
 is always a prefix of the full 21-day schedule.
 */
module Schedule {
  import opened Calendar

  /** Number of days in the daily phase, weeks in the weekly phase and months in the monthly phase. */
  const DailyCount: nat := 7
  const WeeklyCount: nat := 3
  const MonthlyCount: nat := 11

  /** Daily phase: `addDays(createdAt, k)` for k = 0..6. */
  function DailyDates(createdAt: Day): (s: seq<Day>)
    ensures |s| == DailyCount
    ensures forall k :: 0 <= k < |s| ==> s[k] == createdAt + k
  {
    seq(DailyCount, k => AddDays(createdAt, k))
  }

  /** Weekly phase: `addWeeks(createdAt, k)` for k = 1..3, i.e. days 7, 14 and 21. */
  function WeeklyDates(createdAt: Day): (s: seq<Day>)
    ensures |s| == WeeklyCount
    ensures forall k :: 0 <= k < |s| ==> s[k] == createdAt + 7 * (k + 1)
  {
    seq(WeeklyCount, k => AddWeeks(createdAt, k + 1))
  }

  /** Monthly phase: `addMonths(createdAt, k)` for k = 1..11. */
  function MonthlyDates(createdAt: Day): (s: seq<Day>)
    ensures |s| == MonthlyCount
    ensures forall k :: 0 <= k < |s| ==> s[k] == AddMonths(createdAt, k + 1)
  {
    seq(MonthlyCount, k => AddMonths(createdAt, k + 1))
  }

  /** The whole schedule, phase after phase, before any filtering. */
  function Candidates(createdAt: Day): seq<Day>
  {
    DailyDates(createdAt) + WeeklyDates(createdAt) + MonthlyDates(createdAt)
  }

  predicate Increasing(s: seq<Day>)
  {
    forall i, j :: 0 <= i < j < |s| ==> s[i] < s[j]
  }

  /** The days of `s` that are not after `now`, in their original order (`if (d <= now) reviewDates.push(d)`). */
  function UpTo(s: seq<Day>, now: Day): (r: seq<Day>)
    ensures |r| <= |s|
    ensures forall i :: 0 <= i < |r| ==> r[i] <= now
    ensures forall d :: d in r <==> d in s && d <= now
  {
    if |s| == 0 then []
    else (if s[0] <= now then [s[0]] else []) + UpTo(s[1..], now)
  }

  /** `getReviewDates(createdAt, now)`: each phase filtered to the days not after `now`, concatenated. */
  function ReviewDates(createdAt: Day, now: Day): (r: seq<Day>)
    ensures |r| <= DailyCount + WeeklyCount + MonthlyCount
    ensures forall i :: 0 <= i < |r| ==> r[i] <= now
  {
    UpTo(DailyDates(createdAt), now) + UpTo(WeeklyDates(createdAt), now) + UpTo(MonthlyDates(createdAt), now)
  }

  // ---------------------------------------------------------------------------
  // Filtering an increasing sequence
  // ---------------------------------------------------------------------------

  /** Filtering distributes over concatenation. */
  lemma {:induction false} UpToAppend(a: seq<Day>, b: seq<Day>, now: Day)
    ensures UpTo(a + b, now) == UpTo(a, now) + UpTo(b, now)
    decreases |a|
  {
    if |a| == 0 {
      assert a + b == b;
    } else {
      assert (a + b)[1..] == a[1..] + b;
      UpToAppend(a[1..], b, now);
    }
  }

  /** Filtering a sequence extended by one day. */
  lemma UpToSnoc(s: seq<Day>, d: Day, now: Day)
    ensures UpTo(s + [d], now) == UpTo(s, now) + (if d <= now then [d] else [])
  {
    UpToAppend(s, [d], now);
    assert [d][1..] == [];
  }

  /**
   Of an increasing sequence, the days not after `now` are exactly a prefix,
   and every day past that prefix is after `now`.
   */
  lemma {:induction false} UpToOfIncreasing(s: seq<Day>, now: Day)
    requires Increasing(s)
    ensures UpTo(s, now) <= s
    ensures forall i :: |UpTo(s, now)| <= i < |s| ==> now < s[i]
    decreases |s|
  {
    if |s| > 0 {
      var tail := s[1..];
      UpToOfIncreasing(tail, now);
      if s[0] <= now {
        assert UpTo(s, now) == [s[0]] + UpTo(tail, now);
      } else {
        assert forall i :: 0 <= i < |tail| ==> now < tail[i];
        assert UpTo(s, now) == [];
      }
    }
  }

  /** Of an increasing sequence, a later `now` keeps every day an earlier one kept. */
  lemma UpToMonotone(s: seq<Day>, now1: Day, now2: Day)
    requires Increasing(s)
    requires now1 <= now2
    ensures UpTo(s, now1) <= UpTo(s, now2)
  {
    UpToOfIncreasing(s, now1);
    UpToOfIncreasing(s, now2);
    var r1, r2 := UpTo(s, now1), UpTo(s, now2);
    assert |r1| <= |r2| by {
      if |r2| < |r1| {
        assert false;
      }
    }
  }

  /** A sequence whose neighbours increase is increasing. */
  lemma {:induction false} StepsIncreasing(s: seq<Day>)
    requires forall i :: 0 <= i < |s| - 1 ==> s[i] < s[i + 1]
    ensures Increasing(s)
    decreases |s|
  {
    if |s| > 1 {
      StepsIncreasing(s[1..]);
      forall i, j | 0 <= i < j < |s|
        ensures s[i] < s[j]
      {
        if 0 < i {
          assert s[i] == s[1..][i - 1] && s[j] == s[1..][j - 1];
        } else if 1 < j {
          assert s[1] == s[1..][0] && s[j] == s[1..][j - 1];
        }
      }
    }
  }

  // ---------------------------------------------------------------------------
  // The schedule
  // ---------------------------------------------------------------------------

  /**
   The candidate days are strictly increasing: days 0..6, then days 7, 14 and
   21, then one to eleven months on, each month at least 28 days. So the
   weekly phase never repeats a daily date and the concatenation is already
   in chronological order.
   */
  lemma CandidatesIncreasing(createdAt: Day)
    ensures Increasing(Candidates(createdAt))
  {
    var s := Candidates(createdAt);
    forall i | 0 <= i < |s| - 1
      ensures s[i] < s[i + 1]
    {
      if i == 9 {
        AddMonthsBounds(createdAt, 1);
      } else if 10 <= i {
        AddMonthsStep(createdAt, i - 9);
        assert i - 9 + 1 == i - 8;
      }
    }
    StepsIncreasing(s);
  }

  /**
   The generated list is the prefix of the full schedule made of the days not
   after `now`: it is never re-sorted because it never needs to be.
   */
  lemma ReviewDatesPrefix(createdAt: Day, now: Day)
    ensures ReviewDates(createdAt, now) == UpTo(Candidates(createdAt), now)
    ensures ReviewDates(createdAt, now) <= Candidates(createdAt)
    ensures forall i :: |ReviewDates(createdAt, now)| <= i < |Candidates(createdAt)| ==>
              now < Candidates(createdAt)[i]
    ensures Increasing(ReviewDates(createdAt, now))
  {
    var d, w, m := DailyDates(createdAt), WeeklyDates(createdAt), MonthlyDates(createdAt);
    UpToAppend(d + w, m, now);
    UpToAppend(d, w, now);
    CandidatesIncreasing(createdAt);
    UpToOfIncreasing(Candidates(createdAt), now);
  }

  /** Each phase on its own is increasing, being a slice of the increasing schedule. */
  lemma PhasesIncreasing(createdAt: Day)
    ensures Increasing(DailyDates(createdAt))
    ensures Increasing(WeeklyDates(createdAt))
    ensures Increasing(MonthlyDates(createdAt))
  {
    var s := Candidates(createdAt);
    CandidatesIncreasing(createdAt);
    var d, w, m := DailyDates(createdAt), WeeklyDates(createdAt), MonthlyDates(createdAt);
    assert Increasing(d) && Increasing(w) by {
      assert forall i :: 0 <= i < |d| ==> d[i] == s[i];
      assert forall i :: 0 <= i < |w| ==> w[i] == s[|d| + i];
    }
    assert Increasing(m) by {
      assert forall i :: 0 <= i < |m| ==> m[i] == s[|d| + |w| + i];
    }
  }

  /**
   Within each phase the days kept are a prefix of that phase's candidates,
   and every candidate of the phase past that prefix is after `now`.
   */
  lemma PhasePrefix(createdAt: Day, now: Day)
    ensures UpTo(DailyDates(createdAt), now) <= DailyDates(createdAt)
    ensures UpTo(WeeklyDates(createdAt), now) <= WeeklyDates(createdAt)
    ensures UpTo(MonthlyDates(createdAt), now) <= MonthlyDates(createdAt)
    ensures forall i :: |UpTo(DailyDates(createdAt), now)| <= i < DailyCount ==> now < DailyDates(createdAt)[i]
    ensures forall i :: |UpTo(WeeklyDates(createdAt), now)| <= i < WeeklyCount ==> now < WeeklyDates(createdAt)[i]
    ensures forall i :: |UpTo(MonthlyDates(createdAt), now)| <= i < MonthlyCount ==> now < MonthlyDates(createdAt)[i]
  {
    PhasesIncreasing(createdAt);
    UpToOfIncreasing(DailyDates(createdAt), now);
    UpToOfIncreasing(WeeklyDates(createdAt), now);
    UpToOfIncreasing(MonthlyDates(createdAt), now);
  }

  /** A later `now` only extends the generated list, phase by phase and as a whole. */
  lemma ReviewDatesMonotone(createdAt: Day, now1: Day, now2: Day)
    requires now1 <= now2
    ensures UpTo(DailyDates(createdAt), now1) <= UpTo(DailyDates(createdAt), now2)
    ensures UpTo(WeeklyDates(createdAt), now1) <= UpTo(WeeklyDates(createdAt), now2)
    ensures UpTo(MonthlyDates(createdAt), now1) <= UpTo(MonthlyDates(createdAt), now2)
    ensures ReviewDates(createdAt, now1) <= ReviewDates(createdAt, now2)
  {
    var s := Candidates(createdAt);
    CandidatesIncreasing(createdAt);
    ReviewDatesPrefix(createdAt, now1);
    ReviewDatesPrefix(createdAt, now2);
    UpToMonotone(s, now1, now2);
    var d, w, m := DailyDates(createdAt), WeeklyDates(createdAt), MonthlyDates(createdAt);
    PhasesIncreasing(createdAt);
    UpToMonotone(d, now1, now2);
    UpToMonotone(w, now1, now2);
    UpToMonotone(m, now1, now2);
  }

  /** Before the creation day nothing is due. */
  lemma ReviewDatesBeforeCreation(createdAt: Day, now: Day)
    requires now < createdAt
    ensures ReviewDates(createdAt, now) == []
  {
    ReviewDatesPrefix(createdAt, now);
    CandidatesIncreasing(createdAt);
    assert forall i :: 0 <= i < |Candidates(createdAt)| ==> now < Candidates(createdAt)[i];
  }

  /**
   From the creation day on, the first date is the creation day itself; on
   the creation day it is the only one.
   */
  lemma ReviewDatesFromCreation(createdAt: Day, now: Day)
    requires createdAt <= now
    ensures |ReviewDates(createdAt, now)| >= 1
    ensures ReviewDates(createdAt, now)[0] == createdAt
    ensures now == createdAt ==> ReviewDates(createdAt, now) == [createdAt]
  {
    ReviewDatesPrefix(createdAt, now);
    var r, s := ReviewDates(createdAt, now), Candidates(createdAt);
    assert s[0] == createdAt && s[1] == createdAt + 1;
    assert |r| >= 1;
    assert r[0] == s[0];
    if now == createdAt {
      assert |r| == 1;
    }
  }

  /** Within the first week the list holds one date per elapsed day, from the creation day to `now`. */
  lemma ReviewDatesFirstWeek(createdAt: Day, now: Day)
    requires createdAt <= now < createdAt + 7
    ensures |ReviewDates(createdAt, now)| == now - createdAt + 1
    ensures forall k :: 0 <= k < |ReviewDates(createdAt, now)| ==> ReviewDates(createdAt, now)[k] == createdAt + k
  {
    var r, s := ReviewDates(createdAt, now), Candidates(createdAt);
    ReviewDatesPrefix(createdAt, now);
    var n := now - createdAt + 1;
    assert s[n - 1] == now && s[n] == now + 1;
    assert forall k :: 0 <= k < n ==> s[k] == createdAt + k;
  }

  /** Filtering keeps exactly `n` days of a sequence whose first `n` days are the ones not after `now`. */
  lemma {:induction false} UpToCount(s: seq<Day>, now: Day, n: nat)
    requires n <= |s|
    requires forall k :: 0 <= k < |s| ==> (s[k] <= now <==> k < n)
    ensures |UpTo(s, now)| == n
    decreases |s|
  {
    if |s| > 0 {
      var tail := s[1..];
      if s[0] <= now {
        assert forall k :: 0 <= k < |tail| ==> tail[k] == s[k + 1];
        UpToCount(tail, now, n - 1);
      } else {
        assert forall k :: 0 <= k < |tail| ==> tail[k] == s[k + 1];
        UpToCount(tail, now, 0);
      }
    }
  }

  /** The daily phase holds one date per elapsed day, up to seven. */
  lemma DailyPhaseCount(createdAt: Day, now: Day)
    requires createdAt <= now
    ensures |UpTo(DailyDates(createdAt), now)| == if now - createdAt < 7 then now - createdAt + 1 else 7
  {
    var d := DailyDates(createdAt);
    var n := if now - createdAt < 7 then now - createdAt + 1 else 7;
    UpToCount(d, now, n);
  }

  /** The weekly phase holds one date per elapsed whole week, up to three. */
  lemma WeeklyPhaseCount(createdAt: Day, now: Day)
    requires createdAt <= now
    ensures |UpTo(WeeklyDates(createdAt), now)| == if (now - createdAt) / 7 < 3 then (now - createdAt) / 7 else 3
  {
    var w := WeeklyDates(createdAt);
    var weeks := (now - createdAt) / 7;
    var n := if weeks < 3 then weeks else 3;
    assert 7 * weeks <= now - createdAt < 7 * weeks + 7;
    assert forall k :: 0 <= k < |w| ==> (w[k] <= now <==> k < n) by {
      forall k | 0 <= k < |w|
        ensures w[k] <= now <==> k < n
      {
        assert w[k] == createdAt + 7 * (k + 1);
        if k < weeks {
          assert 7 * (k + 1) <= 7 * weeks;
        } else {
          assert 7 * weeks + 7 <= 7 * (k + 1);
        }
      }
    }
    UpToCount(w, now, n);
  }

  /** Once eleven months have passed, the whole schedule of 7 + 3 + 11 = 21 dates is generated. */
  lemma ReviewDatesComplete(createdAt: Day, now: Day)
    requires AddMonths(createdAt, 11) <= now
    ensures ReviewDates(createdAt, now) == Candidates(createdAt)
    ensures |ReviewDates(createdAt, now)| == 21
  {
    ReviewDatesPrefix(createdAt, now);
    CandidatesIncreasing(createdAt);
    var r, s := ReviewDates(createdAt, now), Candidates(createdAt);
    assert s[20] == AddMonths(createdAt, 11);
  }

  /** 341 days (eleven months of at most 31 days) always suffice for the whole schedule. */
  lemma ReviewDatesCompleteAfter341Days(createdAt: Day, now: Day)
    requires createdAt + 341 <= now
    ensures |ReviewDates(createdAt, now)| == 21
  {
    AddMonthsBounds(createdAt, 11);
    ReviewDatesComplete(createdAt, now);
  }

  // ---------------------------------------------------------------------------
  // The three loops of getReviewDates
  // ---------------------------------------------------------------------------

  /** The first loop of getReviewDates: days 0..6 after creation, those not after `now`. */
  method DailyPhase(createdAt: Day, now: Day) returns (dates: seq<Day>)
    ensures dates == UpTo(DailyDates(createdAt), now)
  {
    dates := [];
    var daily := DailyDates(createdAt);
    for i := 0 to 7
      invariant dates == UpTo(daily[..i], now)
    {
      var d := AddDays(createdAt, i);
      assert UpTo(daily[..i + 1], now) == dates + (if d <= now then [d] else []) by {
        assert daily[..i + 1] == daily[..i] + [d];
        UpToSnoc(daily[..i], d, now);
      }
      if d <= now {
        dates := dates + [d];
      }
    }
    assert daily[..7] == daily;
  }

  /** The second loop: weeks 1..3 after creation, those not after `now`. */
  method WeeklyPhase(createdAt: Day, now: Day) returns (dates: seq<Day>)
    ensures dates == UpTo(WeeklyDates(createdAt), now)
  {
    dates := [];
    var weekly := WeeklyDates(createdAt);
    for i := 1 to 4
      invariant dates == UpTo(weekly[..i - 1], now)
    {
      var d := AddWeeks(createdAt, i);
      assert UpTo(weekly[..i], now) == dates + (if d <= now then [d] else []) by {
        assert weekly[..i] == weekly[..i - 1] + [d];
        UpToSnoc(weekly[..i - 1], d, now);
      }
      if d <= now {
        dates := dates + [d];
      }
    }
    assert weekly[..3] == weekly;
  }

  /** The third loop: months 1..11 after creation, those not after `now`. */
  method MonthlyPhase(createdAt: Day, now: Day) returns (dates: seq<Day>)
    ensures dates == UpTo(MonthlyDates(createdAt), now)
  {
    dates := [];
    var monthly := MonthlyDates(createdAt);
    for i := 1 to 12
      invariant dates == UpTo(monthly[..i - 1], now)
    {
      var d := AddMonths(createdAt, i);
      assert UpTo(monthly[..i], now) == dates + (if d <= now then [d] else []) by {
        var k := i - 1;
        assert k + 1 == i;
        assert monthly[k] == d;
        assert monthly[..i] == monthly[..i - 1] + [d];
        UpToSnoc(monthly[..i - 1], d, now);
      }
      if d <= now {
        dates := dates + [d];
      }
    }
    assert monthly[..11] == monthly;
  }

  /**
   The generator as the handler writes it: three counting loops pushing, in
   turn, the daily, weekly and monthly days not after `now` onto one list.
   */
  method GetReviewDates(createdAt: Day, now: Day) returns (dates: seq<Day>)
    ensures dates == ReviewDates(createdAt, now)
  {
    var daily := DailyPhase(createdAt, now);
    var weekly := WeeklyPhase(createdAt, now);
    var monthly := MonthlyPhase(createdAt, now);
    dates := daily + weekly + monthly;
  }
}
