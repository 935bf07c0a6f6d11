/** The rules of the daily page: the month key, which highlights still need a review this
    month, how they are spread over the days of the month, what a day's summary shows and
    does to the highlights it shows, and how ratings are averaged and archive a
    highlight. */
module Daily {
  import opened Text
  import opened Wrappers
  import opened Sequences

  // ---------------------------------------------------------------------------
  // The month key
  // ---------------------------------------------------------------------------

  /** `String(m).padStart(2, '0')`. */
  function Pad2(m: nat): String {
    var s := NatToString(m);
    if |s| < 2 then "0" + s else s
  }

  /** `${year}-${month padded to two digits}`, `month` counted from 1. */
  function MonthKey(year: nat, month: nat): String
    requires 1 <= month <= 12
  {
    NatToString(year) + "-" + Pad2(month)
  }

  function DigitValue(c: char): nat
    requires IsDigit(c)
  {
    c as int - '0' as int
  }

  /** The value of a string of decimal digits. */
  function ParseNat(s: String): nat
    requires forall i :: 0 <= i < |s| ==> IsDigit(s[i])
    decreases |s|
  {
    if s == [] then 0 else 10 * ParseNat(s[..|s| - 1]) + DigitValue(s[|s| - 1])
  }

  /** Reading back the digits of a number gives the number. */
  lemma {:induction false} ParseNatToString(n: nat)
    ensures ParseNat(NatToString(n)) == n
    decreases n
  {
    if n >= 10 {
      ParseNatToString(n / 10);
      var s := NatToString(n);
      assert s[..|s| - 1] == NatToString(n / 10);
    }
  }

  /** The month key is the year's digits, a dash and exactly two digits, and reading the
      two parts back gives the year and the month. */
  lemma MonthKeyRoundTrip(year: nat, month: nat)
    requires 1 <= month <= 12
    ensures var k := MonthKey(year, month);
      && |k| == |NatToString(year)| + 3
      && k[|k| - 3] == '-'
      && (forall i :: 0 <= i < |k| && i != |k| - 3 ==> IsDigit(k[i]))
      && ParseNat(k[..|k| - 3]) == year
      && ParseNat(k[|k| - 2..]) == month
  {
    var k := MonthKey(year, month);
    var y := NatToString(year);
    var m := Pad2(month);
    ParseNatToString(year);
    ParseNatToString(month);
    assert k[..|k| - 3] == y;
    if month < 10 {
      assert NatToString(month) == [('0' as int + month) as char];
      assert m == ['0', ('0' as int + month) as char];
    } else {
      assert NatToString(month) == NatToString(month / 10) + [('0' as int + month % 10) as char];
      assert |NatToString(month / 10)| == 1;
    }
    assert k[|k| - 2..] == m;
  }

  // ---------------------------------------------------------------------------
  // Highlights needing a review
  // ---------------------------------------------------------------------------

  /** A non-archived highlight as the page reads it. */
  datatype Highlight = Highlight(id: String, resurfaceCount: nat, lastResurfaced: Option<String>)

  /** A row of `highlight_months_reviewed`. */
  datatype MonthReviewed = MonthReviewed(highlightId: String, monthYear: String)

  /** `reviewedIds`: the highlights reviewed in the month with key `month`. */
  function ReviewedIds(rows: seq<MonthReviewed>, month: String): set<String> {
    set r | r in rows && r.monthYear == month :: r.highlightId
  }

  /** `highlightsNeedingReview`: the highlights whose id is not among `reviewed`. */
  function NeedingReview(all: seq<Highlight>, reviewed: set<String>): (r: seq<Highlight>)
    ensures |r| <= |all|
    decreases |all|
  {
    if all == [] then []
    else (if all[0].id in reviewed then [] else [all[0]]) + NeedingReview(all[1..], reviewed)
  }

  /** A highlight needs a review exactly when it is one of the highlights and its id was
      not reviewed this month. */
  lemma {:induction false} NeedingReviewMembership(all: seq<Highlight>, reviewed: set<String>, h: Highlight)
    ensures h in NeedingReview(all, reviewed) <==> h in all && h.id !in reviewed
    decreases |all|
  {
    if all != [] {
      NeedingReviewMembership(all[1..], reviewed, h);
      assert all == [all[0]] + all[1..];
    }
  }

  /** The filter keeps the order: filtering two parts gives the filtered first part
      followed by the filtered second part. */
  lemma {:induction false} NeedingReviewAppend(a: seq<Highlight>, b: seq<Highlight>, reviewed: set<String>)
    ensures NeedingReview(a + b, reviewed) == NeedingReview(a, reviewed) + NeedingReview(b, reviewed)
    decreases |a|
  {
    if a == [] {
      assert a + b == b;
    } else {
      NeedingReviewAppend(a[1..], b, reviewed);
      assert (a + b)[0] == a[0];
      assert (a + b)[1..] == a[1..] + b;
      AppendAssoc(if a[0].id in reviewed then [] else [a[0]], NeedingReview(a[1..], reviewed),
                  NeedingReview(b, reviewed));
    }
  }

  // ---------------------------------------------------------------------------
  // Spreading over the month
  // ---------------------------------------------------------------------------

  /** `Math.ceil(n / daysInMonth)`. */
  function PerDay(n: nat, days: nat): nat
    requires days >= 1
  {
    (n + days - 1) / days
  }

  /** `PerDay` is the least count per day that covers `n` highlights in `days` days. */
  lemma PerDayIsCeiling(n: nat, days: nat)
    requires days >= 1
    ensures PerDay(n, days) * days >= n
    ensures n > 0 ==> (PerDay(n, days) - 1) * days < n
    ensures n == 0 ==> PerDay(n, days) == 0
  {
    var q := PerDay(n, days);
    var r := (n + days - 1) % days;
    assert n + days - 1 == q * days + r;
  }

  /** `highlightsNeedingReview.slice(startIndex, endIndex)` for day `day`. */
  function DaySlice<T>(list: seq<T>, day: nat, perDay: nat): (r: seq<T>)
    requires day >= 1
    ensures |r| <= perDay
  {
    var start := (day - 1) * perDay;
    var end := Min(start + perDay, |list|);
    if start < end then list[start..end] else []
  }

  /** The slices of days `1..k`. */
  function Schedule<T>(list: seq<T>, perDay: nat, k: nat): (r: seq<seq<T>>)
    ensures |r| == k
    decreases k
  {
    if k == 0 then [] else Schedule(list, perDay, k - 1) + [DaySlice(list, k, perDay)]
  }

  /** The first `k` days show the first `min(k * perDay, n)` highlights, each once and in
      order. */
  lemma {:induction false} ScheduleCovers<T>(list: seq<T>, perDay: nat, k: nat)
    ensures Concat(Schedule(list, perDay, k)) == list[..Min(k * perDay, |list|)]
    decreases k
  {
    if k > 0 {
      ScheduleCovers(list, perDay, k - 1);
      var slice := DaySlice(list, k, perDay);
      ConcatAppend(Schedule(list, perDay, k - 1), [slice]);
      assert Concat([slice]) == slice;
      var a := Min((k - 1) * perDay, |list|);
      var b := Min(k * perDay, |list|);
      DaySliceBetween(list, k, perDay);
      assert list[..a] + list[a..b] == list[..b];
    }
  }

  /** Day `k`'s slice runs from `min((k - 1) * perDay, n)` to `min(k * perDay, n)`. */
  lemma DaySliceBetween<T>(list: seq<T>, k: nat, perDay: nat)
    requires k >= 1
    ensures Min((k - 1) * perDay, |list|) <= Min(k * perDay, |list|)
    ensures DaySlice(list, k, perDay) == list[Min((k - 1) * perDay, |list|)..Min(k * perDay, |list|)]
  {
    assert (k - 1) * perDay + perDay == k * perDay;
  }

  /** Over a whole month with `perDay` the ceiling, the days' slices of a fixed list are
      in order, disjoint, at most `perDay` long each, and together cover the list. */
  lemma MonthCoversFixedList<T>(list: seq<T>, days: nat)
    requires days >= 1
    ensures var s := Schedule(list, PerDay(|list|, days), days);
      && Concat(s) == list
      && forall d :: 0 <= d < days ==> |s[d]| <= PerDay(|list|, days)
  {
    PerDayIsCeiling(|list|, days);
    ScheduleCovers(list, PerDay(|list|, days), days);
    assert days * PerDay(|list|, days) == PerDay(|list|, days) * days;
    ScheduleDays(list, PerDay(|list|, days), days);
  }

  /** Day `d` of the schedule is the slice of day `d + 1`. */
  lemma {:induction false} ScheduleDays<T>(list: seq<T>, perDay: nat, k: nat)
    ensures forall d :: 0 <= d < k ==> Schedule(list, perDay, k)[d] == DaySlice(list, d + 1, perDay)
    decreases k
  {
    if k > 0 {
      ScheduleDays(list, perDay, k - 1);
    }
  }

  // ---------------------------------------------------------------------------
  // The day's summary
  // ---------------------------------------------------------------------------

  /** What `ensureDailySummary` leaves behind for a date. */
  datatype Summary =
    | AlreadyThere
    | EmptySummary
    | Created(shown: seq<String>, reviewed: seq<MonthReviewed>, resurfaced: seq<Highlight>)

  /** A highlight shown on `date`: resurfaced once more, on that date. */
  function Resurface(h: Highlight, date: String): Highlight {
    h.(resurfaceCount := h.resurfaceCount + 1, lastResurfaced := Some(date))
  }

  function Ids(hs: seq<Highlight>): (r: seq<String>)
    ensures |r| == |hs|
  {
    seq(|hs|, i requires 0 <= i < |hs| => hs[i].id)
  }

  /** The summary for the highlights `show`: their ids, a reviewed-this-month row for
      each, and each resurfaced on `date`. */
  function SummaryOf(show: seq<Highlight>, month: String, date: String): (s: Summary)
    ensures s.Created? && |s.shown| == |s.reviewed| == |s.resurfaced| == |show|
  {
    Created(Ids(show),
            seq(|show|, i requires 0 <= i < |show| => MonthReviewed(show[i].id, month)),
            seq(|show|, i requires 0 <= i < |show| => Resurface(show[i], date)))
  }

  /** `ensureDailySummary` for `date`, day `day` of a month of `daysInMonth` days with key
      `month`: `all` holds the non-archived highlights, newest first, and `rows` the
      reviewed-in-a-month rows. */
  function EnsureDailySummary(summaryExists: bool, all: seq<Highlight>, rows: seq<MonthReviewed>,
                              month: String, day: nat, daysInMonth: nat, date: String): Summary
    requires 1 <= day <= daysInMonth
  {
    if summaryExists then AlreadyThere
    else if all == [] then EmptySummary
    else
      var needing := NeedingReview(all, ReviewedIds(rows, month));
      if needing == [] then EmptySummary
      else
        var show := DaySlice(needing, day, PerDay(|needing|, daysInMonth));
        if show == [] then EmptySummary
        else SummaryOf(show, month, date)
  }

  /** The summary for `show` lists each of its highlights in turn, marks it reviewed for
      the month and resurfaces it on the date. */
  lemma SummaryOfMeaning(show: seq<Highlight>, month: String, date: String)
    ensures var s := SummaryOf(show, month, date);
      forall i :: 0 <= i < |show| ==>
        && s.shown[i] == show[i].id
        && s.reviewed[i] == MonthReviewed(show[i].id, month)
        && s.resurfaced[i] == Resurface(show[i], date)
  {
  }

  /** A summary that already exists is left alone; otherwise the day's summary is empty
      exactly when the day's share of the highlights needing a review is empty. */
  lemma EnsureDailySummaryCases(summaryExists: bool, all: seq<Highlight>, rows: seq<MonthReviewed>,
                                month: String, day: nat, daysInMonth: nat, date: String)
    requires 1 <= day <= daysInMonth
    ensures var s := EnsureDailySummary(summaryExists, all, rows, month, day, daysInMonth, date);
      var needing := NeedingReview(all, ReviewedIds(rows, month));
      && (s.AlreadyThere? <==> summaryExists)
      && (s.EmptySummary? <==> !summaryExists && DaySlice(needing, day, PerDay(|needing|, daysInMonth)) == [])
      && (s.Created? <==> !summaryExists && DaySlice(needing, day, PerDay(|needing|, daysInMonth)) != [])
  {
    var needing := NeedingReview(all, ReviewedIds(rows, month));
    if all == [] {
      assert needing == [];
    }
    if needing == [] {
      assert DaySlice(needing, day, PerDay(|needing|, daysInMonth)) == [];
    }
  }

  /** A created summary shows highlights that need a review, at least one and at most the
      day's share of them, marks each reviewed for the month and resurfaces each once
      more on the date. */
  lemma EnsureDailySummaryShows(summaryExists: bool, all: seq<Highlight>, rows: seq<MonthReviewed>,
                                month: String, day: nat, daysInMonth: nat, date: String)
    requires 1 <= day <= daysInMonth
    ensures var s := EnsureDailySummary(summaryExists, all, rows, month, day, daysInMonth, date);
      var reviewed := ReviewedIds(rows, month);
      var needing := NeedingReview(all, reviewed);
      s.Created? ==>
        && 1 <= |s.shown| <= PerDay(|needing|, daysInMonth)
        && |s.resurfaced| == |s.shown| == |s.reviewed|
        && forall i :: 0 <= i < |s.shown| ==>
             && (exists h :: h in all && h.id == s.shown[i] && h.id !in reviewed)
             && s.reviewed[i] == MonthReviewed(s.shown[i], month)
             && s.resurfaced[i].id == s.shown[i]
             && s.resurfaced[i].resurfaceCount >= 1
             && s.resurfaced[i].lastResurfaced == Some(date)
  {
    var reviewed := ReviewedIds(rows, month);
    var needing := NeedingReview(all, reviewed);
    var show := DaySlice(needing, day, PerDay(|needing|, daysInMonth));
    if !summaryExists && all != [] && needing != [] && show != [] {
      SummaryOfMeaning(show, month, date);
      ShownNeedReview(all, reviewed, day, PerDay(|needing|, daysInMonth));
    }
  }

  /** Every highlight of a day's slice is one of the highlights and was not reviewed. */
  lemma ShownNeedReview(all: seq<Highlight>, reviewed: set<String>, day: nat, perDay: nat)
    requires day >= 1
    ensures var show := DaySlice(NeedingReview(all, reviewed), day, perDay);
      forall i :: 0 <= i < |show| ==> show[i] in all && show[i].id !in reviewed
  {
    var needing := NeedingReview(all, reviewed);
    var show := DaySlice(needing, day, perDay);
    forall i | 0 <= i < |show|
      ensures show[i] in all && show[i].id !in reviewed
    {
      var start := (day - 1) * perDay;
      assert show[i] == needing[start + i];
      NeedingReviewMembership(all, reviewed, show[i]);
    }
  }

  /** Each highlight shown is resurfaced exactly once more and nothing else changes. */
  lemma ResurfaceMeaning(h: Highlight, date: String)
    ensures Resurface(h, date).resurfaceCount == h.resurfaceCount + 1
    ensures Resurface(h, date).lastResurfaced == Some(date)
    ensures Resurface(h, date).id == h.id
  {
  }

  // ---------------------------------------------------------------------------
  // The month as the days go by
  // ---------------------------------------------------------------------------

  function IdSet(hs: seq<Highlight>): set<String> {
    set h | h in hs :: h.id
  }

  /** The day's share as written: the start index `(day - 1) * perDay` is taken in the
      list of highlights still needing a review, which shrinks as earlier days mark
      theirs reviewed. */
  function TodayAsWritten(all: seq<Highlight>, reviewed: set<String>, day: nat, days: nat): seq<Highlight>
    requires 1 <= day <= days
  {
    var needing := NeedingReview(all, reviewed);
    DaySlice(needing, day, PerDay(|needing|, days))
  }

  /** Whatever the formula picks, the day shows at most its share of the highlights still
      needing a review, each one among the highlights and not reviewed this month. */
  lemma TodayAsWrittenNeedsReview(all: seq<Highlight>, reviewed: set<String>, day: nat, days: nat)
    requires 1 <= day <= days
    ensures |TodayAsWritten(all, reviewed, day, days)| <= PerDay(|NeedingReview(all, reviewed)|, days)
    ensures forall h :: h in TodayAsWritten(all, reviewed, day, days) ==> h in all && h.id !in reviewed
  {
    var needing := NeedingReview(all, reviewed);
    forall h | h in TodayAsWritten(all, reviewed, day, days) ensures h in all && h.id !in reviewed {
      assert h in needing;
      NeedingReviewMembership(all, reviewed, h);
    }
  }

  /** In a month of `days >= 3` days (every real month has 28 to 31) with one highlight
      more than there are days, all needing a review, the first day shows the first two;
      the second day, with `perDay` now 1, slices from index 1 of the highlights left and
      shows only the fourth: the third is shown on neither day, and the start index only
      grows after that. */
  lemma DailySkipAsWritten(all: seq<Highlight>, days: nat)
    requires DistinctIds(all)
    requires days >= 3 && |all| == days + 1
    ensures var first := TodayAsWritten(all, {}, 1, days);
      var second := TodayAsWritten(all, IdSet(first), 2, days);
      first == all[..2] && second == [all[3]] && all[2] !in first + second
  {
    var first := TodayAsWritten(all, {}, 1, days);
    SkipFirstDay(all, days);
    NeedingReviewAfterPrefix(all, {}, 2);
    assert {} + IdSet(all[..2]) == IdSet(first);
    SkipSecondDay(all, days);
    assert all[2] != all[0] && all[2] != all[1] && all[2] != all[3] by {
      assert all[2].id != all[0].id && all[2].id != all[1].id && all[2].id != all[3].id;
    }
  }

  /** Nothing reviewed: every highlight needs a review. */
  lemma {:induction false} NothingReviewed(all: seq<Highlight>)
    ensures NeedingReview(all, {}) == all
    decreases |all|
  {
    if all != [] {
      NothingReviewed(all[1..]);
      assert all == [all[0]] + all[1..];
    }
  }

  /** The first day of `DailySkipAsWritten`: `perDay` is 2, so it shows the first two. */
  lemma SkipFirstDay(all: seq<Highlight>, days: nat)
    requires days >= 3 && |all| == days + 1
    ensures NeedingReview(all, {}) == all
    ensures TodayAsWritten(all, {}, 1, days) == all[..2]
  {
    NothingReviewed(all);
    PerDayOfOneMore(days);
  }

  /** One highlight more than days: two a day. */
  lemma PerDayOfOneMore(days: nat)
    requires days >= 2
    ensures PerDay(days + 1, days) == 2
  {
    assert days + 1 + days - 1 == 2 * days;
  }

  /** One highlight fewer than days: one a day. */
  lemma PerDayOfOneFewer(days: nat)
    requires days >= 2
    ensures PerDay(days - 1, days) == 1
  {
    assert days - 1 + days - 1 == days + (days - 2);
  }

  /** The second day of `DailySkipAsWritten`: `days - 1` highlights remain, `perDay` is
      1, and the slice from index 1 holds only the fourth. */
  lemma SkipSecondDay(all: seq<Highlight>, days: nat)
    requires days >= 3 && |all| == days + 1
    requires NeedingReview(all, IdSet(all[..2])) == all[2..]
    ensures TodayAsWritten(all, IdSet(all[..2]), 2, days) == [all[3]]
  {
    var rest := all[2..];
    assert |rest| == days - 1;
    PerDayOfOneFewer(days);
    assert DaySlice(rest, 2, 1) == rest[1..2];
  }

  /** The evidently intended day's share: an equal share of the remaining highlights over
      the remaining days, taken from the front of the list. */
  function TodayCorrected(all: seq<Highlight>, reviewed: set<String>, day: nat, days: nat): (r: seq<Highlight>)
    requires 1 <= day <= days
  {
    var needing := NeedingReview(all, reviewed);
    needing[..Min(PerDay(|needing|, days - day + 1), |needing|)]
  }

  /** What days `day..days` show with the corrected share, each day marking its
      highlights reviewed. */
  function MonthCorrected(all: seq<Highlight>, reviewed: set<String>, day: nat, days: nat): seq<seq<Highlight>>
    requires 1 <= day
    decreases days + 1 - day
  {
    if day > days then []
    else
      var today := TodayCorrected(all, reviewed, day, days);
      [today] + MonthCorrected(all, reviewed + IdSet(today), day + 1, days)
  }

  predicate DistinctIds(all: seq<Highlight>) {
    forall i, j :: 0 <= i < j < |all| ==> all[i].id != all[j].id
  }

  /** Marking an id that no highlight has reviewed changes nothing. */
  lemma {:induction false} NeedingReviewIgnores(all: seq<Highlight>, reviewed: set<String>, extra: set<String>)
    requires forall h :: h in all ==> h.id !in extra
    ensures NeedingReview(all, reviewed + extra) == NeedingReview(all, reviewed)
    decreases |all|
  {
    if all != [] {
      assert all[0] in all;
      forall h | h in all[1..] ensures h.id !in extra { assert h in all; }
      NeedingReviewIgnores(all[1..], reviewed, extra);
    }
  }

  lemma IdSetCons(x: Highlight, hs: seq<Highlight>)
    ensures IdSet([x] + hs) == {x.id} + IdSet(hs)
  {
    assert forall h :: h in [x] + hs <==> h == x || h in hs;
  }

  /** In a list of distinct ids, the tail keeps them distinct and none of its ids is the
      head's. */
  lemma TailDistinct(all: seq<Highlight>)
    requires all != [] && DistinctIds(all)
    ensures DistinctIds(all[1..])
    ensures forall h :: h in all[1..] ==> h.id != all[0].id
  {
    var tail := all[1..];
    forall i, j | 0 <= i < j < |tail| ensures tail[i].id != tail[j].id {
      assert tail[i] == all[i + 1] && tail[j] == all[j + 1];
    }
    forall h | h in tail ensures h.id != all[0].id {
      var j :| 0 <= j < |tail| && tail[j] == h;
      assert all[j + 1] == h;
    }
  }

  /** Marking a head that needs a review, with its id not in the tail, drops it and
      leaves the tail's filter as it was. */
  lemma MarkHead(x: Highlight, tail: seq<Highlight>, reviewed: set<String>, marked: set<String>)
    requires forall h :: h in tail ==> h.id != x.id
    ensures NeedingReview([x] + tail, reviewed + ({x.id} + marked)) == NeedingReview(tail, reviewed + marked)
  {
    assert ([x] + tail)[0] == x && ([x] + tail)[1..] == tail;
    assert reviewed + ({x.id} + marked) == (reviewed + marked) + {x.id};
    NeedingReviewIgnores(tail, reviewed + marked, {x.id});
  }

  /** Marking the first `k` highlights needing a review leaves the rest of them. */
  lemma {:induction false} NeedingReviewAfterPrefix(all: seq<Highlight>, reviewed: set<String>, k: nat)
    requires DistinctIds(all)
    requires k <= |NeedingReview(all, reviewed)|
    ensures NeedingReview(all, reviewed + IdSet(NeedingReview(all, reviewed)[..k]))
      == NeedingReview(all, reviewed)[k..]
    decreases |all|
  {
    var needing := NeedingReview(all, reviewed);
    if all == [] {
    } else if k == 0 {
      assert needing[..k] == [];
      assert reviewed + IdSet(needing[..k]) == reviewed;
    } else {
      TailDistinct(all);
      if all[0].id in reviewed {
        NeedingReviewAfterPrefix(all[1..], reviewed, k);
        AfterPrefixReviewedHead(all, reviewed, k);
      } else {
        NeedingReviewAfterPrefix(all[1..], reviewed, k - 1);
        AfterPrefixNewHead(all, reviewed, k);
      }
    }
  }

  /** The step of `NeedingReviewAfterPrefix` when the head was already reviewed. */
  lemma AfterPrefixReviewedHead(all: seq<Highlight>, reviewed: set<String>, k: nat)
    requires all != [] && all[0].id in reviewed
    requires k <= |NeedingReview(all[1..], reviewed)|
    requires var rest := NeedingReview(all[1..], reviewed);
      NeedingReview(all[1..], reviewed + IdSet(rest[..k])) == rest[k..]
    ensures k <= |NeedingReview(all, reviewed)|
    ensures NeedingReview(all, reviewed + IdSet(NeedingReview(all, reviewed)[..k]))
      == NeedingReview(all, reviewed)[k..]
  {
    var rest := NeedingReview(all[1..], reviewed);
    assert NeedingReview(all, reviewed) == rest;
    var r := reviewed + IdSet(rest[..k]);
    assert all[0].id in r;
    assert NeedingReview(all, r) == NeedingReview(all[1..], r);
  }

  /** The step of `NeedingReviewAfterPrefix` when the head needs a review and is among
      the first `k`. */
  lemma AfterPrefixNewHead(all: seq<Highlight>, reviewed: set<String>, k: nat)
    requires all != [] && all[0].id !in reviewed && k >= 1
    requires forall h :: h in all[1..] ==> h.id != all[0].id
    requires k - 1 <= |NeedingReview(all[1..], reviewed)|
    requires var rest := NeedingReview(all[1..], reviewed);
      NeedingReview(all[1..], reviewed + IdSet(rest[..k - 1])) == rest[k - 1..]
    ensures k <= |NeedingReview(all, reviewed)|
    ensures NeedingReview(all, reviewed + IdSet(NeedingReview(all, reviewed)[..k]))
      == NeedingReview(all, reviewed)[k..]
  {
    var x, tail := all[0], all[1..];
    var rest := NeedingReview(tail, reviewed);
    var needing := NeedingReview(all, reviewed);
    assert needing == [x] + rest;
    var m := IdSet(rest[..k - 1]);
    PrefixOfCons(x, rest, k);
    IdSetCons(x, rest[..k - 1]);
    assert all == [x] + tail;
    MarkHead(x, tail, reviewed, m);
  }

  /** Splitting a list with a new head at `k` splits its tail at `k - 1`. */
  lemma PrefixOfCons<T>(x: T, rest: seq<T>, k: nat)
    requires 1 <= k <= |rest| + 1
    ensures ([x] + rest)[..k] == [x] + rest[..k - 1]
    ensures ([x] + rest)[k..] == rest[k - 1..]
  {
  }

  /** The corrected share is a prefix of the highlights needing a review, and on the last
      day it is all of them. */
  lemma TodayIsPrefix(all: seq<Highlight>, reviewed: set<String>, day: nat, days: nat)
    requires 1 <= day <= days
    ensures var needing := NeedingReview(all, reviewed);
      var today := TodayCorrected(all, reviewed, day, days);
      && |today| <= |needing|
      && today == needing[..|today|]
      && (day == days ==> today == needing)
  {
    var needing := NeedingReview(all, reviewed);
    if day == days {
      PerDayIsCeiling(|needing|, 1);
    }
  }

  /** Once nothing needs a review, the remaining days show nothing. */
  lemma {:induction false} ConcatOfNothingLeft(all: seq<Highlight>, reviewed: set<String>, day: nat, days: nat)
    requires 1 <= day
    requires NeedingReview(all, reviewed) == []
    ensures Concat(MonthCorrected(all, reviewed, day, days)) == []
    decreases days + 1 - day
  {
    if day <= days {
      var today := TodayCorrected(all, reviewed, day, days);
      assert today == [];
      assert reviewed + IdSet(today) == reviewed;
      ConcatOfNothingLeft(all, reviewed, day + 1, days);
      ConcatCons(today, MonthCorrected(all, reviewed, day + 1, days));
    }
  }

  /** With the corrected share, the days from `day` to the end of the month show every
      highlight still needing a review exactly once, in order. */
  lemma {:induction false} MonthCorrectedCovers(all: seq<Highlight>, reviewed: set<String>, day: nat, days: nat)
    requires DistinctIds(all)
    requires 1 <= day <= days
    ensures Concat(MonthCorrected(all, reviewed, day, days)) == NeedingReview(all, reviewed)
    decreases days + 1 - day
  {
    var today := TodayCorrected(all, reviewed, day, days);
    var next := reviewed + IdSet(today);
    if day == days {
      TodayIsPrefix(all, reviewed, day, days);
      NeedingReviewAfterPrefix(all, reviewed, |today|);
      ConcatOfNothingLeft(all, next, day + 1, days);
    } else {
      MonthCorrectedCovers(all, next, day + 1, days);
    }
    MonthCorrectedStep(all, reviewed, day, days);
  }

  /** The step of `MonthCorrectedCovers`: when the later days show what is left after
      today's share, the days from `day` show everything that needs a review. */
  lemma MonthCorrectedStep(all: seq<Highlight>, reviewed: set<String>, day: nat, days: nat)
    requires DistinctIds(all)
    requires 1 <= day <= days
    requires var next := reviewed + IdSet(TodayCorrected(all, reviewed, day, days));
      Concat(MonthCorrected(all, next, day + 1, days)) == NeedingReview(all, next)
    ensures Concat(MonthCorrected(all, reviewed, day, days)) == NeedingReview(all, reviewed)
  {
    var needing := NeedingReview(all, reviewed);
    var today := TodayCorrected(all, reviewed, day, days);
    var k := |today|;
    TodayIsPrefix(all, reviewed, day, days);
    NeedingReviewAfterPrefix(all, reviewed, k);
    var next := reviewed + IdSet(today);
    CoverStep(needing, today, MonthCorrected(all, next, day + 1, days), k);
  }

  /** A prefix of a list followed by pieces that spell the rest spells the list. */
  lemma CoverStep<T>(list: seq<T>, first: seq<T>, rest: seq<seq<T>>, k: nat)
    requires k <= |list| && first == list[..k] && Concat(rest) == list[k..]
    ensures Concat([first] + rest) == list
  {
    ConcatCons(first, rest);
    assert list == list[..k] + list[k..];
  }

  // ---------------------------------------------------------------------------
  // Ratings
  // ---------------------------------------------------------------------------

  datatype Rating = Low | Med | High

  /** low counts 0, med 1, anything else 2. */
  function RatingValue(r: Rating): nat {
    if r == Low then 0 else if r == Med then 1 else 2
  }

  /** The ratings given so far, the unrated entries left out. */
  function Rated(ratings: seq<Option<Rating>>): (r: seq<Rating>)
    ensures |r| <= |ratings|
    ensures forall x :: x in r <==> Some(x) in ratings
    decreases |ratings|
  {
    if ratings == [] then []
    else (if ratings[0].Some? then [ratings[0].value] else []) + Rated(ratings[1..])
  }

  /** The ratings keep their order: those of two lists are those of the first followed
      by those of the second. */
  lemma {:induction false} RatedAppend(a: seq<Option<Rating>>, b: seq<Option<Rating>>)
    ensures Rated(a + b) == Rated(a) + Rated(b)
    decreases |a|
  {
    if a == [] {
      assert a + b == b;
    } else {
      assert (a + b)[1..] == a[1..] + b;
      RatedAppend(a[1..], b);
    }
  }

  function Total(rs: seq<Rating>): (t: nat)
    ensures t <= 2 * |rs|
    decreases |rs|
  {
    if rs == [] then 0 else RatingValue(rs[0]) + Total(rs[1..])
  }

  function CountLow(rs: seq<Rating>): (n: nat)
    ensures n <= |rs|
    decreases |rs|
  {
    if rs == [] then 0 else (if rs[0] == Low then 1 else 0) + CountLow(rs[1..])
  }

  /** The fields `handleRatingChange` writes to the highlight. */
  datatype RatingUpdate = RatingUpdate(averageRating: real, ratingCount: nat, archived: bool)

  function RatingUpdateOf(ratings: seq<Option<Rating>>): RatingUpdate {
    var rated := Rated(ratings);
    var average := if |rated| > 0 then Total(rated) as real / |rated| as real else 0.0;
    RatingUpdate(average, |rated|, CountLow(rated) >= 2)
  }

  /** The average lies between 0 and 2 and is 0 with no rating, the count is the number
      of ratings given, and the highlight is archived exactly when at least two of them
      are low. */
  lemma RatingUpdateMeaning(ratings: seq<Option<Rating>>)
    ensures var u := RatingUpdateOf(ratings);
      && 0.0 <= u.averageRating <= 2.0
      && u.ratingCount == |Rated(ratings)|
      && (u.ratingCount == 0 ==> u.averageRating == 0.0)
      && (u.archived <==> CountLow(Rated(ratings)) >= 2)
  {
    var rated := Rated(ratings);
    if |rated| > 0 {
      AverageBound(Total(rated), |rated|);
    }
  }

  lemma AverageBound(t: nat, n: nat)
    requires n > 0 && t <= 2 * n
    ensures 0.0 <= t as real / n as real <= 2.0
  {
    var q := t as real / n as real;
    assert q * n as real == t as real;
    if q > 2.0 {
      assert q * n as real > 2.0 * n as real;
    }
  }

  /** Only low ratings give an average of 0, only high ones an average of 2. */
  lemma {:induction false} RatingExtremes(rs: seq<Rating>)
    ensures Total(rs) == 0 <==> forall i :: 0 <= i < |rs| ==> rs[i] == Low
    ensures Total(rs) == 2 * |rs| <==> forall i :: 0 <= i < |rs| ==> rs[i] == High
    decreases |rs|
  {
    if rs != [] {
      RatingExtremes(rs[1..]);
      assert forall i :: 1 <= i < |rs| ==> rs[i] == rs[1..][i - 1];
    }
  }
}
