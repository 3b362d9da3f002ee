/** Rolling-window decomposition of a return series (`RiskReport.periods_in_range`)
    and the choice of date range in `RiskReport.__init__`. */
module Periods {
  import opened Results
  import opened Calendar

  /** One entry of the algorithm's return series. */
  datatype DailyReturn = DailyReturn(date: Date, value: real)

  /** The simulation's configured bounds. */
  datatype SimParams = SimParams(periodStart: Date, periodEnd: Date)

  /** A rolling window, reduced to its first and last day. */
  datatype Period = Period(start: Date, end: Date)

  predicate ValidSeries(series: seq<DailyReturn>) {
    forall k :: 0 <= k < |series| ==> Valid(series[k].date)
  }

  /** How many `monthsPer`-month windows, started one month apart from month
      `startMonth`, end no later than month `endMonth`. */
  function WindowCount(startMonth: int, endMonth: int, monthsPer: int): nat {
    var c := endMonth - startMonth - monthsPer + 2;
    if c > 0 then c else 0
  }

  /** Reference definition of the windows: the `k`-th runs from the first day of month
      `startMonth + k` to the last day of month `startMonth + k + monthsPer - 1`. */
  function Windows(startMonth: int, endMonth: int, monthsPer: int): seq<Period> {
    seq(WindowCount(startMonth, endMonth, monthsPer),
        k => Period(FirstDay(startMonth + k), LastDay(startMonth + k + monthsPer - 1)))
  }

  /** `end.replace(day=1) + relativedelta(months=1) - one_day`: the last day of `end`'s month. */
  function LastDayOfEndMonth(end: Date): (r: Date)
    requires Valid(end)
    ensures r == LastDay(MonthIndex(end))
  {
    MonthIndexDetermines(StartOfMonth(end), FirstDay(MonthIndex(end)));
    AddMonthsFirstDay(MonthIndex(end), 1);
    PrevDayFirstDay(MonthIndex(end) + 1);
    PrevDay(AddMonths(StartOfMonth(end), 1))
  }

  /** `periods_in_range`: the `monthsPer`-month windows from `start`'s month on, one
      month apart, stopping at the first one that would end after `end`'s month; none at
      all when there are no returns. */
  method PeriodsInRange(series: seq<DailyReturn>, monthsPer: int, start: Date, end: Date)
    returns (ends: seq<Period>)
    requires Valid(start) && Valid(end)
    ensures |series| == 0 ==> ends == []
    ensures |series| > 0 ==> ends == Windows(MonthIndex(start), MonthIndex(end), monthsPer)
  {
    ends := [];
    var curStart := StartOfMonth(start);
    if |series| == 0 {
      return;
    }
    var theEnd := LastDayOfEndMonth(end);
    ghost var s, e := MonthIndex(start), MonthIndex(end);
    MonthIndexDetermines(curStart, FirstDay(s));
    while true
      invariant |ends| <= WindowCount(s, e, monthsPer)
      invariant curStart == FirstDay(s + |ends|)
      invariant forall k :: 0 <= k < |ends| ==>
        ends[k] == Period(FirstDay(s + k), LastDay(s + k + monthsPer - 1))
      decreases e - (s + |ends| + monthsPer - 1)
    {
      var curEnd := PrevDay(AddMonths(curStart, monthsPer));
      StepEnd(curStart, curEnd, theEnd, s + |ends|, e, monthsPer);
      if Before(theEnd, curEnd) {
        break;
      }
      ends := ends + [Period(curStart, curEnd)];
      var next := AddMonths(curStart, 1);
      StepStart(curStart, next, s + |ends| - 1);
      curStart := next;
    }
    WindowsByElements(ends, s, e, monthsPer);
  }

  /** A sequence with the right length and the right windows is `Windows`. */
  lemma WindowsByElements(ws: seq<Period>, startMonth: int, endMonth: int, monthsPer: int)
    requires |ws| == WindowCount(startMonth, endMonth, monthsPer)
    requires forall k :: 0 <= k < |ws| ==>
      ws[k] == Period(FirstDay(startMonth + k), LastDay(startMonth + k + monthsPer - 1))
    ensures ws == Windows(startMonth, endMonth, monthsPer)
  {
  }

  /** One step of the loop of `PeriodsInRange`: the candidate window's end, and when it
      passes the end of the range. */
  lemma StepEnd(curStart: Date, curEnd: Date, theEnd: Date, mi: int, e: int, monthsPer: int)
    requires curStart == FirstDay(mi) && theEnd == LastDay(e)
    requires curEnd == PrevDay(AddMonths(curStart, monthsPer))
    ensures curEnd == LastDay(mi + monthsPer - 1)
    ensures Before(theEnd, curEnd) <==> e < mi + monthsPer - 1
  {
    WindowEnd(mi, monthsPer);
    LastDayOrder(e, mi + monthsPer - 1);
  }

  /** Advancing a window's start by one month. */
  lemma StepStart(curStart: Date, next: Date, mi: int)
    requires curStart == FirstDay(mi) && next == AddMonths(curStart, 1)
    ensures next == FirstDay(mi + 1)
  {
    AddMonthsFirstDay(mi, 1);
  }

  /** The `k`-th window, by the reference definition. */
  lemma WindowAt(startMonth: int, endMonth: int, monthsPer: int, k: int)
    requires 0 <= k < WindowCount(startMonth, endMonth, monthsPer)
    ensures Windows(startMonth, endMonth, monthsPer)[k]
      == Period(FirstDay(startMonth + k), LastDay(startMonth + k + monthsPer - 1))
  {
  }

  /** A `monthsPer`-month window aligned to the calendar: it starts on the first of a
      month and ends on the last day of the month `monthsPer - 1` later, which is the day
      before its start moved on by `monthsPer` months. */
  predicate Aligned(w: Period, monthsPer: int) {
    && Valid(w.start) && w.start.day == 1
    && Valid(w.end) && IsLastDayOfMonth(w.end)
    && MonthIndex(w.end) == MonthIndex(w.start) + monthsPer - 1
    && w.end == PrevDay(AddMonths(w.start, monthsPer))
    && ToOrdinal(w.end) + 1 == ToOrdinal(AddMonths(w.start, monthsPer))
  }

  /** The window from the first of month `mi` over `monthsPer` months is aligned. */
  lemma WindowAligned(w: Period, mi: int, monthsPer: int)
    requires w == Period(FirstDay(mi), LastDay(mi + monthsPer - 1))
    ensures Aligned(w, monthsPer)
  {
    WindowEnd(mi, monthsPer);
    WindowEndOrdinal(mi, monthsPer);
  }

  /** Every window is aligned to the calendar. */
  lemma WindowsAligned(startMonth: int, endMonth: int, monthsPer: int)
    ensures var ws := Windows(startMonth, endMonth, monthsPer);
      forall k :: 0 <= k < |ws| ==> Aligned(ws[k], monthsPer)
  {
    var ws := Windows(startMonth, endMonth, monthsPer);
    forall k | 0 <= k < |ws|
      ensures Aligned(ws[k], monthsPer)
    {
      WindowAt(startMonth, endMonth, monthsPer, k);
      WindowAligned(ws[k], startMonth + k, monthsPer);
    }
  }

  /** Windows start one month apart, in strictly ascending order, the first on the first
      day of `start`'s month. */
  lemma WindowsStride(start: Date, end: Date, monthsPer: int)
    requires Valid(start) && Valid(end)
    ensures var ws := Windows(MonthIndex(start), MonthIndex(end), monthsPer);
      && (|ws| > 0 ==> ws[0].start == StartOfMonth(start))
      && forall k :: 0 <= k < |ws| - 1 ==>
        && Valid(ws[k].start)
        && ws[k + 1].start == AddMonths(ws[k].start, 1)
        && MonthIndex(ws[k + 1].start) == MonthIndex(ws[k].start) + 1
        && Before(ws[k].start, ws[k + 1].start)
  {
    var s := MonthIndex(start);
    var ws := Windows(s, MonthIndex(end), monthsPer);
    MonthIndexDetermines(StartOfMonth(start), FirstDay(s));
    forall k | 0 <= k < |ws| - 1
      ensures Valid(ws[k].start) && ws[k + 1].start == AddMonths(ws[k].start, 1)
      ensures Before(ws[k].start, ws[k + 1].start)
    {
      AddMonthsFirstDay(s + k, 1);
      MonthIndexOrder(ws[k].start, ws[k + 1].start);
    }
  }

  /** No window ends after the last day of `end`'s month. */
  lemma WindowsBounded(start: Date, end: Date, monthsPer: int)
    requires Valid(start) && Valid(end)
    ensures var ws := Windows(MonthIndex(start), MonthIndex(end), monthsPer);
      forall k :: 0 <= k < |ws| ==> !Before(LastDayOfEndMonth(end), ws[k].end)
  {
    var s, e := MonthIndex(start), MonthIndex(end);
    var ws := Windows(s, e, monthsPer);
    var theEnd := LastDayOfEndMonth(end);
    forall k | 0 <= k < |ws|
      ensures !Before(theEnd, ws[k].end)
    {
      assert ws[k].end == LastDay(s + k + monthsPer - 1);
      LastDayOrder(e, s + k + monthsPer - 1);
    }
  }

  /** The window that would follow the last one emitted ends after the last day of
      `end`'s month, so no further window fits. */
  lemma WindowsMaximal(start: Date, end: Date, monthsPer: int)
    requires Valid(start) && Valid(end)
    ensures var s := MonthIndex(start);
      var n := |Windows(s, MonthIndex(end), monthsPer)|;
      Before(LastDayOfEndMonth(end), PrevDay(AddMonths(FirstDay(s + n), monthsPer)))
  {
    var s, e := MonthIndex(start), MonthIndex(end);
    var n := WindowCount(s, e, monthsPer);
    WindowEnd(s + n, monthsPer);
    LastDayOrder(e, s + n + monthsPer - 1);
  }

  /** With windows of at least one month, their number is the number of calendar months
      touched from `start` to `end`, less `monthsPer - 1`, and never negative; a range
      within one month gives one one-month window spanning that whole month. */
  lemma WindowCountBySpan(start: Date, end: Date, monthsPer: int)
    requires monthsPer >= 1
    ensures var span := MonthIndex(end) - MonthIndex(start) + 1;
      |Windows(MonthIndex(start), MonthIndex(end), monthsPer)|
        == if span - monthsPer + 1 > 0 then span - monthsPer + 1 else 0
    ensures MonthIndex(start) == MonthIndex(end) ==>
      Windows(MonthIndex(start), MonthIndex(end), 1)
        == [Period(FirstDay(MonthIndex(start)), LastDay(MonthIndex(start)))]
  {
  }

  // ---------------------------------------------------------------------------
  // RiskReport
  // ---------------------------------------------------------------------------

  /** A risk report: its inputs and the rolling windows of 1, 3, 6 and 12 months. */
  datatype RiskReport = RiskReport(
    algorithmReturns: seq<DailyReturn>,
    simParams: SimParams,
    benchmarkReturns: Option<seq<DailyReturn>>,
    monthPeriods: seq<Period>,
    threeMonthPeriods: seq<Period>,
    sixMonthPeriods: seq<Period>,
    yearPeriods: seq<Period>)

  /** `RiskReport.__init__`: the date range is that of the returns when there are any,
      and the simulation's configured one otherwise; the windows cover that range. */
  method NewRiskReport(algorithmReturns: seq<DailyReturn>, simParams: SimParams,
                       benchmarkReturns: Option<seq<DailyReturn>>)
    returns (report: RiskReport)
    requires ValidSeries(algorithmReturns)
    requires Valid(simParams.periodStart) && Valid(simParams.periodEnd)
    ensures report.algorithmReturns == algorithmReturns
    ensures report.simParams == simParams && report.benchmarkReturns == benchmarkReturns
    ensures |algorithmReturns| == 0 ==>
      && report.monthPeriods == [] && report.threeMonthPeriods == []
      && report.sixMonthPeriods == [] && report.yearPeriods == []
    ensures |algorithmReturns| > 0 ==>
      var s := MonthIndex(algorithmReturns[0].date);
      var e := MonthIndex(algorithmReturns[|algorithmReturns| - 1].date);
      && report.monthPeriods == Windows(s, e, 1)
      && report.threeMonthPeriods == Windows(s, e, 3)
      && report.sixMonthPeriods == Windows(s, e, 6)
      && report.yearPeriods == Windows(s, e, 12)
  {
    var startDate, endDate;
    if |algorithmReturns| == 0 {
      startDate, endDate := simParams.periodStart, simParams.periodEnd;
    } else {
      startDate, endDate := algorithmReturns[0].date, algorithmReturns[|algorithmReturns| - 1].date;
    }
    var month := PeriodsInRange(algorithmReturns, 1, startDate, endDate);
    var threeMonth := PeriodsInRange(algorithmReturns, 3, startDate, endDate);
    var sixMonth := PeriodsInRange(algorithmReturns, 6, startDate, endDate);
    var year := PeriodsInRange(algorithmReturns, 12, startDate, endDate);
    report := RiskReport(algorithmReturns, simParams, benchmarkReturns, month, threeMonth, sixMonth, year);
  }
}
