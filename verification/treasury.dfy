/** Risk-free rate resolution: choosing a treasury duration for a holding period,
    escalating to longer durations when a rate is missing, and regressing to earlier
    dates of the curve table when the end date has no usable rate. */
module Treasury {
  import opened Results

  /** A date, as its proleptic Gregorian day ordinal (`Calendar.ToOrdinal`, Python's
      `date.toordinal()`); `Calendar.OrdinalOrder` shows ordinals order dates exactly as
      the calendar does, and the difference of two ordinals is `(end - start).days`. */
  type Day = int

  /** The ten treasury duration labels, shortest to longest. */
  const TreasuryDurations: seq<string> :=
    ["1month", "3month", "6month", "1year", "2year", "3year", "5year", "7year", "10year", "30year"]

  /** A duration, as its position in `TreasuryDurations`. */
  type Tenor = t: int | 0 <= t < 10

  /** The label of a duration. */
  function Label(t: Tenor): (s: string)
    ensures s in TreasuryDurations
  {
    TreasuryDurations[t]
  }

  /** The labels are distinct, so `TREASURY_DURATIONS.index(label)` recovers the position. */
  lemma LabelsDistinct(a: Tenor, b: Tenor)
    ensures Label(a) == Label(b) <==> a == b
  {
  }

  /** The largest day count of each duration but the last, in duration order. */
  const Thresholds: seq<int> := [31, 93, 186, 366, 731, 1096, 1827, 2557, 3652]

  // ---------------------------------------------------------------------------
  // select_treasury_duration
  // ---------------------------------------------------------------------------

  /** The duration matching the holding period from `start` to `end`: the number of
      thresholds that the elapsed day count exceeds. */
  function SelectTreasuryDuration(start: Day, end: Day): (t: Tenor)
    ensures forall k :: 0 <= k < |Thresholds| ==> (k < t <==> Thresholds[k] < end - start)
  {
    var days := end - start;
    if days <= 31 then 0
    else if days <= 93 then 1
    else if days <= 186 then 2
    else if days <= 366 then 3
    else if days <= 365 * 2 + 1 then 4
    else if days <= 365 * 3 + 1 then 5
    else if days <= 365 * 5 + 2 then 6
    else if days <= 365 * 7 + 2 then 7
    else if days <= 365 * 10 + 2 then 8
    else 9
  }

  /** A longer holding period never selects a shorter duration. */
  lemma SelectTreasuryDurationMonotone(start1: Day, end1: Day, start2: Day, end2: Day)
    requires end1 - start1 <= end2 - start2
    ensures SelectTreasuryDuration(start1, end1) <= SelectTreasuryDuration(start2, end2)
  {
  }

  /** The edges of the buckets, on both sides. */
  lemma SelectTreasuryDurationEdges(start: Day)
    ensures forall end :: end - start <= 31 ==> Label(SelectTreasuryDuration(start, end)) == "1month"
    ensures Label(SelectTreasuryDuration(start, start + 366)) == "1year"
    ensures Label(SelectTreasuryDuration(start, start + 367)) == "2year"
    ensures Label(SelectTreasuryDuration(start, start + 731)) == "2year"
    ensures Label(SelectTreasuryDuration(start, start + 732)) == "3year"
    ensures Label(SelectTreasuryDuration(start, start + 3652)) == "10year"
    ensures Label(SelectTreasuryDuration(start, start + 3653)) == "30year"
  {
    forall end | end - start <= 31
      ensures Label(SelectTreasuryDuration(start, end)) == "1month"
    {
      assert SelectTreasuryDuration(start, end) == 0;
    }
  }

  // ---------------------------------------------------------------------------
  // The curve table and get_treasury_rate
  // ---------------------------------------------------------------------------

  /** One day's curve: an optional rate for each duration, in duration order. */
  type Curve = c: seq<Option<real>> | |c| == 10
    witness [None, None, None, None, None, None, None, None, None, None]

  /** A dated curve: one row of the treasury curve table. */
  datatype Snapshot = Snapshot(date: Day, curve: Curve)

  /** The treasury curve table, ordered by date. */
  type CurveTable = seq<Snapshot>

  predicate StrictlyIncreasing(table: CurveTable) {
    forall i, j :: 0 <= i < j < |table| ==> table[i].date < table[j].date
  }

  /** `day in treasury_curves`, and where. */
  function Find(table: CurveTable, day: Day): (r: Option<nat>)
    ensures r.Some? ==> r.value < |table| && table[r.value].date == day
    ensures r.None? <==> forall k :: 0 <= k < |table| ==> table[k].date != day
  {
    if |table| == 0 then None
    else if table[|table| - 1].date == day then Some(|table| - 1)
    else Find(table[..|table| - 1], day)
  }

  /** The first rate of `curve` at duration `t` or longer (duration escalation):
      Python's `None` when every such duration lacks a rate. */
  function EscalatedRate(curve: Curve, t: Tenor): (r: Option<real>)
    ensures r.None? <==> forall j :: t <= j < 10 ==> curve[j].None?
    ensures r.Some? ==>
      exists j :: t <= j < 10 && curve[j] == r && forall k :: t <= k < j ==> curve[k].None?
    decreases 10 - t
  {
    if curve[t].Some? then curve[t]
    else if t == 9 then None
    else EscalatedRate(curve, t + 1)
  }

  /** A rate at the requested duration is taken as it is. */
  lemma EscalatedRateRequested(curve: Curve, t: Tenor)
    requires curve[t].Some?
    ensures EscalatedRate(curve, t) == curve[t]
  {
  }

  /** `get_treasury_rate`: duration escalation on the curve of a day in the table. */
  function GetTreasuryRate(table: CurveTable, t: Tenor, day: Day): (r: Option<real>)
    requires StrictlyIncreasing(table)
    requires exists k :: 0 <= k < |table| && table[k].date == day
    ensures forall k :: 0 <= k < |table| && table[k].date == day ==> r == EscalatedRate(table[k].curve, t)
  {
    EscalatedRate(table[Find(table, day).value].curve, t)
  }

  // ---------------------------------------------------------------------------
  // choose_treasury
  // ---------------------------------------------------------------------------

  /** `search_days.searchsorted(day)` (left side): the number of dates before `day`,
      found by bisection. */
  method SearchSortedLeft(table: CurveTable, day: Day) returns (i: nat)
    requires StrictlyIncreasing(table)
    ensures i <= |table|
    ensures forall j :: 0 <= j < i ==> table[j].date < day
    ensures forall j :: i <= j < |table| ==> day <= table[j].date
  {
    var lo, hi := 0, |table|;
    while lo < hi
      invariant 0 <= lo <= hi <= |table|
      invariant forall j :: 0 <= j < lo ==> table[j].date < day
      invariant forall j :: hi <= j < |table| ==> day <= table[j].date
      decreases hi - lo
    {
      var mid := (lo + hi) / 2;
      if table[mid].date < day {
        lo := mid + 1;
      } else {
        hi := mid;
      }
    }
    i := lo;
  }

  /** Raised when no usable rate exists for the end date and duration. */
  datatype TreasuryError = NoRate(endDate: Day, duration: Tenor)

  /** The annual `rate` pro-rated over the holding period, ends included:
      `rate * (days + 1) / 365`, simple rather than compounded. */
  function ProRate(rate: real, start: Day, end: Day): real {
    rate * (end - start + 1) as real / 365.0
  }

  /** Row `k` yields a rate after duration escalation. */
  predicate Usable(table: CurveTable, t: Tenor, k: int)
    requires 0 <= k < |table|
  {
    EscalatedRate(table[k].curve, t).Some?
  }

  /** The table holds `end` itself with a usable rate. */
  predicate ExactUsable(table: CurveTable, t: Tenor, end: Day) {
    exists k :: 0 <= k < |table| && table[k].date == end && Usable(table, t, k)
  }

  /** No date of the table lies before `end`. */
  predicate NoneBefore(table: CurveTable, end: Day) {
    forall j :: 0 <= j < |table| ==> end <= table[j].date
  }

  /** Row `k` is visited by the backward date regression: its date is before `end`,
      or, when no date is, any row at all (the slice `[-1::-1]` covers the table). */
  predicate InRegression(table: CurveTable, end: Day, k: int)
    requires 0 <= k < |table|
  {
    table[k].date < end || NoneBefore(table, end)
  }

  /** Row `k` is the latest visited row with a usable rate. */
  predicate RegressionPick(table: CurveTable, t: Tenor, end: Day, k: int)
    requires 0 <= k < |table|
  {
    && InRegression(table, end, k)
    && Usable(table, t, k)
    && forall j :: k < j < |table| && InRegression(table, end, j) ==> !Usable(table, t, j)
  }

  /** `choose_treasury`: the pro-rated risk-free rate for the holding period from
      `start` to `end`, read at `end` when possible and otherwise at the latest earlier
      table date with a usable rate. */
  method ChooseTreasury(table: CurveTable, start: Day, end: Day) returns (r: Result<real, TreasuryError>)
    requires StrictlyIncreasing(table)
    // the exact day wins, and nothing earlier is consulted
    ensures forall k :: 0 <= k < |table| && table[k].date == end && Usable(table, SelectTreasuryDuration(start, end), k) ==>
      r == Success(ProRate(EscalatedRate(table[k].curve, SelectTreasuryDuration(start, end)).value, start, end))
    // otherwise a rate is found exactly when some visited row has one ...
    ensures !ExactUsable(table, SelectTreasuryDuration(start, end), end) ==>
      (r.Success? <==> exists k :: 0 <= k < |table| && InRegression(table, end, k) && Usable(table, SelectTreasuryDuration(start, end), k))
    // ... and it is the latest such row's rate, pro-rated the same way
    ensures !ExactUsable(table, SelectTreasuryDuration(start, end), end) && r.Success? ==>
      exists k :: 0 <= k < |table| && RegressionPick(table, SelectTreasuryDuration(start, end), end, k)
        && r.value == ProRate(EscalatedRate(table[k].curve, SelectTreasuryDuration(start, end)).value, start, end)
    // an empty table, or one without any usable row, raises
    ensures (forall k :: 0 <= k < |table| ==> !Usable(table, SelectTreasuryDuration(start, end), k)) ==> r.Failure?
    ensures r.Failure? ==> r.error == NoRate(end, SelectTreasuryDuration(start, end))
  {
    var t := SelectTreasuryDuration(start, end);
    var exact := Find(table, end);
    if exact.Some? {
      var rate := GetTreasuryRate(table, t, end);
      if rate.Some? {
        return Success(ProRate(rate.value, start, end));
      }
    }
    var i := SearchSortedLeft(table, end);
    // the slice search_days[i - 1::-1]
    var k := if i == 0 then |table| - 1 else i - 1;
    if i > 0 {
      assert !NoneBefore(table, end) by { assert table[0].date < end; }
    }
    while k >= 0
      invariant -1 <= k < |table|
      invariant forall j :: k < j < |table| && InRegression(table, end, j) ==> !Usable(table, t, j)
      decreases k
    {
      var rate := GetTreasuryRate(table, t, table[k].date);
      if rate.Some? {
        assert RegressionPick(table, t, end, k);
        return Success(ProRate(rate.value, start, end));
      }
      k := k - 1;
    }
    r := Failure(NoRate(end, t));
  }
}
