# Treasury-rate resolution and rolling risk windows (zipline `risk.py`)

This project models the date and lookup logic of zipline's risk module
(`zipline/finance/risk/risk.py`) and proves properties of it:

- **Duration selection** (`select_treasury_duration`): a holding period's whole-day
  length is mapped to one of the ten treasury durations `1month` … `30year` by fixed
  thresholds.
- **Treasury-rate resolution** (`get_treasury_rate`, `choose_treasury`): a rate is read
  from a date-ordered curve table. If the requested duration has no rate, the next longer
  durations are tried ("duration escalation"). If the end day has no usable rate, the
  table is walked backward from the latest date strictly before the end day ("date
  regression"). When no stored date is before the end day, the walk covers the whole table
  from its last date. The rate found is pro-rated as `rate * (days + 1) / 365`. The
  operation fails when nothing is found.
- **Rolling windows** (`RiskReport.periods_in_range`, `RiskReport.__init__`): windows of
  1, 3, 6 and 12 months. Each starts on the first day of a month, and consecutive starts
  are one month apart. Each ends on the last day of its last month. Generation stops at the
  first window that would end after the last day of the end date's month. An empty return
  series gives no windows.

Modules:

- `Results` (`results.dfy`): `Option` for Python's `None`; `Result` for a value or a
  raised error.
- `Calendar` (`calendar.dfy`): Gregorian dates and their order. It defines
  `date.replace(day=1)` (`StartOfMonth`), `relativedelta(months=k)` (`AddMonths`, which
  clamps the day), `- timedelta(days=1)` (`PrevDay`) and `date.toordinal()` (`ToOrdinal`).
  Two lemmas connect these: `OrdinalOrder` shows that ordinals order dates exactly as the
  calendar does, and `PrevDayOrdinal` shows that `PrevDay` is one ordinal earlier.
- `Treasury` (`treasury.dfy`): durations are indices 0..9 into `TreasuryDurations`.
  Dates are day ordinals, so `(end - start).days` is an integer difference. The curve
  table is a `seq` of dated curves, each a length-10 `seq<Option<real>>`, with strictly
  increasing dates. Rates are `real`, so the pro-ration is exact.
- `Periods` (`periods.dfy`): return series, windows and `RiskReport`.
  `PeriodsInRange` follows the source's loop. Its result is proved equal to the
  reference definition `Windows`, which is built from month indices
  (`year * 12 + month - 1`). Lemmas about `Windows` give the alignment, stride, bounds,
  maximality and count.

## Model

| member | source | states |
|---|---|---|
| Treasury.Label | zipline/finance/risk/risk.py:74-78 | every duration is one of the ten labels of `TREASURY_DURATIONS` |
| Treasury.LabelsDistinct | zipline/finance/risk/risk.py:74-78 | the labels are pairwise distinct, so `TREASURY_DURATIONS.index(label)` recovers a duration's position |
| Treasury.SelectTreasuryDuration | zipline/finance/risk/risk.py:217-240 | the duration index is the number of bucket thresholds (31, 93, 186, 366, 731, 1096, 1827, 2557, 3652 days) that the elapsed day count exceeds |
| Treasury.SelectTreasuryDurationMonotone | zipline/finance/risk/risk.py:217-240 | a longer holding period never selects a shorter duration |
| Treasury.SelectTreasuryDurationEdges | zipline/finance/risk/risk.py:219-238 | up to 31 days (negative counts included) gives `1month`; 366 gives `1year` and 367 `2year`; 731 gives `2year` and 732 `3year`; 3652 gives `10year` and 3653 `30year` |
| Treasury.Find | zipline/finance/risk/risk.py:248 | `end_day in treasury_curves`: a position holding the day when there is one, and none exactly when no row has that date |
| Treasury.EscalatedRate | zipline/finance/risk/risk.py:198-206 | the result is the first present rate at the requested duration or a longer one, with all durations between absent; it is `None` exactly when all of those durations are absent |
| Treasury.EscalatedRateRequested | zipline/finance/risk/risk.py:200-204 | a rate present at the requested duration is returned as it is |
| Treasury.GetTreasuryRate | zipline/finance/risk/risk.py:194-206 | for a day in the table, the result is duration escalation applied to that day's curve |
| Treasury.SearchSortedLeft | zipline/finance/risk/risk.py:258-261 | left-side `searchsorted`: every date before the returned position is earlier than the day, and every date from it on is the day or later |
| Treasury.ChooseTreasury | zipline/finance/risk/risk.py:243-292 | if the end day is in the table with a usable rate, the result is that rate pro-rated and no earlier date matters. Otherwise a rate is found exactly when a visited row has one: visited rows are those strictly before the end day, or the whole table when there are none. The result is then the latest visited usable row's rate, pro-rated by the same `(days + 1) / 365`. An empty table, or one with no usable row, raises. Failure carries the end day and the duration |
| Calendar.StartOfMonth | zipline/finance/risk/risk.py:351 | `replace(day=1)` keeps the month, sets day 1 and never moves a date later |
| Calendar.AddMonths | zipline/finance/risk/risk.py:362 | `relativedelta(months=k)` moves the month index by exactly `k` and keeps the day, or clamps it to the target month's last day |
| Calendar.PrevDay | zipline/finance/risk/risk.py:349 | one day earlier is a valid date strictly before the given one |
| Calendar.PrevDayOrdinal | zipline/finance/risk/risk.py:349 | subtracting `one_day` lowers the day ordinal by exactly one, across month and year ends and in leap years |
| Calendar.OrdinalOrder | zipline/finance/risk/risk.py:261 | day ordinals order valid dates exactly as date comparison does, and equal ordinals mean equal dates |
| Calendar.LastDayOrder | zipline/finance/risk/risk.py:363 | the last day of one month is before the last day of another exactly when its month is earlier |
| Calendar.AddMonthsFirstDay | zipline/finance/risk/risk.py:373 | moving the first of a month by `k` months gives the first of the month `k` later |
| Calendar.PrevDayFirstDay | zipline/finance/risk/risk.py:362 | the day before the first of a month is the last day of the previous month |
| Periods.LastDayOfEndMonth | zipline/finance/risk/risk.py:358-360 | `end.replace(day=1) + relativedelta(months=1) - one_day` is the last day of `end`'s month |
| Periods.PeriodsInRange | zipline/finance/risk/risk.py:348-375 | no windows when the return series is empty; otherwise exactly the reference windows from `start`'s month up to the last window that ends within `end`'s month |
| Periods.WindowsAligned | zipline/finance/risk/risk.py:362 | every window starts on day 1 of a month. It ends on the last day of the month `monthsPer - 1` later, which is one day before its start moved by `monthsPer` months |
| Periods.WindowsStride | zipline/finance/risk/risk.py:351 | the first window starts on day 1 of `start`'s month; each later start is the previous one plus one month, strictly ascending |
| Periods.WindowsBounded | zipline/finance/risk/risk.py:360-364 | no window ends after the last day of `end`'s month |
| Periods.WindowsMaximal | zipline/finance/risk/risk.py:360-364 | the window that would follow the last one emitted ends after the last day of `end`'s month, so the list is maximal |
| Periods.WindowCountBySpan | zipline/finance/risk/risk.py:360-364 | for `monthsPer >= 1` the count is `max(0, monthSpan - monthsPer + 1)`; a range within one month gives one one-month window covering that month |
| Periods.NewRiskReport | zipline/finance/risk/risk.py:296-323 | with returns, the range is the first to the last return date and the four window lists are the 1/3/6/12-month windows of that range; with no returns, all four lists are empty (the configured bounds are chosen but never observed, since `periods_in_range` returns before using them) |

A series that touches 13 calendar months gives two twelve-month windows
(`WindowCountBySpan` with span 13).

## Left out

- `sharpe_ratio`, `sortino_ratio`, `information_ratio`, `alpha`: floating-point
  reductions using `sqrt`, `std(ddof=1)` and `zipline.utils.math_utils.tolerant_equals`.
  `zipline.utils.math_utils` is not part of this model.
- `check_entry`: NaN and infinity detection exists only for floating point.
- The staleness warning in `choose_treasury`: it only logs and never changes the
  returned value.
- `search_day_distance`: it measures trading days through the global trading-calendar
  environment, which is not part of this model, and asserts that the distance is not
  negative (zipline/finance/risk/risk.py:209-214). That assertion is not modelled.
- Treasury.ChooseTreasury: when no table date is before the end date, the backward walk
  wraps around and can pick a row dated after the end date. The source then calls
  `search_day_distance` with that later date and, depending on the trading calendar, may
  raise `AssertionError`. The model returns the later row's pro-rated rate instead.
- `epoch_now()` (the `created` timestamp) and `to_dict`: clock and serialisation.
- Periods.NewRiskReport: each window is modelled as its `(start, end)` pair only, so
  `NewRiskReport` and `PeriodsInRange` never fail. In the source, every window builds a
  `RiskMetricsPeriod` (zipline/finance/risk/risk.py:365-370), whose class is not part of
  this model. That constructor computes the window's metrics, including its treasury
  rate, and can raise, which aborts `__init__`.
- The list versus pandas-index branch of `RiskReport.__init__`: the return series is one
  ascending `seq` of dated returns.
- Time of day: dates are midnight dates, so `end_day` equals `end_date` and
  `(end - start).days` is the ordinal difference.
- Python's date range (years 1..9999, with `OverflowError` outside it) is not modelled;
  years are unbounded.
- Rates are exact reals: floating-point rounding in `rate * (days + 1) / 365` is not
  modelled.
- `get_treasury_rate`'s `KeyError` for a day missing from the table and `ValueError` for
  an unknown label are preconditions: every caller passes a stored day and a valid
  duration.
