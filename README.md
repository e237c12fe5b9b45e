# earningstrats, modelled in Dafny

earningstrats is a set of pandas/yfinance helpers for trading around earnings
announcements. This project models their decision and arithmetic layer, with
market data passed in as plain values: option rows, the spot price, daily bars
keyed by calendar-day number, and earnings events given as (day, hour).

- `common.dfy`, module `Common`: the `Option`/`Result` wrappers, `Abs`, `Sum`
  and `Mean`, and `Dedup`. pandas' NaN is `None`. An exception is `Err`.
  `Dedup` plays Python's `set(...)` and pandas' `drop_duplicates()`.
- `sorting.dfy`, module `Sorting`: the in-place descending sort behind
  `sort_values(inplace=True, ascending=False)`.
- `options.dfy`, module `Options`: the `isCall` and `mark` columns, and the
  expected-move estimator `get_expected_move`. The estimator does the
  following:
  - it picks the ATM strike and the two strangle strikes by distance to spot;
  - it prices the straddle and the strangle, falling back to lastPrice;
  - it blends them 70/30;
  - it applies the 1% IV guard to the aggregate move.
- `put_screen.dfy`, module `PutScreen`: the put screeners
  `get_put_option_chain` and `get_all_put_options`. Both add three columns
  (distance to spot, probability of not being called, collateral yield) and
  sort the table in place by strike, highest first. `get_put_option_chain`
  adds the columns and then sorts. `get_all_put_options` sorts between the
  distance column and the other two. The model adds all columns first and
  then sorts, for both. The two orders give the same rows: each column is
  computed from its own row alone, and the one test that looks at every row
  (is some mark zero?) gives the same answer in any order
  (`AnyZeroMarkIgnoresOrder`).
- `price_effect.dfy`, module `PriceEffect`: `get_stock_earnings_price_effect`.
  It has a loop over the earnings history that fills a date-keyed records
  dictionary, and a final "Absolute Average" row.
- `candidates.dfy`, module `Candidates`: the screen of
  `get_companies_with_earnings_today_AMC_or_tomm_BMO`. It works in this order:
  - keep today's entries after the close and tomorrow's before the open;
  - drop duplicates;
  - stamp rows with market data in a loop;
  - drop thin or cheap rows;
  - sort by volume.
- `iv_crush.dfy`, module `IvCrush`: the crush-ratio arithmetic of
  `get_IV_crush_for_puts`.

Prices are Dafny `real`, which is exact. Several source formulas divide by the
spot price, a strike, a bar's close or a stored IV. The model therefore
requires those to be positive.

In several places the code does something other than what its names and
comments suggest. The model follows the code:
- The IV move averages the IV of every row at the ATM strike, calls and puts
  alike.
- The strangle strikes are the second and third closest distinct strikes, even
  when both lie on one side of spot (`Options.StranglePairMaySitOnOneSide`).
- The lastPrice fallback for the collateral yield fires as soon as one mark is
  zero, and then applies to every row.
- The price-effect calculator counts 14:xx as after the close. The candidate
  screen drops today's 14:xx entries instead
  (`Candidates.FourteenHundredDisagreement`).
- IV crush pairs stored and fresh rows by position, not by strike.
- Price-effect rows keep the order in which dates first entered the records
  dictionary. They are not sorted.
- The put screener does not stop on an empty chain. It fails only when the
  estimator reports fewer than three distinct strikes, because that string
  result reaches a numeric division. With rows present, an empty result after
  the ceiling cut is an empty table.

## Model

| member | source | states |
|---|---|---|
| Common.Dedup | earningstrats/options.py:56 | the distinct strikes: same members as the input, no repeats, never longer |
| Options.Mark | earningstrats/options.py:40 | the mark is equidistant from bid and ask, and lies between them when bid <= ask |
| Options.IsCallSymbol | earningstrats/options.py:38 | a row is a call exactly when some character at index 4 or later of its symbol is 'C' |
| Options.OptionsTable | earningstrats/options.py:35-40 | the table is the call rows then the put rows, each with its own mark and isCall |
| Options.RankByDistance | earningstrats/options.py:57 | the strikes reordered by ascending distance to spot: a permutation of the input |
| Options.SelectStrikes | earningstrats/options.py:56-63 | no choice exactly when there are fewer than three distinct strikes; lower <= higher; the ATM strike is a strike of the table |
| Options.SelectStrikesClosest | earningstrats/options.py:56-63 | the three strikes are distinct strikes of the table; no strike is closer to spot than the ATM one; every other strike is at least as far as both strangle strikes; lower < higher |
| Options.StranglePairMaySitOnOneSide | earningstrats/options.py:57-63 | strikes 100, 101, 102 with spot 100.2 give ATM 100 and strangle 102/101, both above spot |
| Options.RowsAt | earningstrats/options.py:65-67 | exactly the table rows at a strike; non-empty for a strike of the table |
| Options.RowsAtCounts | earningstrats/options.py:65-67 | each row at the strike is kept as many times as the table holds it, and no other row is kept |
| Options.RowsAtKeepsOrder | earningstrats/options.py:65-67 | a filter: the rows at the strike of a + b are those of a followed by those of b |
| Options.RowsAtOneRow | earningstrats/options.py:65-67 | a single row is kept iff it is at the strike |
| Options.FirstLeg | earningstrats/options.py:80-83 | a row at the strike of the given kind, or none exactly when there is no such row |
| Options.FirstLegIsFirst | earningstrats/options.py:80-83 | the returned row sits at an index with no matching row before it, which is what `.iloc[0]` selects |
| Options.StraddleByLegCount | earningstrats/options.py:73-90 | two ATM rows: the sum of their marks, or of their last prices when the marks sum to 0; one row: twice its mark, or twice its last price when the mark is 0; any other count: 0 |
| Options.StrangleLegs | earningstrats/options.py:79-95 | the strangle is 0 without a call at the higher strike or a put at the lower one; otherwise it is the first such legs' marks, or their last prices when the marks sum to 0 |
| Options.IvFraction | earningstrats/options.py:70-71 | the IV move is non-negative when every ATM IV and the time factor are |
| Options.IvMoveAveragesAtmRows | earningstrats/options.py:70-71 | the IV move times the number of ATM rows is the sum of their IVs times the time factor |
| Options.MovesFrom | earningstrats/options.py:98-107 | from the ATM rows and the strangle price: aggregate = straddle move when the IV move is <= 0.01, else the average of the two |
| Options.MovesAt | earningstrats/options.py:98-107 | aggregate = straddle move when the IV move is <= 0.01, else the average of the two |
| Options.TwoRowsAtTheMoneyIvMove | earningstrats/options.py:65-107 | given the two rows at the ATM strike (call and put) and the strangle price, the IV move is the mean of their two IVs times the time factor |
| Options.TwoRowsAtTheMoneyByMark | earningstrats/options.py:73-107 | given the two ATM rows, whose marks do not sum to 0, and the strangle price: straddle move = (mark + mark) / spot; blended move = (0.7 (mark + mark) + 0.3 strangle) / spot |
| Options.TwoRowsAtTheMoneyByLastPrice | earningstrats/options.py:86-107 | given the two ATM rows, whose marks sum to 0, and the strangle price: straddle move = (last + last) / spot; blended move = (0.7 (last + last) + 0.3 strangle) / spot |
| Options.OneRowAtTheMoney | earningstrats/options.py:76-107 | given a single ATM row and the strangle price: straddle = twice its mark, or twice its last price when the mark is 0; straddle move = that / spot; blended move = (0.7 that + 0.3 strangle) / spot; IV move = its IV times the time factor |
| Options.ExpectedMove | earningstrats/options.py:45-107 | fails (InsufficientStrikes) exactly when there are fewer than three distinct strikes; otherwise it obeys the 1% IV guard |
| Options.MovesAtNonNegative | earningstrats/options.py:98-107 | non-negative marks, last prices and IVs give four non-negative fractions |
| Options.ExpectedMoveNonNegative | earningstrats/options.py:101-107 | non-negative quotes and time factor give four non-negative fractions |
| Options.AggregateFollowsGuard | earningstrats/options.py:101-104 | at most 1% IV: aggregate = straddle move; above it, the aggregate lies between the IV and straddle moves |
| PutScreen.DistPct | earningstrats/options.py:123 | the distance to spot is >= 0, and 0 exactly at the spot strike |
| PutScreen.Probability | earningstrats/options.py:139-140 | NaN exactly when both the aggregate move and the distance are 0 |
| PutScreen.ProbabilityInRange | earningstrats/options.py:139-140 | the probability lies in [0, 100] |
| PutScreen.ProbabilityMonotone | earningstrats/options.py:139-140 | for a fixed non-negative aggregate move, a farther put never gets a lower probability |
| PutScreen.KeepAtOrBelow | earningstrats/options.py:136-137 | exactly the puts whose strike does not exceed the ceiling survive |
| PutScreen.KeepAtOrBelowCounts | earningstrats/options.py:136-137 | each put at or below the ceiling is kept as many times as the chain holds it, and no other put is kept |
| PutScreen.AnyZeroMarkIgnoresOrder | earningstrats/options.py:175-184 | the is-some-mark-zero test gives the same answer for any reordering of the rows, so sorting before or after it does not change the yields |
| PutScreen.CollateralYield | earningstrats/options.py:144 | the yield is non-negative for a non-negative price |
| PutScreen.ScoreRows | earningstrats/options.py:121-144 | one row per put, in order, all sharing one mark-or-lastPrice choice |
| PutScreen.ScreenedPuts | earningstrats/options.py:109-144 | fails exactly when the estimator fails |
| PutScreen.AllPuts | earningstrats/options.py:150-184 | fails exactly when the estimator fails |
| PutScreen.GetPutOptionChain | earningstrats/options.py:109-148 | fails exactly when the estimator fails; otherwise a permutation of the screened rows, sorted by strike, highest first |
| PutScreen.GetAllPutOptions | earningstrats/options.py:150-185 | fails exactly when the estimator fails; otherwise a permutation of all scored puts, sorted by strike, highest first |
| PutScreen.ScoreRowsFacts | earningstrats/options.py:121-140 | scoring keeps exactly the given puts; each distance is abs(spot - strike) / spot x 100 >= 0; each probability is in [0, 100] |
| PutScreen.ScreenedPutsFilter | earningstrats/options.py:123-140 | a put appears in the screen iff its strike is at or below the ceiling (-1 meaning spot); distances and probabilities as above |
| PutScreen.ScoreRowsYield | earningstrats/options.py:141-144 | yield = price x 100 x 100 / strike, with price the last price for every row once any mark is 0, else the mark |
| PutScreen.ScreenedPutsYield | earningstrats/options.py:136-144 | the same fallback on the screen, judged over the surviving rows only |
| PutScreen.ScoreRowsProbabilityOrdered | earningstrats/options.py:139-140 | within one scoring, a farther row never has a lower probability |
| PutScreen.ScreenedPutsProbabilityOrdered | earningstrats/options.py:139-140 | within one screen of non-negative quotes, a farther row never has a lower probability |
| PutScreen.ScreenWithoutCutIsAllPuts | earningstrats/options.py:133-137 | when no strike exceeds the ceiling, the screen equals the unfiltered table |
| PutScreen.KeepAllAtOrBelow | earningstrats/options.py:136-137 | the cut removes nothing when every strike is at or below the ceiling |
| Sorting.SortDescending | earningstrats/options.py:146 | the array ends sorted by key, largest first, and is a permutation of what it held |
| PriceEffect.ClassifyBoundary | earningstrats/earnings.py:26-30 | 14:xx is after the close and 13:xx before the open; after the close iff hour >= 14 |
| PriceEffect.Deltas | earningstrats/earnings.py:36-42 | reference close + change = later price, for the open and for the close |
| PriceEffect.DeltasPercent | earningstrats/earnings.py:40-54 | each percentage x its reference close = its change x 100 |
| PriceEffect.EventEffect | earningstrats/earnings.py:32-54 | an effect exists iff the event-day bar and the adjacent bar (next day after the close, previous day before the open) both exist |
| PriceEffect.AfterCloseEffect | earningstrats/earnings.py:32-42 | after the close: next-day open and close minus the event-day close |
| PriceEffect.BeforeOpenEffect | earningstrats/earnings.py:44-54 | before the open: event-day open and close minus the previous day's close |
| PriceEffect.AfterCloseExample | earningstrats/earnings.py:32-42 | close 100, next open 102, next close 105 give 2, 2%, 5, 5% |
| PriceEffect.Lookup | earningstrats/earnings.py:39 | a date has a value iff it is a key of the records |
| PriceEffect.Put | earningstrats/earnings.py:39 | the date maps to the new value and no other date changes; a new date is appended, an existing one keeps its place |
| PriceEffect.CollectKeyedByDate | earningstrats/earnings.py:21-54 | the record for a date is the effect of the last event on that date with both bars present; dates never repeat |
| PriceEffect.CollectStep | earningstrats/earnings.py:21-54 | one more event adds its effect under its date when it has one, and changes nothing otherwise |
| PriceEffect.MissingBarSkipped | earningstrats/earnings.py:32-54 | an event with a missing bar leaves the records unchanged |
| PriceEffect.AbsoluteAverages | earningstrats/earnings.py:60-62 | the summary exists iff there is at least one record |
| PriceEffect.AbsoluteAveragesOneRecord | earningstrats/earnings.py:60-62 | one record averages to its own four absolute values |
| PriceEffect.AbsoluteAveragesAppend | earningstrats/earnings.py:60-62 | one more record moves each of the four summary values as a running mean of absolute values: (a n + abs(x)) / (n + 1); with the one-record case this fixes the summary for any number of records |
| PriceEffect.AbsoluteAveragesNonNegative | earningstrats/earnings.py:60-62 | every summary value is >= 0 |
| PriceEffect.PriceEffectTableShape | earningstrats/earnings.py:56-65 | one row per record in record order, then exactly one "Absolute Average" row, last, holding the summary values; every row carries the symbol |
| PriceEffect.StockEarningsPriceEffect | earningstrats/earnings.py:12-67 | fails exactly on an empty history; otherwise the table of the records the loop collects |
| Candidates.AfterCloseToday | earningstrats/earnings.py:84-88 | exactly today's entries with hour > 14, labelled AMC |
| Candidates.BeforeOpenTomorrow | earningstrats/earnings.py:90-94 | exactly tomorrow's entries with hour <= 14, labelled BMO |
| Candidates.AnnouncementsExactly | earningstrats/earnings.py:84-99 | the screen's rows are exactly those two kinds of entries, each once |
| Candidates.FourteenHundredDisagreement | earningstrats/earnings.py:86 | a 14:xx entry of today is dropped, while the price-effect rule calls 14:xx after the close |
| Candidates.KeepRows | earningstrats/earnings.py:136-137 | exactly the rows with non-zero volume and a price above the floor survive |
| Candidates.KeepRowsCounts | earningstrats/earnings.py:136-137 | each such row is kept as many times as it was given, and no other row is kept |
| Candidates.StampedUpToStep | earningstrats/earnings.py:108-131 | visiting a row stamps every row of its ticker exactly when that ticker is eligible |
| Candidates.StampedUpToEnd | earningstrats/earnings.py:108-131 | after the loop every row is stamped iff its ticker is eligible |
| Candidates.SurvivorsStamped | earningstrats/earnings.py:108-137 | every survivor is an announcement of an eligible ticker, carries that ticker's market data, and has volume != 0, volume >= minimum and price > floor |
| Candidates.EligibleSurvives | earningstrats/earnings.py:108-137 | every announcement of an eligible ticker with non-zero volume and price above the floor survives |
| Candidates.CompaniesWithEarnings | earningstrats/earnings.py:70-142 | a permutation of the surviving rows, sorted by volume, largest first |
| IvCrush.Crush | earningstrats/earnings.py:165 | prior + crush x prior = next; negative iff IV fell; >= -1 for a non-negative next IV |
| IvCrush.CrushColumn | earningstrats/earnings.py:164-165 | row i has a crush iff the fresh chain has a row i and the stored probability is not 100 |
| IvCrush.Present | earningstrats/earnings.py:167 | exactly the present crush values, as `mean()` sees them |
| IvCrush.PresentCounts | earningstrats/earnings.py:167 | each present value is kept as many times as it occurs, so repeated crushes weigh in the mean as often as they occur |
| IvCrush.IvCrushTable | earningstrats/earnings.py:164-168 | the stored rows unchanged, each with a next-day IV iff the fresh chain has that position, and then it is the fresh row's IV (compared or not) |
| IvCrush.AverageIsMeanCrush | earningstrats/earnings.py:164-168 | the average exists iff some row is compared, and is then the sum of the compared rows' crushes over their number |
| IvCrush.PairedByPosition | earningstrats/earnings.py:164-166 | a compared row's crush and next-day IV come from the fresh row at the same index; other rows have no crush |
| IvCrush.CertainRowsExcluded | earningstrats/earnings.py:164-165 | a row with probability 100 gets no crush |
| IvCrush.CrushExample | earningstrats/earnings.py:165 | a fall from 0.50 to 0.30 is a crush of -0.4 |
| IvCrush.StrikesNotCompared | earningstrats/earnings.py:162-165 | a fresh row with a different strike is still paired by index |
| IvCrush.AverageAbsentWhenNothingCompared | earningstrats/earnings.py:167-168 | the average is NaN exactly when no row was compared |
| IvCrush.AverageAtLeastMinusOne | earningstrats/earnings.py:167-168 | with non-negative fresh IVs, the average crush is >= -1 |

## Left out

- Network I/O is not modelled. This covers every yfinance and yahoo_fin call: chains, expirations, histories, earnings calendars and histories. Their results are parameters: the chain, the spot price, the bars, the events, and per-ticker `TickerData`. The helpers `get_current_stock_price`, `get_days_to_expiration` and `get_earliest_deadline_options_chain` become those parameters, apart from the derived columns `OptionsTable` models.
- Options.IvFraction: `math.sqrt(days / 365)` is the parameter `sqrtFactor`. The days-to-expiration computation and the floating-point square root are not modelled.
- PutScreen.Probability: `halfnorm.cdf` followed by `.round(4)` is an abstract function. `IsCdf` gives it range [0, 1] and monotonicity, and nothing else. The half-normal formula and rounding are foreign floating-point code.
- Floating point: prices are exact reals, so rounding, overflow and `inf` are not modelled. The only exception: a zero aggregate move gives probability 100 for a positive distance, as `cdf(+inf)` does.
- Options.ExpectedMove: requires a positive spot price. The source divides by it, and a zero spot makes every move NaN or infinite.
- PutScreen.ScreenedPuts: requires positive strikes, because the yield divides by the strike.
- PriceEffect.StockEarningsPriceEffect: requires positive closes, because the percentages divide by a close.
- IvCrush.IvCrushTable: requires a positive stored IV on every compared row (probability not 100 and a fresh row at that position), because the crush divides by it; pandas would give `inf` or NaN for a zero IV there.
- Options.SelectStrikes: Python's `set` has no specified order, so strikes at equal distance from spot may come out in either order there. The model ranks them in first-occurrence order. Only ties between equidistant strikes are affected.
- PutScreen.GetPutOptionChain: fails whenever the estimator fails. pandas may skip the failing division when no put survives the ceiling; the model does not capture that case.
- PutScreen.GetAllPutOptions: fails whenever the estimator fails. When the chain has no puts at all, pandas divides two empty columns and returns an empty table instead; the model does not capture that case.
- Candidates.CompaniesWithEarnings: the `aggregate_move%` column is not modelled. The loop writes it from the estimator, and it feeds no filter or sort. The close arrives already rounded to cents in `TickerData`.
- Candidates.CompaniesWithEarnings: the `get_stocks_with_options` and `get_stocks_with_weekly_options` loaders (option_set.py) become the `optionSet` and `weeklySet` parameters. Their CSV reading is not modelled.
- Dates and times: `datetime.now`, `date.today`, `strptime` and `timedelta` become integer day numbers and hours. Timestamps are taken as already split into day and hour.
- `get_IV_crush_for_puts`: the directory checks, CSV reads and writes, and the `range(num_files - 1)` loop over files are not modelled. The model covers one ticker's table.
- Columns that only rename, drop or display data are not modelled: `expirationDate`, the dropped provider columns, `reset_index`, and `pd.options.display.float_format`.
- The orchestration scripts (earningstrats/today_data.py, earningstrats/check_today.py, src/earning-options/run_today.py) and setup.py are not part of this model.
