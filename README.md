# Pairs-trading signal pipeline, modelled in Dafny

This project models the discrete logic of a small pairs-trading strategy
(`strategy.py`):

- **Signal generator** (`generate_signals`, module `Signals`, `signals.dfy`).
  Each z-score gets three flags: long entry (`z < -entry`), short entry
  (`z > entry`) and exit (`|z| < exit`). The signal column starts at 0 and is
  then overwritten by the long, short and exit masks, in that order. The
  position column forward-fills zeros with the last non-zero signal, shifts
  the result down one row, and fills the first row with 0. The result is a
  `SignalTable` class whose columns are arrays. The masked assignments are
  `forall` statements over the signal array. The forward fill is a loop
  (`FillForward`) proved against the recursive scan `LastNonZero`.
- **P&L calculator** (`compute_pnl`, module `Pnl`, `pnl.dfy`). The first
  difference of the spread, with 0 in the first row, times the position
  column. `ComputePnl` adds the `pnl` column to the table it is given. It
  changes only that field and returns the same table.
- **Stationarity filter** (`test_adf_stationarity`, `get_stationary_pairs`,
  module `Stationarity`, `stationarity.dfy`). The Augmented Dickey-Fuller
  p-value is a parameter `adf: seq<real> -> real` about which nothing is
  assumed. The filter is a loop that appends rows to a list. It is proved
  equal to the recursive `StationaryPairs`, and that function is
  characterised by `StationaryPairsExact` and `StationaryPairsFails`.

Prices, spreads, z-scores, thresholds and p-values are exact `real`s.
Signals and positions are `int`s in {-1, 0, 1}. The default arguments are
default parameter values of `GenerateSignals` (entry 1.0, exit 0.3),
`TestAdfStationarity` and `GetStationaryPairs` (p-value threshold 0.05).

Two behaviours of the code are easy to misread:

- **Flag priority.** A priority reading (long, then short, then exit) is not
  what `strategy.py:38-41` does. Those lines let the last write win, so the
  exit band beats a short entry, and a short entry beats a long one.
  `SignalOf` states this order.
- **Exits do not flatten.** An exit might be expected to flatten the
  position. But `strategy.py:44` forward-fills every 0, including the 0 an
  exit writes. So once any entry has happened, the position is never flat
  again, and a z-score in the exit band leaves the position as it was
  (`PositionOpenIff`, `PositionNeverCloses`, `ExitHoldsPosition`). The
  position is therefore not always the previous row's signal;
  `WorkedExamplePositions` shows a row where they differ.

## Model

| member | source | states |
|---|---|---|
| `Signals.SignalOf` | strategy.py:34-41 | the resolved signal is in {-1,0,1}; it is 0 inside the exit band, else -1 above +entry, else +1 below -entry, else 0 (exit beats short beats long); the body is `Overwrite` (the three masked assignments in source order) applied to `FlagsOf` (the three threshold tests) |
| `Signals.SignalSeries` | strategy.py:33-41 | the signal column has one row per z-score and every entry is -1, 0 or 1 |
| `Signals.LastNonZero` | strategy.py:44 | the carried value is 0 iff every signal so far is 0; otherwise it is the value of a row after which every signal is 0; it stays in {-1,0,1} |
| `Signals.LastNonZeroAppend` | strategy.py:44 | one more row either replaces the carried value with its non-zero signal or leaves the carried value as it was |
| `Signals.ForwardFill` | strategy.py:44 | the forward fill has one row per signal |
| `Signals.ForwardFillStep` | strategy.py:44 | the forward fill keeps every non-zero signal and copies the row above into every 0, and a leading 0 stays 0 |
| `Signals.ShiftIn` | strategy.py:44 | the shift by one row keeps the length, puts 0 in row 0 and moves row t-1 to row t |
| `Signals.Positions` | strategy.py:44 | one position per signal; position 0 is 0; position t (t >= 1) is the last non-zero signal before row t, or 0 if there is none |
| `Signals.PositionStep` | strategy.py:44 | position t+1 is signal t when signal t is non-zero, else position t |
| `Signals.PositionOpenIff` | strategy.py:44 | position t is non-zero iff some row before t has a non-zero signal |
| `Signals.PositionNeverCloses` | strategy.py:44 | once a position is non-zero, every later position is non-zero |
| `Signals.PositionsInRange` | strategy.py:44 | every position is -1, 0 or 1 when every signal is |
| `Signals.ExitHoldsPosition` | strategy.py:36-44 | a z-score in the exit band leaves the next position equal to the current one |
| `Signals.WorkedExampleSignals` | strategy.py:34-41 | z = -2,-2,0.1,0.1,2,2,0.1 with the default thresholds gives signal 1,1,0,0,-1,-1,0 |
| `Signals.WorkedExamplePositions` | strategy.py:44 | signal 1,1,0,0,-1,-1,0 gives position 0,1,1,1,1,-1,-1: the exit rows keep the long position open |
| `Signals.FillForward` | strategy.py:44 | the scan carrying the last non-zero value produces exactly the forward fill |
| `Signals.SignalTable.constructor` | strategy.py:33 | a table over the given number of rows with freshly allocated, distinct columns and no pnl column |
| `Signals.GenerateSignals` | strategy.py:31-46 | the table has one row per z-score, its flag columns are the three threshold tests, its signal column is `SignalSeries` and its position column is `Positions` of the signal column; it has no pnl column |
| `Pnl.Diff` | strategy.py:50 | one change per spread value; change 0 is 0 (the NaN that `diff` leaves, filled with 0); change t (t >= 1) is spread t minus spread t-1 |
| `Pnl.DiffTelescopes` | strategy.py:50 | adding up the spread changes from row 0 reconstructs the spread, so the first difference with 0 in row 0 loses nothing but the starting level |
| `Pnl.PnlSeries` | strategy.py:50-51 | one pnl value per spread value; pnl 0 is 0; pnl t (t >= 1) is position t times the spread change from t-1 to t |
| `Pnl.HeldPositionPnl` | strategy.py:50-51 | holding position c from row 1 to row t earns c times the spread's move from row 0 to row t |
| `Pnl.PnlExample` | strategy.py:50-51 | spread 10,11,11,9 with position 0,1,1,-1 gives pnl 0,1,0,2 |
| `Pnl.ComputePnl` | strategy.py:48-52 | the given table gains a pnl column equal to `PnlSeries` of the spread and its position column; the same table is returned and no other column changes |
| `Stationarity.TestAdfStationarity` | strategy.py:6-9 | the p-value is returned unchanged and the flag is exactly p < threshold |
| `Stationarity.StationarityMonotone` | strategy.py:9 | a series that passes at one threshold passes at every larger threshold |
| `Stationarity.Spread` | strategy.py:15 | the spread exists iff both tickers are columns of the table, has one value per row, and a failure names the first ticker if it is missing, else the second |
| `Stationarity.StationaryPairs` | strategy.py:11-19 | an empty candidate list gives an empty result; a result never has more rows than there are candidates |
| `Stationarity.KeptIndices` | strategy.py:14-18 | the retained positions are in range, strictly increasing, and contain candidate i iff its p-value is below the threshold |
| `Stationarity.StationaryPairsExact` | strategy.py:13-19 | with every ticker present, the result's rows are, in input order, exactly the retained candidates, each with tickers and correlation unchanged and its p-value appended |
| `Stationarity.StationaryPairsFails` | strategy.py:14-15 | the filter fails iff some candidate names a ticker the table lacks, and then the error is that of the first such candidate in input order |
| `Stationarity.FailurePersists` | strategy.py:14-15 | once a prefix of the candidates fails, the whole filter fails with the same error |
| `Stationarity.GetStationaryPairs` | strategy.py:11-19 | the appending loop returns exactly `StationaryPairs` |

## Left out

- The Augmented Dickey-Fuller test itself (`adfuller`, statsmodels). Its p-value is the parameter `adf`. The `dropna` before it is not modelled, and neither are the exceptions it raises on short or constant series.
- `calculate_hedge_ratio` (strategy.py:21-25). It is an ordinary least squares fit in floating point inside statsmodels.
- `compute_zscore` (strategy.py:27-29). It needs a sample standard deviation, which is a square root, and float division, so it cannot be stated exactly over reals.
- Floating point and NaN. All values are exact reals. NaN z-scores, whose comparisons are all false, are not modelled. The NaN that `diff` and `shift` produce is modelled only through the 0 that `fillna(0)` puts in its place.
- Index alignment. The spread, the signal table and the price columns are assumed to share one index: `ComputePnl` requires the spread to have one value per table row, and `PriceTable` columns all have `rows` entries. pandas would align mismatched indices and produce NaN instead.
- DataFrame details. Column dtypes are not modelled; pandas stores the position column as floats after the shift, and the model keeps it as integers. The result of the pair filter is a sequence of rows, not a DataFrame with named columns.
