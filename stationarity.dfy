/**
 * The stationarity filter over candidate pairs. The Augmented Dickey-Fuller
 * test is outside the model: its p-value enters as a function `adf` from a
 * spread series to a real number, about which nothing is assumed.
 */
module Stationarity {

  type Ticker = string

  /** Default significance level of the stationarity test. */
  const DefaultPValueThreshold: real := 0.05

  /** A candidate pair, as produced by a correlation screen. */
  datatype Candidate = Candidate(ticker1: Ticker, ticker2: Ticker, correlation: real)

  /** One row of the result table: the candidate and the p-value of its spread. */
  datatype PairRow = PairRow(ticker1: Ticker, ticker2: Ticker, correlation: real, adfPValue: real)

  /** Looking up a ticker the price table has no column for fails. */
  datatype Error = MissingTicker(ticker: Ticker)

  datatype Result<T> = Ok(value: T) | Err(error: Error)

  /** A price table: one column of prices per ticker over a shared index of `rows` dates. */
  datatype PriceTable = PriceTable(rows: nat, columns: map<Ticker, seq<real>>)

  predicate WellFormed(data: PriceTable) {
    forall t :: t in data.columns ==> |data.columns[t]| == data.rows
  }

  predicate Present(data: PriceTable, c: Candidate) {
    c.ticker1 in data.columns && c.ticker2 in data.columns
  }

  /**
   * The stationarity test of one series: the p-value is reported as the test
   * computes it, and the series counts as stationary exactly when that
   * p-value is below the threshold.
   */
  function TestAdfStationarity(series: seq<real>, adf: seq<real> -> real,
                               threshold: real := DefaultPValueThreshold): (r: (bool, real))
    ensures r.1 == adf(series)
    ensures r.0 <==> r.1 < threshold
  {
    var pValue := adf(series);
    (pValue < threshold, pValue)
  }

  /** A series stationary at one significance level stays so at any larger level. */
  lemma StationarityMonotone(series: seq<real>, adf: seq<real> -> real, lower: real, higher: real)
    requires lower <= higher
    requires TestAdfStationarity(series, adf, lower).0
    ensures TestAdfStationarity(series, adf, higher).0
  {
  }

  /** The spread of a candidate: the first ticker's prices minus the second's. */
  function Spread(data: PriceTable, c: Candidate): (r: Result<seq<real>>)
    requires WellFormed(data)
    ensures r.Ok? <==> Present(data, c)
    ensures r.Ok? ==> |r.value| == data.rows
    ensures r.Err? ==> r.error == MissingTicker(if c.ticker1 !in data.columns then c.ticker1 else c.ticker2)
  {
    if c.ticker1 !in data.columns then Err(MissingTicker(c.ticker1))
    else if c.ticker2 !in data.columns then Err(MissingTicker(c.ticker2))
    else
      var a, b := data.columns[c.ticker1], data.columns[c.ticker2];
      Ok(seq(data.rows, i requires 0 <= i < data.rows => a[i] - b[i]))
  }

  /** The p-value of a candidate's spread. */
  function PValueOf(data: PriceTable, c: Candidate, adf: seq<real> -> real): real
    requires WellFormed(data) && Present(data, c)
  {
    adf(Spread(data, c).value)
  }

  /** The row a retained candidate contributes. */
  function RowOf(data: PriceTable, c: Candidate, adf: seq<real> -> real): PairRow
    requires WellFormed(data) && Present(data, c)
  {
    PairRow(c.ticker1, c.ticker2, c.correlation, PValueOf(data, c, adf))
  }

  /**
   * The result of the pair filter: the candidates are visited in order, the
   * first missing ticker aborts the whole filter, and each stationary
   * candidate adds its row at the end.
   */
  function StationaryPairs(data: PriceTable, pairs: seq<Candidate>, adf: seq<real> -> real, threshold: real)
    : (r: Result<seq<PairRow>>)
    requires WellFormed(data)
    ensures |pairs| == 0 ==> r == Ok([])
    ensures r.Ok? ==> |r.value| <= |pairs|
  {
    if |pairs| == 0 then Ok([])
    else
      match StationaryPairs(data, pairs[..|pairs| - 1], adf, threshold)
      case Err(e) => Err(e)
      case Ok(rows) =>
        var c := pairs[|pairs| - 1];
        match Spread(data, c)
        case Err(e) => Err(e)
        case Ok(spread) =>
          var (stationary, pValue) := TestAdfStationarity(spread, adf, threshold);
          if stationary then Ok(rows + [PairRow(c.ticker1, c.ticker2, c.correlation, pValue)])
          else Ok(rows)
  }

  /**
   * The positions, in increasing order, of the candidates whose spread has a
   * p-value below the threshold.
   */
  function KeptIndices(data: PriceTable, pairs: seq<Candidate>, adf: seq<real> -> real, threshold: real)
    : (idx: seq<nat>)
    requires WellFormed(data)
    requires forall i :: 0 <= i < |pairs| ==> Present(data, pairs[i])
    ensures forall k :: 0 <= k < |idx| ==> idx[k] < |pairs|
    ensures forall k, l :: 0 <= k < l < |idx| ==> idx[k] < idx[l]
    ensures forall i :: 0 <= i < |pairs| ==> (i in idx <==> PValueOf(data, pairs[i], adf) < threshold)
  {
    if |pairs| == 0 then []
    else
      var n := |pairs| - 1;
      var earlier := KeptIndices(data, pairs[..n], adf, threshold);
      if PValueOf(data, pairs[n], adf) < threshold then earlier + [n] else earlier
  }

  /**
   * When every ticker is present the filter succeeds, and its rows are, in
   * input order, exactly the candidates below the threshold, each with its
   * tickers and correlation unchanged and its p-value appended.
   */
  lemma {:induction false} StationaryPairsExact(data: PriceTable, pairs: seq<Candidate>,
                                                adf: seq<real> -> real, threshold: real)
    requires WellFormed(data)
    requires forall i :: 0 <= i < |pairs| ==> Present(data, pairs[i])
    ensures var r := StationaryPairs(data, pairs, adf, threshold);
            var idx := KeptIndices(data, pairs, adf, threshold);
            && r.Ok?
            && |r.value| == |idx|
            && forall k :: 0 <= k < |idx| ==> r.value[k] == RowOf(data, pairs[idx[k]], adf)
  {
    if |pairs| > 0 {
      var n := |pairs| - 1;
      StationaryPairsExact(data, pairs[..n], adf, threshold);
    }
  }

  /**
   * The filter fails exactly when some candidate names a ticker the table does
   * not have. The error is the one of the first such candidate: its first
   * ticker if that is missing, else its second.
   */
  lemma {:induction false} StationaryPairsFails(data: PriceTable, pairs: seq<Candidate>,
                                                adf: seq<real> -> real, threshold: real)
    requires WellFormed(data)
    ensures var r := StationaryPairs(data, pairs, adf, threshold);
            && (r.Err? <==> exists i :: 0 <= i < |pairs| && !Present(data, pairs[i]))
            && (r.Err? ==> exists i :: && 0 <= i < |pairs| && !Present(data, pairs[i])
                                       && (forall j :: 0 <= j < i ==> Present(data, pairs[j]))
                                       && r.error == Spread(data, pairs[i]).error)
  {
    if |pairs| > 0 {
      var n := |pairs| - 1;
      StationaryPairsFails(data, pairs[..n], adf, threshold);
      var prefix := pairs[..n];
      assert forall i :: 0 <= i < n ==> prefix[i] == pairs[i];
      if StationaryPairs(data, prefix, adf, threshold).Ok? && !Present(data, pairs[n]) {
        assert forall j :: 0 <= j < n ==> Present(data, pairs[j]);
      }
    }
  }

  /** Once a prefix of the candidates fails, the whole filter fails the same way. */
  lemma {:induction false} FailurePersists(data: PriceTable, pairs: seq<Candidate>,
                                           adf: seq<real> -> real, threshold: real, m: nat)
    requires WellFormed(data)
    requires m <= |pairs|
    requires StationaryPairs(data, pairs[..m], adf, threshold).Err?
    ensures StationaryPairs(data, pairs, adf, threshold) == StationaryPairs(data, pairs[..m], adf, threshold)
  {
    if m < |pairs| {
      var n := |pairs| - 1;
      assert pairs[..n][..m] == pairs[..m];
      FailurePersists(data, pairs[..n], adf, threshold, m);
    } else {
      assert pairs[..m] == pairs;
    }
  }

  /**
   * The pair filter as a loop that appends each stationary candidate's row to
   * a growing list; a missing ticker ends it with that error.
   */
  method GetStationaryPairs(data: PriceTable, pairs: seq<Candidate>, adf: seq<real> -> real,
                            pvalThreshold: real := DefaultPValueThreshold)
    returns (r: Result<seq<PairRow>>)
    requires WellFormed(data)
    ensures r == StationaryPairs(data, pairs, adf, pvalThreshold)
  {
    var stationary: seq<PairRow> := [];
    var i := 0;
    while i < |pairs|
      invariant i <= |pairs|
      invariant StationaryPairs(data, pairs[..i], adf, pvalThreshold) == Ok(stationary)
    {
      var c := pairs[i];
      assert pairs[..i + 1][..i] == pairs[..i];
      var spread := Spread(data, c);
      if spread.Err? {
        FailurePersists(data, pairs, adf, pvalThreshold, i + 1);
        return Err(spread.error);
      }
      var (stationaryFlag, pval) := TestAdfStationarity(spread.value, adf, pvalThreshold);
      if stationaryFlag {
        stationary := stationary + [PairRow(c.ticker1, c.ticker2, c.correlation, pval)];
      }
      i := i + 1;
    }
    assert pairs[..i] == pairs;
    r := Ok(stationary);
  }
}
