/**
 * The P&L calculator: the daily profit and loss of holding the position
 * column of a signal table against a spread series.
 */
module Pnl {
  import opened Signals

  /** Day-over-day change of the spread; the first row, which has no predecessor, is 0. */
  function Diff(spread: seq<real>): (d: seq<real>)
    ensures |d| == |spread|
    ensures |spread| > 0 ==> d[0] == 0.0
    ensures forall t {:trigger d[t]} :: 1 <= t < |spread| ==> d[t] == spread[t] - spread[t - 1]
  {
    seq(|spread|, t requires 0 <= t < |spread| => if t == 0 then 0.0 else spread[t] - spread[t - 1])
  }

  function Sum(s: seq<real>): real {
    if |s| == 0 then 0.0 else Sum(s[..|s| - 1]) + s[|s| - 1]
  }

  /** Adding up the changes from the first row reconstructs the spread. */
  lemma {:induction false} DiffTelescopes(spread: seq<real>, t: nat)
    requires t < |spread|
    ensures spread[0] + Sum(Diff(spread)[..t + 1]) == spread[t]
  {
    if t > 0 {
      DiffTelescopes(spread, t - 1);
      assert Diff(spread)[..t + 1][..t] == Diff(spread)[..t];
    }
  }

  /** The pnl column: the position held in each row times that row's spread change. */
  function PnlSeries(spread: seq<real>, position: seq<int>): (pnl: seq<real>)
    requires |position| == |spread|
    ensures |pnl| == |spread|
    ensures |spread| > 0 ==> pnl[0] == 0.0
    ensures forall t {:trigger pnl[t]} :: 1 <= t < |spread| ==> pnl[t] == position[t] as real * (spread[t] - spread[t - 1])
  {
    var change := Diff(spread);
    seq(|spread|, t requires 0 <= t < |spread| => position[t] as real * change[t])
  }

  /**
   * Holding the same position c from row 1 to row t earns c times the move of
   * the spread from row 0 to row t.
   */
  lemma {:induction false} HeldPositionPnl(spread: seq<real>, position: seq<int>, c: int, t: nat)
    requires |position| == |spread|
    requires t < |spread|
    requires forall k :: 1 <= k <= t ==> position[k] == c
    ensures Sum(PnlSeries(spread, position)[..t + 1]) == c as real * (spread[t] - spread[0])
  {
    var pnl := PnlSeries(spread, position);
    if t > 0 {
      HeldPositionPnl(spread, position, c, t - 1);
      SumStep(pnl, t);
      var held, earlier, step := c as real, spread[t - 1] - spread[0], spread[t] - spread[t - 1];
      assert pnl[t] == held * step;
      Distribute(held, earlier, step);
    } else {
      SumStep(pnl, 0);
      assert pnl[0] == 0.0;
      assert spread[0] - spread[0] == 0.0;
    }
  }

  /** Summing one more row adds that row. */
  lemma {:induction false} SumStep(s: seq<real>, t: nat)
    requires t < |s|
    ensures Sum(s[..t + 1]) == Sum(s[..t]) + s[t]
  {
    assert s[..t + 1][..t] == s[..t];
  }

  /** Multiplication distributes over addition. */
  lemma Distribute(a: real, x: real, y: real)
    ensures a * x + a * y == a * (x + y)
  {
  }

  /** The spread 10, 11, 11, 9 held at 0, 1, 1, -1 earns 0, 1, 0, 2. */
  lemma PnlExample()
    ensures PnlSeries([10.0, 11.0, 11.0, 9.0], [0, 1, 1, -1]) == [0.0, 1.0, 0.0, 2.0]
  {
    var pnl := PnlSeries([10.0, 11.0, 11.0, 9.0], [0, 1, 1, -1]);
    assert pnl[1] == 1.0 && pnl[2] == 0.0 && pnl[3] == 2.0;
  }

  /**
   * Adds the pnl column to the signal table it is given and returns that same
   * table; no other column changes.
   */
  method ComputePnl(spread: seq<real>, signals: SignalTable) returns (result: SignalTable)
    requires signals.Valid()
    requires |spread| == signals.rows
    modifies signals`pnl
    ensures result == signals && signals.Valid()
    ensures signals.pnl != null && fresh(signals.pnl)
    ensures signals.pnl[..] == PnlSeries(spread, signals.position[..])
    ensures unchanged(signals.longEntry, signals.shortEntry, signals.exit)
    ensures unchanged(signals.signal, signals.position)
  {
    var spreadRet := Diff(spread);
    var column := new real[|spread|];
    forall t | 0 <= t < |spread| {
      column[t] := signals.position[t] as real * spreadRet[t];
    }
    ghost var expected := PnlSeries(spread, signals.position[..]);
    assert forall t :: 0 <= t < |spread| ==> column[t] == expected[t];
    assert column[..] == PnlSeries(spread, signals.position[..]);
    signals.pnl := column;
    result := signals;
  }
}
