/**
 * The signal generator of the pairs-trading strategy: threshold flags over a
 * z-score series, the signal column resolved by masked overwrites, and the
 * position column obtained by forward-filling non-zero signals and lagging
 * them one row.
 */
module Signals {

  /** Default entry distance, in z-score units. */
  const DefaultEntryThreshold: real := 1.0
  /** Default exit distance, in z-score units. */
  const DefaultExitThreshold: real := 0.3

  /** The three boolean columns computed for one z-score. */
  datatype Flags = Flags(longEntry: bool, shortEntry: bool, exit: bool)

  function Abs(x: real): real {
    if x < 0.0 then -x else x
  }

  /** Signals and positions take the values -1 (short), 0 (flat) and 1 (long). */
  predicate IsSignal(v: int) {
    -1 <= v <= 1
  }

  /** The flags of one row: below -entry, above +entry, inside the exit band. */
  function FlagsOf(z: real, entryThreshold: real, exitThreshold: real): Flags {
    Flags(z < -entryThreshold, z > entryThreshold, Abs(z) < exitThreshold)
  }

  /**
   * The signal of one row after it is set to 0 and then overwritten by the
   * long, the short and the exit mask, in that order.
   */
  function Overwrite(f: Flags): int {
    var afterLong := if f.longEntry then 1 else 0;
    var afterShort := if f.shortEntry then -1 else afterLong;
    if f.exit then 0 else afterShort
  }

  /**
   * The resolved signal of one z-score. The last write wins, so the exit band
   * takes precedence over a short entry, and a short entry over a long one.
   */
  function SignalOf(z: real, entryThreshold: real, exitThreshold: real): (s: int)
    ensures IsSignal(s)
    ensures s == (if Abs(z) < exitThreshold then 0
                  else if z > entryThreshold then -1
                  else if z < -entryThreshold then 1
                  else 0)
  {
    Overwrite(FlagsOf(z, entryThreshold, exitThreshold))
  }

  /** The signal column for a whole z-score series. */
  function SignalSeries(z: seq<real>, entryThreshold: real, exitThreshold: real): (s: seq<int>)
    ensures |s| == |z|
    ensures forall t :: 0 <= t < |s| ==> IsSignal(s[t])
  {
    seq(|z|, t requires 0 <= t < |z| => SignalOf(z[t], entryThreshold, exitThreshold))
  }

  /**
   * The last non-zero entry of s, or 0 when there is none: the value a forward
   * fill of zeros carries at the end of s.
   */
  function LastNonZero(s: seq<int>): (r: int)
    ensures r == 0 <==> forall i :: 0 <= i < |s| ==> s[i] == 0
    ensures r != 0 ==> exists k :: 0 <= k < |s| && s[k] == r && forall j :: k < j < |s| ==> s[j] == 0
    ensures (forall i :: 0 <= i < |s| ==> IsSignal(s[i])) ==> IsSignal(r)
  {
    if |s| == 0 then 0
    else if s[|s| - 1] != 0 then s[|s| - 1]
    else LastNonZero(s[..|s| - 1])
  }

  lemma {:induction false} LastNonZeroAppend(s: seq<int>, v: int)
    ensures LastNonZero(s + [v]) == if v != 0 then v else LastNonZero(s)
  {
    assert (s + [v])[..|s|] == s;
  }

  /**
   * Replacing every 0 by the previous value (a forward fill of zeros): row t
   * holds the last non-zero value up to and including row t. Leading zeros,
   * which have nothing before them, stay 0.
   */
  function ForwardFill(s: seq<int>): (f: seq<int>)
    ensures |f| == |s|
  {
    seq(|s|, t requires 0 <= t < |s| => LastNonZero(s[..t + 1]))
  }

  /** The forward fill keeps every non-zero value and copies the row above into every 0. */
  lemma ForwardFillStep(s: seq<int>, t: nat)
    requires t < |s|
    ensures s[t] != 0 ==> ForwardFill(s)[t] == s[t]
    ensures s[t] == 0 ==> ForwardFill(s)[t] == if t == 0 then 0 else ForwardFill(s)[t - 1]
  {
    assert s[..t + 1] == s[..t] + [s[t]];
    LastNonZeroAppend(s[..t], s[t]);
    if t > 0 {
      assert s[..t] == s[..(t - 1) + 1];
    }
  }

  /** Shifting down by one row and filling the vacated first row with 0. */
  function ShiftIn(s: seq<int>): (r: seq<int>)
    ensures |r| == |s|
    ensures |s| > 0 ==> r[0] == 0
    ensures forall t :: 1 <= t < |s| ==> r[t] == s[t - 1]
  {
    if |s| == 0 then [] else [0] + s[..|s| - 1]
  }

  /** The position column derived from a signal column. */
  function Positions(signal: seq<int>): (p: seq<int>)
    ensures |p| == |signal|
    ensures |signal| > 0 ==> p[0] == 0
    ensures forall t :: 1 <= t < |signal| ==> p[t] == LastNonZero(signal[..t])
  {
    ShiftIn(ForwardFill(signal))
  }

  /** The position of row t + 1 is the signal of row t, unless that signal is 0. */
  lemma PositionStep(signal: seq<int>, t: nat)
    requires t + 1 < |signal|
    ensures Positions(signal)[t + 1] == if signal[t] != 0 then signal[t] else Positions(signal)[t]
  {
    assert signal[..t + 1] == signal[..t] + [signal[t]];
    LastNonZeroAppend(signal[..t], signal[t]);
  }

  /** A position is non-zero exactly when some earlier row carried a non-zero signal. */
  lemma PositionOpenIff(signal: seq<int>, t: nat)
    requires t < |signal|
    ensures Positions(signal)[t] != 0 <==> exists k :: 0 <= k < t && signal[k] != 0
  {
    if t > 0 {
      var prefix := signal[..t];
      assert forall k :: 0 <= k < t ==> prefix[k] == signal[k];
    }
  }

  /** Once a position is open it is never flat again. */
  lemma PositionNeverCloses(signal: seq<int>, t: nat, u: nat)
    requires t <= u < |signal|
    requires Positions(signal)[t] != 0
    ensures Positions(signal)[u] != 0
  {
    PositionOpenIff(signal, t);
    PositionOpenIff(signal, u);
  }

  /** Every position is -1, 0 or 1 when every signal is. */
  lemma PositionsInRange(signal: seq<int>)
    requires forall t :: 0 <= t < |signal| ==> IsSignal(signal[t])
    ensures forall t :: 0 <= t < |signal| ==> IsSignal(Positions(signal)[t])
  {
    forall t | 1 <= t < |signal|
      ensures IsSignal(Positions(signal)[t])
    {
      var prefix := signal[..t];
      assert forall i :: 0 <= i < |prefix| ==> prefix[i] == signal[i];
    }
  }

  /**
   * A z-score inside the exit band does not flatten the position: the next
   * position is the current one, whatever it is.
   */
  lemma ExitHoldsPosition(z: seq<real>, entryThreshold: real, exitThreshold: real, t: nat)
    requires t + 1 < |z|
    requires Abs(z[t]) < exitThreshold
    ensures var p := Positions(SignalSeries(z, entryThreshold, exitThreshold));
            p[t + 1] == p[t]
  {
    PositionStep(SignalSeries(z, entryThreshold, exitThreshold), t);
  }

  /** The signal column of the series -2, -2, 0.1, 0.1, 2, 2, 0.1 with the default thresholds. */
  lemma WorkedExampleSignals()
    ensures SignalSeries([-2.0, -2.0, 0.1, 0.1, 2.0, 2.0, 0.1], DefaultEntryThreshold, DefaultExitThreshold)
            == [1, 1, 0, 0, -1, -1, 0]
  {
    var signal := SignalSeries([-2.0, -2.0, 0.1, 0.1, 2.0, 2.0, 0.1], DefaultEntryThreshold, DefaultExitThreshold);
    assert signal[0] == 1 && signal[1] == 1;
    assert signal[2] == 0 && signal[3] == 0;
    assert signal[4] == -1 && signal[5] == -1;
    assert signal[6] == 0;
  }

  /**
   * The positions of the signal column 1, 1, 0, 0, -1, -1, 0: the two exit
   * rows 2 and 3 leave the long position open, so the position of row 3 is
   * not the signal of row 2.
   */
  lemma WorkedExamplePositions()
    ensures Positions([1, 1, 0, 0, -1, -1, 0]) == [0, 1, 1, 1, 1, -1, -1]
  {
    var signal := [1, 1, 0, 0, -1, -1, 0];
    PositionStep(signal, 0);
    PositionStep(signal, 1);
    PositionStep(signal, 2);
    PositionStep(signal, 3);
    PositionStep(signal, 4);
    PositionStep(signal, 5);
  }

  /**
   * The scan behind the forward fill: walk the signal column once, carrying
   * the last non-zero value seen so far.
   */
  method FillForward(signal: seq<int>) returns (filled: seq<int>)
    ensures filled == ForwardFill(signal)
  {
    filled := [];
    var last := 0;
    var t := 0;
    while t < |signal|
      invariant t <= |signal|
      invariant filled == ForwardFill(signal)[..t]
      invariant last == LastNonZero(signal[..t])
    {
      assert signal[..t + 1] == signal[..t] + [signal[t]];
      LastNonZeroAppend(signal[..t], signal[t]);
      if signal[t] != 0 {
        last := signal[t];
      }
      filled := filled + [last];
      t := t + 1;
    }
  }

  /**
   * The table of signals, one row per z-score. Its columns are arrays; the
   * signal column is overwritten in place by masked assignments, and the pnl
   * column is added later by the P&L calculation.
   */
  class SignalTable {
    const rows: nat
    const longEntry: array<bool>
    const shortEntry: array<bool>
    const exit: array<bool>
    const signal: array<int>
    const position: array<int>
    /** The pnl column; null until it is added. */
    var pnl: array?<real>

    ghost predicate Valid()
      reads this
    {
      && longEntry.Length == rows
      && shortEntry.Length == rows
      && exit.Length == rows
      && signal.Length == rows
      && position.Length == rows
      && longEntry != shortEntry && longEntry != exit && shortEntry != exit
      && signal != position
      && (pnl != null ==> pnl.Length == rows)
    }

    /** A table over `rows` index entries, whose columns are not yet filled in. */
    constructor (rows: nat)
      ensures Valid() && this.rows == rows && pnl == null
      ensures fresh(longEntry) && fresh(shortEntry) && fresh(exit)
      ensures fresh(signal) && fresh(position)
    {
      this.rows := rows;
      longEntry := new bool[rows];
      shortEntry := new bool[rows];
      exit := new bool[rows];
      signal := new int[rows];
      position := new int[rows];
      pnl := null;
    }
  }

  /**
   * Builds the signal table for a z-score series: the three flag columns, the
   * signal column resolved by overwriting, and the position column.
   */
  method GenerateSignals(z: seq<real>, entryThreshold: real := DefaultEntryThreshold,
                         exitThreshold: real := DefaultExitThreshold)
    returns (signals: SignalTable)
    ensures fresh(signals) && fresh(signals.longEntry) && fresh(signals.shortEntry)
    ensures fresh(signals.exit) && fresh(signals.signal) && fresh(signals.position)
    ensures signals.Valid() && signals.rows == |z| && signals.pnl == null
    ensures forall t :: 0 <= t < |z| ==>
              && signals.longEntry[t] == (z[t] < -entryThreshold)
              && signals.shortEntry[t] == (z[t] > entryThreshold)
              && signals.exit[t] == (Abs(z[t]) < exitThreshold)
    ensures signals.signal[..] == SignalSeries(z, entryThreshold, exitThreshold)
    ensures signals.position[..] == Positions(signals.signal[..])
  {
    signals := new SignalTable(|z|);
    forall t | 0 <= t < |z| {
      signals.longEntry[t] := z[t] < -entryThreshold;
    }
    forall t | 0 <= t < |z| {
      signals.shortEntry[t] := z[t] > entryThreshold;
    }
    forall t | 0 <= t < |z| {
      signals.exit[t] := Abs(z[t]) < exitThreshold;
    }

    forall t | 0 <= t < |z| {
      signals.signal[t] := 0;
    }
    forall t | 0 <= t < |z| && signals.longEntry[t] {
      signals.signal[t] := 1;
    }
    forall t | 0 <= t < |z| && signals.shortEntry[t] {
      signals.signal[t] := -1;
    }
    forall t | 0 <= t < |z| && signals.exit[t] {
      signals.signal[t] := 0;
    }
    assert forall t :: 0 <= t < |z| ==> signals.signal[t] == SignalOf(z[t], entryThreshold, exitThreshold);
    assert signals.signal[..] == SignalSeries(z, entryThreshold, exitThreshold);

    var filled := FillForward(signals.signal[..]);
    forall t | 0 <= t < |z| {
      signals.position[t] := if t == 0 then 0 else filled[t - 1];
    }
  }
}
