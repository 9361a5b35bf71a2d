/** `CalculateTraderPerformance` of polymarket-trader (internal/core/analytics.go):
    the win rate, total PnL and number of realised trades in a trade history. A
    trade is realised when its PnL is not zero, and a win when it is positive. */
module Analytics {

  /** The one field of a historical trade that the computation reads. */
  datatype HistoricalTrade = HistoricalTrade(pnl: real)

  /** The number of realised trades. */
  function Count(trades: seq<HistoricalTrade>): nat {
    if trades == [] then 0
    else Count(trades[..|trades| - 1]) + (if trades[|trades| - 1].pnl != 0.0 then 1 else 0)
  }

  /** The number of winning trades. */
  function Wins(trades: seq<HistoricalTrade>): nat {
    if trades == [] then 0
    else Wins(trades[..|trades| - 1]) + (if trades[|trades| - 1].pnl > 0.0 then 1 else 0)
  }

  /** The sum of the PnLs of the realised trades. */
  function RealisedPnl(trades: seq<HistoricalTrade>): real {
    if trades == [] then 0.0
    else
      var t := trades[|trades| - 1];
      RealisedPnl(trades[..|trades| - 1]) + (if t.pnl != 0.0 then t.pnl else 0.0)
  }

  /** The sum of all PnLs, folded from the front. */
  function TotalPnl(trades: seq<HistoricalTrade>): real {
    if trades == [] then 0.0 else trades[0].pnl + TotalPnl(trades[1..])
  }

  /** `wins / count`, or 0 without realised trades. */
  function WinRate(wins: nat, count: nat): real {
    if count > 0 then wins as real / count as real else 0.0
  }

  /** `CalculateTraderPerformance(trades)`: returns the win rate, the total PnL and
      the count. */
  method CalculateTraderPerformance(trades: seq<HistoricalTrade>)
    returns (winRate: real, totalPnl: real, count: int)
    ensures count == Count(trades) && totalPnl == RealisedPnl(trades)
    ensures winRate == WinRate(Wins(trades), Count(trades))
    ensures 0.0 <= winRate <= 1.0 && 0 <= count <= |trades|
  {
    if |trades| == 0 {
      return 0.0, 0.0, 0;
    }
    totalPnl := 0.0;
    var wins := 0;
    count := 0;
    for i := 0 to |trades|
      invariant count == Count(trades[..i]) && wins == Wins(trades[..i])
      invariant totalPnl == RealisedPnl(trades[..i])
    {
      assert trades[..i + 1][..i] == trades[..i];
      var t := trades[i];
      if t.pnl != 0.0 {
        totalPnl := totalPnl + t.pnl;
        if t.pnl > 0.0 {
          wins := wins + 1;
        }
        count := count + 1;
      }
    }
    assert trades[..|trades|] == trades;
    winRate := 0.0;
    if count > 0 {
      winRate := wins as real / count as real;
    }
    WinsAtMostCount(trades);
    CountAtMostLength(trades);
    WinRateBounds(Wins(trades), Count(trades));
  }

  /** Every win is a realised trade. */
  lemma {:induction false} WinsAtMostCount(trades: seq<HistoricalTrade>)
    ensures Wins(trades) <= Count(trades)
    decreases |trades|
  {
    if trades != [] {
      WinsAtMostCount(trades[..|trades| - 1]);
    }
  }

  /** At most every trade is realised. */
  lemma {:induction false} CountAtMostLength(trades: seq<HistoricalTrade>)
    ensures Count(trades) <= |trades|
    decreases |trades|
  {
    if trades != [] {
      CountAtMostLength(trades[..|trades| - 1]);
    }
  }

  /** The win rate lies between 0 and 1 when the wins do not exceed the count. */
  lemma {:induction false} WinRateBounds(wins: nat, count: nat)
    requires wins <= count
    ensures 0.0 <= WinRate(wins, count) <= 1.0
  {
    if count > 0 {
      assert wins as real <= count as real;
    }
  }

  /** Leaving the zero PnLs out of the sum changes nothing: the realised PnL is the
      total PnL of all trades. */
  lemma {:induction false} RealisedIsTotal(trades: seq<HistoricalTrade>)
    ensures RealisedPnl(trades) == TotalPnl(trades)
    decreases |trades|
  {
    if trades != [] {
      var init := trades[..|trades| - 1];
      RealisedIsTotal(init);
      TotalPnlSnoc(init, trades[|trades| - 1]);
      assert init + [trades[|trades| - 1]] == trades;
    }
  }

  /** Adding a trade at the end adds its PnL. */
  lemma {:induction false} TotalPnlSnoc(trades: seq<HistoricalTrade>, t: HistoricalTrade)
    ensures TotalPnl(trades + [t]) == TotalPnl(trades) + t.pnl
    decreases |trades|
  {
    if trades != [] {
      assert (trades + [t])[1..] == trades[1..] + [t];
      TotalPnlSnoc(trades[1..], t);
    } else {
      assert [t][1..] == [];
    }
  }

  /** A history of zero-PnL trades only counts as no history at all: count 0,
      PnL 0 and win rate 0, exactly like the empty list. */
  lemma {:induction false} OnlyZeroPnlIsLikeEmpty(trades: seq<HistoricalTrade>)
    requires forall i :: 0 <= i < |trades| ==> trades[i].pnl == 0.0
    ensures Count(trades) == 0 && Wins(trades) == 0 && RealisedPnl(trades) == 0.0
    ensures WinRate(Wins(trades), Count(trades)) == 0.0
    decreases |trades|
  {
    if trades != [] {
      OnlyZeroPnlIsLikeEmpty(trades[..|trades| - 1]);
    }
  }

  /** Counts split over concatenation, so a history may be evaluated in parts. */
  lemma {:induction false} CountAppend(a: seq<HistoricalTrade>, b: seq<HistoricalTrade>)
    ensures Count(a + b) == Count(a) + Count(b)
    ensures Wins(a + b) == Wins(a) + Wins(b)
    decreases |b|
  {
    if b == [] {
      assert a + b == a;
    } else {
      var init := b[..|b| - 1];
      assert (a + b)[..|a + b| - 1] == a + init;
      CountAppend(a, init);
    }
  }
}
