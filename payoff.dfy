/**
 * The payoff calculator: the expiry payoff of the active legs over a sweep of
 * spot prices (`calculate_payoff`), the breakevens found by linear
 * interpolation where the payoff changes sign, and the default sweep of the
 * payoff chart (`payoff_data`).
 */
module Payoff {
  import opened Trades

  /** The larger of 0 and `x`. */
  function Max0(x: real): real {
    if x > 0.0 then x else 0.0
  }

  function Abs(x: real): real {
    if x < 0.0 then -x else x
  }

  /** Value at expiry of one option unit: a call ("CE") pays the spot above the strike, any other type the strike above the spot. */
  function Intrinsic(optionType: string, strike: real, spot: real): (r: real)
    ensures r >= 0.0
    ensures optionType == CALL ==> r >= spot - strike && (r == 0.0 || r == spot - strike)
    ensures optionType != CALL ==> r >= strike - spot && (r == 0.0 || r == strike - spot)
  {
    if optionType == CALL then Max0(spot - strike) else Max0(strike - spot)
  }

  /**
   * Expiry payoff of one leg: its P&L when the option settles at its intrinsic
   * value, under the same sign convention as the live P&L.
   */
  function LegPayoff(leg: Leg, spot: real): (r: real)
    ensures r == SignedPnl(leg.positionType, leg.entryPrice, Intrinsic(leg.optionType, leg.strikePrice, spot), leg.quantity)
  {
    var intrinsic := Intrinsic(leg.optionType, leg.strikePrice, spot);
    if leg.positionType == BUY then (intrinsic - leg.entryPrice) * (leg.quantity as real)
    else (leg.entryPrice - intrinsic) * (leg.quantity as real)
  }

  /** Strategy payoff at one spot price: the sum over the legs. */
  function TotalPayoff(legs: seq<Leg>, spot: real): real
    decreases |legs|
  {
    if legs == [] then 0.0 else TotalPayoff(legs[..|legs| - 1], spot) + LegPayoff(legs[|legs| - 1], spot)
  }

  /** The `payoffs` list of `calculate_payoff`: one strategy payoff per spot price, in order. */
  function Payoffs(legs: seq<Leg>, spots: seq<real>): (r: seq<real>)
    ensures |r| == |spots|
    ensures forall i :: 0 <= i < |spots| ==> r[i] == TotalPayoff(legs, spots[i])
  {
    seq(|spots|, i requires 0 <= i < |spots| => TotalPayoff(legs, spots[i]))
  }

  /** From strictly negative to non-negative, or from non-negative to strictly negative. */
  predicate Crosses(a: real, b: real) {
    (a < 0.0 && b >= 0.0) || (a >= 0.0 && b < 0.0)
  }

  /**
   * The size of `a` over the sizes of `a` and `b` together: at a sign change the denominator is positive,
   * and the ratio is where the straight line from `a` to `b` meets zero.
   */
  function CrossingRatio(a: real, b: real): (t: real)
    requires Crosses(a, b)
    ensures 0.0 <= t <= 1.0
    ensures a + t * (b - a) == 0.0
  {
    var d := Abs(a) + Abs(b);
    assert d > 0.0;
    var t := Abs(a) / d;
    RatioWithinUnit(Abs(a), d);
    assert t * d == Abs(a);
    if a < 0.0 then
      assert d == b - a; t
    else
      assert d == a - b; t
  }

  /** A part over the whole is a fraction between 0 and 1. */
  lemma RatioWithinUnit(x: real, d: real)
    requires 0.0 <= x <= d && d > 0.0
    ensures 0.0 <= x / d <= 1.0
  {
  }

  /** The interpolated breakeven between two consecutive spot prices; it lies between them. */
  function Interpolate(a: real, b: real, spot0: real, spot1: real): (x: real)
    requires Crosses(a, b)
    ensures spot0 <= spot1 ==> spot0 <= x <= spot1
    ensures spot1 <= spot0 ==> spot1 <= x <= spot0
  {
    var t := CrossingRatio(a, b);
    var d := spot1 - spot0;
    ScaleWithin(t, d);
    assert 0.0 <= t * d <= d || d <= t * d <= 0.0;
    spot0 + t * d
  }

  /** A fraction of a distance lies between zero and that distance. */
  lemma ScaleWithin(t: real, d: real)
    requires 0.0 <= t <= 1.0
    ensures d >= 0.0 ==> 0.0 <= t * d <= d
    ensures d <= 0.0 ==> d <= t * d <= 0.0
  {
    var e := if d >= 0.0 then d else -d;
    MulNonNeg(t, e);
    MulNonNeg(1.0 - t, e);
    assert (1.0 - t) * e == e - t * e;
    assert t * d == if d >= 0.0 then t * e else -(t * e);
  }

  lemma MulNonNeg(x: real, y: real)
    requires x >= 0.0 && y >= 0.0
    ensures x * y >= 0.0
  {
  }

  /** The `breakevens` list of `calculate_payoff`, scanning the pairs (i-1, i) in order. */
  function Breakevens(payoffs: seq<real>, spots: seq<real>): seq<real>
    requires |payoffs| == |spots|
    decreases |payoffs|
  {
    var n := |payoffs|;
    if n <= 1 then []
    else Breakevens(payoffs[..n - 1], spots[..n - 1]) +
         (if Crosses(payoffs[n - 2], payoffs[n - 1])
          then [Interpolate(payoffs[n - 2], payoffs[n - 1], spots[n - 2], spots[n - 1])]
          else [])
  }

  /** The indices i at which the payoff changes sign between i-1 and i, in order. */
  function Crossings(payoffs: seq<real>): seq<int>
    decreases |payoffs|
  {
    var n := |payoffs|;
    if n <= 1 then []
    else Crossings(payoffs[..n - 1]) + (if Crosses(payoffs[n - 2], payoffs[n - 1]) then [n - 1] else [])
  }

  /** Each crossing index is a real sign change, listed once and in increasing order. */
  lemma {:induction false} CrossingsSound(payoffs: seq<real>)
    ensures var c := Crossings(payoffs);
            forall j :: 0 <= j < |c| ==> 1 <= c[j] < |payoffs| && Crosses(payoffs[c[j] - 1], payoffs[c[j]])
    ensures var c := Crossings(payoffs);
            forall j, k :: 0 <= j < k < |c| ==> c[j] < c[k]
    decreases |payoffs|
  {
    var n := |payoffs|;
    if n > 1 {
      var prefix := payoffs[..n - 1];
      CrossingsSound(prefix);
      var c := Crossings(payoffs);
      forall j | 0 <= j < |c| ensures 1 <= c[j] < n && Crosses(payoffs[c[j] - 1], payoffs[c[j]]) {
        if j < |Crossings(prefix)| {
          assert c[j] == Crossings(prefix)[j];
          assert prefix[c[j] - 1] == payoffs[c[j] - 1] && prefix[c[j]] == payoffs[c[j]];
        }
      }
    }
  }

  /** Every sign change between consecutive payoffs is a crossing index. */
  lemma {:induction false} CrossingsComplete(payoffs: seq<real>, i: int)
    requires 1 <= i < |payoffs| && Crosses(payoffs[i - 1], payoffs[i])
    ensures i in Crossings(payoffs)
    decreases |payoffs|
  {
    var n := |payoffs|;
    if i < n - 1 {
      var prefix := payoffs[..n - 1];
      assert prefix[i - 1] == payoffs[i - 1] && prefix[i] == payoffs[i];
      CrossingsComplete(prefix, i);
    }
  }

  /** One breakeven per crossing index, interpolated between that index and the one before it. */
  lemma {:induction false} BreakevensAtCrossings(payoffs: seq<real>, spots: seq<real>)
    requires |payoffs| == |spots|
    ensures var b, c := Breakevens(payoffs, spots), Crossings(payoffs);
            |b| == |c| &&
            forall j :: 0 <= j < |c| ==>
              1 <= c[j] < |payoffs| && Crosses(payoffs[c[j] - 1], payoffs[c[j]]) &&
              b[j] == Interpolate(payoffs[c[j] - 1], payoffs[c[j]], spots[c[j] - 1], spots[c[j]])
    decreases |payoffs|
  {
    CrossingsSound(payoffs);
    var n := |payoffs|;
    if n > 1 {
      var p, s := payoffs[..n - 1], spots[..n - 1];
      BreakevensAtCrossings(p, s);
      CrossingsSound(p);
      var b, c := Breakevens(payoffs, spots), Crossings(payoffs);
      forall j | 0 <= j < |c|
        ensures b[j] == Interpolate(payoffs[c[j] - 1], payoffs[c[j]], spots[c[j] - 1], spots[c[j]])
      {
        if j < |Crossings(p)| {
          var i := Crossings(p)[j];
          assert c[j] == i && b[j] == Breakevens(p, s)[j];
          assert p[i - 1] == payoffs[i - 1] && p[i] == payoffs[i];
          assert s[i - 1] == spots[i - 1] && s[i] == spots[i];
        }
      }
    }
  }

  /** A payoff that never goes negative has no breakeven. */
  lemma {:induction false} NonNegativeNoBreakevens(payoffs: seq<real>, spots: seq<real>)
    requires |payoffs| == |spots|
    requires forall i :: 0 <= i < |payoffs| ==> payoffs[i] >= 0.0
    ensures Breakevens(payoffs, spots) == []
    decreases |payoffs|
  {
    var n := |payoffs|;
    if n > 1 {
      var p := payoffs[..n - 1];
      forall i | 0 <= i < |p| ensures p[i] >= 0.0 {
        assert p[i] == payoffs[i];
      }
      NonNegativeNoBreakevens(p, spots[..n - 1]);
    }
  }

  /** With no trades every payoff is zero and there are no breakevens. */
  lemma NoTradesFlatPayoff(spots: seq<real>)
    ensures forall i :: 0 <= i < |spots| ==> Payoffs([], spots)[i] == 0.0
    ensures Breakevens(Payoffs([], spots), spots) == []
  {
    NonNegativeNoBreakevens(Payoffs([], spots), spots);
  }

  /** A BUY call at strike 22000 bought at 100 for 50 units pays 5000 at spot 22200. */
  lemma LongCallExample(leg: Leg)
    requires leg.optionType == CALL && leg.positionType == BUY
    requires leg.strikePrice == 22000.0 && leg.entryPrice == 100.0 && leg.quantity == 50
    ensures Intrinsic(leg.optionType, leg.strikePrice, 22200.0) == 200.0
    ensures LegPayoff(leg, 22200.0) == 5000.0
  {
  }

  /** Payoffs -500 and 500 at spots 100 and 110 break even half-way, at 105. */
  lemma BreakevenExample()
    ensures Breakevens([-500.0, 500.0], [100.0, 110.0]) == [105.0]
  {
    var p, s := [-500.0, 500.0], [100.0, 110.0];
    assert p[..1] == [-500.0] && s[..1] == [100.0];
    assert CrossingRatio(-500.0, 500.0) == 0.5;
  }

  function SumStrikes(legs: seq<Leg>): real
    decreases |legs|
  {
    if legs == [] then 0.0 else SumStrikes(legs[..|legs| - 1]) + legs[|legs| - 1].strikePrice
  }

  /** The centre of the chart: the NIFTY spot once it is positive, otherwise the mean strike. */
  function Center(legs: seq<Leg>, niftySpot: real): (c: real)
    requires legs != []
    ensures niftySpot > 0.0 ==> c == niftySpot
    ensures niftySpot <= 0.0 ==> c * (|legs| as real) == SumStrikes(legs)
  {
    if niftySpot > 0.0 then niftySpot else SumStrikes(legs) / (|legs| as real)
  }

  /** 101 equally spaced spot prices from 10% below to 10% above `center`. */
  function SpotRange(center: real): (r: seq<real>)
    ensures |r| == 101
    ensures r[0] == 0.9 * center && r[100] == 1.1 * center
    ensures forall i :: 0 <= i < 100 ==> r[i + 1] - r[i] == center / 500.0
  {
    var minSpot := center * 0.9;
    var maxSpot := center * 1.1;
    var step := (maxSpot - minSpot) / 100.0;
    seq(101, i requires 0 <= i < 101 => minSpot + (i as real) * step)
  }

  datatype PayoffPoint = PayoffPoint(spot: real, payoff: real)

  /** The chart data of `payoff_data`. */
  function PayoffData(legs: seq<Leg>, niftySpot: real): (r: seq<PayoffPoint>)
    ensures legs == [] <==> r == []
    ensures legs != [] ==>
              |r| == 101 &&
              r[0].spot == 0.9 * Center(legs, niftySpot) &&
              r[100].spot == 1.1 * Center(legs, niftySpot) &&
              (forall i :: 0 <= i < 100 ==> r[i + 1].spot - r[i].spot == Center(legs, niftySpot) / 500.0) &&
              (forall i :: 0 <= i < 101 ==> r[i].payoff == TotalPayoff(legs, r[i].spot))
  {
    if legs == [] then []
    else
      var spots := SpotRange(Center(legs, niftySpot));
      var payoffs := Payoffs(legs, spots);
      seq(101, i requires 0 <= i < 101 => PayoffPoint(spots[i], payoffs[i]))
  }
}
