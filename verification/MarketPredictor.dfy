/**
 The market predictor: a bounded history of observations, and a least-squares
 forecast of each metric. Numbers are reals, and the square root is a parameter.
 */
module MarketPredictor {
  import opened Prelude
  import opened LeastSquares

  datatype Trend = Rising | Flat | Falling

  datatype MetricForecast = MetricForecast(current: real, forecast: seq<real>, confidenceBand: real, trend: Trend, r2: real)

  function AtLeastZero(x: real): real { if x > 0.0 then x else 0.0 }

  function FlatForecast(value: real, horizon: nat): MetricForecast {
    MetricForecast(value, seq(horizon, _ => value), 0.0, Flat, 0.0)
  }

  function TrendOf(b: real): Trend {
    if (if b < 0.0 then -b else b) < 0.000_000_000_001 then Flat else if b > 0.0 then Rising else Falling
  }

  /** What a forecast means: the best line, continued from n on, clamped at zero. */
  ghost predicate IsForecast(sqrt: real -> real, ys: seq<real>, horizon: nat, f: MetricForecast)
    requires |ys| >= 2
  {
    var n := |ys|;
    var (a, b) := (Intercept(ys), Slope(ys));
    var (res, tot) := (SquaredError(ys, a, b, n), SquaredError(ys, Mean(ys), 0.0, n));
    && f.current == ys[n - 1]
    && |f.forecast| == horizon
    && (forall h :: 0 <= h < horizon ==> f.forecast[h] == AtLeastZero(a + Times(b, (n + h) as real)))
    && f.confidenceBand == (if n > 2 then sqrt(res / (n - 2) as real) else 0.0)
    && f.trend == TrendOf(b)
    && f.r2 == if tot > 0.0 then 1.0 - res / tot else 1.0
  }

  /** Fit y = a + b*t and extrapolate. */
  method OlsForecast(sqrt: real -> real, ys: seq<real>, horizon: nat) returns (f: MetricForecast)
    ensures |ys| < 2 ==> f == FlatForecast(if ys == [] then 0.0 else ys[0], horizon)
    ensures |ys| >= 2 ==> IsForecast(sqrt, ys, horizon, f)
  {
    var n := |ys|;
    if n < 2 { return FlatForecast(if n == 0 then 0.0 else ys[0], horizon); }
    hide Times, Residual;
    var sumT, sumY, sumT2, sumTY := 0.0, 0.0, 0.0, 0.0;
    for i := 0 to n
      invariant sumT == SumT(i) && sumY == SumY(ys, i) && sumT2 == SumT2(i) && sumTY == SumTY(ys, i)
    {
      var y := ys[i];
      sumT := sumT + i as real;
      sumY := sumY + y;
      sumT2 := sumT2 + Square(i as real);
      sumTY := sumTY + Times(i as real, y);
    }
    var denom := Times(n as real, sumT2) - Square(sumT);
    var b := if denom != 0.0 then (Times(n as real, sumTY) - Times(sumT, sumY)) / denom else 0.0;
    var a := (sumY - Times(b, sumT)) / n as real;
    var ssRes, ssTot := 0.0, 0.0;
    var yMean := sumY / n as real;
    for i := 0 to n
      invariant ssRes == SquaredError(ys, a, b, i) && ssTot == SquaredError(ys, yMean, 0.0, i)
    {
      ssRes := ssRes + Square(Residual(ys[i], i as real, a, b));
      FlatResidual(ys[i], i as real, yMean);
      ssTot := ssTot + Square(ys[i] - yMean);
    }
    FitExplains(ys);
    var confidenceBand := if n > 2 then sqrt(ssRes / (n - 2) as real) else 0.0;
    var r2 := if ssTot > 0.0 then AtLeastZero(1.0 - ssRes / ssTot) else 1.0;
    var forecast: seq<real> := [];
    for h := 0 to horizon
      invariant |forecast| == h
      invariant forall k :: 0 <= k < h ==> forecast[k] == AtLeastZero(a + Times(b, (n + k) as real))
    {
      forecast := forecast + [AtLeastZero(a + Times(b, (n + h) as real))];
    }
    f := MetricForecast(ys[n - 1], forecast, confidenceBand, TrendOf(b), r2);
  }

  lemma FlatResidual(y: real, t: real, mean: real)
    ensures Residual(y, t, mean, 0.0) == y - mean
  {
  }

  /** A linear history is continued exactly, with no band and a perfect fit. */
  lemma LinearIsExact(sqrt: real -> real, ys: seq<real>, a: real, b: real, horizon: nat, f: MetricForecast)
    requires |ys| >= 2 && IsForecast(sqrt, ys, horizon, f) && sqrt(0.0) == 0.0
    requires forall i :: 0 <= i < |ys| ==> ys[i] == a + Times(b, i as real)
    ensures forall h :: 0 <= h < horizon ==> f.forecast[h] == AtLeastZero(a + Times(b, (|ys| + h) as real))
    ensures f.confidenceBand == 0.0 && f.r2 == 1.0 && f.trend == TrendOf(b)
  {
    hide SquaredError, Intercept, Slope, Mean, Times;
    FitRecovers(ys, a, b);
    ErrorPositive(ys, Mean(ys), 0.0, |ys|);
  }

  /** The coefficient of determination lies between zero and one, and the root is taken of no negative number. */
  lemma DeterminationInRange(sqrt: real -> real, ys: seq<real>, horizon: nat, f: MetricForecast)
    requires |ys| >= 2 && IsForecast(sqrt, ys, horizon, f)
    ensures 0.0 <= f.r2 <= 1.0
    ensures f.confidenceBand == 0.0 || exists x :: x >= 0.0 && f.confidenceBand == sqrt(x)
  {
    FitExplains(ys);
  }

  /** The trend is the sign of the slope, unless that is smaller than 10^-12 either way. */
  lemma TrendIsSign(sqrt: real -> real, ys: seq<real>, horizon: nat, f: MetricForecast)
    requires |ys| >= 2 && IsForecast(sqrt, ys, horizon, f)
    ensures f.trend.Rising? <==> Slope(ys) >= 0.000_000_000_001
    ensures f.trend.Falling? <==> Slope(ys) <= -0.000_000_000_001
  {
    hide Slope, Intercept, SquaredError, Mean;
  }

  /** Growth by 1 a step is rising, decline by 1 a step falling, and neither forecast is ever negative. */
  lemma SteadyTrends(sqrt: real -> real, ys: seq<real>, a: real, horizon: nat, f: MetricForecast)
    requires |ys| >= 2 && IsForecast(sqrt, ys, horizon, f)
    ensures (forall i :: 0 <= i < |ys| ==> ys[i] == a + Times(1.0, i as real)) ==> f.trend.Rising?
    ensures (forall i :: 0 <= i < |ys| ==> ys[i] == a + Times(-1.0, i as real)) ==> f.trend.Falling?
    ensures forall h :: 0 <= h < horizon ==> f.forecast[h] >= 0.0
  {
    TrendIsSign(sqrt, ys, horizon, f);
    hide Slope, Intercept, SquaredError, Mean, Times;
    if forall i :: 0 <= i < |ys| ==> ys[i] == a + Times(1.0, i as real) { FitRecovers(ys, a, 1.0); }
    if forall i :: 0 <= i < |ys| ==> ys[i] == a + Times(-1.0, i as real) { FitRecovers(ys, a, -1.0); }
  }

  /** Each forecast is the line at its time, or zero where that is negative; the band comes from the mean residual on n - 2 degrees of freedom. */
  lemma ForecastIs(sqrt: real -> real, ys: seq<real>, horizon: nat, f: MetricForecast, h: nat, line: real)
    requires |ys| >= 2 && IsForecast(sqrt, ys, horizon, f) && h < horizon
    requires line == Intercept(ys) + Times(Slope(ys), (|ys| + h) as real)
    ensures f.forecast[h] == (if line >= 0.0 then line else 0.0) && f.current == ys[|ys| - 1]
    ensures |ys| == 2 ==> f.confidenceBand == 0.0
    ensures var res := SquaredError(ys, Intercept(ys), Slope(ys), |ys|);
            |ys| > 2 ==> exists x :: f.confidenceBand == sqrt(x) && Times(x, (|ys| - 2) as real) == res
  {
    hide Slope, Intercept, SquaredError, Mean, Times;
    if |ys| > 2 {
      var (res, m) := (SquaredError(ys, Intercept(ys), Slope(ys), |ys|), (|ys| - 2) as real);
      TimesOfQuotient(res, m);
      assert f.confidenceBand == sqrt(res / m);
    }
  }

  /** The part of the squared distance to the mean that the line does not explain; all is explained if there is none. */
  lemma DeterminationIs(sqrt: real -> real, ys: seq<real>, horizon: nat, f: MetricForecast)
    requires |ys| >= 2 && IsForecast(sqrt, ys, horizon, f)
    ensures var (res, tot) := (SquaredError(ys, Intercept(ys), Slope(ys), |ys|), SquaredError(ys, Mean(ys), 0.0, |ys|));
            if tot > 0.0 then Times(1.0 - f.r2, tot) == res else f.r2 == 1.0
  {
    hide Slope, Intercept, SquaredError, Mean, Times;
    var (res, tot) := (SquaredError(ys, Intercept(ys), Slope(ys), |ys|), SquaredError(ys, Mean(ys), 0.0, |ys|));
    if tot > 0.0 { TimesOfQuotient(res, tot); }
  }

  /** Too short a history is continued flat, with no trend and nothing explained. */
  lemma ShortHistory(value: real, horizon: nat)
    ensures var f := FlatForecast(value, horizon);
            && f.current == value && f.confidenceBand == 0.0 && f.trend.Flat? && f.r2 == 0.0
            && |f.forecast| == horizon && forall h :: 0 <= h < horizon ==> f.forecast[h] == value
  {
  }

  // ----- The bounded history -----

  datatype Observation = Observation(txRate: real, gasPriceGst: int, burnRateGst: int)

  datatype Pressure = Inflationary | Neutral | Deflationary

  /** A confidence of None is the source's NaN: no history and no warm-up. */
  datatype Prediction = Prediction(
    chainId: nat, timestamp: int, horizonEpochs: nat,
    txRate: MetricForecast, gasPrice: MetricForecast, burnRate: MetricForecast,
    pressure: Pressure, confidence: Option<real>)

  /** The share of the warm-up seen so far, at most 1; with no warm-up, an infinite share is cut to 1. */
  function Confidence(n: nat, warmup: int): Option<real> {
    if warmup == 0 then (if n == 0 then None else Some(1.0))
    else
      var share := n as real / warmup as real;
      Some(if share < 1.0 then share else 1.0)
  }

  function SupplySignal(demand: Trend, burn: Trend): Pressure {
    if demand.Rising? && !burn.Rising? then Inflationary
    else if demand.Falling? && burn.Rising? then Deflationary
    else if burn.Rising? then Deflationary
    else Neutral
  }

  /** Demand that rises without burning inflates; burning that rises deflates, otherwise; anything else is neutral. */
  lemma PressureIs(demand: Trend, burn: Trend)
    ensures SupplySignal(demand, burn).Deflationary? <==> burn.Rising?
    ensures SupplySignal(demand, burn).Inflationary? <==> demand.Rising? && !burn.Rising?
  {
  }

  /** The confidence grows with the history up to 1, which it reaches with the warm-up. */
  lemma ConfidenceGrows(n: nat, warmup: int)
    requires warmup > 0
    ensures Confidence(n, warmup).Some? && 0.0 <= Confidence(n, warmup).value <= 1.0
    ensures Confidence(n, warmup).value == 1.0 <==> n >= warmup
    ensures n < warmup ==> Confidence(n, warmup).value * warmup as real == n as real
  {
    var share := n as real / warmup as real;
    assert share * warmup as real == n as real;
    if n >= warmup { assert (share - 1.0) * warmup as real >= 0.0; }
    if n < warmup { assert (1.0 - share) * warmup as real > 0.0; }
  }

  /** The last k of a list. */
  function Window<T>(s: seq<T>, k: int): seq<T> {
    if k <= 0 then [] else if |s| <= k then s else s[|s| - k..]
  }

  /** It ends the list, and is as long as k allows. */
  lemma WindowIsLast<T>(s: seq<T>, k: int)
    ensures |Window(s, k)| == if k <= 0 then 0 else if |s| <= k then |s| else k
    ensures forall i :: 0 <= i < |Window(s, k)| ==> Window(s, k)[i] == s[|s| - |Window(s, k)| + i]
  {
  }

  predicate Accepted(o: Observation) { o.txRate >= 0.0 && o.gasPriceGst >= 0 && o.burnRateGst >= 0 }

  /** The forecast of one metric over a history. */
  ghost predicate Forecasts(sqrt: real -> real, ys: seq<real>, horizon: nat, f: MetricForecast) {
    if |ys| < 2 then f == FlatForecast(0.0, horizon) else IsForecast(sqrt, ys, horizon, f)
  }

  function TxRates(s: seq<Observation>): seq<real> { seq(|s|, i requires 0 <= i < |s| => s[i].txRate) }
  function GasPrices(s: seq<Observation>): seq<real> { seq(|s|, i requires 0 <= i < |s| => s[i].gasPriceGst as real) }
  function BurnRates(s: seq<Observation>): seq<real> { seq(|s|, i requires 0 <= i < |s| => s[i].burnRateGst as real) }

  /** Each metric is read from its own field, oldest first. */
  lemma MetricsRead(s: seq<Observation>, i: nat)
    requires i < |s|
    ensures |TxRates(s)| == |GasPrices(s)| == |BurnRates(s)| == |s|
    ensures TxRates(s)[i] == s[i].txRate
    ensures GasPrices(s)[i] == s[i].gasPriceGst as real && BurnRates(s)[i] == s[i].burnRateGst as real
  {
  }

  const MAX_HISTORY: nat := 500

  /** What is predicted from a history. */
  ghost predicate Predicts(sqrt: real -> real, s: seq<Observation>, horizon: nat, p: Prediction) {
    && Forecasts(sqrt, TxRates(s), horizon, p.txRate)
    && Forecasts(sqrt, GasPrices(s), horizon, p.gasPrice)
    && Forecasts(sqrt, BurnRates(s), horizon, p.burnRate)
    && p.pressure == SupplySignal(p.txRate.trend, p.burnRate.trend)
  }

  class Predictor {
    const sqrt: real -> real
    const chainId: nat
    const horizonEpochs: nat
    const historySize: int
    const warmupEpochs: int
    var observations: seq<Observation>
    ghost var all: seq<Observation>

    /** The history is the last historySize of everything accepted so far. */
    ghost predicate Valid()
      reads this
    {
      observations == Window(all, historySize)
    }

    constructor (sqrt: real -> real, chainId: nat, horizonEpochs: int, historySize: int, warmupEpochs: int)
      ensures Valid() && all == []
      ensures this.sqrt == sqrt && this.chainId == chainId
      ensures this.horizonEpochs == (if horizonEpochs > 1 then horizonEpochs else 1)
      ensures this.historySize == if historySize < MAX_HISTORY then historySize else MAX_HISTORY
      ensures this.warmupEpochs == if warmupEpochs < this.historySize then warmupEpochs else this.historySize
    {
      this.sqrt, this.chainId := sqrt, chainId;
      this.horizonEpochs := if horizonEpochs > 1 then horizonEpochs else 1;
      var size := if historySize < MAX_HISTORY then historySize else MAX_HISTORY;
      this.historySize := size;
      this.warmupEpochs := if warmupEpochs < size then warmupEpochs else size;
      observations, all := [], [];
    }

    /** A negative observation is refused (None); any other enters the history and is predicted from. */
    method Observe(o: Observation, now: int) returns (r: Option<Prediction>)
      requires Valid()
      modifies this
      ensures Valid() && all == if Accepted(o) then old(all) + [o] else old(all)
      ensures r.Some? <==> o.txRate >= 0.0 && o.gasPriceGst >= 0 && o.burnRateGst >= 0
      ensures r.Some? ==> Predicts(sqrt, Window(all, historySize), horizonEpochs, r.value)
      ensures r.Some? ==>
        && r.value.chainId == chainId && r.value.timestamp == now / 1000 && r.value.horizonEpochs == horizonEpochs
        && r.value.confidence == Confidence(|Window(all, historySize)|, warmupEpochs)
    {
      hide Predicts;
      if !Accepted(o) { return None; }
      observations := observations + [o];
      if |observations| > historySize { observations := observations[1..]; }
      all := all + [o];
      var p := Predict(now);
      return Some(p);
    }

    method Predict(now: int) returns (p: Prediction)
      ensures Predicts(sqrt, observations, horizonEpochs, p)
      ensures p.chainId == chainId && p.timestamp == now / 1000 && p.horizonEpochs == horizonEpochs
      ensures p.confidence == Confidence(|observations|, warmupEpochs)
    {
      hide IsForecast, FlatForecast;
      var flat := FlatForecast(0.0, horizonEpochs);
      var tx, gas, burn := flat, flat, flat;
      if |observations| >= 2 {
        tx := OlsForecast(sqrt, TxRates(observations), horizonEpochs);
        gas := OlsForecast(sqrt, GasPrices(observations), horizonEpochs);
        burn := OlsForecast(sqrt, BurnRates(observations), horizonEpochs);
      }
      p := Prediction(chainId, now / 1000, horizonEpochs, tx, gas, burn,
                      SupplySignal(tx.trend, burn.trend), Confidence(|observations|, warmupEpochs));
    }
  }
}
