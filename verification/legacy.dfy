/** Dividend yields of the earlier client (`DivvyData.update_yields` in iexcloud1.py).
    Rates come as a dict from currency code to FX rate. Every ticker is
    copied to the output; a USD dividend is always priced, zero or not, and a
    nonzero dividend in another currency is priced with its currency's rate,
    which must be present. */
module Legacy {
  import opened Base
  import opened Records
  import opened Money
  import opened Dicts
  import opened Yields

  /** The loop body for one ticker. */
  function LegacyYield(h: Holding, rates: map<string, real>): (r: Result<Holding>)
    ensures r.Success? ==> SameRecord(r.value, h)
    ensures r.Failure? <==>
      (h.divvy.currency == "USD" && h.quote.latestPrice == 0.0)
      || (h.divvy.currency != "USD" && h.divvy.amount != 0.0
        && (h.divvy.currency !in rates || rates[h.divvy.currency] == 0.0 || h.quote.latestPrice == 0.0))
    ensures r.Failure? ==> r.error == if h.divvy.currency in rates || h.divvy.currency == "USD" then DivisionByZero else KeyError
    ensures r.Success? && h.divvy.currency != "USD" && h.divvy.amount == 0.0 ==> r.value == h
    ensures r.Success? && (h.divvy.currency == "USD" || h.divvy.amount != 0.0) ==>
      r.value.divYield.Some? && r.value.divYield.value.usd == h.divvy.amount
    ensures r.Success? && h.divvy.currency == "USD" ==> (h.quote.latestPrice != 0.0
      && r.value.divYield == Some(UsdDivYield(h.divvy.amount, h.quote.latestPrice)))
    ensures r.Success? && h.divvy.currency != "USD" && h.divvy.amount != 0.0 ==> (h.divvy.currency in rates
      && rates[h.divvy.currency] != 0.0 && h.quote.latestPrice != 0.0
      && r.value.divYield == Some(FxDivYield(h.divvy.amount, rates[h.divvy.currency], h.quote.latestPrice)))
  {
    var cur := h.divvy.currency;
    var price := h.quote.latestPrice;
    if cur == "USD" then
      if price == 0.0 then Failure(DivisionByZero)
      else Success(h.(divYield := Some(UsdDivYield(h.divvy.amount, price))))
    else if h.divvy.amount == 0.0 then Success(h)
    else if cur !in rates then Failure(KeyError)
    else if rates[cur] == 0.0 || price == 0.0 then Failure(DivisionByZero)
    else Success(h.(divYield := Some(FxDivYield(h.divvy.amount, rates[cur], price))))
  }

  /** The earlier client's yield update over all tickers: the same
      tickers in the same order, or the first raise. */
  function UpdateYields(rates: map<string, real>, d: Dict<Holding>): (r: Result<Dict<Holding>>)
    ensures r.Success? <==> forall i :: 0 <= i < |d| ==> LegacyYield(d[i].1, rates).Success?
    ensures r.Failure? ==> exists i :: (0 <= i < |d| && LegacyYield(d[i].1, rates) == Failure(r.error)
      && forall j :: 0 <= j < i ==> LegacyYield(d[j].1, rates).Success?)
    ensures r.Success? ==> |r.value| == |d|
    ensures r.Success? ==> forall i :: 0 <= i < |d| ==> r.value[i].0 == d[i].0 && SameRecord(r.value[i].1, d[i].1)
    ensures r.Success? ==> forall i :: 0 <= i < |d| ==> Success(r.value[i].1) == LegacyYield(d[i].1, rates)
  {
    if |d| == 0 then Success([])
    else
      var n := |d| - 1;
      var prefix: Dict<Holding> := d[..n];
      assert forall i :: 0 <= i < n ==> prefix[i] == d[i];
      var acc :- UpdateYields(rates, prefix);
      var h :- LegacyYield(d[n].1, rates);
      UpdateYieldsSnoc(rates, d, acc, h);
      Success(acc + [(d[n].0, h)])
  }

  /** The loop step: the priced prefix and the priced last ticker. */
  lemma UpdateYieldsSnoc(rates: map<string, real>, d: Dict<Holding>, acc: Dict<Holding>, h: Holding)
    requires |d| > 0 && |acc| == |d| - 1
    requires forall i :: 0 <= i < |acc| ==> acc[i].0 == d[i].0 && Success(acc[i].1) == LegacyYield(d[i].1, rates)
    requires Success(h) == LegacyYield(d[|d| - 1].1, rates)
    ensures var out := acc + [(d[|d| - 1].0, h)];
      forall i :: 0 <= i < |d| ==> (out[i].0 == d[i].0 && SameRecord(out[i].1, d[i].1)
        && Success(out[i].1) == LegacyYield(d[i].1, rates))
  {
  }

  /** Unlike the current scanner, which leaves zero dividends out, the earlier
      client keeps a zero USD dividend with a 0.00% yield. */
  lemma LegacyKeepsZeroUsd(rates: map<string, real>, d: Dict<Holding>, i: int)
    requires 0 <= i < |d| && d[i].1.divvy.currency == "USD" && d[i].1.divvy.amount == 0.0
    requires UpdateYields(rates, d).Success?
    ensures d[i].0 in Keys(UpdateYields(rates, d).value)
    ensures UpdateYields(rates, d).value[i].1.divYield == Some(DivYield(0.0, 0.0))
  {
    Round2OnGrid(0.0);
  }

  /** A nonzero dividend in a currency the rates do not cover makes the whole
      call raise KeyError, unless an earlier ticker already raised. */
  lemma LegacyMissingRateRaises(rates: map<string, real>, d: Dict<Holding>, i: int)
    requires 0 <= i < |d|
    requires d[i].1.divvy.currency != "USD" && d[i].1.divvy.amount != 0.0 && d[i].1.divvy.currency !in rates
    requires forall j :: 0 <= j < i ==> LegacyYield(d[j].1, rates).Success?
    ensures UpdateYields(rates, d) == Failure(KeyError)
  {
    var r := UpdateYields(rates, d);
    assert r.Failure?;
    var m :| 0 <= m < |d| && LegacyYield(d[m].1, rates) == Failure(r.error)
      && forall j :: 0 <= j < m ==> LegacyYield(d[j].1, rates).Success?;
    assert m == i;
  }

  /** For a nonzero USD dividend both clients compute the same yield. */
  lemma LegacyAgreesOnUsd(rates: map<string, real>, d: Dict<Holding>, fx: seq<FxQuote>, i: int)
    requires 0 <= i < |d| && d[i].1.divvy.currency == "USD" && d[i].1.divvy.amount != 0.0
    requires UpdateYields(rates, d).Success? && CurrencyConversion(d, fx).Success?
    ensures Get(CurrencyConversion(d, fx).value, d[i].0) == Some(UpdateYields(rates, d).value[i].1)
  {
    ConversionPricesUsd(d, fx, i);
    var h := d[i].1;
    assert Success(UpdateYields(rates, d).value[i].1) == LegacyYield(h, rates);
    assert LegacyYield(h, rates) == Success(h.(divYield := Some(UsdDivYield(h.divvy.amount, h.quote.latestPrice))));
  }

  /** For a nonzero dividend in another currency, both clients compute the
      same yield when the rate the earlier client is given for the currency
      is the rate of the last FX quote the current scanner matches. */
  lemma LegacyAgreesOnFx(rates: map<string, real>, d: Dict<Holding>, fx: seq<FxQuote>, i: int, j: int)
    requires 0 <= i < |d|
    requires d[i].1.divvy.currency != "USD" && d[i].1.divvy.currency != "" && d[i].1.divvy.amount != 0.0
    requires IsLastMatch(fx, d[i].1.divvy.currency, j)
    requires d[i].1.divvy.currency in rates && rates[d[i].1.divvy.currency] == fx[j].rate
    requires UpdateYields(rates, d).Success? && CurrencyConversion(d, fx).Success?
    ensures Get(CurrencyConversion(d, fx).value, d[i].0) == Some(UpdateYields(rates, d).value[i].1)
  {
    ConversionPricesFx(d, fx, i, j);
    var h := d[i].1;
    assert Success(UpdateYields(rates, d).value[i].1) == LegacyYield(h, rates);
    assert LegacyYield(h, rates) == Success(h.(divYield := Some(FxDivYield(h.divvy.amount, fx[j].rate, h.quote.latestPrice))));
  }
}
