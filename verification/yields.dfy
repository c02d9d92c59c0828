/** Dividend yields of the current scanner (`DivvyData.currency_conversion`).
    A first pass prices every nonzero USD dividend against the delayed quote
    and notes the currency of every other nonzero dividend; a second pass
    walks the FX feed for each noted ticker and prices its dividend with every
    quote whose symbol, with "USD" deleted, is the dividend's currency. The
    FX feed is a parameter: it is the response of the one FX request, which
    is only made when some currency was noted. */
module Yields {
  import opened Base
  import opened Records
  import opened Text
  import opened Money
  import opened Dicts

  /** Yield of a USD dividend: `round(amount / latestPrice * 100, 2)` and the amount. */
  function UsdDivYield(amount: real, price: real): DivYield
    requires price != 0.0
  {
    DivYield(Round2(amount / price * 100.0), amount)
  }

  /** Yield of a dividend paid in another currency: the amount is first divided
      by the FX rate; the dollar field keeps the unconverted local amount. */
  function FxDivYield(amount: real, rate: real, price: real): DivYield
    requires rate != 0.0 && price != 0.0
  {
    DivYield(Round2(amount / rate / price * 100.0), amount)
  }

  /** First pass, USD branch: a nonzero USD dividend gets its yield; dividing
      by a zero price raises. */
  function UsdStep(k: string, h: Holding): Result<Option<Holding>>
  {
    if h.divvy.currency == "USD" && h.divvy.amount != 0.0 then
      if h.quote.latestPrice == 0.0 then Failure(DivisionByZero)
      else Success(Some(h.(divYield := Some(UsdDivYield(h.divvy.amount, h.quote.latestPrice)))))
    else Success(None)
  }

  /** First pass, other branch: notes the ticker's currency for a nonzero
      dividend with a non-empty currency code. */
  function PendingStep(k: string, h: Holding): Result<Option<string>>
  {
    if h.divvy.currency != "USD" && h.divvy.amount != 0.0 && h.divvy.currency != "" then
      Success(Some(h.divvy.currency))
    else Success(None)
  }

  /** An FX quote matches a currency when its symbol with every "USD" deleted
      is the currency code. */
  predicate Matches(item: FxQuote, cur: string)
  {
    StripUsd(item.symbol) == cur
  }

  /** `j` is the last FX quote that matches `cur`. */
  predicate IsLastMatch(fx: seq<FxQuote>, cur: string, j: int)
  {
    0 <= j < |fx| && Matches(fx[j], cur) && forall m :: j < m < |fx| ==> !Matches(fx[m], cur)
  }

  /** A matching FX quote whose division raises. */
  predicate FxCrashes(h: Holding, cur: string, fx: seq<FxQuote>)
  {
    exists j :: 0 <= j < |fx| && Matches(fx[j], cur) && (fx[j].rate == 0.0 || h.quote.latestPrice == 0.0)
  }

  lemma FxCrashesSnoc(h: Holding, cur: string, fx: seq<FxQuote>)
    requires |fx| > 0
    ensures var n := |fx| - 1;
      FxCrashes(h, cur, fx) <==> (FxCrashes(h, cur, fx[..n])
        || (Matches(fx[n], cur) && (fx[n].rate == 0.0 || h.quote.latestPrice == 0.0)))
  {
    var n := |fx| - 1;
    assert forall j :: 0 <= j < n ==> fx[..n][j] == fx[j];
    if FxCrashes(h, cur, fx) {
      var j :| 0 <= j < |fx| && Matches(fx[j], cur) && (fx[j].rate == 0.0 || h.quote.latestPrice == 0.0);
      if j < n {
        assert fx[..n][j] == fx[j];
      }
    }
  }

  /** Second pass for one ticker: every matching quote re-prices the dividend,
      so the last one decides; a raise aborts the whole conversion. */
  function FxScan(h: Holding, cur: string, fx: seq<FxQuote>): (r: Result<Option<DivYield>>)
    ensures r.Failure? <==> FxCrashes(h, cur, fx)
    ensures r.Failure? ==> r.error == DivisionByZero
  {
    if |fx| == 0 then Success(None)
    else
      var n := |fx| - 1;
      FxCrashesSnoc(h, cur, fx);
      match FxScan(h, cur, fx[..n])
      case Failure(e) => Failure(e)
      case Success(acc) =>
        if !Matches(fx[n], cur) then Success(acc)
        else if fx[n].rate == 0.0 || h.quote.latestPrice == 0.0 then Failure(DivisionByZero)
        else Success(Some(FxDivYield(h.divvy.amount, fx[n].rate, h.quote.latestPrice)))
  }

  /** Without a raise, a ticker is priced exactly when some quote matches,
      and then with the rate of the last matching quote. */
  lemma {:induction false} FxScanLastMatch(h: Holding, cur: string, fx: seq<FxQuote>)
    requires FxScan(h, cur, fx).Success?
    ensures FxScan(h, cur, fx).value.None? <==> forall j :: 0 <= j < |fx| ==> !Matches(fx[j], cur)
    ensures FxScan(h, cur, fx).value.Some? ==> exists j :: (IsLastMatch(fx, cur, j)
      && fx[j].rate != 0.0 && h.quote.latestPrice != 0.0
      && FxScan(h, cur, fx).value.value == FxDivYield(h.divvy.amount, fx[j].rate, h.quote.latestPrice))
  {
    if |fx| > 0 {
      var n := |fx| - 1;
      var prefix := fx[..n];
      FxScanLastMatch(h, cur, prefix);
      if Matches(fx[n], cur) {
        assert IsLastMatch(fx, cur, n);
      } else {
        assert FxScan(h, cur, fx) == FxScan(h, cur, prefix);
        NoMatchSnoc(fx, prefix, cur);
        if FxScan(h, cur, prefix).value.Some? {
          var j :| IsLastMatch(prefix, cur, j) && prefix[j].rate != 0.0 && h.quote.latestPrice != 0.0
            && FxScan(h, cur, prefix).value.value == FxDivYield(h.divvy.amount, prefix[j].rate, h.quote.latestPrice);
          LastMatchSnoc(fx, cur, j);
        }
      }
    }
  }

  /** A last quote that does not match leaves the matches as they were. */
  lemma NoMatchSnoc(fx: seq<FxQuote>, prefix: seq<FxQuote>, cur: string)
    requires |fx| > 0 && prefix == fx[..|fx| - 1] && !Matches(fx[|fx| - 1], cur)
    ensures (forall j :: 0 <= j < |fx| ==> !Matches(fx[j], cur))
      <==> (forall j :: 0 <= j < |prefix| ==> !Matches(prefix[j], cur))
  {
    assert forall j :: 0 <= j < |prefix| ==> prefix[j] == fx[j];
  }

  lemma LastMatchSnoc(fx: seq<FxQuote>, cur: string, j: int)
    requires |fx| > 0 && !Matches(fx[|fx| - 1], cur)
    requires IsLastMatch(fx[..|fx| - 1], cur, j)
    ensures IsLastMatch(fx, cur, j)
  {
    assert forall m :: 0 <= m < |fx| - 1 ==> fx[..|fx| - 1][m] == fx[m];
  }

  /** Second pass, one noted ticker: store the priced record when a quote matched. */
  function FxStep(d: Dict<Holding>, fx: seq<FxQuote>, k: string, cur: string): Result<Option<Holding>>
  {
    match Get(d, k)
    case None => Success(None)
    case Some(h) =>
      match FxScan(h, cur, fx)
      case Failure(e) => Failure(e)
      case Success(None) => Success(None)
      case Success(Some(y)) => Success(Some(h.(divYield := Some(y))))
  }

  /** The noted non-USD tickers with their currencies (`currency_conversion`). */
  function Pending(d: Dict<Holding>): (p: Dict<string>)
    ensures forall k :: Get(p, k) == LastHit(d, PendingStep, k)
  {
    assert forall i :: 0 <= i < |d| ==> PendingStep(d[i].0, d[i].1).Success?;
    Gather([], d, PendingStep).value
  }

  /** The body of the second pass as a function of the noted ticker. */
  function FxPass(d: Dict<Holding>, fx: seq<FxQuote>): (string, string) -> Result<Option<Holding>>
  {
    (k, cur) => FxStep(d, fx, k, cur)
  }

  /** The whole conversion of the scanner's records, given the FX feed's response. */
  function CurrencyConversion(d: Dict<Holding>, fx: seq<FxQuote>): Result<Dict<Holding>>
  {
    var usd :- Gather([], d, UsdStep);
    var pending := Pending(d);
    if |pending| == 0 then Success(usd)
    else Gather(usd, pending, FxPass(d, fx))
  }

  lemma UsdPassAt(d: Dict<Holding>, i: int)
    requires 0 <= i < |d|
    requires Gather([], d, UsdStep).Success?
    ensures Get(Gather([], d, UsdStep).value, d[i].0) == UsdStep(d[i].0, d[i].1).value
  {
    LastHitDistinct(d, UsdStep, i);
  }

  lemma PendingAt(d: Dict<Holding>, i: int)
    requires 0 <= i < |d|
    ensures Get(Pending(d), d[i].0) == PendingStep(d[i].0, d[i].1).value
  {
    LastHitDistinct(d, PendingStep, i);
  }

  lemma FxPassAt(d: Dict<Holding>, fx: seq<FxQuote>, usd: Dict<Holding>, i: int)
    requires 0 <= i < |d|
    requires Gather(usd, Pending(d), FxPass(d, fx)).Success?
    ensures var (k, h) := d[i];
      PendingStep(k, h).value.Some? ==> FxScan(h, h.divvy.currency, fx).Success?
    ensures var (k, h) := d[i];
      Get(Gather(usd, Pending(d), FxPass(d, fx)).value, k) ==
        if PendingStep(k, h).value.Some? && FxStep(d, fx, k, h.divvy.currency).value.Some?
        then FxStep(d, fx, k, h.divvy.currency).value
        else Get(usd, k)
  {
    var (k, h) := d[i];
    var pending := Pending(d);
    PendingAt(d, i);
    GetAt(d, i);
    if PendingStep(k, h).value.Some? {
      var m :| 0 <= m < |pending| && pending[m] == (k, h.divvy.currency);
      LastHitDistinct(pending, FxPass(d, fx), m);
      assert FxPass(d, fx)(k, h.divvy.currency) == FxStep(d, fx, k, h.divvy.currency);
    } else {
      LastHitAbsent(pending, FxPass(d, fx), k);
    }
  }

  /** What the conversion holds for the ticker at position `i`: the first
      pass's record for a USD dividend, the second pass's for a noted one. */
  lemma ConversionGet(d: Dict<Holding>, fx: seq<FxQuote>, i: int)
    requires 0 <= i < |d|
    requires CurrencyConversion(d, fx).Success?
    ensures var (k, h) := d[i];
      PendingStep(k, h).value.Some? ==> FxScan(h, h.divvy.currency, fx).Success?
    ensures var (k, h) := d[i];
      Get(CurrencyConversion(d, fx).value, k) ==
        if UsdStep(k, h).value.Some? then UsdStep(k, h).value
        else if PendingStep(k, h).value.Some? then FxStep(d, fx, k, h.divvy.currency).value
        else None
  {
    var (k, h) := d[i];
    var usdR := Gather([], d, UsdStep);
    assert usdR.Success?;
    var usd := usdR.value;
    UsdPassAt(d, i);
    PendingAt(d, i);
    if |Pending(d)| > 0 {
      FxPassAt(d, fx, usd, i);
    }
  }

  /** A zero dividend never gets a yield and never reaches the output. */
  lemma ConversionDropsZeroAmounts(d: Dict<Holding>, fx: seq<FxQuote>, i: int)
    requires 0 <= i < |d| && d[i].1.divvy.amount == 0.0
    requires CurrencyConversion(d, fx).Success?
    ensures d[i].0 !in Keys(CurrencyConversion(d, fx).value)
  {
    ConversionGet(d, fx, i);
  }

  /** A nonzero USD dividend is priced against the delayed quote, and its
      dollar amount is the dividend itself. */
  lemma ConversionPricesUsd(d: Dict<Holding>, fx: seq<FxQuote>, i: int)
    requires 0 <= i < |d|
    requires d[i].1.divvy.currency == "USD" && d[i].1.divvy.amount != 0.0
    requires CurrencyConversion(d, fx).Success?
    ensures d[i].1.quote.latestPrice != 0.0
    ensures Get(CurrencyConversion(d, fx).value, d[i].0) ==
      Some(d[i].1.(divYield := Some(UsdDivYield(d[i].1.divvy.amount, d[i].1.quote.latestPrice))))
  {
    ConversionGet(d, fx, i);
    assert Gather([], d, UsdStep).Success?;
  }

  /** A nonzero dividend in another currency is priced with the rate of the
      last FX quote whose symbol strips to that currency; its dollar amount
      stays the unconverted local amount. */
  lemma ConversionPricesFx(d: Dict<Holding>, fx: seq<FxQuote>, i: int, j: int)
    requires 0 <= i < |d|
    requires d[i].1.divvy.currency != "USD" && d[i].1.divvy.currency != "" && d[i].1.divvy.amount != 0.0
    requires IsLastMatch(fx, d[i].1.divvy.currency, j)
    requires CurrencyConversion(d, fx).Success?
    ensures fx[j].rate != 0.0 && d[i].1.quote.latestPrice != 0.0
    ensures Get(CurrencyConversion(d, fx).value, d[i].0) ==
      Some(d[i].1.(divYield := Some(FxDivYield(d[i].1.divvy.amount, fx[j].rate, d[i].1.quote.latestPrice))))
  {
    var (k, h) := d[i];
    ConversionGet(d, fx, i);
    GetAt(d, i);
    var cur := h.divvy.currency;
    FxScanLastMatch(h, cur, fx);
    assert FxScan(h, cur, fx).value.Some?;
    var y := FxScan(h, cur, fx).value.value;
    assert Get(CurrencyConversion(d, fx).value, k) == Some(h.(divYield := Some(y)));
    var j' :| IsLastMatch(fx, cur, j') && fx[j'].rate != 0.0 && h.quote.latestPrice != 0.0
      && y == FxDivYield(h.divvy.amount, fx[j'].rate, h.quote.latestPrice);
    LastMatchUnique(fx, cur, j, j');
    assert y == FxDivYield(h.divvy.amount, fx[j].rate, h.quote.latestPrice);
    assert h == d[i].1 && k == d[i].0;
    assert Get(CurrencyConversion(d, fx).value, d[i].0) == Some(h.(divYield := Some(y)));
  }

  lemma LastMatchUnique(fx: seq<FxQuote>, cur: string, j: int, j': int)
    requires IsLastMatch(fx, cur, j) && IsLastMatch(fx, cur, j')
    ensures j == j'
  {
  }

  /** A noted ticker whose currency no FX quote matches, or a nonzero
      dividend with no currency code, is silently left out. */
  lemma ConversionSkipsUnmatched(d: Dict<Holding>, fx: seq<FxQuote>, i: int)
    requires 0 <= i < |d|
    requires d[i].1.divvy.currency != "USD" && d[i].1.divvy.amount != 0.0
    requires d[i].1.divvy.currency == "" || forall j :: 0 <= j < |fx| ==> !Matches(fx[j], d[i].1.divvy.currency)
    requires CurrencyConversion(d, fx).Success?
    ensures d[i].0 !in Keys(CurrencyConversion(d, fx).value)
  {
    var (k, h) := d[i];
    ConversionGet(d, fx, i);
    if h.divvy.currency != "" {
      GetAt(d, i);
      FxScanLastMatch(h, h.divvy.currency, fx);
    }
  }

  /** A nonzero USD dividend against a zero price: the first pass raises. */
  predicate UsdRaises(h: Holding)
  {
    h.divvy.currency == "USD" && h.divvy.amount != 0.0 && h.quote.latestPrice == 0.0
  }

  /** A noted dividend with a matching FX quote whose division is by zero:
      the second pass raises. */
  predicate NotedRaises(h: Holding, fx: seq<FxQuote>)
  {
    h.divvy.currency != "USD" && h.divvy.currency != "" && h.divvy.amount != 0.0
    && FxCrashes(h, h.divvy.currency, fx)
  }

  lemma FxPassFailsWhenRaising(d: Dict<Holding>, fx: seq<FxQuote>, usd: Dict<Holding>, i: int)
    requires 0 <= i < |d| && NotedRaises(d[i].1, fx)
    ensures Gather(usd, Pending(d), FxPass(d, fx)).Failure?
  {
    var pending := Pending(d);
    var k := d[i].0;
    var cur := d[i].1.divvy.currency;
    PendingAt(d, i);
    assert (k, cur) in pending;
    var m :| 0 <= m < |pending| && pending[m] == (k, cur);
    GetAt(d, i);
    assert FxPass(d, fx)(pending[m].0, pending[m].1).Failure?;
  }

  lemma FxPassFailsOnlyWhenRaising(d: Dict<Holding>, fx: seq<FxQuote>, usd: Dict<Holding>)
    requires Gather(usd, Pending(d), FxPass(d, fx)).Failure?
    ensures exists i :: 0 <= i < |d| && NotedRaises(d[i].1, fx)
    ensures Gather(usd, Pending(d), FxPass(d, fx)).error == DivisionByZero
  {
    var pending := Pending(d);
    var g := Gather(usd, pending, FxPass(d, fx));
    var m :| 0 <= m < |pending| && FxPass(d, fx)(pending[m].0, pending[m].1) == Failure(g.error);
    var k := pending[m].0;
    var cur := pending[m].1;
    GetAt(pending, m);
    LastHitSome(d, PendingStep, k);
    var i :| 0 <= i < |d| && d[i].0 == k && PendingStep(d[i].0, d[i].1) == Success(LastHit(d, PendingStep, k));
    GetAt(d, i);
    assert FxScan(d[i].1, cur, fx).Failure?;
    assert NotedRaises(d[i].1, fx);
  }

  /** The conversion raises exactly when some ticker makes either pass
      divide by zero, and the raise is then a division by zero. */
  lemma ConversionFailsIff(d: Dict<Holding>, fx: seq<FxQuote>)
    ensures CurrencyConversion(d, fx).Failure? <==>
      (exists i :: 0 <= i < |d| && UsdRaises(d[i].1)) || (exists i :: 0 <= i < |d| && NotedRaises(d[i].1, fx))
    ensures CurrencyConversion(d, fx).Failure? ==> CurrencyConversion(d, fx).error == DivisionByZero
  {
    var usdR := Gather([], d, UsdStep);
    if usdR.Failure? {
      var i :| 0 <= i < |d| && UsdStep(d[i].0, d[i].1) == Failure(usdR.error);
      assert UsdRaises(d[i].1);
    } else {
      assert forall i :: 0 <= i < |d| ==> !UsdRaises(d[i].1) by {
        forall i | 0 <= i < |d| ensures !UsdRaises(d[i].1) {
          assert UsdStep(d[i].0, d[i].1).Success?;
        }
      }
      var g := Gather(usdR.value, Pending(d), FxPass(d, fx));
      if exists i :: 0 <= i < |d| && NotedRaises(d[i].1, fx) {
        var i :| 0 <= i < |d| && NotedRaises(d[i].1, fx);
        FxPassFailsWhenRaising(d, fx, usdR.value, i);
        PendingAt(d, i);
      }
      if |Pending(d)| > 0 && g.Failure? {
        FxPassFailsOnlyWhenRaising(d, fx, usdR.value);
      }
    }
  }

  /** The conversion invents no ticker. */
  lemma ConversionKeysSubset(d: Dict<Holding>, fx: seq<FxQuote>)
    requires CurrencyConversion(d, fx).Success?
    ensures Keys(CurrencyConversion(d, fx).value) <= Keys(d)
  {
    var usd := Gather([], d, UsdStep).value;
    assert Keys(usd) <= Keys(d);
    if |Pending(d)| > 0 {
      var pending := Pending(d);
      assert Keys(pending) <= Keys(d);
      var g := Gather(usd, pending, FxPass(d, fx));
      assert Keys(g.value) <= Keys(usd) + Keys(pending);
    }
  }

  /** Every item of the output is an input ticker with a nonzero dividend,
      holding its input record with a yield filled in. */
  lemma ConversionEntry(d: Dict<Holding>, fx: seq<FxQuote>, j: int)
    requires CurrencyConversion(d, fx).Success?
    requires 0 <= j < |CurrencyConversion(d, fx).value|
    ensures exists i :: (0 <= i < |d| && d[i].0 == CurrencyConversion(d, fx).value[j].0
      && d[i].1.divvy.amount != 0.0
      && SameRecord(CurrencyConversion(d, fx).value[j].1, d[i].1)
      && CurrencyConversion(d, fx).value[j].1.divYield.Some?)
  {
    var out := CurrencyConversion(d, fx).value;
    ConversionKeysSubset(d, fx);
    assert out[j].0 in Keys(out);
    var i :| 0 <= i < |d| && d[i].0 == out[j].0;
    GetAt(out, j);
    ConversionGet(d, fx, i);
    GetAt(d, i);
    assert d[i].1.divvy.amount != 0.0;
  }

  /** The second pass seen from an input entry: a noted ticker is priced
      through the FX feed, any other contributes nothing. */
  function FxPriced(d: Dict<Holding>, fx: seq<FxQuote>): (string, Holding) -> Result<Option<Holding>>
  {
    (k, h) => if PendingStep(k, h).value.Some? then FxStep(d, fx, k, PendingStep(k, h).value.value) else Success(None)
  }

  /** The tickers are noted for the second pass in input order. */
  lemma PendingOrder(d: Dict<Holding>)
    ensures Pending(d) == Hits(d, PendingStep)
  {
    assert forall i :: 0 <= i < |d| ==> PendingStep(d[i].0, d[i].1).Success?;
    GatherOrder([], d, PendingStep);
  }

  /** The order of the output, which is the order ties keep in the report:
      the USD-priced tickers come first in input order, then the tickers
      priced through the FX feed, again in input order. */
  lemma ConversionOrder(d: Dict<Holding>, fx: seq<FxQuote>)
    requires CurrencyConversion(d, fx).Success?
    ensures CurrencyConversion(d, fx).value == Hits(d, UsdStep) + Hits(d, FxPriced(d, fx))
  {
    PendingOrder(d);
    PendingThenFx(d, fx);
    if |Pending(d)| == 0 {
      GatherOrder([], d, UsdStep);
    } else {
      UsdPendingDisjoint(d);
      GatherThenOrder(d, UsdStep, Pending(d), FxPass(d, fx));
    }
  }

  /** No ticker is both priced in USD and noted for conversion. */
  lemma UsdPendingDisjoint(d: Dict<Holding>)
    ensures Keys(Hits(d, PendingStep)) !! Keys(Hits(d, UsdStep))
  {
    forall k | k in Keys(Hits(d, PendingStep))
      ensures k !in Keys(Hits(d, UsdStep))
    {
      HitsKeys(d, PendingStep, k);
      var i :| 0 <= i < |d| && d[i].0 == k && PendingStep(d[i].0, d[i].1).Success? && PendingStep(d[i].0, d[i].1).value.Some?;
      assert forall j :: 0 <= j < |d| && d[j].0 == k ==> j == i;
      if k in Keys(Hits(d, UsdStep)) {
        HitsKeys(d, UsdStep, k);
      }
    }
  }

  /** Pricing the noted tickers is pricing each input entry through `FxPriced`. */
  lemma PendingThenFx(d: Dict<Holding>, fx: seq<FxQuote>)
    ensures Hits(Hits(d, PendingStep), FxPass(d, fx)) == Hits(d, FxPriced(d, fx))
  {
    HitsThen(d, PendingStep, FxPass(d, fx), FxPriced(d, fx));
  }
}
