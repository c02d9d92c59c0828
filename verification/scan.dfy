/** The scanner's pure pipeline once its inputs are fetched: yields, then the
    long-conversion search, then the report order. */
module Scan {
  import opened Base
  import opened Records
  import opened Money
  import opened Dicts
  import opened Yields
  import opened Arbs
  import opened Ranking
  import opened Expiry

  /** The pipeline as written: a bare entry in the search result makes the
      report sort raise. */
  function ScanAsWritten(d: Dict<Holding>, fx: seq<FxQuote>, memos: seq<string>, today: Date): (r: Result<seq<Row>>)
    ensures r.Success? ==> Descending(r.value)
  {
    var priced :- CurrencyConversion(d, fx);
    var arbs :- FindArbs(priced, memos, today);
    RankAsWritten(arbs)
  }

  /** The pipeline with the corrected sort. */
  function ScanRanked(d: Dict<Holding>, fx: seq<FxQuote>, memos: seq<string>, today: Date): (r: Result<seq<Row>>)
    ensures r.Success? ==> Descending(r.value)
  {
    var priced :- CurrencyConversion(d, fx);
    var arbs :- FindArbs(priced, memos, today);
    Success(Rank(arbs))
  }

  /** Every reported row is a trade with at least a cent of profit and a
      positive yield, for an input ticker whose dividend is nonzero; the rows
      run from the highest yield down. */
  lemma ScanRows(d: Dict<Holding>, fx: seq<FxQuote>, memos: seq<string>, today: Date, k: string, t: Trade)
    requires ScanRanked(d, fx, memos, today).Success?
    requires (k, t) in ScanRanked(d, fx, memos, today).value
    ensures t.profit > 0.0 && t.divYield > 0.0
    ensures exists i :: 0 <= i < |d| && d[i].0 == k && d[i].1.divvy.amount != 0.0
    ensures Descending(ScanRanked(d, fx, memos, today).value)
  {
    var priced := CurrencyConversion(d, fx).value;
    var arbs := FindArbs(priced, memos, today).value;
    RankContents(arbs, k, t);
    var a :| 0 <= a < |arbs| && arbs[a] == (k, Slot.Filled(t));
    assert k in Keys(arbs);
    var j :| 0 <= j < |priced| && priced[j].0 == k;
    GetAt(arbs, a);
    ArbsRecordedTrade(priced, memos, today, j);
    ConversionEntry(d, fx, j);
  }

  /** Where the written pipeline succeeds it reports what the corrected one does. */
  lemma ScanAgrees(d: Dict<Holding>, fx: seq<FxQuote>, memos: seq<string>, today: Date)
    requires ScanAsWritten(d, fx, memos, today).Success?
    ensures ScanRanked(d, fx, memos, today) == ScanAsWritten(d, fx, memos, today)
  {
    var priced := CurrencyConversion(d, fx).value;
    RankAgrees(FindArbs(priced, memos, today).value);
  }

  /** The written pipeline fails exactly when the search leaves a bare entry,
      which happens for a ticker with a profitable put and a yield of at most
      zero (`Arbs.ArbsEmptyIff`). */
  lemma ScanAsWrittenFailsOnBareEntry(d: Dict<Holding>, fx: seq<FxQuote>, memos: seq<string>, today: Date)
    requires CurrencyConversion(d, fx).Success?
    requires FindArbs(CurrencyConversion(d, fx).value, memos, today).Success?
    ensures ScanAsWritten(d, fx, memos, today).Failure? <==>
      exists i :: (0 <= i < |FindArbs(CurrencyConversion(d, fx).value, memos, today).value|
        && FindArbs(CurrencyConversion(d, fx).value, memos, today).value[i].1 == Empty)
  {
  }

  /** The ticker of the concrete instance below: a USD dividend of 0.001 on
      a 100.00 stock, a realtime ask of 48.00, and at strike 50 a put asked at
      1.00 and a call bid at 0.00. */
  function ExampleChain(): seq<OptionQuote>
  {
    [OptionQuote(50.0, Put, Some(0.9), Some(1.0), 10, 100), OptionQuote(50.0, Call, Some(0.0), Some(0.1), 10, 100)]
  }

  function ExampleHolding(): Holding
  {
    Holding(Quote(100.0, Some("NYSE")), Dividend(Date(2026, 11, 2), Date(2026, 11, 3), 0.001, "USD"),
      [Date(2026, 11, 20)], map[Date(2026, 11, 20) := ExampleChain()], Some(48.0), None)
  }

  /** The dividend yields round(0.001, 2) = 0.00%. */
  lemma ExampleConversion()
    ensures CurrencyConversion([("ABC", ExampleHolding())], []) ==
      Success([("ABC", ExampleHolding().(divYield := Some(DivYield(0.0, 0.001))))])
  {
    var d: Dict<Holding> := [("ABC", ExampleHolding())];
    Round2Unique(0.001 / 100.0 * 100.0, 0);
    assert UsdDivYield(0.001, 100.0) == DivYield(0.0, 0.001);
    ConversionPricesUsd(d, [], 0);
    ConversionKeysSubset(d, []);
    var out := CurrencyConversion(d, []).value;
    assert Keys(out) == {"ABC"};
    SingleKey(out, "ABC");
    GetAt(out, 0);
    assert out[0].0 in Keys(out);
    assert out[0].0 == "ABC";
    assert out[0].1 == ExampleHolding().(divYield := Some(DivYield(0.0, 0.001)));
    assert out == [out[0]];
  }

  /** The put earns round((0.001 - (1 - 0) + (50 - 48)) * 100 - 4, 2) = 96.10,
      but the strict test 0 < 0.00 fails, leaving the bare entry. */
  lemma ExamplePuts()
    ensures var hy := ExampleHolding().(divYield := Some(DivYield(0.0, 0.001)));
      EvalPuts(ExampleChain(), PairStrikes(ExampleChain(), 48.0), 48.0, hy, Date(2026, 11, 20)) == Success(Some(Empty))
  {
    var hy := ExampleHolding().(divYield := Some(DivYield(0.0, 0.001)));
    var chain := ExampleChain();
    Round2OnGrid(50.0);
    Round2OnGrid(1.0);
    Round2OnGrid(0.0);
    assert PairStrikes(chain[..1], 48.0) == map[50.0 := Leg(Some(1.0), None)];
    var legs := PairStrikes(chain, 48.0);
    assert legs == map[50.0 := Leg(Some(1.0), Some(0.0))];
    Round2OnGrid(96.1);
    assert (0.001 - ((1.0 - 0.0) - (50.0 - 48.0))) * 100.0 - 4.0 == 96.1;
    assert ProfitOf(chain[0], legs, 48.0, hy) == 96.1;
    assert EvalPuts(chain[..1], legs, 48.0, hy, Date(2026, 11, 20)) == Success(Some(Empty));
  }

  lemma ExampleSearch()
    ensures var hy := ExampleHolding().(divYield := Some(DivYield(0.0, 0.001)));
      FindArbs([("ABC", hy)], [], Date(2026, 10, 10)) == Success([("ABC", Empty)])
  {
    var hy := ExampleHolding().(divYield := Some(DivYield(0.0, 0.001)));
    var priced: Dict<Holding> := [("ABC", hy)];
    var today := Date(2026, 10, 10);
    Round2OnGrid(48.0);
    assert SelectExpiration([Date(2026, 11, 20)], Date(2026, 11, 3)) == Some(Date(2026, 11, 20));
    assert !Flagged("ABC", []);
    ExamplePuts();
    assert EvalTicker("ABC", hy, [], today) == Success(Some(Empty));
    assert FindArbs(priced, [], today).Success?;
    FindArbsAt(priced, [], today, 0);
    var arbs := FindArbs(priced, [], today).value;
    assert Keys(arbs) <= {"ABC"};
    assert "ABC" in Keys(arbs);
    SingleKey(arbs, "ABC");
    GetAt(arbs, 0);
    assert arbs[0].0 in Keys(arbs);
    assert arbs[0].0 == "ABC";
    assert arbs[0].1 == Empty;
    assert arbs == [arbs[0]];
  }

  /** The concrete instance of the discrepancy: the written pipeline raises
      KeyError where the corrected one reports nothing. */
  lemma BareEntryCounterexample()
    ensures ScanAsWritten([("ABC", ExampleHolding())], [], [], Date(2026, 10, 10)) == Failure(KeyError)
    ensures ScanRanked([("ABC", ExampleHolding())], [], [], Date(2026, 10, 10)) == Success([])
  {
    ExampleConversion();
    ExampleSearch();
    var arbs: Dict<Slot> := [("ABC", Empty)];
    assert arbs[0].1 == Empty;
    assert Trades(arbs) == [];
  }
}
