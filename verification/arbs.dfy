/** The long-conversion search (`Calculations.find_arbs`).
    For every ticker outside its ex-dividend day and not named in an OCC memo,
    the chain of the first expiration on or after the record date is read
    twice: a first pass pairs put asks with call bids per strike at or above
    the realtime ask, and a second pass prices the long conversion of every
    such put and records the first profitable one. */
module Arbs {
  import opened Base
  import opened Records
  import opened Text
  import opened Money
  import opened Dicts
  import opened Expiry

  /** The two prices the first pass keeps for one strike; an absent price is
      a key the strike's dict does not (yet) have. */
  datatype Leg = Leg(putAsk: Option<real>, callBid: Option<real>)

  /** `(bid, ask)` as read by the first pass: a missing bid or ask makes the
      conversion raise TypeError, which sets both to zero. */
  function Quoted(o: OptionQuote): (r: (real, real))
    ensures o.bid.Some? && o.ask.Some? ==> r == (o.bid.value, o.ask.value)
    ensures o.bid.None? || o.ask.None? ==> r == (0.0, 0.0)
  {
    if o.bid.Some? && o.ask.Some? then (o.bid.value, o.ask.value) else (0.0, 0.0)
  }

  /** One option of the first pass. */
  function PairStep(legs: map<real, Leg>, o: OptionQuote, ask: real): map<real, Leg>
  {
    var s := Round2(o.strike);
    if s < ask then legs
    else
      var leg := if s in legs then legs[s] else Leg(None, None);
      if o.kind == Put then legs[s := leg.(putAsk := Some(Round2(Quoted(o).1)))]
      else legs[s := leg.(callBid := Some(Round2(Quoted(o).0)))]
  }

  /** `options_bid_ask_prices` after the first pass over `chain`. */
  function PairStrikes(chain: seq<OptionQuote>, ask: real): (legs: map<real, Leg>)
    ensures forall s :: s in legs ==> s >= ask
    ensures forall s :: s in legs ==> legs[s].putAsk.Some? || legs[s].callBid.Some?
  {
    if |chain| == 0 then map[]
    else PairStep(PairStrikes(chain[..|chain| - 1], ask), chain[|chain| - 1], ask)
  }

  /** `chain[i]` is an option whose rounded strike is `s`. */
  predicate StrikeAt(chain: seq<OptionQuote>, i: int, s: real)
  {
    0 <= i < |chain| && Round2(chain[i].strike) == s
  }

  /** `chain[i]` is an option of kind `kind` whose rounded strike is `s`. */
  predicate OfferedAt(chain: seq<OptionQuote>, i: int, kind: OptionKind, s: real)
  {
    StrikeAt(chain, i, s) && chain[i].kind == kind
  }

  /** A strike is paired exactly when it is at or above the ask and some
      option of the chain rounds to it. */
  lemma {:induction false} PairStrikesKeys(chain: seq<OptionQuote>, ask: real, s: real)
    ensures s in PairStrikes(chain, ask) <==> s >= ask && exists i :: StrikeAt(chain, i, s)
  {
    if |chain| > 0 {
      var n := |chain| - 1;
      var prefix := chain[..n];
      assert forall i :: StrikeAt(prefix, i, s) ==> StrikeAt(chain, i, s);
      assert forall i :: StrikeAt(chain, i, s) && i < n ==> StrikeAt(prefix, i, s);
      PairStrikesKeys(prefix, ask, s);
      if Round2(chain[n].strike) == s {
        assert StrikeAt(chain, n, s);
      }
    }
  }

  /** A paired strike has a put ask exactly when some put rounds to it. */
  lemma {:induction false} PairStrikesPutAsk(chain: seq<OptionQuote>, ask: real, s: real)
    requires s in PairStrikes(chain, ask)
    ensures PairStrikes(chain, ask)[s].putAsk.Some? <==> exists i :: OfferedAt(chain, i, Put, s)
  {
    var n := |chain| - 1;
    var prefix := chain[..n];
    assert forall i :: OfferedAt(prefix, i, Put, s) ==> OfferedAt(chain, i, Put, s);
    assert forall i :: OfferedAt(chain, i, Put, s) && i < n ==> OfferedAt(prefix, i, Put, s);
    if Round2(chain[n].strike) == s && chain[n].kind == Put {
      assert OfferedAt(chain, n, Put, s);
    }
    if s in PairStrikes(prefix, ask) {
      PairStrikesPutAsk(prefix, ask, s);
    } else {
      PairStrikesKeys(prefix, ask, s);
      assert forall i :: !OfferedAt(prefix, i, Put, s) by {
        forall i ensures !OfferedAt(prefix, i, Put, s) {
          assert !StrikeAt(prefix, i, s);
        }
      }
    }
  }

  /** A paired strike has a call bid exactly when some call rounds to it. */
  lemma {:induction false} PairStrikesCallBid(chain: seq<OptionQuote>, ask: real, s: real)
    requires s in PairStrikes(chain, ask)
    ensures PairStrikes(chain, ask)[s].callBid.Some? <==> exists i :: OfferedAt(chain, i, Call, s)
  {
    var n := |chain| - 1;
    var prefix := chain[..n];
    assert forall i :: OfferedAt(prefix, i, Call, s) ==> OfferedAt(chain, i, Call, s);
    assert forall i :: OfferedAt(chain, i, Call, s) && i < n ==> OfferedAt(prefix, i, Call, s);
    if Round2(chain[n].strike) == s && chain[n].kind == Call {
      assert OfferedAt(chain, n, Call, s);
    }
    if s in PairStrikes(prefix, ask) {
      PairStrikesCallBid(prefix, ask, s);
    } else {
      PairStrikesKeys(prefix, ask, s);
      assert forall i :: !OfferedAt(prefix, i, Call, s) by {
        forall i ensures !OfferedAt(prefix, i, Call, s) {
          assert !StrikeAt(prefix, i, s);
        }
      }
    }
  }

  /** The put ask kept for a strike is that of the last put at the strike,
      rounded: a later put overwrites an earlier one. */
  lemma {:induction false} PairStrikesLastPut(chain: seq<OptionQuote>, ask: real, j: int)
    requires 0 <= j < |chain| && chain[j].kind == Put && Round2(chain[j].strike) >= ask
    requires forall m :: j < m < |chain| ==> !OfferedAt(chain, m, Put, Round2(chain[j].strike))
    ensures Round2(chain[j].strike) in PairStrikes(chain, ask)
    ensures PairStrikes(chain, ask)[Round2(chain[j].strike)].putAsk == Some(Round2(Quoted(chain[j]).1))
  {
    var n := |chain| - 1;
    if j < n {
      var prefix := chain[..n];
      assert prefix[j] == chain[j];
      assert forall m :: j < m < n ==> OfferedAt(prefix, m, Put, Round2(chain[j].strike)) == OfferedAt(chain, m, Put, Round2(chain[j].strike));
      PairStrikesLastPut(prefix, ask, j);
      assert !OfferedAt(chain, n, Put, Round2(chain[j].strike));
    }
  }

  /** The call bid kept for a strike is that of the last call at the strike. */
  lemma {:induction false} PairStrikesLastCall(chain: seq<OptionQuote>, ask: real, j: int)
    requires 0 <= j < |chain| && chain[j].kind == Call && Round2(chain[j].strike) >= ask
    requires forall m :: j < m < |chain| ==> !OfferedAt(chain, m, Call, Round2(chain[j].strike))
    ensures Round2(chain[j].strike) in PairStrikes(chain, ask)
    ensures PairStrikes(chain, ask)[Round2(chain[j].strike)].callBid == Some(Round2(Quoted(chain[j]).0))
  {
    var n := |chain| - 1;
    if j < n {
      var prefix := chain[..n];
      assert prefix[j] == chain[j];
      assert forall m :: j < m < n ==> OfferedAt(prefix, m, Call, Round2(chain[j].strike)) == OfferedAt(chain, m, Call, Round2(chain[j].strike));
      PairStrikesLastCall(prefix, ask, j);
      assert !OfferedAt(chain, n, Call, Round2(chain[j].strike));
    }
  }

  /** Profit of one long conversion on a 100-share contract, after fees:
      the dividend plus the put's intrinsic value, less the synthetic short's
      debit (put ask minus call bid). */
  function Profit(divUsd: real, putAsk: real, callBid: real, strike: real, ask: real): (r: real)
    ensures (r * 100.0).Floor as real == r * 100.0
    ensures var exact := (divUsd + strike - ask - putAsk + callBid) * 100.0 - 4.0;
      r - exact <= 0.005 && exact - r <= 0.005
  {
    Round2((divUsd - ((putAsk - callBid) - (strike - ask))) * OptionContractSize as real - OptionsFeesPaid)
  }

  /** A trade is recorded only when its profit is at least one cent, that is
      when the exact profit exceeds half a cent. */
  lemma ProfitPositiveIff(divUsd: real, putAsk: real, callBid: real, strike: real, ask: real)
    ensures Profit(divUsd, putAsk, callBid, strike, ask) > 0.0 <==>
      (divUsd + strike - ask - putAsk + callBid) * 100.0 - 4.0 > 0.005
  {
    Round2PositiveIff((divUsd - ((putAsk - callBid) - (strike - ask))) * OptionContractSize as real - OptionsFeesPaid);
  }

  /** The second pass reaches the profit computation for this option: it is
      a put whose strike the first pass paired. */
  predicate Evaluated(o: OptionQuote, legs: map<real, Leg>)
  {
    o.kind == Put && Round2(o.strike) in legs
  }

  /** Every key the profit computation reads is present. */
  predicate Complete(o: OptionQuote, legs: map<real, Leg>, h: Holding)
    requires Evaluated(o, legs)
  {
    legs[Round2(o.strike)].putAsk.Some? && legs[Round2(o.strike)].callBid.Some? && h.divYield.Some?
  }

  function ProfitOf(o: OptionQuote, legs: map<real, Leg>, ask: real, h: Holding): real
    requires Evaluated(o, legs) && Complete(o, legs, h)
  {
    var s := Round2(o.strike);
    Profit(h.divYield.value.usd, legs[s].putAsk.value, legs[s].callBid.value, s, ask)
  }

  predicate Profitable(o: OptionQuote, legs: map<real, Leg>, ask: real, h: Holding)
  {
    Evaluated(o, legs) && Complete(o, legs, h) && ProfitOf(o, legs, ask, h) > 0.0
  }

  /** The row written for a profitable put. */
  function TradeOf(o: OptionQuote, legs: map<real, Leg>, ask: real, h: Holding, exp: Date): (t: Trade)
    requires Profitable(o, legs, ask, h)
    ensures t.profit > 0.0 && t.strike == Round2(o.strike) && t.underlying == ask
    ensures t.divYield == h.divYield.value.percent && t.divAmount == h.divYield.value.usd
  {
    Trade(Round2(o.strike), ask, h.divYield.value.usd, ProfitOf(o, legs, ask, h),
      h.divYield.value.percent, h.divvy.exDate, o.volume, exp)
  }

  /** One option of the second pass, given the ticker's slot so far
      (`None` while `profitable_trades` has no entry for the ticker). */
  function PutStep(slot: Option<Slot>, o: OptionQuote, legs: map<real, Leg>, ask: real, h: Holding, exp: Date): Result<Option<Slot>>
  {
    if !Evaluated(o, legs) then Success(slot)
    else if !Complete(o, legs, h) then Failure(KeyError)
    else if ProfitOf(o, legs, ask, h) <= 0.0 then Success(slot)
    else
      var prev := if slot.Some? && slot.value.Filled? then slot.value.trade.divYield else 0.0;
      if prev < h.divYield.value.percent then Success(Some(Filled(TradeOf(o, legs, ask, h, exp))))
      else if slot.Some? then Success(slot)
      else Success(Some(Empty))
  }

  /** The second pass over `chain`. */
  function EvalPuts(chain: seq<OptionQuote>, legs: map<real, Leg>, ask: real, h: Holding, exp: Date): (r: Result<Option<Slot>>)
    ensures r.Failure? <==> exists i :: 0 <= i < |chain| && Evaluated(chain[i], legs) && !Complete(chain[i], legs, h)
    ensures r.Failure? ==> r.error == KeyError
  {
    if |chain| == 0 then Success(None)
    else
      var n := |chain| - 1;
      var prefix := chain[..n];
      assert forall i :: 0 <= i < n ==> prefix[i] == chain[i];
      var slot :- EvalPuts(prefix, legs, ask, h, exp);
      PutStep(slot, chain[n], legs, ask, h, exp)
  }

  /** Reference for the second pass: the position of the first profitable
      put of the chain, if any. */
  function FirstProfitable(chain: seq<OptionQuote>, legs: map<real, Leg>, ask: real, h: Holding): (r: Option<nat>)
    ensures r.None? <==> forall i :: 0 <= i < |chain| ==> !Profitable(chain[i], legs, ask, h)
    ensures r.Some? ==> (r.value < |chain| && Profitable(chain[r.value], legs, ask, h)
      && forall j :: 0 <= j < r.value ==> !Profitable(chain[j], legs, ask, h))
  {
    if |chain| == 0 then None
    else if Profitable(chain[0], legs, ask, h) then Some(0)
    else
      var r := FirstProfitable(chain[1..], legs, ask, h);
      assert forall i :: 1 <= i < |chain| ==> chain[1..][i - 1] == chain[i];
      if r.Some? then Some(r.value + 1) else None
  }

  /** The entry a profitable put leaves: its trade when the yield is
      positive, and a bare entry when it is not. */
  function EntryFor(o: OptionQuote, legs: map<real, Leg>, ask: real, h: Holding, exp: Date): Slot
    requires Profitable(o, legs, ask, h)
  {
    if h.divYield.value.percent > 0.0 then Filled(TradeOf(o, legs, ask, h, exp)) else Empty
  }

  /** What the ticker's entry should hold after the second pass: nothing
      without a profitable put, and otherwise the entry the first profitable
      put leaves. */
  function Kept(chain: seq<OptionQuote>, legs: map<real, Leg>, ask: real, h: Holding, exp: Date): Option<Slot>
  {
    match FirstProfitable(chain, legs, ask, h)
    case None => None
    case Some(i) => Some(EntryFor(chain[i], legs, ask, h, exp))
  }

  /** Extending the chain by one option keeps an earlier first profitable put. */
  lemma FirstProfitableSnoc(chain: seq<OptionQuote>, legs: map<real, Leg>, ask: real, h: Holding)
    requires |chain| > 0
    ensures var n := |chain| - 1;
      FirstProfitable(chain, legs, ask, h) ==
        if FirstProfitable(chain[..n], legs, ask, h).Some? then FirstProfitable(chain[..n], legs, ask, h)
        else if Profitable(chain[n], legs, ask, h) then Some(n)
        else None
  {
    var n := |chain| - 1;
    var prefix := chain[..n];
    assert forall i :: 0 <= i < n ==> prefix[i] == chain[i];
    var a := FirstProfitable(chain, legs, ask, h);
    var b := FirstProfitable(prefix, legs, ask, h);
    if b.Some? {
      assert Profitable(chain[b.value], legs, ask, h);
      FirstIndexUnique(chain, legs, ask, h, a.value, b.value);
    } else if Profitable(chain[n], legs, ask, h) {
      FirstIndexUnique(chain, legs, ask, h, a.value, n);
    }
  }

  lemma FirstIndexUnique(chain: seq<OptionQuote>, legs: map<real, Leg>, ask: real, h: Holding, a: int, b: int)
    requires 0 <= a < |chain| && Profitable(chain[a], legs, ask, h)
    requires 0 <= b < |chain| && Profitable(chain[b], legs, ask, h)
    requires forall j :: 0 <= j < a ==> !Profitable(chain[j], legs, ask, h)
    requires forall j :: 0 <= j < b ==> !Profitable(chain[j], legs, ask, h)
    ensures a == b
  {
  }

  /** The strict `<` against the yield already recorded, together with a
      yield that is the same for every put of the ticker, means the first
      profitable put is kept and later ones never replace it. */
  lemma {:induction false} EvalPutsKeepsFirst(chain: seq<OptionQuote>, legs: map<real, Leg>, ask: real, h: Holding, exp: Date)
    requires EvalPuts(chain, legs, ask, h, exp).Success?
    ensures EvalPuts(chain, legs, ask, h, exp).value == Kept(chain, legs, ask, h, exp)
  {
    if |chain| > 0 {
      var n := |chain| - 1;
      var prefix := chain[..n];
      assert forall i :: 0 <= i < n ==> prefix[i] == chain[i];
      assert EvalPuts(prefix, legs, ask, h, exp).Success?;
      var slot := EvalPuts(prefix, legs, ask, h, exp).value;
      assert EvalPuts(chain, legs, ask, h, exp) == PutStep(slot, chain[n], legs, ask, h, exp);
      EvalPutsKeepsFirst(prefix, legs, ask, h, exp);
      FirstProfitableSnoc(chain, legs, ask, h);
      var b := FirstProfitable(prefix, legs, ask, h);
      if b.Some? {
        assert prefix[b.value] == chain[b.value];
        PutStepKeeps(prefix[b.value], chain[n], legs, ask, h, exp);
      } else {
        PutStepFromNothing(chain[n], legs, ask, h, exp);
      }
    }
  }

  /** Once the first profitable put's entry is recorded, a later put leaves
      it unchanged: the recorded yield is never strictly below the ticker's. */
  lemma PutStepKeeps(p: OptionQuote, o: OptionQuote, legs: map<real, Leg>, ask: real, h: Holding, exp: Date)
    requires Profitable(p, legs, ask, h)
    requires PutStep(Some(EntryFor(p, legs, ask, h, exp)), o, legs, ask, h, exp).Success?
    ensures PutStep(Some(EntryFor(p, legs, ask, h, exp)), o, legs, ask, h, exp).value == Some(EntryFor(p, legs, ask, h, exp))
  {
  }

  /** Before any entry, a put leaves the entry it earns when profitable and
      nothing otherwise. */
  lemma PutStepFromNothing(o: OptionQuote, legs: map<real, Leg>, ask: real, h: Holding, exp: Date)
    requires PutStep(None, o, legs, ask, h, exp).Success?
    ensures PutStep(None, o, legs, ask, h, exp).value ==
      if Profitable(o, legs, ask, h) then Some(EntryFor(o, legs, ask, h, exp)) else None
  {
  }

  /** A ticker is flagged when some OCC memo contains "Symbol: " followed by
      the upper-cased ticker. */
  predicate Flagged(k: string, memos: seq<string>)
  {
    exists m :: 0 <= m < |memos| && Contains(memos[m], "Symbol: " + Upper(k))
  }

  /** The loop body of `find_arbs` for one ticker: the entry it leaves in
      `profitable_trades`, if any. `today` is the date of the run. */
  function EvalTicker(k: string, h: Holding, memos: seq<string>, today: Date): Result<Option<Slot>>
  {
    if h.realtimeAsk.None? then Failure(TypeError)
    else
      var ask := Round2(h.realtimeAsk.value);
      if h.divvy.exDate == today || Flagged(k, memos) then Success(None)
      else
        var exp := SelectExpiration(h.expirations, h.divvy.recordDate);
        if exp.None? || exp.value !in h.chains then Failure(KeyError)
        else
          var chain := h.chains[exp.value];
          EvalPuts(chain, PairStrikes(chain, ask), ask, h, exp.value)
  }

  function ArbStep(memos: seq<string>, today: Date): (string, Holding) -> Result<Option<Slot>>
  {
    (k, h) => EvalTicker(k, h, memos, today)
  }

  /** `find_arbs(data, occmemos)`, the first raise aborting the search. */
  function FindArbs(d: Dict<Holding>, memos: seq<string>, today: Date): (r: Result<Dict<Slot>>)
    ensures r.Success? <==> forall i :: 0 <= i < |d| ==> EvalTicker(d[i].0, d[i].1, memos, today).Success?
    ensures r.Success? ==> Keys(r.value) <= Keys(d)
  {
    var r := Gather([], d, ArbStep(memos, today));
    assert forall i :: 0 <= i < |d| ==> ArbStep(memos, today)(d[i].0, d[i].1) == EvalTicker(d[i].0, d[i].1, memos, today);
    r
  }

  /** The result holds for each ticker exactly the entry its own iteration left. */
  lemma FindArbsAt(d: Dict<Holding>, memos: seq<string>, today: Date, i: int)
    requires 0 <= i < |d|
    requires FindArbs(d, memos, today).Success?
    ensures Get(FindArbs(d, memos, today).value, d[i].0) == EvalTicker(d[i].0, d[i].1, memos, today).value
  {
    LastHitDistinct(d, ArbStep(memos, today), i);
  }

  /** The result lists the tickers that left an entry in input order, which
      with the stable sort decides the report's order among equal yields. */
  lemma FindArbsOrder(d: Dict<Holding>, memos: seq<string>, today: Date)
    requires FindArbs(d, memos, today).Success?
    ensures FindArbs(d, memos, today).value == Hits(d, ArbStep(memos, today))
  {
    GatherOrder([], d, ArbStep(memos, today));
  }

  /** No entry for a ticker on its ex-dividend day. */
  lemma ArbsSkipExDividendDay(d: Dict<Holding>, memos: seq<string>, today: Date, i: int)
    requires 0 <= i < |d| && d[i].1.realtimeAsk.Some? && d[i].1.divvy.exDate == today
    requires FindArbs(d, memos, today).Success?
    ensures d[i].0 !in Keys(FindArbs(d, memos, today).value)
  {
    FindArbsAt(d, memos, today, i);
  }

  /** No entry for a ticker that an OCC memo names. */
  lemma ArbsSkipFlagged(d: Dict<Holding>, memos: seq<string>, today: Date, i: int, m: int)
    requires 0 <= i < |d| && d[i].1.realtimeAsk.Some?
    requires 0 <= m < |memos| && Contains(memos[m], "Symbol: " + Upper(d[i].0))
    requires FindArbs(d, memos, today).Success?
    ensures d[i].0 !in Keys(FindArbs(d, memos, today).value)
  {
    FindArbsAt(d, memos, today, i);
  }

  /** A realtime quote without an ask makes the rounding raise TypeError. */
  lemma ArbsMissingAskRaises(d: Dict<Holding>, memos: seq<string>, today: Date, i: int)
    requires 0 <= i < |d| && d[i].1.realtimeAsk.None?
    ensures EvalTicker(d[i].0, d[i].1, memos, today) == Failure(TypeError)
    ensures FindArbs(d, memos, today).Failure?
  {
  }

  /** When every expiration precedes the record date, the chain is looked up
      under `None` and the search raises KeyError. */
  lemma ArbsNoExpirationRaises(d: Dict<Holding>, memos: seq<string>, today: Date, i: int)
    requires 0 <= i < |d| && d[i].1.realtimeAsk.Some?
    requires d[i].1.divvy.exDate != today && !Flagged(d[i].0, memos)
    requires forall e :: e in d[i].1.expirations ==> !OnOrBefore(d[i].1.divvy.recordDate, e)
    ensures EvalTicker(d[i].0, d[i].1, memos, today) == Failure(KeyError)
    ensures FindArbs(d, memos, today).Failure?
  {
  }

  /** A put at or above the ask with no call at its strike raises KeyError
      when the second pass reads the call bid. */
  lemma ArbsPutWithoutCallRaises(d: Dict<Holding>, memos: seq<string>, today: Date, i: int, p: int)
    requires 0 <= i < |d| && d[i].1.realtimeAsk.Some?
    requires d[i].1.divvy.exDate != today && !Flagged(d[i].0, memos)
    requires SelectExpiration(d[i].1.expirations, d[i].1.divvy.recordDate).Some?
    requires SelectExpiration(d[i].1.expirations, d[i].1.divvy.recordDate).value in d[i].1.chains
    requires var chain := d[i].1.chains[SelectExpiration(d[i].1.expirations, d[i].1.divvy.recordDate).value];
      0 <= p < |chain| && chain[p].kind == Put && Round2(chain[p].strike) >= Round2(d[i].1.realtimeAsk.value)
      && forall m :: !OfferedAt(chain, m, Call, Round2(chain[p].strike))
    ensures EvalTicker(d[i].0, d[i].1, memos, today) == Failure(KeyError)
    ensures FindArbs(d, memos, today).Failure?
  {
    var h := d[i].1;
    var chain := h.chains[SelectExpiration(h.expirations, h.divvy.recordDate).value];
    var ask := Round2(h.realtimeAsk.value);
    var s := Round2(chain[p].strike);
    assert StrikeAt(chain, p, s);
    PairStrikesKeys(chain, ask, s);
    PairStrikesCallBid(chain, ask, s);
    assert Evaluated(chain[p], PairStrikes(chain, ask)) && !Complete(chain[p], PairStrikes(chain, ask), h);
  }

  /** For a ticker the search does not skip, its entry is the one the
      reference `Kept` prescribes for the chain of the selected expiration. */
  lemma ArbsKeepFirstProfitable(d: Dict<Holding>, memos: seq<string>, today: Date, i: int)
    requires 0 <= i < |d| && d[i].1.realtimeAsk.Some?
    requires d[i].1.divvy.exDate != today && !Flagged(d[i].0, memos)
    requires FindArbs(d, memos, today).Success?
    ensures var h := d[i].1;
      var exp := SelectExpiration(h.expirations, h.divvy.recordDate);
      var ask := Round2(h.realtimeAsk.value);
      exp.Some? && exp.value in h.chains
      && Get(FindArbs(d, memos, today).value, d[i].0)
        == Kept(h.chains[exp.value], PairStrikes(h.chains[exp.value], ask), ask, h, exp.value)
  {
    var h := d[i].1;
    FindArbsAt(d, memos, today, i);
    assert EvalTicker(d[i].0, h, memos, today).Success?;
    var exp := SelectExpiration(h.expirations, h.divvy.recordDate);
    var ask := Round2(h.realtimeAsk.value);
    EvalPutsKeepsFirst(h.chains[exp.value], PairStrikes(h.chains[exp.value], ask), ask, h, exp.value);
  }

  /** Every recorded trade is a put of the selected chain, at or above the
      rounded ask, with a call at the same strike, a profit of at least one
      cent, and the ticker's own positive yield and dividend. */
  lemma ArbsRecordedTrade(d: Dict<Holding>, memos: seq<string>, today: Date, i: int)
    requires 0 <= i < |d|
    requires FindArbs(d, memos, today).Success?
    requires Get(FindArbs(d, memos, today).value, d[i].0).Some?
    requires Get(FindArbs(d, memos, today).value, d[i].0).value.Filled?
    ensures var t := Get(FindArbs(d, memos, today).value, d[i].0).value.trade;
      var h := d[i].1;
      h.realtimeAsk.Some? && h.divvy.exDate != today && !Flagged(d[i].0, memos)
      && SelectExpiration(h.expirations, h.divvy.recordDate) == Some(t.expiration)
      && t.expiration in h.chains
      && t.underlying == Round2(h.realtimeAsk.value) && t.strike >= t.underlying
      && (exists p :: OfferedAt(h.chains[t.expiration], p, Put, t.strike))
      && (exists c :: OfferedAt(h.chains[t.expiration], c, Call, t.strike))
      && t.profit > 0.0 && t.divYield > 0.0
      && h.divYield == Some(DivYield(t.divYield, t.divAmount))
      && t.exDate == h.divvy.exDate
  {
    var h := d[i].1;
    FindArbsAt(d, memos, today, i);
    assert h.realtimeAsk.Some? && h.divvy.exDate != today && !Flagged(d[i].0, memos);
    ArbsKeepFirstProfitable(d, memos, today, i);
    var exp := SelectExpiration(h.expirations, h.divvy.recordDate).value;
    var chain := h.chains[exp];
    var ask := Round2(h.realtimeAsk.value);
    var legs := PairStrikes(chain, ask);
    var k := FirstProfitable(chain, legs, ask, h).value;
    var s := Round2(chain[k].strike);
    assert OfferedAt(chain, k, Put, s);
    PairStrikesCallBid(chain, ask, s);
  }

  /** The bare entry: a ticker gets an entry without a trade exactly when it
      has a profitable put but a yield of at most zero. */
  lemma ArbsEmptyIff(d: Dict<Holding>, memos: seq<string>, today: Date, i: int)
    requires 0 <= i < |d| && d[i].1.realtimeAsk.Some?
    requires d[i].1.divvy.exDate != today && !Flagged(d[i].0, memos)
    requires FindArbs(d, memos, today).Success?
    ensures var h := d[i].1;
      var exp := SelectExpiration(h.expirations, h.divvy.recordDate).value;
      var ask := Round2(h.realtimeAsk.value);
      Get(FindArbs(d, memos, today).value, d[i].0) == Some(Empty) <==>
        (exists p :: 0 <= p < |h.chains[exp]| && Profitable(h.chains[exp][p], PairStrikes(h.chains[exp], ask), ask, h))
        && h.divYield.Some? && h.divYield.value.percent <= 0.0
  {
    ArbsKeepFirstProfitable(d, memos, today, i);
  }
}
