/** The typed records the scanner passes between its stages.
    In the program these are JSON-shaped dicts; here each becomes a datatype
    whose fields are the keys the core reads. Decimal amounts are exact reals,
    ISO dates are (year, month, day) triples, and a JSON `null` the code
    guards against is an `Option`. */
module Records {
  import opened Base

  /** Fixed costs of one long conversion. */
  const OptionContractCost: real := 1.0
  const ContractActionsPerCollar: real := 4.0
  const OptionContractSize: int := 100

  /** Fees paid on one collar: one contract per action. */
  const OptionsFeesPaid: real := OptionContractCost * ContractActionsPerCollar

  datatype Date = Date(year: int, month: int, day: int)

  /** Chronological order of dates, which is also the order of their ISO
      "YYYY-MM-DD" spellings. */
  predicate OnOrBefore(a: Date, b: Date)
  {
    a.year < b.year
    || (a.year == b.year && (a.month < b.month || (a.month == b.month && a.day <= b.day)))
  }

  /** An upcoming dividend as the dividend feed reports it; `amount` is in
      the local `currency`, and an empty `currency` stands for a missing code. */
  datatype Dividend = Dividend(exDate: Date, recordDate: Date, amount: real, currency: string)

  /** A delayed stock quote; `primaryExchange` is absent when the feed has none. */
  datatype Quote = Quote(latestPrice: real, primaryExchange: Option<string>)

  datatype OptionKind = Put | Call

  /** One option of a chain; `bid` or `ask` is absent when nobody quotes it. */
  datatype OptionQuote = OptionQuote(
    strike: real,
    kind: OptionKind,
    bid: Option<real>,
    ask: Option<real>,
    volume: int,
    contractSize: int)

  /** A dividend yield: `percent` of the delayed price, and the dividend amount. */
  datatype DivYield = DivYield(percent: real, usd: real)

  /** Everything gathered for one ticker: the delayed quote, the dividend, the
      option expirations with one chain per expiration, the realtime ask
      (absent when the realtime quote has none) and, once computed, the yield. */
  datatype Holding = Holding(
    quote: Quote,
    divvy: Dividend,
    expirations: seq<Date>,
    chains: map<Date, seq<OptionQuote>>,
    realtimeAsk: Option<real>,
    divYield: Option<DivYield>)

  /** One entry of the FX feed, e.g. symbol "USDCAD" with its rate. */
  datatype FxQuote = FxQuote(symbol: string, rate: real)

  /** The row recorded for a profitable long conversion. */
  datatype Trade = Trade(
    strike: real,
    underlying: real,
    divAmount: real,
    profit: real,
    divYield: real,
    exDate: Date,
    putVolume: int,
    expiration: Date)

  /** The per-ticker entry of the result dict: `Empty` is the bare `{}` that
      the defaultdict creates on lookup when no trade is then written. */
  datatype Slot = Empty | Filled(trade: Trade)

  /** The same record apart from its computed yield. */
  predicate SameRecord(a: Holding, b: Holding)
  {
    a.(divYield := None) == b.(divYield := None)
  }
}
