# Dividend long-conversion scanner, modelled in Dafny

EpithyDivvyCheck looks for dividend-paying stocks where a "long conversion" pays off. The trade is:
- buy the stock;
- buy an in-the-money put;
- sell the call at the same strike, capturing the dividend.

Between its HTTP queries the scanner runs a chain of pure steps, and this project models that chain and proves its properties:

- **Batching and filtering.**
  - Chunk the ticker list into request batches (`DivvyData._chunks`).
  - Drop quotes listed on OTC markets (`DivvyData._punt_otc`).
  - Keep only standard 100-share option contracts (in `OptionsData.grab_all_options_data`).
- **Dividend yields** (`DivvyData.currency_conversion`).
  - A first pass prices every nonzero USD dividend against the delayed quote.
  - A second pass prices every other nonzero dividend through the FX feed.
  - Both round to two decimals, half-even.
  - The superseded `DivvyData.update_yields` of iexcloud1.py is modelled beside it, with lemmas relating the two.
- **The search** (`Calculations.find_arbs`). For each ticker it:
  - skips the ticker on its ex-dividend day or when an OCC memo names it;
  - selects the first expiration on or after the record date;
  - pairs put asks with call bids per strike at or above the realtime ask;
  - prices the long conversion of every such put;
  - keeps the first profitable put per ticker.
- **The report order.** The report sorts the results by descending yield (`sorted(..., reverse=True)`); the sort is stable.

Modules:
- `Base`: `Option`, a `Result` whose failure records which Python exception was raised, and `Concat`.
- `Money`: `Round2`, which is Python's `round(Decimal, 2)` under the default half-even context.
- `Dicts`: Python's insertion-ordered dict. `Store` is `d[k] = v`. `Gather` is the recurring loop "for each item compute a value, maybe raise, store it when present". `Hits` lists the values that loop produces, in entry order.
- `Text`: substring search, ASCII upper-casing, and `replace('USD', '')`.
- `Records`: the records passed between the steps, and the three cost constants.
- `Chunks`: the chunker.
- `Filters`: the OTC filter and the contract-size filter.
- `Expiry`: choosing the expiration.
- `Yields`: `currency_conversion`.
- `Legacy`: `update_yields`.
- `Arbs`: `find_arbs`.
- `Ranking`: the report sort.
- `Scan`: the pipeline that joins them, and the finding below.

Representation choices:
- Decimal amounts are `real`; division is exact, and the only rounding is the explicit `Round2`.
- Dates are `(year, month, day)` triples compared chronologically, which is the order of their ISO spellings.
- "Today" is a parameter of the search.
- The FX feed's response is a parameter of the conversion.
- The OCC memo texts are a parameter of the search.

Where the code and its description differ, the model follows the code:
- **Rounding:** half-even, as Python's Decimal context rounds, not half-up.
- **No qualifying expiration:** `None` is looked up in the chain dict and the search raises KeyError. It does not just skip the ticker.
- **A put with no call at its strike:** reading `call_bid` raises KeyError. No zero bid is assumed.
- **No matching FX quote in `currency_conversion`:** the ticker is silently left out; nothing raises.
- **The report order:** it is non-increasing, and stable among equal yields. Equal yields therefore keep the search result's order, which is the conversion's order: USD-priced tickers first, then FX-priced ones, each group in input order.
- **The FX loop's raise:** `currency_conversion` catches an exception in its FX loop and raises a plain `Exception` in its place. The model records the underlying cause, a division by zero.

## Model

| member | source | states |
|---|---|---|
| Chunks.Split | divvycheck.py:131-136 | the chunks concatenate back to the list; each has 1 to n items; all but the last have exactly n; there are none exactly when the list is empty |
| Chunks.SplitCount | divvycheck.py:135-136 | the number of chunks is the length divided by n, rounded up |
| Chunks.ChunkList | divvycheck.py:131-136 | n = 0 raises ValueError (from `range`), a negative n yields no chunks, a positive n yields the chunks above |
| Filters.KeepListedAll | divvycheck.py:142-151 | a ticker is kept exactly when one of its quotes names a primary exchange without "OTC"; every kept quote names such an exchange; a missing quote or exchange is skipped, not raised |
| Filters.PuntOtc | divvycheck.py:138-151 | the same over all batch responses in order |
| Filters.PuntOtcKeepsLast | divvycheck.py:143-147 | a ticker keeps its last listed quote: a later item overwrites an earlier one |
| Filters.StandardContracts | divvycheck.py:362-365 | every kept contract has size 100 |
| Filters.StandardContractsCounts | divvycheck.py:362-365 | each standard contract is kept as often as it occurs, and no other contract is kept |
| Filters.StandardContractsAppend | divvycheck.py:362-365 | filtering preserves the chain's order |
| Money.Cents | divvycheck.py:205 | the nearest whole number of hundredths, ties to the even one |
| Money.Round2 | divvycheck.py:205 | the result is whole cents and within half a cent of the input |
| Money.Round2Unique | divvycheck.py:205 | any whole number of cents strictly within half a cent is the result |
| Money.Round2Idempotent | divvycheck.py:205 | rounding twice is rounding once |
| Money.Round2Monotone | divvycheck.py:205 | rounding preserves order |
| Money.Round2PositiveIff | divvycheck.py:485 | a rounded amount is positive exactly when the exact amount exceeds half a cent |
| Text.Contains | divvycheck.py:146 | `pat in text` holds exactly when the pattern occurs at some position |
| Text.Upper | divvycheck.py:421 | upper-casing keeps the length, turns each lower-case ASCII letter into its own capital, and changes nothing else |
| Text.StripUsd | divvycheck.py:236 | the contract states only that deleting "USD" never lengthens the symbol; what it deletes is stated by `Text.StripUsdSplit` and `Text.StripUsdNoOccurrence`, which together fix the result on every string, and `Text.PairSymbolStrips` |
| Text.StripUsdSplit | divvycheck.py:236 | `replace('USD', '')` works left to right: the text before the first "USD" is kept, that occurrence is deleted, and the rest is stripped in turn |
| Text.PairSymbolStrips | divvycheck.py:211 | the pair symbol "USD" + code strips back to the code when the code has no "USD" in it |
| Text.StripUsdNoOccurrence | divvycheck.py:236 | `replace('USD', '')` leaves a string without "USD" unchanged |
| Expiry.SortDates | divvycheck.py:430 | the expirations sorted ascending, as a permutation |
| Expiry.FirstOnOrAfter | divvycheck.py:430-434 | the loop with its break returns the first date on or after the record date, or `None` when there is none |
| Expiry.SelectExpiration | divvycheck.py:429-434 | the selected expiration is listed, is on or after the record date, and is the earliest such date; `None` exactly when every expiration is earlier |
| Yields.CurrencyConversion | divvycheck.py:184-246 | no contract of its own; what it computes is stated by `Yields.ConversionGet`, `Yields.ConversionPricesUsd`, `Yields.ConversionPricesFx`, `Yields.ConversionSkipsUnmatched`, `Yields.ConversionFailsIff`, `Yields.ConversionEntry` and `Yields.ConversionOrder` |
| Yields.FxScan | divvycheck.py:234-244 | the FX loop for one ticker raises exactly when a matching quote has a zero rate or the price is zero |
| Yields.FxScanLastMatch | divvycheck.py:234-242 | without a raise, the ticker is priced exactly when some quote matches, and then with the rate of the last matching quote |
| Yields.Pending | divvycheck.py:197-212 | a ticker is noted for conversion with its currency exactly as the first pass's non-USD branch decides |
| Yields.ConversionGet | divvycheck.py:197-244 | the output for a ticker is the first pass's record for a USD dividend, the second pass's for a noted one, and absent otherwise |
| Yields.ConversionDropsZeroAmounts | divvycheck.py:202-215 | a zero dividend never gets a yield and never reaches the output |
| Yields.ConversionPricesUsd | divvycheck.py:201-207 | a nonzero USD dividend has a nonzero price and yields Round2(amount / price * 100), with `$` the amount |
| Yields.ConversionPricesFx | divvycheck.py:233-242 | a nonzero foreign dividend yields Round2(amount / rate / price * 100) with the last matching FX quote's rate, with `$` the unconverted amount |
| Yields.ConversionSkipsUnmatched | divvycheck.py:209-212 | a foreign dividend with no currency code, or with no FX quote matching its currency, is silently absent |
| Yields.ConversionFailsIff | divvycheck.py:197-244 | the conversion raises exactly when some ticker makes either pass divide by zero, and then it raises a division by zero |
| Yields.FxPassFailsWhenRaising | divvycheck.py:233-244 | a noted ticker whose FX division is by zero makes the second pass raise |
| Yields.FxPassFailsOnlyWhenRaising | divvycheck.py:233-244 | the second pass raises only for such a ticker, and only a division by zero |
| Yields.ConversionKeysSubset | divvycheck.py:203 | the output holds no ticker the input lacks |
| Yields.ConversionEntry | divvycheck.py:238-241 | every output item is an input ticker with a nonzero dividend, holding its input record with a yield added |
| Dicts.GatherOrder | divvycheck.py:197-207 | storing under keys the dict does not hold appends: the loop's result is the starting dict followed by the values produced, in entry order |
| Dicts.GatherThenOrder | divvycheck.py:197-238 | a second loop storing into the first's result under new keys appends after the first loop's items, each loop's items in entry order |
| Yields.PendingOrder | divvycheck.py:209-212 | the tickers are noted for conversion in input order |
| Yields.UsdPendingDisjoint | divvycheck.py:201-212 | no ticker is both priced in USD and noted for conversion |
| Yields.PendingThenFx | divvycheck.py:233-238 | pricing the noted tickers in noted order is pricing the input entries in input order |
| Yields.ConversionOrder | divvycheck.py:197-244 | the output holds the USD-priced tickers first, in input order, then the FX-priced tickers, in input order; this is the order ties keep in the report |
| Legacy.LegacyYield | iexcloud1.py:158-169 | USD: priced even when zero, with yield Round2(amount / price * 100), raising only on a zero price. Foreign zero amount: unchanged. Foreign nonzero: a missing rate raises KeyError, a zero rate or price raises a division by zero, otherwise the yield is Round2(amount / rate / price * 100) with `$` the local amount. The record is otherwise unchanged |
| Legacy.UpdateYields | iexcloud1.py:150-171 | the same keys in the same order, each record unchanged apart from its yield; or the raise of the first failing ticker |
| Legacy.LegacyKeepsZeroUsd | iexcloud1.py:158-162 | a zero USD dividend is kept with a 0.00% yield and a zero amount |
| Legacy.LegacyMissingRateRaises | iexcloud1.py:163-165 | a foreign nonzero dividend whose currency has no rate aborts the whole call with KeyError, unless an earlier ticker raised first |
| Legacy.LegacyAgreesOnUsd | iexcloud1.py:158-162 | for a nonzero USD dividend, the earlier client computes the same record as the current one |
| Legacy.LegacyAgreesOnFx | iexcloud1.py:163-169 | for a nonzero foreign dividend, the two clients agree when the rate given is the rate of the last matching FX quote |
| Arbs.PairStrikes | divvycheck.py:438-458 | every paired strike is at or above the rounded ask and has a put ask or a call bid |
| Arbs.PairStrikesKeys | divvycheck.py:450-458 | a strike is paired exactly when it is at or above the ask and some option rounds to it |
| Arbs.PairStrikesPutAsk | divvycheck.py:455-456 | a paired strike has a put ask exactly when some put rounds to it |
| Arbs.PairStrikesCallBid | divvycheck.py:457-458 | a paired strike has a call bid exactly when some call rounds to it |
| Arbs.PairStrikesLastPut | divvycheck.py:455-456 | the put ask kept is the last put's, rounded |
| Arbs.PairStrikesLastCall | divvycheck.py:457-458 | the call bid kept is the last call's, rounded |
| Arbs.Profit | divvycheck.py:474-482 | the profit of one long conversion is whole cents, within half a cent of (dividend - (put ask - call bid - (strike - ask))) * 100 - 4 |
| Arbs.ProfitPositiveIff | divvycheck.py:482-485 | a trade is recorded exactly when (dividend + strike - ask - put ask + call bid) * 100 - 4 exceeds half a cent |
| Arbs.EvalPuts | divvycheck.py:461-477 | the second pass raises KeyError exactly when an evaluated put misses its put ask, its call bid or the ticker's yield |
| Arbs.FirstProfitable | divvycheck.py:485 | the position of the first profitable put, `None` exactly when there is none |
| Arbs.FirstProfitableSnoc | divvycheck.py:461-485 | one more option keeps an earlier first profitable put |
| Arbs.EvalPutsKeepsFirst | divvycheck.py:485-500 | the entry left is that of the first profitable put when the yield is positive, a bare entry when it is not, and none without a profitable put |
| Arbs.PutStepKeeps | divvycheck.py:485-492 | once the first profitable put's entry is recorded, no later put replaces it: the recorded yield is never strictly below the ticker's |
| Arbs.PutStepFromNothing | divvycheck.py:485-500 | with no entry yet, a put leaves its own entry when profitable and nothing otherwise |
| Arbs.Flagged | divvycheck.py:418-424 | no contract of its own (a predicate); its effect on the search is stated by `Arbs.ArbsSkipFlagged` |
| Arbs.EvalTicker | divvycheck.py:409-500 | no contract of its own; one ticker's iteration is stated by `Arbs.ArbsSkipExDividendDay`, `Arbs.ArbsSkipFlagged`, `Arbs.ArbsMissingAskRaises`, `Arbs.ArbsNoExpirationRaises`, `Arbs.ArbsKeepFirstProfitable` and `Arbs.ArbsRecordedTrade` |
| Arbs.FindArbs | divvycheck.py:399-502 | the search succeeds exactly when every ticker's iteration does, and names only input tickers |
| Arbs.FindArbsAt | divvycheck.py:404-409 | each ticker's entry is the one its own iteration left |
| Arbs.FindArbsOrder | divvycheck.py:409-500 | the result lists the tickers that left an entry in input order |
| Arbs.ArbsSkipExDividendDay | divvycheck.py:414-416 | no entry on the ex-dividend day |
| Arbs.ArbsSkipFlagged | divvycheck.py:418-424 | no entry when a memo contains "Symbol: " + the upper-cased ticker |
| Arbs.ArbsMissingAskRaises | divvycheck.py:410 | a realtime quote without an ask raises TypeError and aborts the search |
| Arbs.ArbsNoExpirationRaises | divvycheck.py:429-439 | with no expiration on or after the record date, the search raises KeyError |
| Arbs.ArbsPutWithoutCallRaises | divvycheck.py:474 | a put at or above the ask with no call at its strike raises KeyError |
| Arbs.ArbsKeepFirstProfitable | divvycheck.py:409-500 | for a ticker not skipped, a chain exists for the selected expiration, and the entry is the first profitable put's, as `Kept` prescribes |
| Arbs.ArbsRecordedTrade | divvycheck.py:474-500 | every recorded trade is a put of the selected chain at or above the rounded ask, with a call at its strike, positive profit, and the ticker's positive yield and dividend |
| Arbs.ArbsEmptyIff | divvycheck.py:485-492 | a bare entry is left exactly when a put is profitable but the yield is at most zero |
| Ranking.InsertDesc | divvycheck.py:554 | insertion keeps the order descending and adds exactly the one row |
| Ranking.SortDesc | divvycheck.py:554 | the rows by non-increasing yield, as a permutation |
| Ranking.SortDescStable | divvycheck.py:554 | rows of equal yield keep their original order |
| Ranking.InsertDescStable | divvycheck.py:554 | insertion places a row after the rows of its own yield |
| Ranking.Trades | divvycheck.py:554 | every filled entry's trade is a row and every row comes from a filled entry |
| Ranking.TradesCount | divvycheck.py:554 | each row occurs exactly as often as its filled entry: nothing is duplicated, invented or lost |
| Ranking.TradesAppend | divvycheck.py:554 | the rows follow the dict's order, which decides the order among equal yields |
| Ranking.RankAsWritten | divvycheck.py:554 | the sort raises KeyError exactly when some entry is bare; otherwise the rows are descending, a permutation of the filled entries, and stable among equal yields |
| Ranking.Rank | divvycheck.py:554 | the corrected sort is descending, a permutation of the filled entries, and stable among equal yields |
| Ranking.RankAgrees | divvycheck.py:554 | where the written sort succeeds, it equals the corrected one |
| Ranking.RankContents | divvycheck.py:554 | a row is ranked exactly when its trade is in the result |
| Scan.ScanAsWritten | divvycheck.py:536-554 | the pipeline as written: whatever it reports is in descending order of yield |
| Scan.ScanRanked | divvycheck.py:536-554 | the corrected pipeline: whatever it reports is in descending order of yield |
| Scan.ScanRows | divvycheck.py:536-554 | every reported row has positive profit and yield, and comes from an input ticker with a nonzero dividend; the rows are descending |
| Scan.ScanAgrees | divvycheck.py:536-554 | where the written pipeline succeeds, the corrected one reports the same |
| Scan.ScanAsWrittenFailsOnBareEntry | divvycheck.py:554 | the written pipeline fails exactly when the search left a bare entry |
| Scan.ExampleConversion | divvycheck.py:201-207 | a 0.001 USD dividend on a 100.00 stock yields 0.00% |
| Scan.ExamplePuts | divvycheck.py:485-492 | its put earning 96.10 leaves only a bare entry |
| Scan.ExampleSearch | divvycheck.py:404-502 | the search result is that single bare entry |
| Scan.BareEntryCounterexample | divvycheck.py:554 | the written pipeline raises KeyError, the corrected one reports no row |

## Left out

- HTTP queries (IEX, Tradier, the FX feed, the OCC RSS feed), RSS parsing, the pickle cache and the API-key files: network and file I/O. Their results enter the model as parameters.
- Throttling, progress bars, header building and columnar printing: timing and display only.
- The days-to-expiry annotation, built from `datetime.now()`, and the `'$'` string formatting of the result fields. The model keeps the numbers and the expiration date.
- Date parsing with `strptime`: dates are already triples, so a malformed date string, which would raise ValueError, is not modelled.
- Decimal's 28-digit context and binary float inputs: amounts are exact reals.
- A JSON `null` price, rate or amount, and a missing FX `symbol`, are not modelled. Prices, rates and amounts are always numbers.
- Option types other than put and call are not modelled: `OptionKind` has only the two. The first pass ignores such an option (divvycheck.py:455-458). The second pass skips only calls (divvycheck.py:467-470), so it would price such an option as a put, and it raises KeyError when its strike has no put ask.
- Unicode case mapping: `Text.Upper` maps ASCII letters only.
- Legacy.LegacyYield: Decimal raises InvalidOperation, not DivisionByZero, for 0 / 0 (a zero USD dividend on a zero price). The model records every division by zero as DivisionByZero.
- `iexcloud1.py`'s own `currency_conversion` (the FX fetch building the rate map) is network I/O, so its rate map is a parameter of `UpdateYields`.

## Findings

| source | as written | input that shows it | evidently intended | confidence | as-written member | corrected member |
|---|---|---|---|---|---|---|
| divvycheck.py:488-492, 554 | A profitable put reads `profitable_trades[k]['div_yield']`, which creates an empty entry for the ticker. When the yield is not above 0 no trade is written, so the empty entry stays. The report sort then reads `['div_yield']` of that entry and raises KeyError. | A 0.001 USD dividend on a 100.00 stock (yield 0.00%), realtime ask 48.00, strike 50 with put ask 1.00 and call bid 0.00 (profit 96.10) | A ticker without a recorded trade has no entry and the report lists the other trades | high (proved in the model; not executed) | Ranking.RankAsWritten | Ranking.Rank |

`Scan.BareEntryCounterexample` proves the failure on that input. `Arbs.ArbsEmptyIff` characterises when a bare entry arises. `Scan.ScanRanked`, the corrected pipeline, uses `Ranking.Rank`, which passes over bare entries.
