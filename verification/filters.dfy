/** The two filters that narrow the universe before the arbitrage search:
    dropping OTC-listed quotes, and dropping non-standard option contracts. */
module Filters {
  import opened Base
  import opened Records
  import opened Text
  import opened Dicts

  /** A quote the OTC filter keeps: it is present, names its primary
      exchange, and that name does not contain "OTC". */
  predicate ListedOnExchange(q: Option<Quote>)
  {
    q.Some? && q.value.primaryExchange.Some? && !Contains(q.value.primaryExchange.value, "OTC")
  }

  /** One step of the OTC filter loop: a missing quote or exchange makes the
      lookup raise, which the loop logs and skips, exactly like an OTC name. */
  function KeepListed(k: string, q: Option<Quote>): Result<Option<Quote>>
  {
    if ListedOnExchange(q) then Success(Some(q.value)) else Success(None)
  }

  /** The loop of `_punt_otc` over the (ticker, quote) items of all batch
      responses in order; a later item overwrites an earlier one. */
  function KeepListedAll(entries: seq<(string, Option<Quote>)>): (r: Dict<Quote>)
    ensures forall k :: k in Keys(r) <==>
      exists i :: 0 <= i < |entries| && entries[i].0 == k && ListedOnExchange(entries[i].1)
    ensures forall i :: 0 <= i < |r| ==> r[i].1.primaryExchange.Some? && !Contains(r[i].1.primaryExchange.value, "OTC")
  {
    assert forall i :: 0 <= i < |entries| ==> KeepListed(entries[i].0, entries[i].1).Success?;
    var out := Gather([], entries, KeepListed).value;
    forall i | 0 <= i < |out| ensures out[i].1.primaryExchange.Some? && !Contains(out[i].1.primaryExchange.value, "OTC") {
      GetAt(out, i);
      LastHitListed(entries, out[i].0);
    }
    assert Keys<Quote>([]) == {};
    assert Keys(out) == set i | 0 <= i < |entries| && ListedOnExchange(entries[i].1) :: entries[i].0;
    forall k ensures k in Keys(out) <==> exists i :: 0 <= i < |entries| && entries[i].0 == k && ListedOnExchange(entries[i].1) {
      if exists i :: 0 <= i < |entries| && entries[i].0 == k && ListedOnExchange(entries[i].1) {
        var i :| 0 <= i < |entries| && entries[i].0 == k && ListedOnExchange(entries[i].1);
        assert entries[i].0 in Keys(out);
      }
    }
    out
  }

  /** `_punt_otc`: every batch response is a dict from ticker to its quote. */
  function PuntOtc(batches: seq<seq<(string, Option<Quote>)>>): (r: Dict<Quote>)
    ensures forall k :: k in Keys(r) <==>
      exists i :: 0 <= i < |Concat(batches)| && Concat(batches)[i].0 == k && ListedOnExchange(Concat(batches)[i].1)
    ensures forall i :: 0 <= i < |r| ==> r[i].1.primaryExchange.Some? && !Contains(r[i].1.primaryExchange.value, "OTC")
  {
    KeepListedAll(Concat(batches))
  }

  /** Whatever the OTC filter keeps for a ticker came from a listed quote. */
  lemma {:induction false} LastHitListed(entries: seq<(string, Option<Quote>)>, k: string)
    ensures var h := LastHit(entries, KeepListed, k);
      h.Some? ==> h.value.primaryExchange.Some? && !Contains(h.value.primaryExchange.value, "OTC")
  {
    if |entries| > 0 {
      LastHitListed(entries[..|entries| - 1], k);
    }
  }

  /** A quote for a ticker survives unless a later listed quote for the same
      ticker replaces it: the filter keeps the last listed quote. */
  lemma PuntOtcKeepsLast(batches: seq<seq<(string, Option<Quote>)>>, i: int)
    requires 0 <= i < |Concat(batches)|
    requires ListedOnExchange(Concat(batches)[i].1)
    requires forall j :: i < j < |Concat(batches)| && Concat(batches)[j].0 == Concat(batches)[i].0 ==>
      !ListedOnExchange(Concat(batches)[j].1)
    ensures Get(PuntOtc(batches), Concat(batches)[i].0) == Concat(batches)[i].1
  {
    var entries := Concat(batches);
    LastHitAfter(entries, i);
  }

  lemma {:induction false} LastHitAfter(entries: seq<(string, Option<Quote>)>, i: int)
    requires 0 <= i < |entries|
    requires ListedOnExchange(entries[i].1)
    requires forall j :: i < j < |entries| && entries[j].0 == entries[i].0 ==> !ListedOnExchange(entries[j].1)
    ensures LastHit(entries, KeepListed, entries[i].0) == entries[i].1
  {
    var n := |entries| - 1;
    if i < n {
      var prefix := entries[..n];
      assert prefix[i] == entries[i];
      LastHitAfter(prefix, i);
    }
  }

  /** Only standard 100-share contracts survive, in their original order. */
  function StandardContracts(chain: seq<OptionQuote>): (r: seq<OptionQuote>)
    ensures forall i :: 0 <= i < |r| ==> r[i].contractSize == OptionContractSize
  {
    if |chain| == 0 then []
    else
      var n := |chain| - 1;
      var kept := StandardContracts(chain[..n]);
      if chain[n].contractSize == OptionContractSize then kept + [chain[n]] else kept
  }

  /** Every standard contract of the chain survives, as often as it occurs,
      and nothing else does. */
  lemma {:induction false} StandardContractsCounts(chain: seq<OptionQuote>, o: OptionQuote)
    ensures multiset(StandardContracts(chain))[o] ==
      if o.contractSize == OptionContractSize then multiset(chain)[o] else 0
  {
    if |chain| > 0 {
      var n := |chain| - 1;
      assert chain == chain[..n] + [chain[n]];
      StandardContractsCounts(chain[..n], o);
    }
  }

  /** Filtering a chain piecewise filters it whole, so the relative order of
      the surviving contracts is the order of the chain. */
  lemma {:induction false} StandardContractsAppend(a: seq<OptionQuote>, b: seq<OptionQuote>)
    ensures StandardContracts(a + b) == StandardContracts(a) + StandardContracts(b)
    decreases |b|
  {
    if |b| > 0 {
      var n := |b| - 1;
      var ab := a + b;
      assert ab[..|ab| - 1] == a + b[..n];
      assert ab[|ab| - 1] == b[n];
      StandardContractsAppend(a, b[..n]);
      assert StandardContracts(ab) == StandardContracts(a + b[..n]) + (if b[n].contractSize == OptionContractSize then [b[n]] else []);
      assert StandardContracts(b) == StandardContracts(b[..n]) + (if b[n].contractSize == OptionContractSize then [b[n]] else []);
    } else {
      assert a + b == a;
    }
  }
}
