/** The report order: the items of the search result sorted on each entry's
    yield, highest first. Python's sort is stable, also in reverse, so rows of equal
    yield keep their order in the result dict. The key is read for every
    entry before sorting, so a bare entry without a yield makes the sort
    raise KeyError. */
module Ranking {
  import opened Base
  import opened Records
  import opened Dicts

  type Row = (string, Trade)

  function YieldOf(r: Row): real
  {
    r.1.divYield
  }

  predicate Descending(s: seq<Row>)
  {
    forall i, j :: 0 <= i < j < |s| ==> YieldOf(s[i]) >= YieldOf(s[j])
  }

  /** The row in front is at least as high as every row behind it. */
  lemma InsertDescFront(s: seq<Row>, x: Row, rest: seq<Row>)
    requires Descending(s) && |s| > 0 && YieldOf(s[0]) >= YieldOf(x)
    requires Descending(rest) && multiset(rest) == multiset(s[1..]) + multiset{x}
    ensures Descending([s[0]] + rest)
  {
    var r := [s[0]] + rest;
    forall i, j | 0 <= i < j < |r| ensures YieldOf(r[i]) >= YieldOf(r[j]) {
      if i == 0 {
        assert r[j] in multiset(s[1..]) + multiset{x};
        if r[j] != x {
          assert r[j] in s[1..];
        }
      } else {
        assert r[i] == rest[i - 1] && r[j] == rest[j - 1];
      }
    }
  }

  /** Places `x` after every row whose yield is at least its own. */
  function InsertDesc(s: seq<Row>, x: Row): (r: seq<Row>)
    requires Descending(s)
    ensures Descending(r)
    ensures multiset(r) == multiset(s) + multiset{x}
  {
    if |s| == 0 then [x]
    else if YieldOf(s[0]) >= YieldOf(x) then
      var rest := InsertDesc(s[1..], x);
      assert s == [s[0]] + s[1..];
      InsertDescFront(s, x, rest);
      [s[0]] + rest
    else
      [x] + s
  }

  /** A stable sort by descending yield. */
  function SortDesc(s: seq<Row>): (r: seq<Row>)
    ensures Descending(r)
    ensures multiset(r) == multiset(s)
  {
    if |s| == 0 then []
    else
      assert s == s[..|s| - 1] + [s[|s| - 1]];
      InsertDesc(SortDesc(s[..|s| - 1]), s[|s| - 1])
  }

  /** The rows of yield `v`, in order. */
  function WithYield(s: seq<Row>, v: real): seq<Row>
  {
    if |s| == 0 then [] else (if YieldOf(s[0]) == v then [s[0]] else []) + WithYield(s[1..], v)
  }

  lemma {:induction false} WithYieldAppend(a: seq<Row>, b: seq<Row>, v: real)
    ensures WithYield(a + b, v) == WithYield(a, v) + WithYield(b, v)
  {
    if |a| > 0 {
      assert (a + b)[1..] == a[1..] + b;
      WithYieldAppend(a[1..], b, v);
    } else {
      assert a + b == b;
    }
  }

  lemma {:induction false} WithYieldBelow(s: seq<Row>, v: real)
    requires forall i :: 0 <= i < |s| ==> YieldOf(s[i]) < v
    ensures WithYield(s, v) == []
  {
    if |s| > 0 {
      WithYieldBelow(s[1..], v);
    }
  }

  lemma WithYieldCons(y: Row, rest: seq<Row>, v: real)
    ensures WithYield([y] + rest, v) == (if YieldOf(y) == v then [y] else []) + WithYield(rest, v)
  {
    assert ([y] + rest)[1..] == rest;
  }

  /** A row going in front of higher rows precedes no row of its own yield. */
  lemma InsertDescStableFront(s: seq<Row>, x: Row, v: real)
    requires Descending(s) && |s| > 0 && YieldOf(s[0]) < YieldOf(x)
    ensures WithYield(InsertDesc(s, x), v) == WithYield(s, v) + (if YieldOf(x) == v then [x] else [])
  {
    WithYieldCons(x, s, v);
    if YieldOf(x) == v {
      assert forall i :: 0 <= i < |s| ==> YieldOf(s[i]) <= YieldOf(s[0]);
      WithYieldBelow(s, v);
    }
  }

  /** The step of the stability proof: a common head row keeps the relation. */
  lemma WithYieldHead(y: Row, rest: seq<Row>, s1: seq<Row>, tail: seq<Row>, v: real)
    requires WithYield(rest, v) == WithYield(s1, v) + tail
    ensures WithYield([y] + rest, v) == WithYield([y] + s1, v) + tail
  {
    WithYieldCons(y, rest, v);
    WithYieldCons(y, s1, v);
  }

  /** Inserting a row keeps the rows of each yield in order and puts the new
      row after the rows of its own yield. */
  lemma {:induction false} InsertDescStable(s: seq<Row>, x: Row, v: real)
    requires Descending(s)
    ensures WithYield(InsertDesc(s, x), v) == WithYield(s, v) + (if YieldOf(x) == v then [x] else [])
  {
    if |s| == 0 {
      WithYieldCons(x, [], v);
    } else if YieldOf(s[0]) >= YieldOf(x) {
      InsertDescStable(s[1..], x, v);
      WithYieldHead(s[0], InsertDesc(s[1..], x), s[1..], if YieldOf(x) == v then [x] else [], v);
      assert s == [s[0]] + s[1..];
    } else {
      InsertDescStableFront(s, x, v);
    }
  }

  /** Stability: rows of equal yield come out in their original order. */
  lemma {:induction false} SortDescStable(s: seq<Row>, v: real)
    ensures WithYield(SortDesc(s), v) == WithYield(s, v)
  {
    if |s| > 0 {
      var n := |s| - 1;
      var pre := s[..n];
      var tail := if YieldOf(s[n]) == v then [s[n]] else [];
      assert WithYield([s[n]], v) == tail + WithYield([], v);
      calc {
        WithYield(SortDesc(s), v);
        WithYield(InsertDesc(SortDesc(pre), s[n]), v);
        { InsertDescStable(SortDesc(pre), s[n], v); }
        WithYield(SortDesc(pre), v) + tail;
        { SortDescStable(pre, v); }
        WithYield(pre, v) + WithYield([s[n]], v);
        { WithYieldAppend(pre, [s[n]], v); }
        WithYield(pre + [s[n]], v);
        { assert s == pre + [s[n]]; }
        WithYield(s, v);
      }
    }
  }

  /** The row one entry contributes: its trade, or nothing for a bare entry. */
  function Emit(e: (string, Slot)): seq<Row>
  {
    if e.1.Filled? then [(e.0, e.1.trade)] else []
  }

  /** One more entry adds its own row to the count of that row and nothing else. */
  lemma EmitCount(rest: seq<Row>, pre: seq<(string, Slot)>, e: (string, Slot), x: Row)
    requires multiset(rest)[x] == multiset(pre)[(x.0, Slot.Filled(x.1))]
    ensures multiset(rest + Emit(e))[x] == multiset(pre + [e])[(x.0, Slot.Filled(x.1))]
  {
    assert multiset(pre + [e]) == multiset(pre) + multiset{e};
    assert multiset(rest + Emit(e)) == multiset(rest) + multiset(Emit(e));
    if e.1.Filled? {
      assert x == (e.0, e.1.trade) <==> (x.0, Slot.Filled(x.1)) == e;
    } else {
      assert (x.0, Slot.Filled(x.1)) != e;
    }
  }

  /** The filled entries of the result dict, in order. */
  function Trades(arbs: seq<(string, Slot)>): (r: seq<Row>)
    ensures |r| <= |arbs|
    ensures forall i :: 0 <= i < |arbs| && arbs[i].1.Filled? ==> (arbs[i].0, arbs[i].1.trade) in r
    ensures forall x :: x in r ==> (x.0, Slot.Filled(x.1)) in arbs
  {
    if |arbs| == 0 then []
    else
      var n := |arbs| - 1;
      var rest := Trades(arbs[..n]);
      assert forall i :: 0 <= i < n ==> arbs[..n][i] == arbs[i];
      assert forall x :: x in arbs[..n] ==> x in arbs;
      rest + Emit(arbs[n])
  }

  /** Each filled entry gives its row exactly once: a row occurs as often as
      its filled entry does, so no row is duplicated or invented. */
  lemma {:induction false} TradesCount(arbs: seq<(string, Slot)>, x: Row)
    ensures multiset(Trades(arbs))[x] == multiset(arbs)[(x.0, Slot.Filled(x.1))]
  {
    if |arbs| > 0 {
      var n := |arbs| - 1;
      TradesCount(arbs[..n], x);
      EmitCount(Trades(arbs[..n]), arbs[..n], arbs[n], x);
      assert arbs == arbs[..n] + [arbs[n]];
    }
  }

  lemma TradesSnoc(s: seq<(string, Slot)>)
    requires |s| > 0
    ensures Trades(s) == Trades(s[..|s| - 1]) + Emit(s[|s| - 1])
  {
  }

  /** The rows of a dict built in two parts are the rows of the first part
      followed by those of the second: the dict's order is kept. */
  lemma {:induction false} TradesAppend(a: seq<(string, Slot)>, b: seq<(string, Slot)>)
    ensures Trades(a + b) == Trades(a) + Trades(b)
    decreases |b|
  {
    if |b| == 0 {
      assert a + b == a;
    } else {
      var m := |b| - 1;
      var ab := a + b;
      assert ab[..|ab| - 1] == a + b[..m];
      assert ab[|ab| - 1] == b[m];
      calc {
        Trades(ab);
        { TradesSnoc(ab); }
        Trades(a + b[..m]) + Emit(b[m]);
        { TradesAppend(a, b[..m]); }
        (Trades(a) + Trades(b[..m])) + Emit(b[m]);
        Trades(a) + (Trades(b[..m]) + Emit(b[m]));
        { TradesSnoc(b); }
        Trades(a) + Trades(b);
      }
    }
  }

  /** The sort as written: any bare entry raises KeyError. */
  function RankAsWritten(arbs: Dict<Slot>): (r: Result<seq<Row>>)
    ensures r.Failure? <==> exists i :: 0 <= i < |arbs| && arbs[i].1 == Empty
    ensures r.Failure? ==> r.error == KeyError
    ensures r.Success? ==> Descending(r.value) && multiset(r.value) == multiset(Trades(arbs))
    ensures r.Success? ==> forall v :: WithYield(r.value, v) == WithYield(Trades(arbs), v)
  {
    if exists i :: 0 <= i < |arbs| && arbs[i].1 == Empty then Failure(KeyError)
    else
      forall v ensures WithYield(SortDesc(Trades(arbs)), v) == WithYield(Trades(arbs), v) {
        SortDescStable(Trades(arbs), v);
      }
      Success(SortDesc(Trades(arbs)))
  }

  /** The sort as intended: bare entries carry no trade and are passed over. */
  function Rank(arbs: Dict<Slot>): (r: seq<Row>)
    ensures Descending(r)
    ensures multiset(r) == multiset(Trades(arbs))
    ensures forall v :: WithYield(r, v) == WithYield(Trades(arbs), v)
  {
    forall v ensures WithYield(SortDesc(Trades(arbs)), v) == WithYield(Trades(arbs), v) {
      SortDescStable(Trades(arbs), v);
    }
    SortDesc(Trades(arbs))
  }

  /** Where the written sort succeeds, it agrees with the intended one. */
  lemma RankAgrees(arbs: Dict<Slot>)
    requires RankAsWritten(arbs).Success?
    ensures RankAsWritten(arbs).value == Rank(arbs)
  {
  }

  /** Every trade of the result appears in the ranking, and nothing else. */
  lemma RankContents(arbs: Dict<Slot>, k: string, t: Trade)
    ensures (k, t) in Rank(arbs) <==> (k, Slot.Filled(t)) in arbs
  {
    var f := Trades(arbs);
    assert (k, t) in Rank(arbs) <==> (k, t) in multiset(f);
    if (k, Slot.Filled(t)) in arbs {
      var i :| 0 <= i < |arbs| && arbs[i] == (k, Slot.Filled(t));
      assert (arbs[i].0, arbs[i].1.trade) in f;
    }
  }
}
