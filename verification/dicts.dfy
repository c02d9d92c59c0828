/** Python's insertion-ordered `dict` keyed by ticker symbols.
    A dict is the sequence of its (key, value) items in insertion order, with
    no key twice; `Store` is the assignment `d[k] = v`, which replaces the value
    in place when the key is present and appends the item otherwise. */
module Dicts {
  import opened Base

  predicate DistinctKeys<V>(s: seq<(string, V)>)
  {
    forall i, j :: 0 <= i < j < |s| ==> s[i].0 != s[j].0
  }

  type Dict<V> = s: seq<(string, V)> | DistinctKeys(s) witness []

  function Keys<V>(s: seq<(string, V)>): set<string>
  {
    set i | 0 <= i < |s| :: s[i].0
  }

  /** `d.get(k)`: the value of the first item with key `k`. */
  function Get<V>(d: seq<(string, V)>, k: string): (r: Option<V>)
    ensures r.None? <==> k !in Keys(d)
    ensures r.Some? ==> (k, r.value) in d
  {
    if |d| == 0 then None
    else if d[0].0 == k then Some(d[0].1)
    else
      assert forall p :: p in d[1..] ==> p in d;
      assert forall p :: p in d && p.0 != d[0].0 ==> p in d[1..];
      Get(d[1..], k)
  }

  /** In a dict, the item at position `i` is what a lookup of its key finds. */
  lemma {:induction false} GetAt<V>(d: Dict<V>, i: int)
    requires 0 <= i < |d|
    ensures Get(d, d[i].0) == Some(d[i].1)
  {
    if i > 0 {
      assert d[0].0 != d[i].0;
      var rest: Dict<V> := d[1..];
      GetAt(rest, i - 1);
    }
  }

  /** A dict with a single key has a single item. */
  lemma SingleKey<V>(d: Dict<V>, k: string)
    requires Keys(d) == {k}
    ensures |d| == 1 && d[0].0 == k
  {
    assert d[0].0 in Keys(d) && d[|d| - 1].0 in Keys(d);
  }

  lemma KeysAppend<V>(d: seq<(string, V)>, k: string, v: V)
    ensures Keys(d + [(k, v)]) == Keys(d) + {k}
  {
    var e := d + [(k, v)];
    assert forall m :: 0 <= m < |d| ==> e[m] == d[m];
    assert e[|d|] == (k, v);
  }

  lemma {:induction false} GetAppend<V>(d: seq<(string, V)>, k: string, v: V, j: string)
    requires k !in Keys(d)
    ensures Get(d + [(k, v)], j) == if j == k then Some(v) else Get(d, j)
  {
    if |d| > 0 {
      assert (d + [(k, v)])[1..] == d[1..] + [(k, v)];
      if d[0].0 != j {
        assert forall p :: p in d[1..] ==> p in d;
        GetAppend(d[1..], k, v, j);
      }
    }
  }

  /** `d[k] = v`. */
  function Store<V>(d: Dict<V>, k: string, v: V): (r: Dict<V>)
    ensures Get(r, k) == Some(v)
    ensures forall j :: j != k ==> Get(r, j) == Get(d, j)
    ensures Keys(r) == Keys(d) + {k}
    ensures |r| == |d| + (if k in Keys(d) then 0 else 1)
    ensures k !in Keys(d) ==> r == d + [(k, v)]
  {
    if k !in Keys(d) then
      KeysAppend(d, k, v);
      forall j ensures Get(d + [(k, v)], j) == if j == k then Some(v) else Get(d, j) {
        GetAppend(d, k, v, j);
      }
      d + [(k, v)]
    else
      var i :| 0 <= i < |d| && d[i].0 == k;
      var r: seq<(string, V)> := d[i := (k, v)];
      assert forall m :: 0 <= m < |r| ==> r[m].0 == d[m].0;
      assert Keys(r) == Keys(d);
      forall j ensures Get(r, j) == if j == k then Some(v) else Get(d, j) {
        if j == k {
          GetAt(r, i);
        } else if j in Keys(d) {
          var m :| 0 <= m < |d| && d[m].0 == j;
          GetAt(d, m);
          GetAt(r, m);
        }
      }
      r
  }

  /** The value the last entry with key `k` contributes under `f`, if any:
      entries whose `f` result is `Success(None)` contribute nothing. */
  function LastHit<V, W>(entries: seq<(string, V)>, f: (string, V) -> Result<Option<W>>, k: string): Option<W>
  {
    if |entries| == 0 then None
    else
      var e := entries[|entries| - 1];
      var r := f(e.0, e.1);
      if e.0 == k && r.Success? && r.value.Some? then r.value
      else LastHit(entries[..|entries| - 1], f, k)
  }

  /** A loop over the entries that computes an optional value per entry and
      stores each present one under the entry's key; evaluating `f` may
      raise, and the first raise aborts the loop. */
  function Gather<V, W>(acc: Dict<W>, entries: seq<(string, V)>, f: (string, V) -> Result<Option<W>>): (r: Result<Dict<W>>)
    ensures r.Success? <==> forall i :: 0 <= i < |entries| ==> f(entries[i].0, entries[i].1).Success?
    ensures r.Failure? ==> exists i :: 0 <= i < |entries| && f(entries[i].0, entries[i].1) == Failure(r.error)
    ensures r.Success? ==> forall k ::
      Get(r.value, k) == (if LastHit(entries, f, k).Some? then LastHit(entries, f, k) else Get(acc, k))
    ensures r.Success? ==> Keys(r.value) == Keys(acc) + HitKeys(entries, f)
  {
    if |entries| == 0 then Success(acc)
    else
      var n := |entries| - 1;
      var e := entries[n];
      var prefix := entries[..n];
      assert forall i :: 0 <= i < n ==> prefix[i] == entries[i];
      match Gather(acc, prefix, f)
      case Failure(err) => Failure(err)
      case Success(out) =>
        match f(e.0, e.1)
        case Failure(err) => Failure(err)
        case Success(None) =>
          HitKeysSnoc(entries, f);
          GatherStepGet(acc, entries, f, out, out);
          Success(out)
        case Success(Some(w)) =>
          HitKeysSnoc(entries, f);
          GatherStepGet(acc, entries, f, out, Store(out, e.0, w));
          Success(Store(out, e.0, w))
  }

  /** One step of `Gather`: storing the last entry's value, if any, into the
      result for the other entries gives what a lookup should find. */
  lemma GatherStepGet<V, W>(acc: Dict<W>, entries: seq<(string, V)>, f: (string, V) -> Result<Option<W>>, out: Dict<W>, r: Dict<W>)
    requires |entries| > 0
    requires f(entries[|entries| - 1].0, entries[|entries| - 1].1).Success?
    requires forall k :: (Get(out, k) ==
      (if LastHit(entries[..|entries| - 1], f, k).Some? then LastHit(entries[..|entries| - 1], f, k) else Get(acc, k)))
    requires var e := entries[|entries| - 1]; var x := f(e.0, e.1).value;
      r == if x.Some? then Store(out, e.0, x.value) else out
    ensures forall k :: Get(r, k) == (if LastHit(entries, f, k).Some? then LastHit(entries, f, k) else Get(acc, k))
  {
  }

  /** The keys of the entries for which `f` produces a value. */
  function HitKeys<V, W>(entries: seq<(string, V)>, f: (string, V) -> Result<Option<W>>): set<string>
  {
    set i | 0 <= i < |entries| && f(entries[i].0, entries[i].1).Success? && f(entries[i].0, entries[i].1).value.Some? :: entries[i].0
  }

  lemma HitKeysSnoc<V, W>(entries: seq<(string, V)>, f: (string, V) -> Result<Option<W>>)
    requires |entries| > 0
    ensures var e := entries[|entries| - 1]; var x := f(e.0, e.1);
      HitKeys(entries, f) == HitKeys(entries[..|entries| - 1], f) + (if x.Success? && x.value.Some? then {e.0} else {})
  {
    var n := |entries| - 1;
    assert forall i :: 0 <= i < n ==> entries[..n][i] == entries[i];
  }

  /** With distinct keys, the entry at position `i` alone decides what `Gather`
      holds for its key. */
  lemma {:induction false} LastHitDistinct<V, W>(entries: Dict<V>, f: (string, V) -> Result<Option<W>>, i: int)
    requires 0 <= i < |entries|
    ensures var r := f(entries[i].0, entries[i].1);
      LastHit(entries, f, entries[i].0) == if r.Success? then r.value else None
  {
    var n := |entries| - 1;
    if i < n {
      assert entries[n].0 != entries[i].0;
      var prefix: Dict<V> := entries[..n];
      assert prefix[i] == entries[i];
      LastHitDistinct(prefix, f, i);
    } else {
      LastHitAbsent(entries[..n], f, entries[i].0);
    }
  }

  /** A key no entry carries gets no hit. */
  lemma {:induction false} LastHitAbsent<V, W>(entries: seq<(string, V)>, f: (string, V) -> Result<Option<W>>, k: string)
    requires forall i :: 0 <= i < |entries| ==> entries[i].0 != k
    ensures LastHit(entries, f, k) == None
  {
    if |entries| > 0 {
      var n := |entries| - 1;
      assert forall i :: 0 <= i < n ==> entries[..n][i] == entries[i];
      LastHitAbsent(entries[..n], f, k);
    }
  }

  /** A hit comes from some entry with that key. */
  lemma {:induction false} LastHitSome<V, W>(entries: seq<(string, V)>, f: (string, V) -> Result<Option<W>>, k: string)
    requires LastHit(entries, f, k).Some?
    ensures exists i :: (0 <= i < |entries| && entries[i].0 == k
      && f(entries[i].0, entries[i].1) == Success(LastHit(entries, f, k)))
  {
    var n := |entries| - 1;
    var e := entries[n];
    if !(e.0 == k && f(e.0, e.1).Success? && f(e.0, e.1).value.Some?) {
      var prefix := entries[..n];
      LastHitSome(prefix, f, k);
      var i :| 0 <= i < |prefix| && prefix[i].0 == k && f(prefix[i].0, prefix[i].1) == Success(LastHit(prefix, f, k));
      assert prefix[i] == entries[i];
    }
  }

  /** The keyed values `f` produces, in entry order: the items a loop over the
      entries appends to a dict that holds none of their keys. A raising entry
      contributes nothing here; `Gather` aborts on it. */
  function Hits<V, W>(entries: seq<(string, V)>, f: (string, V) -> Result<Option<W>>): seq<(string, W)>
  {
    if |entries| == 0 then []
    else
      var n := |entries| - 1;
      var e := entries[n];
      var x := f(e.0, e.1);
      Hits(entries[..n], f) + (if x.Success? && x.value.Some? then [(e.0, x.value.value)] else [])
  }

  /** Every key among the hits is the key of an entry that produced a value. */
  lemma {:induction false} HitsKeys<V, W>(entries: seq<(string, V)>, f: (string, V) -> Result<Option<W>>, k: string)
    requires k in Keys(Hits(entries, f))
    ensures exists i :: (0 <= i < |entries| && entries[i].0 == k
      && f(entries[i].0, entries[i].1).Success? && f(entries[i].0, entries[i].1).value.Some?)
  {
    var n := |entries| - 1;
    var e := entries[n];
    var x := f(e.0, e.1);
    var front := Hits(entries[..n], f);
    var tail: seq<(string, W)> := if x.Success? && x.value.Some? then [(e.0, x.value.value)] else [];
    var j :| 0 <= j < |front + tail| && (front + tail)[j].0 == k;
    if j < |front| {
      assert front[j].0 == k;
      HitsKeys(entries[..n], f, k);
      var i :| 0 <= i < n && entries[..n][i].0 == k
        && f(entries[..n][i].0, entries[..n][i].1).Success? && f(entries[..n][i].0, entries[..n][i].1).value.Some?;
      assert entries[..n][i] == entries[i];
    }
  }

  lemma {:induction false} HitsAppend<V, W>(a: seq<(string, V)>, b: seq<(string, V)>, f: (string, V) -> Result<Option<W>>)
    ensures Hits(a + b, f) == Hits(a, f) + Hits(b, f)
    decreases |b|
  {
    if |b| == 0 {
      assert a + b == a;
    } else {
      var n := |b| - 1;
      assert (a + b)[..|a| + n] == a + b[..n];
      assert (a + b)[|a| + n] == b[n];
      HitsAppend(a, b[..n], f);
    }
  }

  /** Running a second pass over the hits of a first pass gives the hits of
      the two passes composed, in the order of the original entries. */
  lemma {:induction false} HitsThen<V, U, W>(entries: seq<(string, V)>, g: (string, V) -> Result<Option<U>>,
      h: (string, U) -> Result<Option<W>>, gh: (string, V) -> Result<Option<W>>)
    requires forall k, v :: gh(k, v) == (if g(k, v).Success? && g(k, v).value.Some? then h(k, g(k, v).value.value) else Success(None))
    ensures Hits(Hits(entries, g), h) == Hits(entries, gh)
  {
    if |entries| > 0 {
      var n := |entries| - 1;
      var e := entries[n];
      var x := g(e.0, e.1);
      var tail: seq<(string, U)> := if x.Success? && x.value.Some? then [(e.0, x.value.value)] else [];
      HitsAppend(Hits(entries[..n], g), tail, h);
      HitsThen(entries[..n], g, h, gh);
      if x.Success? && x.value.Some? {
        assert tail[..0] == [];
      }
    }
  }

  /** When no entry's key is already in the accumulator and the entries carry
      distinct keys, every store appends: the loop's result is the accumulator
      followed by the produced values in entry order. */
  lemma {:induction false} GatherOrder<V, W>(acc: Dict<W>, entries: Dict<V>, f: (string, V) -> Result<Option<W>>)
    requires Keys(entries) !! Keys(acc)
    requires Gather(acc, entries, f).Success?
    ensures Gather(acc, entries, f).value == acc + Hits(entries, f)
  {
    if |entries| > 0 {
      var n := |entries| - 1;
      var e := entries[n];
      var prefix: Dict<V> := entries[..n];
      GatherSnoc(acc, entries, f);
      assert Keys(prefix) <= Keys(entries) by {
        assert forall i :: 0 <= i < n ==> prefix[i] == entries[i];
      }
      GatherOrder(acc, prefix, f);
      assert e.0 !in Keys(Gather(acc, prefix, f).value) by {
        assert forall i :: 0 <= i < n ==> prefix[i].0 != e.0;
        assert e.0 in Keys(entries);
      }
    }
  }

  /** `Gather` over all the entries is `Gather` over all but the last, followed
      by the last entry's store. */
  lemma GatherSnoc<V, W>(acc: Dict<W>, entries: seq<(string, V)>, f: (string, V) -> Result<Option<W>>)
    requires |entries| > 0
    requires Gather(acc, entries, f).Success?
    ensures var n := |entries| - 1; var e := entries[n];
      Gather(acc, entries[..n], f).Success? && f(e.0, e.1).Success?
    ensures var n := |entries| - 1; var e := entries[n]; var g := Gather(acc, entries[..n], f);
      f(e.0, e.1) == Success(None) ==> Gather(acc, entries, f) == g
    ensures var n := |entries| - 1; var e := entries[n]; var g := Gather(acc, entries[..n], f);
      var x := f(e.0, e.1);
      x.Success? && x.value.Some? && g.Success? && e.0 !in Keys(g.value) ==>
        Gather(acc, entries, f).value == g.value + [(e.0, x.value.value)]
  {
  }

  /** Two loops in sequence, the second storing into the first's result under
      keys the first did not produce: the items come out first loop first,
      each loop's in its entry order. */
  lemma GatherThenOrder<V, U, W>(d: Dict<V>, f: (string, V) -> Result<Option<W>>, pending: Dict<U>, g: (string, U) -> Result<Option<W>>)
    requires Gather([], d, f).Success?
    requires Keys(pending) !! Keys(Hits(d, f))
    requires Gather(Gather([], d, f).value, pending, g).Success?
    ensures Gather(Gather([], d, f).value, pending, g).value == Hits(d, f) + Hits(pending, g)
  {
    var first := Gather([], d, f).value;
    GatherOrder([], d, f);
    assert first == Hits(d, f);
    assert Keys(pending) !! Keys(first);
    GatherOrder(first, pending, g);
  }
}
