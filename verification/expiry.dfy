/** Choosing the option expiration to trade: walk the expirations in
    ascending order and take the first one on or after the record date. */
module Expiry {
  import opened Base
  import opened Records

  predicate Ascending(s: seq<Date>)
  {
    forall i, j :: 0 <= i < j < |s| ==> OnOrBefore(s[i], s[j])
  }

  lemma OnOrBeforeTransitive(a: Date, b: Date, c: Date)
    requires OnOrBefore(a, b) && OnOrBefore(b, c)
    ensures OnOrBefore(a, c)
  {
  }

  lemma OnOrBeforeTotal(a: Date, b: Date)
    ensures OnOrBefore(a, b) || OnOrBefore(b, a)
  {
  }

  /** The date in front is not later than any date behind it. */
  lemma InsertDateFront(x: Date, s: seq<Date>, rest: seq<Date>)
    requires Ascending(s) && |s| > 0 && OnOrBefore(s[0], x)
    requires Ascending(rest) && multiset(rest) == multiset(s[1..]) + multiset{x}
    ensures Ascending([s[0]] + rest)
  {
    var r := [s[0]] + rest;
    forall i, j | 0 <= i < j < |r| ensures OnOrBefore(r[i], r[j]) {
      if i == 0 {
        assert r[j] in multiset(s[1..]) + multiset{x};
        if r[j] != x {
          assert r[j] in s[1..];
        }
      } else {
        assert r[i] == rest[i - 1] && r[j] == rest[j - 1];
      }
    }
  }

  /** A date earlier than the front of an ascending sequence can go in front. */
  lemma InsertDateBefore(x: Date, s: seq<Date>)
    requires Ascending(s) && |s| > 0 && !OnOrBefore(s[0], x)
    ensures Ascending([x] + s)
  {
    var r := [x] + s;
    forall i, j | 0 <= i < j < |r| ensures OnOrBefore(r[i], r[j]) {
      if i == 0 {
        OnOrBeforeTotal(s[0], x);
        if j > 1 {
          OnOrBeforeTransitive(x, s[0], s[j - 1]);
        }
      } else {
        assert r[i] == s[i - 1] && r[j] == s[j - 1];
      }
    }
  }

  /** Places `x` into an ascending sequence, after every date not later than it. */
  function InsertDate(x: Date, s: seq<Date>): (r: seq<Date>)
    requires Ascending(s)
    ensures Ascending(r)
    ensures multiset(r) == multiset(s) + multiset{x}
  {
    if |s| == 0 then [x]
    else if OnOrBefore(s[0], x) then
      assert s == [s[0]] + s[1..];
      var rest := InsertDate(x, s[1..]);
      InsertDateFront(x, s, rest);
      [s[0]] + rest
    else
      InsertDateBefore(x, s);
      [x] + s
  }

  /** `sorted(expirations)`. */
  function SortDates(s: seq<Date>): (r: seq<Date>)
    ensures Ascending(r)
    ensures multiset(r) == multiset(s)
  {
    if |s| == 0 then []
    else
      assert s == s[..|s| - 1] + [s[|s| - 1]];
      InsertDate(s[|s| - 1], SortDates(s[..|s| - 1]))
  }

  /** The scan for the first date on or after the record date, which stops
      at the first hit. */
  function FirstOnOrAfter(dates: seq<Date>, record: Date): (r: Option<Date>)
    ensures r.Some? ==> r.value in dates && OnOrBefore(record, r.value)
    ensures r.None? <==> forall i :: 0 <= i < |dates| ==> !OnOrBefore(record, dates[i])
    ensures r.Some? ==> exists i :: (0 <= i < |dates| && dates[i] == r.value
      && forall j :: 0 <= j < i ==> !OnOrBefore(record, dates[j]))
  {
    if |dates| == 0 then None
    else if OnOrBefore(record, dates[0]) then Some(dates[0])
    else
      var r := FirstOnOrAfter(dates[1..], record);
      if r.Some? then
        var i :| 0 <= i < |dates[1..]| && dates[1..][i] == r.value
          && (forall j :: 0 <= j < i ==> !OnOrBefore(record, dates[1..][j]));
        assert dates[i + 1] == r.value;
        r
      else
        r
  }

  /** Sorting keeps exactly the listed expirations. */
  lemma SortDatesMembers(s: seq<Date>)
    ensures forall e :: e in SortDates(s) <==> e in s
  {
    var sorted := SortDates(s);
    assert forall e :: e in sorted <==> e in multiset(sorted);
    assert forall e :: e in s <==> e in multiset(s);
  }

  /** In an ascending sequence the first date on or after the record date is
      the earliest such date. */
  lemma FirstOnOrAfterLeast(sorted: seq<Date>, record: Date)
    requires Ascending(sorted)
    requires FirstOnOrAfter(sorted, record).Some?
    ensures forall e :: e in sorted && OnOrBefore(record, e) ==> OnOrBefore(FirstOnOrAfter(sorted, record).value, e)
  {
    var x := FirstOnOrAfter(sorted, record).value;
    forall e | e in sorted && OnOrBefore(record, e) ensures OnOrBefore(x, e) {
      var i :| 0 <= i < |sorted| && sorted[i] == x && (forall j :: 0 <= j < i ==> !OnOrBefore(record, sorted[j]));
      var m :| 0 <= m < |sorted| && sorted[m] == e;
      assert i <= m;
    }
  }

  /** `expiration_after_record`: the earliest listed expiration on or after the
      record date, or `None` when every expiration is earlier. */
  function SelectExpiration(expirations: seq<Date>, record: Date): (r: Option<Date>)
    ensures r.None? <==> forall e :: e in expirations ==> !OnOrBefore(record, e)
    ensures r.Some? ==> r.value in expirations && OnOrBefore(record, r.value)
    ensures r.Some? ==> forall e :: e in expirations && OnOrBefore(record, e) ==> OnOrBefore(r.value, e)
  {
    var sorted := SortDates(expirations);
    SortDatesMembers(expirations);
    var r := FirstOnOrAfter(sorted, record);
    if r.Some? then
      FirstOnOrAfterLeast(sorted, record);
      r
    else
      r
  }
}
