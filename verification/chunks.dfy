/** The list chunker used to batch quote requests (`DivvyData._chunks`): it
    steps through the list n items at a time and yields each slice of up to n
    items. */
module Chunks {
  import opened Base

  /** Consecutive pieces of `lst` of length `n`, the last possibly shorter. */
  function Split<T>(lst: seq<T>, n: nat): (r: seq<seq<T>>)
    requires n > 0
    ensures Concat(r) == lst
    ensures forall i :: 0 <= i < |r| ==> 1 <= |r[i]| <= n
    ensures forall i :: 0 <= i < |r| - 1 ==> |r[i]| == n
    ensures |r| == 0 <==> |lst| == 0
    decreases |lst|
  {
    if |lst| == 0 then
      []
    else if |lst| <= n then
      assert Concat([lst]) == Concat([]) + lst;
      [lst]
    else
      var rest := Split(lst[n..], n);
      SplitStep(lst, n, rest);
      [lst[..n]] + rest
  }

  /** One chunk in front of the chunks of the rest. */
  lemma SplitStep<T>(lst: seq<T>, n: nat, rest: seq<seq<T>>)
    requires 0 < n < |lst|
    requires Concat(rest) == lst[n..]
    requires forall i :: 0 <= i < |rest| ==> 1 <= |rest[i]| <= n
    requires forall i :: 0 <= i < |rest| - 1 ==> |rest[i]| == n
    requires |rest| > 0
    ensures Concat([lst[..n]] + rest) == lst
    ensures forall i :: 0 <= i < |rest| + 1 ==> 1 <= |([lst[..n]] + rest)[i]| <= n
    ensures forall i :: 0 <= i < |rest| ==> |([lst[..n]] + rest)[i]| == n
  {
    ConcatCons(lst[..n], rest);
    assert lst[..n] + lst[n..] == lst;
    forall i | 1 <= i < |rest| + 1
      ensures ([lst[..n]] + rest)[i] == rest[i - 1]
    {
    }
  }

  /** The number of chunks is the length divided by `n`, rounded up. */
  lemma {:induction false} SplitCount<T>(lst: seq<T>, n: nat)
    requires n > 0
    ensures |lst| > 0 ==> (|Split(lst, n)| - 1) * n < |lst| <= |Split(lst, n)| * n
    decreases |lst|
  {
    if |lst| > n {
      SplitCount(lst[n..], n);
      var k := |Split(lst[n..], n)|;
      assert |Split(lst, n)| == k + 1;
      assert (k - 1) * n < |lst| - n <= k * n;
      assert (k + 1) * n == k * n + n;
    }
  }

  lemma {:induction false} ConcatCons<T>(x: seq<T>, ss: seq<seq<T>>)
    ensures Concat([x] + ss) == x + Concat(ss)
    decreases |ss|
  {
    if |ss| > 0 {
      var n := |ss| - 1;
      assert ([x] + ss)[..n + 1] == [x] + ss[..n];
      ConcatCons(x, ss[..n]);
    } else {
      assert Concat([x]) == Concat([]) + x;
    }
  }

  /** All chunks of the chunker: a zero step makes `range` raise ValueError, and
      a negative step gives an empty range. */
  function ChunkList<T>(lst: seq<T>, n: int): (r: Result<seq<seq<T>>>)
    ensures r.Failure? <==> n == 0
    ensures r.Failure? ==> r.error == ValueError
    ensures n < 0 ==> r == Success([])
    ensures n > 0 ==> r.Success? && Concat(r.value) == lst
    ensures n > 0 ==> forall i :: 0 <= i < |r.value| ==> 1 <= |r.value[i]| <= n
    ensures n > 0 ==> forall i :: 0 <= i < |r.value| - 1 ==> |r.value[i]| == n
  {
    if n == 0 then Failure(ValueError)
    else if n < 0 then Success([])
    else Success(Split(lst, n))
  }
}
