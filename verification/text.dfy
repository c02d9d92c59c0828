/** The string operations the scanner applies to tickers, memo texts,
    exchange names and currency-pair symbols. */
module Text {

  /** `pat` occurs in `text` starting at position `i`. */
  predicate OccursAt(text: string, pat: string, i: int)
  {
    0 <= i && i + |pat| <= |text| && text[i..i + |pat|] == pat
  }

  /** An occurrence past the first position is an occurrence in the tail. */
  lemma OccursShift(text: string, pat: string, i: int)
    requires |text| > 0 && i >= 1
    ensures OccursAt(text, pat, i) <==> OccursAt(text[1..], pat, i - 1)
  {
    if i + |pat| <= |text| {
      assert text[1..][i - 1..i - 1 + |pat|] == text[i..i + |pat|];
    }
  }

  /** Without an occurrence at the front, the occurrences are those of the tail. */
  lemma OccursInTail(text: string, pat: string)
    requires |text| > 0 && !OccursAt(text, pat, 0)
    ensures (exists i :: OccursAt(text, pat, i)) <==> (exists j :: OccursAt(text[1..], pat, j))
  {
    if i :| OccursAt(text, pat, i) {
      OccursShift(text, pat, i);
    }
    if j :| OccursAt(text[1..], pat, j) {
      OccursShift(text, pat, j + 1);
    }
  }

  /** Python's `pat in text`: a left-to-right scan for the pattern. */
  function Contains(text: string, pat: string): (r: bool)
    ensures r <==> exists i :: OccursAt(text, pat, i)
  {
    if |pat| <= |text| && text[..|pat|] == pat then
      assert OccursAt(text, pat, 0);
      true
    else if |text| == 0 then
      false
    else
      OccursInTail(text, pat);
      Contains(text[1..], pat)
  }

  function UpperChar(c: char): char
  {
    if 'a' <= c <= 'z' then (c as int - 'a' as int + 'A' as int) as char else c
  }

  /** Python's `s.upper()` restricted to ASCII letters. */
  function Upper(s: string): (r: string)
    ensures |r| == |s|
    ensures forall i :: 0 <= i < |s| ==> !('a' <= r[i] <= 'z')
    ensures forall i :: 0 <= i < |s| && !('a' <= s[i] <= 'z') ==> r[i] == s[i]
    ensures forall i :: 0 <= i < |s| && 'a' <= s[i] <= 'z' ==> r[i] == UpperChar(s[i])
  {
    seq(|s|, i requires 0 <= i < |s| => UpperChar(s[i]))
  }

  /** Python's `s.replace('USD', '')`: every non-overlapping occurrence of
      "USD", found left to right, is deleted. */
  function StripUsd(s: string): (r: string)
    ensures |r| <= |s|
  {
    if |s| == 0 then []
    else if |s| >= 3 && s[..3] == "USD" then StripUsd(s[3..])
    else [s[0]] + StripUsd(s[1..])
  }

  /** The FX pair symbol built as "USD" followed by a currency code strips back
      to that code whenever the code does not itself contain "USD". */
  lemma PairSymbolStrips(cur: string)
    requires !Contains(cur, "USD")
    ensures StripUsd("USD" + cur) == cur
  {
    assert ("USD" + cur)[..3] == "USD";
    assert ("USD" + cur)[3..] == cur;
    StripUsdNoOccurrence(cur);
  }

  /** Stripping leaves a string with no "USD" in it unchanged. */
  lemma {:induction false} StripUsdNoOccurrence(s: string)
    requires !Contains(s, "USD")
    ensures StripUsd(s) == s
  {
    if |s| > 0 {
      assert !OccursAt(s, "USD", 0);
      StripUsdNoOccurrence(s[1..]);
      assert [s[0]] + s[1..] == s;
    }
  }

  /** Deletion works left to right: everything before the first "USD" is
      kept, that occurrence is deleted, and the rest is stripped in turn.
      With `StripUsdNoOccurrence` this determines the result on every string. */
  lemma {:induction false} StripUsdSplit(a: string, b: string)
    requires !Contains(a, "USD")
    ensures StripUsd(a + "USD" + b) == a + StripUsd(b)
    decreases |a|
  {
    var t := a + "USD" + b;
    if |a| == 0 {
      assert t == "USD" + b;
      assert t[..3] == "USD" && t[3..] == b;
    } else {
      assert !OccursAt(a, "USD", 0);
      OccursInTail(a, "USD");
      assert t[1..] == a[1..] + "USD" + b;
      StripUsdSplit(a[1..], b);
      // the first three characters are not "USD": either they lie in `a`,
      // or the "USD" that follows `a` puts a 'U' where "USD" has 'S' or 'D'
      if |a| >= 3 {
        assert t[..3] == a[..3];
      } else if |a| == 1 {
        assert t[1] == 'U';
      } else {
        assert t[2] == 'U';
      }
      assert !(|t| >= 3 && t[..3] == "USD");
      calc {
        StripUsd(t);
        [t[0]] + StripUsd(t[1..]);
        [a[0]] + (a[1..] + StripUsd(b));
        { assert [a[0]] + a[1..] == a; }
        a + StripUsd(b);
      }
    }
  }
}
