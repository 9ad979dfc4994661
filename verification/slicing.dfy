/**
  Splitting the text at the end of the first match: `getFirstQueryMatchText` and
  `getAfterQueryText`, both built on JavaScript's `String.prototype.slice`.
 */
module Slicing {
  import opened Search

  /**
    A `slice` bound resolved against a string of length `len`: a negative bound counts
    from the end (and stops at 0), a bound past the end stops at `len`.
   */
  function Clamp(k: int, len: nat): (r: nat)
    ensures r <= len
    ensures 0 <= k <= len ==> r == k
  {
    if k < 0 then (if len + k < 0 then 0 else len + k)
    else if k > len then len
    else k
  }

  /** `s.slice(start, end)`: empty when the resolved end is not after the resolved start. */
  function JsSlice(s: string, start: int, end: int): (r: string)
    ensures |r| <= |s|
    ensures 0 <= start <= end <= |s| ==> r == s[start..end]
  {
    var a := Clamp(start, |s|);
    var b := Clamp(end, |s|);
    if b <= a then [] else s[a..b]
  }

  /** Slicing at the same bound from the start and to the end splits `s` in two. */
  lemma SliceSplit(s: string, k: int)
    ensures JsSlice(s, 0, k) + JsSlice(s, k, |s|) == s
  {
    var c := Clamp(k, |s|);
    assert JsSlice(s, 0, k) == s[..c];
    assert JsSlice(s, k, |s|) == s[c..];
    assert s[..c] + s[c..] == s;
  }

  /** `getFirstQueryMatchText`: the text up to and including the first match. */
  function FirstQueryMatchText(q: string, s: string): (r: string)
    ensures |r| <= |s|
  {
    JsSlice(s, 0, IndexOfCI(q, s) + |q|)
  }

  /** `getAfterQueryText`: the text after the first match. */
  function AfterQueryText(q: string, s: string): (r: string)
    ensures |r| <= |s|
  {
    JsSlice(s, IndexOfCI(q, s) + |q|, |s|)
  }

  /**
    With a match, the first piece is the text up to the end of the first match, and it
    ends with that match.
   */
  lemma FirstPieceEndsAtMatch(q: string, s: string)
    requires HasMatchingQuery(q, s)
    ensures var i := IndexOfCI(q, s);
      && FirstQueryMatchText(q, s) == s[..i + |q|]
      && MatchesAt(q, FirstQueryMatchText(q, s), i)
  {
    var i := IndexOfCI(q, s);
    IndexOfCIIsLeastMatch(q, s);
    MatchesAtPrefix(q, s, i + |q|, i);
  }

  /**
    With a match, the rest is the text after the end of the first match; for a non-empty
    query it is strictly shorter than the text, which is why the scan terminates.
   */
  lemma AfterQueryShrinks(q: string, s: string)
    requires HasMatchingQuery(q, s)
    ensures AfterQueryText(q, s) == s[IndexOfCI(q, s) + |q|..]
    ensures q != [] ==> |AfterQueryText(q, s)| < |s|
  {
  }

  /**
    The two pieces put back together are the text. This holds for every input, also when
    there is no match, because both pieces slice at the same bound.
   */
  lemma SplitReconstructs(q: string, s: string)
    ensures FirstQueryMatchText(q, s) + AfterQueryText(q, s) == s
  {
    SliceSplit(s, IndexOfCI(q, s) + |q|);
  }

  /** With a match, the first piece's first match is the text's first match. */
  lemma FirstPieceKeepsMatch(q: string, s: string)
    requires HasMatchingQuery(q, s)
    ensures IndexOfCI(q, FirstQueryMatchText(q, s)) == IndexOfCI(q, s)
  {
    FirstPieceEndsAtMatch(q, s);
    IndexOfCIPrefix(q, s, IndexOfCI(q, s) + |q|);
  }

  /**
    An empty query matches at 0 and leaves the whole text after it: a scan with it would
    never shrink the remainder, which is why `tagWrapper` rejects an empty query first.
   */
  lemma EmptyQueryMakesNoProgress(s: string)
    ensures HasMatchingQuery([], s)
    ensures FirstQueryMatchText([], s) == []
    ensures AfterQueryText([], s) == s
  {
    EmptyQueryAtZero(s);
  }
}
