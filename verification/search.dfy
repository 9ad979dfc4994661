/**
  Case-insensitive search: the model of `getQueryIndex` and `hasMatchingQuery`.

  `getQueryIndex(query, str)` is `str.toLowerCase().indexOf(query.toLowerCase())`: the
  least position at which the lowered query occurs in the lowered text, or -1. Because
  lowering preserves length, that position is also a position in the original text.
 */
module Search {
  import opened CaseFold

  /**
    `q` agrees up to case, character by character, with the text `s` from position `i` on.
   */
  predicate AgreesCI(q: string, s: string, i: nat)
    requires i + |q| <= |s|
    decreases |q|
  {
    q == [] || (Lower(s[i]) == Lower(q[0]) && AgreesCI(q[1..], s, i + 1))
  }

  /** `q` occurs in `s` at position `i` up to case. */
  predicate MatchesAt(q: string, s: string, i: int) {
    0 <= i && i + |q| <= |s| && AgreesCI(q, s, i)
  }

  /**
    `MatchesAt` is what `str.toLowerCase().indexOf(query.toLowerCase())` tests at each
    position: the lowered query is the slice of the lowered text at `i`.
   */
  lemma {:induction false} AgreesCILowered(q: string, s: string, i: nat)
    requires i + |q| <= |s|
    ensures AgreesCI(q, s, i) <==> LowerS(s)[i..i + |q|] == LowerS(q)
    decreases |q|
  {
    if q != [] {
      AgreesCILowered(q[1..], s, i + 1);
      var a, b := LowerS(s)[i..i + |q|], LowerS(q);
      assert a == [a[0]] + a[1..] && b == [b[0]] + b[1..];
      assert a[1..] == LowerS(s)[i + 1..i + |q|];
      assert b[1..] == LowerS(q[1..]);
    }
  }

  /** Agreement read in a suffix `s[k..]` is agreement in `s`, shifted by `k`. */
  lemma {:induction false} AgreesCISuffix(q: string, s: string, k: nat, j: nat)
    requires k + j + |q| <= |s|
    ensures AgreesCI(q, s[k..], j) <==> AgreesCI(q, s, k + j)
    decreases |q|
  {
    if q != [] {
      AgreesCISuffix(q[1..], s, k, j + 1);
    }
  }

  /** Agreement read in a prefix `s[..n]` is agreement in `s`. */
  lemma {:induction false} AgreesCIPrefix(q: string, s: string, n: nat, j: nat)
    requires j + |q| <= n <= |s|
    ensures AgreesCI(q, s[..n], j) <==> AgreesCI(q, s, j)
    decreases |q|
  {
    if q != [] {
      AgreesCIPrefix(q[1..], s, n, j + 1);
    }
  }

  /**
    The least position at or after `k` where `q` matches `s`, or -1 (`indexOf` with a
    start position); `IndexFromIsLeastMatch` states that it is the least match.
   */
  function IndexFrom(q: string, s: string, k: nat): (r: int)
    requires k <= |s|
    ensures r == -1 || k <= r <= |s| - |q|
    decreases |s| - k
  {
    if k + |q| > |s| then -1
    else if MatchesAt(q, s, k) then k
    else IndexFrom(q, s, k + 1)
  }

  /** `IndexFrom` finds a match, none is skipped before it, and -1 means there is none. */
  lemma {:induction false} IndexFromIsLeastMatch(q: string, s: string, k: nat)
    requires k <= |s|
    ensures IndexFrom(q, s, k) >= 0 ==> MatchesAt(q, s, IndexFrom(q, s, k))
    ensures forall j :: k <= j && (IndexFrom(q, s, k) < 0 || j < IndexFrom(q, s, k)) ==> !MatchesAt(q, s, j)
    decreases |s| - k
  {
    if k + |q| <= |s| && !MatchesAt(q, s, k) {
      IndexFromIsLeastMatch(q, s, k + 1);
    }
  }

  /** `getQueryIndex`: the least matching position in the whole text, or -1. */
  function IndexOfCI(q: string, s: string): (r: int)
    ensures r == -1 || 0 <= r <= |s| - |q|
  {
    IndexFrom(q, s, 0)
  }

  /**
    `getQueryIndex` returns a match with no match before it, and returns -1 exactly when
    the query occurs nowhere in the text.
   */
  lemma IndexOfCIIsLeastMatch(q: string, s: string)
    ensures IndexOfCI(q, s) >= 0 ==> MatchesAt(q, s, IndexOfCI(q, s))
    ensures IndexOfCI(q, s) >= 0 ==> forall j :: 0 <= j < IndexOfCI(q, s) ==> !MatchesAt(q, s, j)
    ensures IndexOfCI(q, s) == -1 <==> forall j :: !MatchesAt(q, s, j)
  {
    IndexFromIsLeastMatch(q, s, 0);
  }

  /** `hasMatchingQuery`: the query occurs somewhere in the text. */
  function HasMatchingQuery(q: string, s: string): bool {
    IndexOfCI(q, s) > -1
  }

  /** `hasMatchingQuery` holds exactly when some position matches. */
  lemma HasMatchingQueryIff(q: string, s: string)
    ensures HasMatchingQuery(q, s) <==> exists i :: MatchesAt(q, s, i)
  {
    IndexOfCIIsLeastMatch(q, s);
  }

  /** A match at `i` with no match before it is the one `IndexOfCI` reports. */
  lemma IndexOfCILeast(q: string, s: string, i: int)
    requires MatchesAt(q, s, i)
    requires forall j :: 0 <= j < i ==> !MatchesAt(q, s, j)
    ensures IndexOfCI(q, s) == i
  {
    IndexOfCIIsLeastMatch(q, s);
  }

  /** A match is a span of the text, in the text's own casing, equal to `q` up to case. */
  lemma MatchesAtSpan(q: string, s: string, i: int)
    requires 0 <= i && i + |q| <= |s|
    ensures MatchesAt(q, s, i) <==> EqualsCI(s[i..i + |q|], q)
  {
    AgreesCILowered(q, s, i);
    LowerSSlice(s, i, i + |q|);
  }

  /** `MatchesAtSpan` for every position of a list of matches. */
  lemma MatchesAreSpans(q: string, s: string, ps: seq<nat>)
    requires forall m :: 0 <= m < |ps| ==> MatchesAt(q, s, ps[m])
    ensures forall m :: 0 <= m < |ps| ==> ps[m] + |q| <= |s| && EqualsCI(s[ps[m]..ps[m] + |q|], q)
  {
    forall m | 0 <= m < |ps|
      ensures ps[m] + |q| <= |s| && EqualsCI(s[ps[m]..ps[m] + |q|], q)
    {
      MatchesAtSpan(q, s, ps[m]);
    }
  }

  /** The empty query matches at position 0 of every text, as `indexOf("")` does. */
  lemma EmptyQueryAtZero(s: string)
    ensures IndexOfCI([], s) == 0
  {
    assert MatchesAt([], s, 0);
  }

  /** Matching in a suffix `s[k..]` is matching in `s`, shifted by `k`. */
  lemma MatchesAtSuffix(q: string, s: string, k: nat, j: int)
    requires k <= |s| && 0 <= j
    ensures MatchesAt(q, s[k..], j) <==> MatchesAt(q, s, k + j)
  {
    if k + j + |q| <= |s| {
      AgreesCISuffix(q, s, k, j);
    }
  }

  /** Matching in a prefix `s[..n]` is matching in `s` at a span that ends by `n`. */
  lemma MatchesAtPrefix(q: string, s: string, n: nat, j: int)
    requires n <= |s|
    ensures MatchesAt(q, s[..n], j) <==> MatchesAt(q, s, j) && j + |q| <= n
  {
    if 0 <= j && j + |q| <= n {
      AgreesCIPrefix(q, s, n, j);
    }
  }

  /** Searching a suffix `s[k..]` finds the first match of `s` at or after `k`, shifted. */
  lemma {:induction false} IndexOfCISuffix(q: string, s: string, k: nat)
    requires k <= |s|
    ensures IndexFrom(q, s, k) < 0 ==> IndexOfCI(q, s[k..]) == -1
    ensures IndexFrom(q, s, k) >= 0 ==> IndexOfCI(q, s[k..]) == IndexFrom(q, s, k) - k
  {
    var i := IndexFrom(q, s, k);
    var r := IndexOfCI(q, s[k..]);
    IndexFromIsLeastMatch(q, s, k);
    IndexOfCIIsLeastMatch(q, s[k..]);
    if r >= 0 {
      // the suffix match at r is a match of s at k + r
      MatchesAtSuffix(q, s, k, r);
    }
    if i >= 0 {
      MatchesAtSuffix(q, s, k, i - k);
      forall j | 0 <= j < i - k
        ensures !MatchesAt(q, s[k..], j)
      {
        MatchesAtSuffix(q, s, k, j);
      }
      IndexOfCILeast(q, s[k..], i - k);
    }
  }

  /**
    Searching the prefix of `s` that ends where the first match ends finds that same
    match.
   */
  lemma {:induction false} IndexOfCIPrefix(q: string, s: string, n: nat)
    requires n <= |s|
    requires IndexOfCI(q, s) >= 0 && IndexOfCI(q, s) + |q| <= n
    ensures IndexOfCI(q, s[..n]) == IndexOfCI(q, s)
  {
    var i := IndexOfCI(q, s);
    IndexOfCIIsLeastMatch(q, s);
    MatchesAtPrefix(q, s, n, i);
    forall j | 0 <= j < i
      ensures !MatchesAt(q, s[..n], j)
    {
      MatchesAtPrefix(q, s, n, j);
    }
    IndexOfCILeast(q, s[..n], i);
  }

  /**
    A query with a character that no character of the text lowers to occurs nowhere in
    the text, so `getQueryIndex` is -1.
   */
  lemma NoMatchWithoutChar(q: string, s: string, j: nat)
    requires j < |q|
    requires forall i :: 0 <= i < |s| ==> Lower(s[i]) != Lower(q[j])
    ensures IndexOfCI(q, s) == -1
  {
    forall p | 0 <= p && p + |q| <= |s|
      ensures !MatchesAt(q, s, p)
    {
      AgreesCILowered(q, s, p);
      assert LowerS(s)[p..p + |q|][j] != LowerS(q)[j];
    }
    IndexOfCIIsLeastMatch(q, s);
  }
}
