/**
  A reference description of the highlighter's result, stated on the whole text rather
  than on the shrinking remainder the scan works on.

  `Occurrences` lists the positions of the matches the left-to-right scan picks: the
  first match, then the first match starting at or after its end, and so on. `Marked`
  splices a marker pair around the span at each listed position.
 */
module Reference {
  import opened Search

  /**
    `ps` lists spans of length `n` inside a text of length `len`, in increasing order,
    none starting before `k` and none overlapping the next.
   */
  predicate Spaced(n: nat, len: nat, ps: seq<nat>, k: nat)
    decreases |ps|
  {
    if ps == [] then k <= len
    else k <= ps[0] && ps[0] + n <= len && Spaced(n, len, ps[1..], ps[0] + n)
  }

  /** No match of `q` in `s` starts in the half-open range `[lo, hi)`. */
  ghost predicate NoMatchIn(q: string, s: string, lo: int, hi: int) {
    forall j :: lo <= j < hi ==> !MatchesAt(q, s, j)
  }

  /** No match of `q` in `s` starts at or after `lo`. */
  ghost predicate NoMatchFrom(q: string, s: string, lo: int) {
    forall j :: lo <= j ==> !MatchesAt(q, s, j)
  }

  /**
    `ps` is the greedy left-to-right scan of `s` from `k`: its first element is the
    leftmost match at or after `k`, the rest is the scan from the end of that match, and
    when the list ends no match is left.
   */
  ghost predicate LeftmostScan(q: string, s: string, k: nat, ps: seq<nat>)
    decreases |ps|
  {
    if ps == [] then NoMatchFrom(q, s, k)
    else
      && k <= ps[0]
      && MatchesAt(q, s, ps[0])
      && NoMatchIn(q, s, k, ps[0])
      && LeftmostScan(q, s, ps[0] + |q|, ps[1..])
  }

  /** The positions at or after `k` of the non-overlapping matches the scan picks. */
  function Occurrences(q: string, s: string, k: nat): (ps: seq<nat>)
    requires q != [] && k <= |s|
    ensures Spaced(|q|, |s|, ps, k)
    decreases |s| - k
  {
    var i := IndexFrom(q, s, k);
    if i < 0 then []
    else
      var rest := Occurrences(q, s, i + |q|);
      assert ([i] + rest)[1..] == rest;
      [i] + rest
  }

  /** `Occurrences` is the greedy left-to-right scan. */
  lemma {:induction false} OccurrencesAreLeftmostScan(q: string, s: string, k: nat)
    requires q != [] && k <= |s|
    ensures LeftmostScan(q, s, k, Occurrences(q, s, k))
    decreases |s| - k
  {
    var i := IndexFrom(q, s, k);
    IndexFromIsLeastMatch(q, s, k);
    if i >= 0 {
      OccurrencesAreLeftmostScan(q, s, i + |q|);
      assert Occurrences(q, s, k)[1..] == Occurrences(q, s, i + |q|);
    }
  }

  /** Every position `Occurrences` lists is a match. */
  lemma OccurrencesMatch(q: string, s: string, k: nat)
    requires q != [] && k <= |s|
    ensures forall m :: 0 <= m < |Occurrences(q, s, k)| ==> MatchesAt(q, s, Occurrences(q, s, k)[m])
  {
    OccurrencesAreLeftmostScan(q, s, k);
    ScanPicksMatches(q, s, k, Occurrences(q, s, k));
  }

  /** Unfolding `Occurrences` once. */
  lemma OccurrencesStep(q: string, s: string, k: nat)
    requires q != [] && k <= |s|
    ensures IndexFrom(q, s, k) < 0 ==> Occurrences(q, s, k) == []
    ensures IndexFrom(q, s, k) >= 0 ==>
      var i := IndexFrom(q, s, k);
      i + |q| <= |s| && Occurrences(q, s, k) == [i] + Occurrences(q, s, i + |q|)
  {
    IndexFromIsLeastMatch(q, s, k);
  }

  /** The greedy scan is unique: any list with its defining property is `Occurrences`. */
  lemma {:induction false} LeftmostScanUnique(q: string, s: string, k: nat, ps: seq<nat>)
    requires q != [] && k <= |s|
    requires LeftmostScan(q, s, k, ps)
    ensures ps == Occurrences(q, s, k)
    decreases |ps|
  {
    var i := IndexFrom(q, s, k);
    IndexFromIsLeastMatch(q, s, k);
    if ps != [] {
      var p := ps[0];
      assert i == p by {
        assert MatchesAt(q, s, p) && NoMatchIn(q, s, k, p);
      }
      LeftmostScanUnique(q, s, p + |q|, ps[1..]);
      assert ps == [p] + ps[1..];
    }
  }

  /** The scan's positions are spaced spans of the text. */
  lemma {:induction false} ScanSpaced(q: string, s: string, k: nat, ps: seq<nat>)
    requires k <= |s| && LeftmostScan(q, s, k, ps)
    ensures Spaced(|q|, |s|, ps, k)
    decreases |ps|
  {
    if ps != [] {
      ScanSpaced(q, s, ps[0] + |q|, ps[1..]);
    }
  }

  /** Where the scan stands after the spans `ps`: the end of the last one, else `k`. */
  function ScanEnd(n: nat, ps: seq<nat>, k: nat): nat {
    if ps == [] then k else ps[|ps| - 1] + n
  }

  /**
    Every listed position is a match, the positions increase without overlap, and no
    match starts at or after the end of the last one.
   */
  lemma {:induction false} ScanPicksMatches(q: string, s: string, k: nat, ps: seq<nat>)
    requires LeftmostScan(q, s, k, ps)
    ensures forall m :: 0 <= m < |ps| ==> MatchesAt(q, s, ps[m])
    ensures forall m :: 0 < m < |ps| ==> ps[m - 1] + |q| <= ps[m]
    ensures NoMatchFrom(q, s, ScanEnd(|q|, ps, k))
    decreases |ps|
  {
    if ps != [] {
      var rest := ps[1..];
      ScanPicksMatches(q, s, ps[0] + |q|, rest);
      assert forall m :: 0 < m < |ps| ==> ps[m] == rest[m - 1];
      assert ScanEnd(|q|, ps, k) == ScanEnd(|q|, rest, ps[0] + |q|);
    }
  }

  /** Position `j` lies inside one of the spans of length `n` starting at the positions `ps`. */
  predicate InsideSpan(ps: seq<nat>, n: nat, j: int) {
    exists m :: 0 <= m < |ps| && ps[m] <= j < ps[m] + n
  }

  /** Every match from `k` on is a picked span or overlaps one. */
  lemma {:induction false} ScanComplete(q: string, s: string, k: nat, ps: seq<nat>, j: int)
    requires LeftmostScan(q, s, k, ps)
    requires k <= j && MatchesAt(q, s, j)
    ensures InsideSpan(ps, |q|, j)
    decreases |ps|
  {
    assert ps != [];
    if ps[0] + |q| <= j {
      ScanComplete(q, s, ps[0] + |q|, ps[1..], j);
      var m :| 0 <= m < |ps[1..]| && ps[1..][m] <= j < ps[1..][m] + |q|;
      assert ps[m + 1] == ps[1..][m];
    } else {
      assert ps[0] <= j;
    }
  }

  /**
    The text from `k` on with `o` before and `c` after each span of length `n` listed in
    `ps`; the spans themselves are copied from `s`.
   */
  function Marked(o: string, c: string, n: nat, s: string, ps: seq<nat>, k: nat): string
    requires Spaced(n, |s|, ps, k)
    decreases |ps|
  {
    if ps == [] then s[k..]
    else s[k..ps[0]] + o + s[ps[0]..ps[0] + n] + c + Marked(o, c, n, s, ps[1..], ps[0] + n)
  }

  /** Unfolding `Marked` once. */
  lemma MarkedStep(o: string, c: string, n: nat, s: string, ps: seq<nat>, k: nat)
    requires Spaced(n, |s|, ps, k) && ps != []
    ensures Spaced(n, |s|, ps[1..], ps[0] + n)
    ensures Marked(o, c, n, s, ps, k) == s[k..ps[0]] + o + s[ps[0]..ps[0] + n] + c + Marked(o, c, n, s, ps[1..], ps[0] + n)
  {
  }

  /** Marking the scan from `k`: the first occurrence is marked, then the scan from its end. */
  lemma MarkedOccurrencesStep(o: string, c: string, q: string, s: string, k: nat)
    requires q != [] && k <= |s| && IndexFrom(q, s, k) >= 0
    ensures var i := IndexFrom(q, s, k);
      Marked(o, c, |q|, s, Occurrences(q, s, k), k)
        == (s[k..i] + o + s[i..i + |q|] + c) + Marked(o, c, |q|, s, Occurrences(q, s, i + |q|), i + |q|)
  {
    var i := IndexFrom(q, s, k);
    OccurrencesStep(q, s, k);
    var ps := Occurrences(q, s, k);
    assert ps[0] == i && ps[1..] == Occurrences(q, s, i + |q|);
    MarkedStep(o, c, |q|, s, ps, k);
  }

  /** Each marker pair adds its two tags to the length of the text. */
  lemma {:induction false} MarkedLength(o: string, c: string, n: nat, s: string, ps: seq<nat>, k: nat)
    requires Spaced(n, |s|, ps, k)
    ensures |Marked(o, c, n, s, ps, k)| == |s| - k + |ps| * (|o| + |c|)
    decreases |ps|
  {
    if ps != [] {
      MarkedLength(o, c, n, s, ps[1..], ps[0] + n);
      assert |ps| * (|o| + |c|) == (|ps| - 1) * (|o| + |c|) + |o| + |c|;
    }
  }

  /** Deleting the markers (making them empty) gives back the text itself. */
  lemma {:induction false} EraseMarkers(n: nat, s: string, ps: seq<nat>, k: nat)
    requires Spaced(n, |s|, ps, k)
    ensures Marked([], [], n, s, ps, k) == s[k..]
    decreases |ps|
  {
    if ps != [] {
      EraseMarkers(n, s, ps[1..], ps[0] + n);
      assert s[k..ps[0]] + s[ps[0]..ps[0] + n] + s[ps[0] + n..] == s[k..];
    }
  }
}
