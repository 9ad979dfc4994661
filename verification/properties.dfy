/**
  What the highlighter computes, stated against the reference description: the scan of
  `mapQueryPosition` marks exactly the greedy left-to-right occurrences of the query.
 */
module Properties {
  import opened CaseFold
  import opened Search
  import opened Slicing
  import opened Wrapper
  import opened Reference

  /**
    The first piece of the remainder `s[k..]`, once wrapped, is the text from `k` to the
    next match, the opening tag, the match copied from `s`, and the closing tag.
   */
  lemma WrapFirstPiece(o: string, c: string, q: string, s: string, k: nat)
    requires k <= |s| && IndexFrom(q, s, k) >= 0
    ensures var i := IndexFrom(q, s, k);
      && HasMatchingQuery(q, s[k..])
      && WrapQuery(o, c, q, FirstQueryMatchText(q, s[k..])) == s[k..i] + o + s[i..i + |q|] + c
  {
    var t := s[k..];
    var i := IndexFrom(q, s, k);
    var first := FirstQueryMatchText(q, t);
    FirstPieceInText(q, s, k);
    WrapQueryAtEnd(o, c, q, first);
    assert first[..i - k] == s[k..i] && first[i - k..] == s[i..i + |q|];
  }

  /**
    The first piece of the remainder `s[k..]` is `s[k..i + |q|]` for the next match `i`
    after `k`, and its own first match is that same match.
   */
  lemma FirstPieceInText(q: string, s: string, k: nat)
    requires k <= |s| && IndexFrom(q, s, k) >= 0
    ensures var i := IndexFrom(q, s, k);
      && HasMatchingQuery(q, s[k..])
      && FirstQueryMatchText(q, s[k..]) == s[k..i + |q|]
      && IndexOfCI(q, s[k..i + |q|]) == i - k
      && i + |q| <= |s|
  {
    var t := s[k..];
    IndexOfCISuffix(q, s, k);
    FirstPieceEndsAtMatch(q, t);
    FirstPieceKeepsMatch(q, t);
    IndexFromIsLeastMatch(q, s, k);
  }

  /**
    One step of the scan, read in whole-text coordinates: when the next match after `k`
    is at `i`, the scan of `s[k..]` appends `s[k..i] + o + s[i..i + |q|] + c` and goes on
    with `s[i + |q|..]`.
   */
  lemma ScanStep(o: string, c: string, q: string, s: string, k: nat, acc: string)
    requires q != [] && k <= |s| && IndexFrom(q, s, k) >= 0
    ensures var i := IndexFrom(q, s, k);
      MapQueryPosition(o, c, q, s[k..], acc)
        == MapQueryPosition(o, c, q, s[i + |q|..], acc + (s[k..i] + o + s[i..i + |q|] + c))
  {
    var t := s[k..];
    var i := IndexFrom(q, s, k);
    WrapFirstPiece(o, c, q, s, k);
    assert AfterQueryText(q, t) == s[i + |q|..] by {
      IndexOfCISuffix(q, s, k);
      AfterQueryShrinks(q, t);
    }
    MapQueryPositionStep(o, c, q, t, acc);
  }

  /** With no match left after `k`, the scan appends the remainder verbatim. */
  lemma MarksBase(o: string, c: string, q: string, s: string, k: nat, acc: string)
    requires q != [] && k <= |s| && IndexFrom(q, s, k) < 0
    ensures MapQueryPosition(o, c, q, s[k..], acc) == acc + Marked(o, c, |q|, s, Occurrences(q, s, k), k)
  {
    OccurrencesStep(q, s, k);
    IndexOfCISuffix(q, s, k);
  }

  /** The inductive step of `MapQueryPositionMarks`, given its claim for the rest. */
  lemma MarksStep(o: string, c: string, q: string, s: string, k: nat, acc: string)
    requires q != [] && k <= |s| && IndexFrom(q, s, k) >= 0
    requires var i := IndexFrom(q, s, k);
      MapQueryPosition(o, c, q, s[i + |q|..], acc + (s[k..i] + o + s[i..i + |q|] + c))
        == acc + (s[k..i] + o + s[i..i + |q|] + c) + Marked(o, c, |q|, s, Occurrences(q, s, i + |q|), i + |q|)
    ensures MapQueryPosition(o, c, q, s[k..], acc) == acc + Marked(o, c, |q|, s, Occurrences(q, s, k), k)
  {
    ScanStep(o, c, q, s, k, acc);
    MarkedOccurrencesStep(o, c, q, s, k);
  }

  /**
    Scanning the suffix `s[k..]` with accumulator `acc` appends to `acc` the text from
    `k` on, marked at the occurrences found from `k`.
   */
  lemma {:induction false} MapQueryPositionMarks(o: string, c: string, q: string, s: string, k: nat, acc: string)
    requires q != [] && k <= |s|
    ensures MapQueryPosition(o, c, q, s[k..], acc) == acc + Marked(o, c, |q|, s, Occurrences(q, s, k), k)
    decreases |s| - k
  {
    var i := IndexFrom(q, s, k);
    if i < 0 {
      MarksBase(o, c, q, s, k, acc);
    } else {
      MapQueryPositionMarks(o, c, q, s, i + |q|, acc + (s[k..i] + o + s[i..i + |q|] + c));
      MarksStep(o, c, q, s, k, acc);
    }
  }

  /** The number of marker pairs `tagWrapper` inserts. */
  function WrapCount(tags: seq<string>, q: string, s: string): nat {
    if HasParams(tags, q, s) then |Occurrences(q, s, 0)| else 0
  }

  /**
    Main theorem: when the guard passes, `tagWrapper` marks every occurrence the
    left-to-right scan picks, copying each span from the text.
   */
  lemma TagWrapperMarksOccurrences(tags: seq<string>, q: string, s: string)
    requires HasParams(tags, q, s)
    ensures TagWrapper(tags, q, s) == Marked(Opening(tags), Closing(tags), |q|, s, Occurrences(q, s, 0), 0)
  {
    MapQueryPositionMarks(Opening(tags), Closing(tags), q, s, 0, []);
    assert s[0..] == s;
    if !HasMatchingQuery(q, s) {
      IndexOfCISuffix(q, s, 0);
      OccurrencesStep(q, s, 0);
    }
  }

  /** Removing the inserted marker pairs from the output gives back the input text. */
  lemma TagWrapperErasesToInput(tags: seq<string>, q: string, s: string)
    ensures HasParams(tags, q, s) ==>
      Marked([], [], |q|, s, Occurrences(q, s, 0), 0) == s &&
      TagWrapper(tags, q, s) == Marked(Opening(tags), Closing(tags), |q|, s, Occurrences(q, s, 0), 0)
    ensures !HasParams(tags, q, s) ==> TagWrapper(tags, q, s) == s
  {
    if HasParams(tags, q, s) {
      TagWrapperMarksOccurrences(tags, q, s);
      EraseMarkers(|q|, s, Occurrences(q, s, 0), 0);
    }
  }

  /** The output is the input plus one opening and one closing tag per match. */
  lemma TagWrapperLength(tags: seq<string>, q: string, s: string)
    ensures |TagWrapper(tags, q, s)| == |s| + WrapCount(tags, q, s) * (|Opening(tags)| + |Closing(tags)|)
    ensures HasParams(tags, q, s) ==> (WrapCount(tags, q, s) > 0 <==> HasMatchingQuery(q, s))
  {
    if HasParams(tags, q, s) {
      TagWrapperMarksOccurrences(tags, q, s);
      MarkedLength(Opening(tags), Closing(tags), |q|, s, Occurrences(q, s, 0), 0);
      OccurrencesStep(q, s, 0);
    }
  }

  /**
    The spans `tagWrapper` marks are matches of the query: each equals it up to case and
    is copied from the text, so it keeps the text's casing.
   */
  lemma MarkedSpansMatch(q: string, s: string)
    requires q != []
    ensures var ps := Occurrences(q, s, 0);
      forall m :: 0 <= m < |ps| ==> ps[m] + |q| <= |s| && EqualsCI(s[ps[m]..ps[m] + |q|], q)
  {
    OccurrencesMatch(q, s, 0);
    MatchesAreSpans(q, s, Occurrences(q, s, 0));
  }

  /**
    The spans `tagWrapper` marks come left to right without overlap, and no match of the
    query starts after the last of them.
   */
  lemma MarkedSpansOrdered(q: string, s: string)
    requires q != []
    ensures var ps := Occurrences(q, s, 0);
      && (forall m :: 0 < m < |ps| ==> ps[m - 1] + |q| <= ps[m])
      && NoMatchFrom(q, s, ScanEnd(|q|, ps, 0))
  {
    OccurrencesAreLeftmostScan(q, s, 0);
    ScanPicksMatches(q, s, 0, Occurrences(q, s, 0));
  }

  /** Every match of the query in the text starts inside a span `tagWrapper` marks, so it overlaps one. */
  lemma EveryMatchMarked(q: string, s: string)
    requires q != []
    ensures forall j :: MatchesAt(q, s, j) ==> InsideSpan(Occurrences(q, s, 0), |q|, j)
  {
    var ps := Occurrences(q, s, 0);
    assert LeftmostScan(q, s, 0, ps) by {
      OccurrencesAreLeftmostScan(q, s, 0);
    }
    forall j | MatchesAt(q, s, j)
      ensures InsideSpan(ps, |q|, j)
    {
      ScanComplete(q, s, 0, ps, j);
    }
  }
}
