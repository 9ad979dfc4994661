/**
  The highlighter: `wrapQuery`, `mapQueryPosition` and the exported `tagWrapper`.

  `wrapQuery` is modelled as the literal splice it is meant to perform: the text before
  the first match, the opening tag, the matched span copied from the text, the closing
  tag, and whatever follows. Module `AsWritten` models the source's route to it through
  encoded text, and relates the two.
 */
module Wrapper {
  import opened CaseFold
  import opened Search
  import opened Slicing

  /**
    `wrapQuery`: surround the first case-insensitive match of `q` in `p` with `o` and `c`.
    The span between the tags is taken from `p`, so it keeps the text's casing.
   */
  function WrapQuery(o: string, c: string, q: string, p: string): (r: string)
    ensures |r| >= |p|
  {
    var i := IndexOfCI(q, p);
    if i < 0 then p else p[..i] + o + p[i..i + |q|] + c + p[i + |q|..]
  }

  /**
    On a piece that ends with its first match, as the pieces `mapQueryPosition` wraps do,
    `wrapQuery` puts the closing tag at the very end.
   */
  lemma WrapQueryAtEnd(o: string, c: string, q: string, p: string)
    requires IndexOfCI(q, p) >= 0 && IndexOfCI(q, p) + |q| == |p|
    ensures var i := IndexOfCI(q, p);
      WrapQuery(o, c, q, p) == p[..i] + o + p[i..] + c
  {
    var i := IndexOfCI(q, p);
    assert p[i..i + |q|] == p[i..] && p[i + |q|..] == [];
  }

  /**
    The span `wrapQuery` puts between the tags is copied from the text, so it keeps the
    text's casing, and it equals the query up to case.
   */
  lemma WrappedSpanMatchesQuery(o: string, c: string, q: string, p: string)
    requires HasMatchingQuery(q, p)
    ensures var i := IndexOfCI(q, p);
      && WrapQuery(o, c, q, p)[i + |o|..i + |o| + |q|] == p[i..i + |q|]
      && EqualsCI(p[i..i + |q|], q)
  {
    var i := IndexOfCI(q, p);
    var span := p[i..i + |q|];
    assert WrapQuery(o, c, q, p) == (p[..i] + o) + span + (c + p[i + |q|..]);
    SliceOfConcat(p[..i] + o, span, c + p[i + |q|..]);
    IndexOfCIIsLeastMatch(q, p);
    MatchesAtSpan(q, p, i);
  }

  /** The middle part of a three-part concatenation is recovered by slicing. */
  lemma SliceOfConcat<T>(a: seq<T>, b: seq<T>, c: seq<T>)
    ensures (a + b + c)[|a|..|a| + |b|] == b
  {
  }

  /**
    `mapQueryPosition`: wrap the first match of the remaining text, append the wrapped
    first piece to the accumulator and continue on what follows the match; with no match
    left, append the remaining text verbatim. The query is non-empty (the guard of
    `TagWrapper` ensures it), so the remaining text shrinks on every step.
   */
  function MapQueryPosition(o: string, c: string, q: string, s: string, acc: string): string
    requires q != []
    decreases |s|
  {
    if HasMatchingQuery(q, s) then
      AfterQueryShrinks(q, s);
      MapQueryPosition(o, c, q, AfterQueryText(q, s), acc + WrapQuery(o, c, q, FirstQueryMatchText(q, s)))
    else
      acc + s
  }

  /** Unfolding `MapQueryPosition` once, when the remaining text has a match. */
  lemma MapQueryPositionStep(o: string, c: string, q: string, s: string, acc: string)
    requires q != [] && HasMatchingQuery(q, s)
    ensures MapQueryPosition(o, c, q, s, acc)
      == MapQueryPosition(o, c, q, AfterQueryText(q, s), acc + WrapQuery(o, c, q, FirstQueryMatchText(q, s)))
  {
  }

  /** The opening tag: the first element of the tag list, "" when it is missing. */
  function Opening(tags: seq<string>): string {
    if |tags| > 0 then tags[0] else []
  }

  /** The closing tag: the second element of the tag list, "" when it is missing. */
  function Closing(tags: seq<string>): string {
    if |tags| > 1 then tags[1] else []
  }

  /**
    The guard of `tagWrapper`: text, query and both tags are present and non-empty (an
    absent value and the empty string are both falsy).
   */
  predicate HasParams(tags: seq<string>, q: string, s: string) {
    s != [] && q != [] && Opening(tags) != [] && Closing(tags) != []
  }

  /** `tagWrapper(tags, query, str)`. */
  function TagWrapper(tags: seq<string>, q: string, s: string): (r: string)
    ensures !HasParams(tags, q, s) ==> r == s
    ensures !HasMatchingQuery(q, s) ==> r == s
  {
    if !HasParams(tags, q, s) || !HasMatchingQuery(q, s) then s
    else MapQueryPosition(Opening(tags), Closing(tags), q, s, [])
  }
}
