/**
  `wrapQuery` as the source writes it: the piece and the query are percent-encoded, every
  match of the encoded query in the encoded piece is replaced by the tags around the
  encoded match, and the result is decoded again.

  The query's encoding becomes the source of a regular expression with the flags `i` and
  `g`. An encoded string contains only ASCII letters, digits, `-`, `_`, `.`, `~` and `%`,
  so the pattern's only special character is `.`, which matches any character but a line
  terminator. The `i` flag folds ASCII letters only, which is exact on such strings.

  `TagWrapperAgrees` shows that on plain text (letters, digits, `-`, `_`, `~`) and tags
  without `%` or `$` this route gives the splice `Wrapper.WrapQuery` describes.
 */
module AsWritten {
  import opened CaseFold
  import opened Search
  import opened Slicing
  import opened Wrapper
  import opened UriCodec

  /** The characters `.` does not match in a regular expression. */
  predicate IsLineTerminator(ch: char) {
    ch == '\n' || ch == '\r' || ch == '\U{2028}' || ch == '\U{2029}'
  }

  /** Case folding under the `i` flag, on ASCII letters. */
  function Canonical(ch: char): (r: char)
    ensures 'a' <= ch <= 'z' ==> r as int == ch as int - 0x20
    ensures !('a' <= ch <= 'z') ==> r == ch
  {
    if 'a' <= ch <= 'z' then (ch as int - 0x20) as char else ch
  }

  /** One pattern character against one text character. */
  predicate PatternCharMatches(pc: char, tc: char) {
    if pc == '.' then !IsLineTerminator(tc) else Canonical(pc) == Canonical(tc)
  }

  /** The pattern matches the text from position `i` on, character by character. */
  predicate RegexAgrees(pat: string, t: string, i: nat)
    requires i + |pat| <= |t|
    decreases |pat|
  {
    pat == [] || (PatternCharMatches(pat[0], t[i]) && RegexAgrees(pat[1..], t, i + 1))
  }

  /** The pattern matches from `i` exactly when each of its characters matches in turn. */
  lemma {:induction false} RegexAgreesPointwise(pat: string, t: string, i: nat)
    requires i + |pat| <= |t|
    ensures RegexAgrees(pat, t, i) <==> forall j :: 0 <= j < |pat| ==> PatternCharMatches(pat[j], t[i + j])
    decreases |pat|
  {
    if pat != [] {
      RegexAgreesPointwise(pat[1..], t, i + 1);
      assert forall j :: 1 <= j < |pat| ==> pat[j] == pat[1..][j - 1];
    }
  }

  /** The pattern matches the text at position `i`. */
  predicate RegexMatchesAt(pat: string, t: string, i: int) {
    0 <= i && i + |pat| <= |t| && RegexAgrees(pat, t, i)
  }

  /** The leftmost match of the pattern at or after `k`, or -1. */
  function RegexIndexFrom(pat: string, t: string, k: nat): (r: int)
    requires k <= |t|
    ensures r == -1 || k <= r <= |t| - |pat|
    decreases |t| - k
  {
    if k + |pat| > |t| then -1
    else if RegexMatchesAt(pat, t, k) then k
    else RegexIndexFrom(pat, t, k + 1)
  }

  /** The leftmost-match search reports a match, skips none, and -1 means there is none. */
  lemma {:induction false} RegexIndexFromIsLeastMatch(pat: string, t: string, k: nat)
    requires k <= |t|
    ensures RegexIndexFrom(pat, t, k) >= 0 ==> RegexMatchesAt(pat, t, RegexIndexFrom(pat, t, k))
    ensures forall j :: k <= j && (RegexIndexFrom(pat, t, k) < 0 || j < RegexIndexFrom(pat, t, k)) ==> !RegexMatchesAt(pat, t, j)
    decreases |t| - k
  {
    if k + |pat| <= |t| && !RegexMatchesAt(pat, t, k) {
      RegexIndexFromIsLeastMatch(pat, t, k + 1);
    }
  }

  /**
    The text that replaces a match of `t` at `[i, j)`, read from the replacement `rep` as
    `String.prototype.replace` reads it for a pattern without capture groups (an encoded
    query has none, since `(` is escaped): `$$` is `$`, `$&` the match, `` $` `` the text
    before it, `$'` the text after it, and any other `$` stands for itself.
   */
  function Substitute(rep: string, t: string, i: nat, j: nat): (r: string)
    requires i <= j <= |t|
    ensures '$' !in rep ==> r == rep
    decreases |rep|
  {
    if rep == [] then []
    else if rep[0] == '$' && |rep| >= 2 && PatternChar(rep[1]) then
      Expansion(rep[1], t, i, j) + Substitute(rep[2..], t, i, j)
    else
      [rep[0]] + Substitute(rep[1..], t, i, j)
  }

  /** The characters that make a pattern after `$` when the pattern has no groups. */
  predicate PatternChar(d: char) {
    d == '$' || d == '&' || d == '`' || d == '\''
  }

  /** What the pattern `$d` stands for, for a match of `t` at `[i, j)`. */
  function Expansion(d: char, t: string, i: nat, j: nat): string
    requires PatternChar(d) && i <= j <= |t|
  {
    if d == '$' then "$" else if d == '&' then t[i..j] else if d == '`' then t[..i] else t[j..]
  }

  /**
    Each pattern on its own: `$$` gives `$`, `$&` the match, `` $` `` the text before it and
    `$'` the text after it; a `$` at the end or before any other character stays as it is.
   */
  lemma SubstitutePatterns(t: string, i: nat, j: nat, ch: char)
    requires i <= j <= |t|
    ensures Substitute("$$", t, i, j) == "$"
    ensures Substitute("$&", t, i, j) == t[i..j]
    ensures Substitute("$`", t, i, j) == t[..i]
    ensures Substitute("$'", t, i, j) == t[j..]
    ensures Substitute("$", t, i, j) == "$"
    ensures !PatternChar(ch) ==> Substitute(['$', ch], t, i, j) == ['$', ch]
  {
    assert "$$"[2..] == "$&"[2..] == "$`"[2..] == "$'"[2..] == [];
    if !PatternChar(ch) {
      assert ['$', ch][1..] == [ch];
    }
  }

  /** A `$`-free start of the replacement is inserted as it is, whatever follows it. */
  lemma {:induction false} SubstituteLiteralPrefix(a: string, rest: string, t: string, i: nat, j: nat)
    requires i <= j <= |t| && DollarFree(a)
    ensures Substitute(a + rest, t, i, j) == a + Substitute(rest, t, i, j)
    decreases |a|
  {
    if a == [] {
      assert a + rest == rest;
    } else {
      SubstituteLiteralStep(a, rest, t, i, j);
      SubstituteLiteralPrefix(a[1..], rest, t, i, j);
      ConsRegroup(a, Substitute(rest, t, i, j));
    }
  }

  /** A non-empty text is its first character followed by the rest, whatever comes after. */
  lemma ConsRegroup(a: string, x: string)
    requires a != []
    ensures [a[0]] + (a[1..] + x) == a + x
  {
    assert a == [a[0]] + a[1..];
  }

  /** One step of `SubstituteLiteralPrefix`: a first character other than `$` is copied. */
  lemma SubstituteLiteralStep(a: string, rest: string, t: string, i: nat, j: nat)
    requires i <= j <= |t| && DollarFree(a) && a != []
    ensures DollarFree(a[1..])
    ensures Substitute(a + rest, t, i, j) == [a[0]] + Substitute(a[1..] + rest, t, i, j)
  {
    assert (a + rest)[0] == a[0];
    assert (a + rest)[1..] == a[1..] + rest;
    assert forall k :: 0 <= k < |a| - 1 ==> a[1..][k] == a[k + 1];
  }

  /** A replacement with one `$&` between `$`-free texts puts the match in its place. */
  lemma SubstituteMatchBetween(a: string, b: string, t: string, i: nat, j: nat)
    requires i <= j <= |t| && DollarFree(a) && DollarFree(b)
    ensures Substitute(a + ("$&" + b), t, i, j) == a + (t[i..j] + b)
  {
    SubstituteLiteralPrefix(a, "$&" + b, t, i, j);
    SubstituteMatchStep(b, t, i, j);
  }

  /** A leading `$&` becomes the match, and the replacement goes on after it. */
  lemma SubstituteMatchStep(b: string, t: string, i: nat, j: nat)
    requires i <= j <= |t|
    ensures Substitute("$&" + b, t, i, j) == t[i..j] + Substitute(b, t, i, j)
  {
    assert ("$&" + b)[0] == '$' && ("$&" + b)[1] == '&';
    assert ("$&" + b)[2..] == b;
    assert Expansion('&', t, i, j) == t[i..j];
  }

  /**
    `t.replace(regex, rep)` for a global regular expression, from position `k` on: each
    leftmost match is replaced by `rep`, with its `$` patterns substituted, and the search
    goes on after the match.
   */
  function ReplaceAll(pat: string, t: string, rep: string, k: nat): string
    requires pat != [] && k <= |t|
    decreases |t| - k
  {
    var i := RegexIndexFrom(pat, t, k);
    if i < 0 then t[k..] else t[k..i] + Substitute(rep, t, i, i + |pat|) + ReplaceAll(pat, t, rep, i + |pat|)
  }

  /** One replacement by a `$`-free text: the text up to the match, the replacement, and on. */
  lemma ReplaceAllLiteralStep(pat: string, t: string, rep: string, k: nat)
    requires pat != [] && k <= |t| && DollarFree(rep) && RegexIndexFrom(pat, t, k) >= 0
    ensures k <= RegexIndexFrom(pat, t, k) && RegexIndexFrom(pat, t, k) + |pat| <= |t|
    ensures ReplaceAll(pat, t, rep, k)
      == t[k..RegexIndexFrom(pat, t, k)] + rep + ReplaceAll(pat, t, rep, RegexIndexFrom(pat, t, k) + |pat|)
  {
  }

  /** An empty text in front changes nothing. */
  lemma EmptyThen(e: string, a: string, b: string)
    requires |e| == 0
    ensures e + a + b == a + b
  {
  }

  /** A match right at `k` is replaced by a `$`-free text, and the replacing goes on after it. */
  lemma ReplaceAllMatchAt(pat: string, t: string, rep: string, k: nat)
    requires pat != [] && k <= |t| && DollarFree(rep) && RegexIndexFrom(pat, t, k) == k
    ensures k + |pat| <= |t|
    ensures ReplaceAll(pat, t, rep, k) == rep + ReplaceAll(pat, t, rep, k + |pat|)
  {
    ReplaceAllLiteralStep(pat, t, rep, k);
    EmptyThen(t[k..k], rep, ReplaceAll(pat, t, rep, k + |pat|));
  }

  /** A match right at `k` that ends the text leaves just the `$`-free replacement. */
  lemma ReplaceAllLastMatch(pat: string, t: string, rep: string, k: nat)
    requires pat != [] && k + |pat| == |t| && DollarFree(rep) && RegexIndexFrom(pat, t, k) == k
    ensures ReplaceAll(pat, t, rep, k) == rep
  {
    ReplaceAllMatchAt(pat, t, rep, k);
    assert ReplaceAll(pat, t, rep, |t|) == [];
  }

  /**
    A text made of two back-to-back matches of the pattern becomes the replacement twice,
    when the replacement has no `$`.
   */
  lemma ReplaceAllTwice(pat: string, t: string, rep: string)
    requires pat != [] && |t| == 2 * |pat| && DollarFree(rep)
    requires RegexIndexFrom(pat, t, 0) == 0 && RegexIndexFrom(pat, t, |pat|) == |pat|
    ensures ReplaceAll(pat, t, rep, 0) == rep + rep
  {
    ReplaceAllMatchAt(pat, t, rep, 0);
    ReplaceAllLastMatch(pat, t, rep, |pat|);
  }

  /** `wrapQuery(query, str)` as written, for a non-empty query. */
  function WrapQueryAsWritten(o: string, c: string, q: string, p: string): Outcome
    requires q != []
  {
    var i := IndexOfCI(q, p);
    var queryMatch := FullEncode(JsSlice(p, i, i + |q|));
    var pat := FullEncode(q);
    Decode(ReplaceAll(pat, FullEncode(p), o + queryMatch + c, 0))
  }

  /** `mapQueryPosition` as written: a thrown error ends the scan. */
  function MapQueryPositionAsWritten(o: string, c: string, q: string, s: string, acc: string): Outcome
    requires q != []
    decreases |s|
  {
    if HasMatchingQuery(q, s) then
      AfterQueryShrinks(q, s);
      match WrapQueryAsWritten(o, c, q, FirstQueryMatchText(q, s))
      case Throws => Throws
      case Returns(w) => MapQueryPositionAsWritten(o, c, q, AfterQueryText(q, s), acc + w)
    else
      Returns(acc + s)
  }

  /**
    One step of the scan as written: an error from wrapping the first piece ends it, and
    otherwise the wrapped piece is appended and the scan goes on with the rest.
   */
  lemma MapQueryPositionAsWrittenStep(o: string, c: string, q: string, s: string, acc: string, r: Outcome)
    requires q != [] && HasMatchingQuery(q, s)
    requires WrapQueryAsWritten(o, c, q, FirstQueryMatchText(q, s)) == r
    ensures r.Throws? ==> MapQueryPositionAsWritten(o, c, q, s, acc) == Throws
    ensures r.Returns? ==>
      MapQueryPositionAsWritten(o, c, q, s, acc) == MapQueryPositionAsWritten(o, c, q, AfterQueryText(q, s), acc + r.value)
  {
  }

  /** With no match left the scan as written returns what it has, followed by the text. */
  lemma MapQueryPositionAsWrittenEnd(o: string, c: string, q: string, s: string, acc: string)
    requires q != [] && !HasMatchingQuery(q, s)
    ensures MapQueryPositionAsWritten(o, c, q, s, acc) == Returns(acc + s)
  {
  }

  /** `tagWrapper(tags, query, str)` as written. */
  function TagWrapperAsWritten(tags: seq<string>, q: string, s: string): (r: Outcome)
    ensures !HasParams(tags, q, s) ==> r == Returns(s)
    ensures !HasMatchingQuery(q, s) ==> r == Returns(s)
  {
    if !HasParams(tags, q, s) || !HasMatchingQuery(q, s) then Returns(s)
    else MapQueryPositionAsWritten(Opening(tags), Closing(tags), q, s, [])
  }

  /** When the first match ends the text, the first piece is the text and nothing is left. */
  lemma OnePieceSplit(q: string, s: string)
    requires HasMatchingQuery(q, s) && IndexOfCI(q, s) + |q| == |s|
    ensures FirstQueryMatchText(q, s) == s && AfterQueryText(q, s) == []
  {
    FirstPieceEndsAtMatch(q, s);
    AfterQueryShrinks(q, s);
    assert s[..|s|] == s;
  }

  /**
    `tagWrapper` as written on a text whose first match ends it: the scan wraps that one
    piece, and its outcome is the outcome of the call.
   */
  lemma TagWrapperAsWrittenOnePiece(tags: seq<string>, q: string, s: string, r: Outcome)
    requires Opening(tags) != [] && Closing(tags) != [] && q != []
    requires HasMatchingQuery(q, s) && IndexOfCI(q, s) + |q| == |s|
    requires WrapQueryAsWritten(Opening(tags), Closing(tags), q, s) == r
    ensures TagWrapperAsWritten(tags, q, s) == r
  {
    OnePieceSplit(q, s);
    MapQueryPositionAsWrittenStep(Opening(tags), Closing(tags), q, s, [], r);
    if r.Returns? {
      MapQueryPositionAsWrittenEnd(Opening(tags), Closing(tags), q, [], [] + r.value);
      assert [] + r.value + [] == r.value;
    }
  }

  /** Letters, digits, `-`, `_` and `~`: the characters the encoding leaves alone, but `.`. */
  predicate Plain(ch: char) {
    ('A' <= ch <= 'Z') || ('a' <= ch <= 'z') || ('0' <= ch <= '9') || ch == '-' || ch == '_' || ch == '~'
  }

  /** A plain character is one `fullEncodeUri` keeps and the pattern reads literally. */
  lemma PlainIsKept(ch: char)
    requires Plain(ch)
    ensures Unescaped(ch) && !Marks(ch) && ch != '.' && ch != '%'
    ensures EncodeChar(ch) == [ch]
  {
  }

  /** Every character of `s` is plain. */
  predicate PlainText(s: string) {
    forall i :: 0 <= i < |s| ==> Plain(s[i])
  }

  /** Plain text is its own encoding. */
  lemma FullEncodePlain(s: string)
    requires PlainText(s)
    ensures FullEncode(s) == s
  {
    forall i | 0 <= i < |s|
      ensures Unescaped(s[i]) && !Marks(s[i])
    {
      PlainIsKept(s[i]);
    }
    FullEncodeKept(s);
  }

  /** No character of `t` is `%`. */
  predicate PercentFree(t: string) {
    '%' !in t
  }

  /** No character of `t` is `$`, so it holds no replacement pattern. */
  predicate DollarFree(t: string) {
    '$' !in t
  }

  /** Text without `%` decodes to itself. */
  lemma {:induction false} DecodeWithoutPercent(t: string)
    requires PercentFree(t)
    ensures Decode(t) == Returns(t)
  {
    if t != [] {
      assert t == [t[0]] + t[1..];
      DecodeWithoutPercent(t[1..]);
    }
  }

  /**
    A `%`-free start of the text decodes to itself, and the rest decodes as it would alone:
    the whole decoding throws exactly when the rest does.
   */
  lemma {:induction false} DecodeAfterLiteral(a: string, t: string)
    requires PercentFree(a)
    ensures Decode(a + t).Throws? <==> Decode(t).Throws?
    ensures Decode(t).Returns? ==> Decode(a + t) == Returns(a + Decode(t).value)
    decreases |a|
  {
    if a == [] {
      assert a + t == t;
    } else {
      DecodeLiteralStep(a, t);
      DecodeAfterLiteral(a[1..], t);
      if Decode(t).Returns? {
        ConsRegroup(a, Decode(t).value);
      }
    }
  }

  /** One step of `DecodeAfterLiteral`: a first character other than `%` is kept. */
  lemma DecodeLiteralStep(a: string, t: string)
    requires PercentFree(a) && a != []
    ensures PercentFree(a[1..])
    ensures Decode(a + t) == Cons(a[0], Decode(a[1..] + t))
  {
    assert (a + t)[0] == a[0];
    assert (a + t)[1..] == a[1..] + t;
    assert forall k :: 0 <= k < |a| - 1 ==> a[1..][k] == a[k + 1];
  }

  /** On plain characters the `i` flag and `toLowerCase` agree on what is equal. */
  lemma PlainCharsAgree(a: char, b: char)
    requires Plain(a) && Plain(b)
    ensures PatternCharMatches(a, b) <==> Lower(a) == Lower(b)
  {
  }

  /** On plain text the regular expression matches exactly where `getQueryIndex` does. */
  lemma {:induction false} RegexAgreesPlain(q: string, s: string, i: nat)
    requires PlainText(q) && PlainText(s) && i + |q| <= |s|
    ensures RegexAgrees(q, s, i) <==> AgreesCI(q, s, i)
    decreases |q|
  {
    if q != [] {
      PlainCharsAgree(q[0], s[i]);
      RegexAgreesPlain(q[1..], s, i + 1);
    }
  }

  /** On plain text the regular expression's search is the case-insensitive search. */
  lemma {:induction false} RegexIndexFromPlain(q: string, s: string, k: nat)
    requires PlainText(q) && PlainText(s) && k <= |s|
    ensures RegexIndexFrom(q, s, k) == IndexFrom(q, s, k)
    decreases |s| - k
  {
    if k + |q| <= |s| {
      RegexAgreesPlain(q, s, k);
      if !MatchesAt(q, s, k) {
        RegexIndexFromPlain(q, s, k + 1);
      }
    }
  }

  /**
    On a plain piece that ends with its first match, the global replacement replaces that
    match and nothing else: by the replacement itself when it holds no `$`.
   */
  lemma ReplaceAllOnPiece(q: string, p: string, rep: string)
    requires q != [] && PlainText(q) && PlainText(p)
    requires IndexOfCI(q, p) >= 0 && IndexOfCI(q, p) + |q| == |p|
    ensures ReplaceAll(q, p, rep, 0) == p[..IndexOfCI(q, p)] + Substitute(rep, p, IndexOfCI(q, p), |p|)
    ensures DollarFree(rep) ==> ReplaceAll(q, p, rep, 0) == p[..IndexOfCI(q, p)] + rep
  {
    var i := IndexOfCI(q, p);
    RegexIndexFromPlain(q, p, 0);
    assert ReplaceAll(q, p, rep, |p|) == [];
  }

  /** Plain text has neither `%` nor `$`. */
  lemma PlainIsLiteral(s: string)
    requires PlainText(s)
    ensures PercentFree(s) && DollarFree(s)
  {
    assert forall j :: 0 <= j < |s| ==> s[j] != '%' && s[j] != '$';
  }

  /** Gluing `%`-free texts gives `%`-free text. */
  lemma PercentFreeConcat(a: string, b: string)
    requires PercentFree(a) && PercentFree(b)
    ensures PercentFree(a + b)
  {
  }

  /** What the encoding does to a plain piece, its first match and the query: nothing. */
  lemma PlainPieceEncodings(q: string, p: string, i: nat)
    requires PlainText(q) && PlainText(p) && i <= |p|
    ensures FullEncode(q) == q && FullEncode(p) == p && FullEncode(p[i..]) == p[i..]
  {
    assert PlainText(p[i..]);
    FullEncodePlain(q);
    FullEncodePlain(p);
    FullEncodePlain(p[i..]);
  }

  /**
    `wrapQuery` as written, given the encoded match and the result of the replacement:
    what remains is decoding that result.
   */
  lemma WrapQueryFromSteps(o: string, c: string, q: string, p: string, m: string, out: string)
    requires q != []
    requires FullEncode(JsSlice(p, IndexOfCI(q, p), IndexOfCI(q, p) + |q|)) == m
    requires ReplaceAll(FullEncode(q), FullEncode(p), o + m + c, 0) == out
    ensures WrapQueryAsWritten(o, c, q, p) == Decode(out)
  {
  }

  /**
    On a plain piece that ends with its first match, the encoded match is the match and
    the replacement in the encoded piece wraps that match alone.
   */
  lemma ReplacementOnPlainPiece(o: string, c: string, q: string, p: string)
    requires q != [] && PlainText(q) && PlainText(p) && DollarFree(o) && DollarFree(c)
    requires IndexOfCI(q, p) >= 0 && IndexOfCI(q, p) + |q| == |p|
    ensures var i := IndexOfCI(q, p);
      && FullEncode(JsSlice(p, i, i + |q|)) == p[i..]
      && ReplaceAll(FullEncode(q), FullEncode(p), o + p[i..] + c, 0) == p[..i] + (o + p[i..] + c)
  {
    var i := IndexOfCI(q, p);
    PlainPieceReplaced(o, c, q, p);
    assert PlainText(p[i..]);
    PlainIsLiteral(p[i..]);
    assert DollarFree(o + p[i..] + c);
  }

  /**
    On a plain piece that ends with its first match, `wrapQuery` as written decodes the piece
    with that match replaced by the tags around it, `$` patterns in the tags substituted.
   */
  lemma WrapQueryOnPlainPiece(o: string, c: string, q: string, p: string)
    requires q != [] && PlainText(q) && PlainText(p)
    requires IndexOfCI(q, p) >= 0 && IndexOfCI(q, p) + |q| == |p|
    ensures var i := IndexOfCI(q, p);
      WrapQueryAsWritten(o, c, q, p) == Decode(p[..i] + Substitute(o + p[i..] + c, p, i, |p|))
  {
    var i := IndexOfCI(q, p);
    PlainPieceReplaced(o, c, q, p);
    WrapQueryFromSteps(o, c, q, p, p[i..], p[..i] + Substitute(o + p[i..] + c, p, i, |p|));
  }

  /**
    On a plain piece that ends with its first match, the encoded match is the match, and the
    replacement in the encoded piece puts the substituted tags and match in its place.
   */
  lemma PlainPieceReplaced(o: string, c: string, q: string, p: string)
    requires q != [] && PlainText(q) && PlainText(p)
    requires IndexOfCI(q, p) >= 0 && IndexOfCI(q, p) + |q| == |p|
    ensures var i := IndexOfCI(q, p);
      && FullEncode(JsSlice(p, i, i + |q|)) == p[i..]
      && ReplaceAll(FullEncode(q), FullEncode(p), o + p[i..] + c, 0) == p[..i] + Substitute(o + p[i..] + c, p, i, |p|)
  {
    PlainMatchEncoded(q, p);
    ReplaceAllOnPiece(q, p, o + p[IndexOfCI(q, p)..] + c);
  }

  /** On a plain piece that ends with its first match, the encoded match is that match. */
  lemma PlainMatchEncoded(q: string, p: string)
    requires q != [] && PlainText(q) && PlainText(p)
    requires IndexOfCI(q, p) >= 0 && IndexOfCI(q, p) + |q| == |p|
    ensures FullEncode(q) == q && FullEncode(p) == p
    ensures FullEncode(JsSlice(p, IndexOfCI(q, p), IndexOfCI(q, p) + |q|)) == p[IndexOfCI(q, p)..]
  {
    var i := IndexOfCI(q, p);
    PlainPieceEncodings(q, p, i);
    assert JsSlice(p, i, i + |q|) == p[i..];
  }

  /** Splicing `%`-free tags into plain text gives text that decodes to itself. */
  lemma PlainSpliceDecodes(o: string, c: string, p: string, i: nat)
    requires PlainText(p) && PercentFree(o) && PercentFree(c) && i <= |p|
    ensures Decode(p[..i] + (o + p[i..] + c)) == Returns(p[..i] + (o + p[i..] + c))
  {
    assert PlainText(p[..i]) && PlainText(p[i..]);
    PlainIsLiteral(p[..i]);
    PlainIsLiteral(p[i..]);
    PercentFreeConcat(o, p[i..]);
    PercentFreeConcat(o + p[i..], c);
    PercentFreeConcat(p[..i], o + p[i..] + c);
    DecodeWithoutPercent(p[..i] + (o + p[i..] + c));
  }

  /**
    On a plain piece that ends with its first match, with tags free of `%` and `$`, the source's
    route through encoded text gives the splice of `WrapQuery`.
   */
  lemma WrapQueryAgrees(o: string, c: string, q: string, p: string)
    requires q != [] && PlainText(q) && PlainText(p) && PercentFree(o) && PercentFree(c)
    requires DollarFree(o) && DollarFree(c)
    requires IndexOfCI(q, p) >= 0 && IndexOfCI(q, p) + |q| == |p|
    ensures WrapQueryAsWritten(o, c, q, p) == Returns(WrapQuery(o, c, q, p))
  {
    var i := IndexOfCI(q, p);
    ReplacementOnPlainPiece(o, c, q, p);
    PlainSpliceDecodes(o, c, p, i);
    WrapQueryFromSteps(o, c, q, p, p[i..], p[..i] + (o + p[i..] + c));
    WrapQueryAtEnd(o, c, q, p);
    Regroup(p[..i], o, p[i..], c);
  }

  /** Regrouping a four-part concatenation. */
  lemma Regroup(a: string, b: string, d: string, e: string)
    ensures a + (b + d + e) == a + b + d + e
  {
  }

  /** The scan as written agrees with the model's scan on plain text and tags free of `%` and `$`. */
  lemma {:induction false} MapQueryPositionAgrees(o: string, c: string, q: string, s: string, acc: string)
    requires q != [] && PlainText(q) && PlainText(s) && PercentFree(o) && PercentFree(c)
    requires DollarFree(o) && DollarFree(c)
    ensures MapQueryPositionAsWritten(o, c, q, s, acc) == Returns(MapQueryPosition(o, c, q, s, acc))
    decreases |s|
  {
    if HasMatchingQuery(q, s) {
      var first := FirstQueryMatchText(q, s);
      var rest := AfterQueryText(q, s);
      FirstPieceEndsAtMatch(q, s);
      FirstPieceKeepsMatch(q, s);
      AfterQueryShrinks(q, s);
      assert PlainText(first) && PlainText(rest);
      WrapQueryAgrees(o, c, q, first);
      MapQueryPositionAgrees(o, c, q, rest, acc + WrapQuery(o, c, q, first));
    }
  }

  /**
    On plain text and query, with tags free of `%` and `$`, `tagWrapper` as written returns what
    the model's `TagWrapper` computes.
   */
  lemma TagWrapperAgrees(tags: seq<string>, q: string, s: string)
    requires PlainText(q) && PlainText(s)
    requires PercentFree(Opening(tags)) && PercentFree(Closing(tags))
    requires DollarFree(Opening(tags)) && DollarFree(Closing(tags))
    ensures TagWrapperAsWritten(tags, q, s) == Returns(TagWrapper(tags, q, s))
  {
    if HasParams(tags, q, s) && HasMatchingQuery(q, s) {
      MapQueryPositionAgrees(Opening(tags), Closing(tags), q, s, []);
    }
  }
}
