/**
  Inputs on which `tagWrapper` as written departs from what it is meant to do. For each,
  one lemma evaluates both the source's route through encoded text (module `AsWritten`)
  and the model (module `Wrapper`) on the same input, for any pair of tags of the kind
  stated.
 */
module Findings {
  import opened Search
  import opened Slicing
  import opened Wrapper
  import opened Reference
  import opened Properties
  import opened UriCodec
  import opened AsWritten

  /** A `%` that does not start an escape makes the decoding throw. */
  lemma DecodeStrayPercent(t: string)
    requires |t| >= 2 && t[0] == '%' && HexValue(t[1]) < 0
    ensures Decode(t) == Throws
  {
  }

  // `/2F` searched for `2f`: the escape of `/` is `%2F`, and the pattern matches inside it.

  /** The scan of "/2F" for "2f" finds the one match at 1. */
  lemma EncodedSlashModelScan()
    ensures Occurrences("2f", "/2F", 0) == [1]
  {
    assert IndexFrom("2f", "/2F", 0) == 1 by {
      MatchesAtSpan("2f", "/2F", 1);
      assert "/2F"[1..3] == "2F";
    }
    assert IndexFrom("2f", "/2F", 3) == -1;
    OccurrencesStep("2f", "/2F", 0);
    OccurrencesStep("2f", "/2F", 3);
  }

  /** The model wraps the one match of `2f` in `/2F`. */
  lemma EncodedSlashModel(o: string, c: string)
    requires o != [] && c != []
    ensures TagWrapper([o, c], "2f", "/2F") == "/" + o + "2F" + c
  {
    EncodedSlashModelScan();
    TagWrapperMarksOccurrences([o, c], "2f", "/2F");
    MarkedStep(o, c, 2, "/2F", [1], 0);
    assert [1][1..] == [];
    assert "/2F"[0..1] == "/" && "/2F"[1..3] == "2F" && "/2F"[3..] == [];
  }

  /** `/` is escaped as `%2F`, whose hexadecimal digits spell the query `2f`. */
  lemma EncodedSlashText()
    ensures FullEncode("/2F") == "%2F2F" && FullEncode("2F") == "2F" && FullEncode("2f") == "2f"
  {
    assert Utf8('/') == [0x2F];
    assert EncodeChar('/') == "%2F";
    FullEncodePlain("2F");
    FullEncodePlain("2f");
    assert "/2F"[1..] == "2F";
  }

  /** The pattern `2f` is found twice in `%2F2F`: once inside the escape of `/`. */
  lemma EncodedSlashReplace(rep: string)
    requires DollarFree(rep)
    ensures ReplaceAll("2f", "%2F2F", rep, 0) == "%" + rep + rep
  {
    assert RegexIndexFrom("2f", "%2F2F", 0) == 1 by {
      assert RegexMatchesAt("2f", "%2F2F", 1);
    }
    assert RegexIndexFrom("2f", "%2F2F", 3) == 3 by {
      assert RegexMatchesAt("2f", "%2F2F", 3);
    }
    assert ReplaceAll("2f", "%2F2F", rep, 5) == [];
    assert ReplaceAll("2f", "%2F2F", rep, 3) == rep by {
      assert "%2F2F"[3..3] == [];
    }
    assert "%2F2F"[0..1] == "%";
  }

  /** The first match of `2f` in `/2F` is at 1, and it ends the text. */
  lemma EncodedSlashMatch()
    ensures IndexOfCI("2f", "/2F") == 1 && HasMatchingQuery("2f", "/2F")
    ensures FirstQueryMatchText("2f", "/2F") == "/2F" && JsSlice("/2F", 1, 3) == "2F"
  {
    MatchesAtSpan("2f", "/2F", 1);
    assert "/2F"[1..3] == "2F";
    assert "/2F"[0..3] == "/2F";
  }

  /**
    The piece `/2F` wrapped as written, with tags free of `$` and an opening tag that does
    not start with a hexadecimal digit: the decoding meets `%` followed by that tag and throws.
   */
  lemma EncodedSlashWrap(o: string, c: string)
    requires o != [] && HexValue(o[0]) < 0 && DollarFree(o) && DollarFree(c)
    ensures WrapQueryAsWritten(o, c, "2f", "/2F") == Throws
  {
    var rep := o + "2F" + c;
    EncodedSlashMatch();
    EncodedSlashText();
    EncodedSlashReplace(rep);
    WrapQueryFromSteps(o, c, "2f", "/2F", "2F", "%" + rep + rep);
    assert ("%" + rep + rep)[1] == o[0];
    DecodeStrayPercent("%" + rep + rep);
  }

  /**
    With tags such as `<em>` and `</em>`, `tagWrapper(tags, '2f', '/2F')` as written
    throws, where the model wraps the one match.
   */
  lemma EncodedSlashThrows(o: string, c: string)
    requires o != [] && c != [] && HexValue(o[0]) < 0 && DollarFree(o) && DollarFree(c)
    ensures TagWrapperAsWritten([o, c], "2f", "/2F") == Throws
    ensures TagWrapper([o, c], "2f", "/2F") == "/" + o + "2F" + c
  {
    EncodedSlashModel(o, c);
    EncodedSlashWrap(o, c);
    EncodedSlashMatch();
    TagWrapperAsWrittenOnePiece([o, c], "2f", "/2F", Throws);
  }

  // `xfoo.foo` searched for `.foo`: as a pattern, `.` matches any character.

  /** The scan of "xfoo.foo" for ".foo" finds the one match at 4. */
  lemma DotQueryModelScan()
    ensures Occurrences(".foo", "xfoo.foo", 0) == [4]
  {
    assert IndexFrom(".foo", "xfoo.foo", 0) == 4 by {
      MatchesAtSpan(".foo", "xfoo.foo", 4);
      assert "xfoo.foo"[4..8] == ".foo";
      assert IndexFrom(".foo", "xfoo.foo", 1) == 4;
    }
    assert IndexFrom(".foo", "xfoo.foo", 8) == -1;
    OccurrencesStep(".foo", "xfoo.foo", 0);
    OccurrencesStep(".foo", "xfoo.foo", 8);
  }

  /** The model wraps only the literal `.foo` in `xfoo.foo`. */
  lemma DotQueryModel(o: string, c: string)
    requires o != [] && c != []
    ensures TagWrapper([o, c], ".foo", "xfoo.foo") == "xfoo" + o + ".foo" + c
  {
    DotQueryModelScan();
    TagWrapperMarksOccurrences([o, c], ".foo", "xfoo.foo");
    MarkedStep(o, c, 4, "xfoo.foo", [4], 0);
    assert [4][1..] == [];
    assert "xfoo.foo"[0..4] == "xfoo" && "xfoo.foo"[4..8] == ".foo" && "xfoo.foo"[8..] == [];
  }

  /** `.foo` consists of characters `fullEncodeUri` keeps. */
  lemma DotQueryEncoded()
    ensures FullEncode(".foo") == ".foo"
  {
    assert EncodeChar('.') == ".";
    FullEncodePlain("foo");
    FullEncodeConcat(".", "foo");
    assert "." + "foo" == ".foo";
  }

  /** So does `xfoo.foo`. */
  lemma DotQueryText()
    ensures FullEncode(".foo") == ".foo" && FullEncode("xfoo.foo") == "xfoo.foo"
  {
    DotQueryEncoded();
    FullEncodePlain("xfoo");
    FullEncodeConcat("xfoo", ".foo");
    assert "xfoo" + ".foo" == "xfoo.foo";
  }

  /** As a pattern, `.foo` matches `xfoo` as well as `.foo`. */
  lemma DotQueryReplace(rep: string)
    requires DollarFree(rep)
    ensures ReplaceAll(".foo", "xfoo.foo", rep, 0) == rep + rep
  {
    DotQueryPatternMatches();
    ReplaceAllTwice(".foo", "xfoo.foo", rep);
  }

  /** As a pattern, `.foo` matches `xfoo.foo` at 0 and again at 4. */
  lemma DotQueryPatternMatches()
    ensures RegexIndexFrom(".foo", "xfoo.foo", 0) == 0 && RegexIndexFrom(".foo", "xfoo.foo", 4) == 4
  {
    RegexAgreesPointwise(".foo", "xfoo.foo", 0);
    assert RegexMatchesAt(".foo", "xfoo.foo", 0);
    RegexAgreesPointwise(".foo", "xfoo.foo", 4);
    assert RegexMatchesAt(".foo", "xfoo.foo", 4);
  }


  /** The first match of `.foo` in `xfoo.foo` is the literal one at 4, and it ends the text. */
  lemma DotQueryMatch()
    ensures IndexOfCI(".foo", "xfoo.foo") == 4 && HasMatchingQuery(".foo", "xfoo.foo")
    ensures FirstQueryMatchText(".foo", "xfoo.foo") == "xfoo.foo" && JsSlice("xfoo.foo", 4, 8) == ".foo"
    ensures AfterQueryText(".foo", "xfoo.foo") == []
  {
    DotQueryModelScan();
    OccurrencesStep(".foo", "xfoo.foo", 0);
    assert "xfoo.foo"[4..8] == ".foo";
    assert "xfoo.foo"[0..8] == "xfoo.foo";
  }

  /** Wrapped as written, the piece `xfoo.foo` becomes two wrapped copies of `.foo`. */
  lemma DotQueryWrap(o: string, c: string)
    requires PercentFree(o) && PercentFree(c) && DollarFree(o) && DollarFree(c)
    ensures WrapQueryAsWritten(o, c, ".foo", "xfoo.foo") == Returns(o + ".foo" + c + (o + ".foo" + c))
  {
    DotQueryReplaced(o, c);
    TwiceWrappedDecodes(o, ".foo", c);
  }

  /** Before decoding, the encoded piece holds two wrapped copies of `.foo`. */
  lemma DotQueryReplaced(o: string, c: string)
    requires DollarFree(o) && DollarFree(c)
    ensures WrapQueryAsWritten(o, c, ".foo", "xfoo.foo") == Decode(o + ".foo" + c + (o + ".foo" + c))
  {
    DotQueryMatch();
    DotQueryText();
    assert DollarFree(".foo");
    DotQueryReplace(o + ".foo" + c);
    WrapQueryFromSteps(o, c, ".foo", "xfoo.foo", ".foo", o + ".foo" + c + (o + ".foo" + c));
  }

  /** Two copies of a `%`-free text between `%`-free tags decode to themselves. */
  lemma TwiceWrappedDecodes(o: string, m: string, c: string)
    requires PercentFree(o) && PercentFree(m) && PercentFree(c)
    ensures Decode(o + m + c + (o + m + c)) == Returns(o + m + c + (o + m + c))
  {
    DecodeWithoutPercent(o + m + c + (o + m + c));
  }

  /**
    With tags free of `%` and `$`, `tagWrapper(tags, '.foo', 'xfoo.foo')` as written replaces
    `xfoo` by a wrapped `.foo`, where the model wraps the literal `.foo` alone.
   */
  lemma DotMatchesAnyChar(o: string, c: string)
    requires o != [] && c != [] && PercentFree(o) && PercentFree(c) && DollarFree(o) && DollarFree(c)
    ensures TagWrapperAsWritten([o, c], ".foo", "xfoo.foo") == Returns(o + ".foo" + c + (o + ".foo" + c))
    ensures TagWrapper([o, c], ".foo", "xfoo.foo") == "xfoo" + o + ".foo" + c
  {
    DotQueryModel(o, c);
    DotQueryWrap(o, c);
    DotQueryMatch();
    TagWrapperAsWrittenOnePiece([o, c], ".foo", "xfoo.foo", Returns(o + ".foo" + c + (o + ".foo" + c)));
  }

  // `\U{00E9}` searched for `\U{00C9}`: the two encode differently, and the pattern folds ASCII only.

  /** The scan of "\U{00E9}" for "\U{00C9}" finds the one match at 0. */
  lemma AccentedQueryModelScan()
    ensures Occurrences("\U{00C9}", "\U{00E9}", 0) == [0]
  {
    assert IndexFrom("\U{00C9}", "\U{00E9}", 0) == 0 by {
      MatchesAtSpan("\U{00C9}", "\U{00E9}", 0);
      assert "\U{00E9}"[0..1] == "\U{00E9}";
    }
    assert IndexFrom("\U{00C9}", "\U{00E9}", 1) == -1;
    OccurrencesStep("\U{00C9}", "\U{00E9}", 0);
    OccurrencesStep("\U{00C9}", "\U{00E9}", 1);
  }

  /** The model wraps `\U{00E9}` for the query `\U{00C9}`. */
  lemma AccentedQueryModel(o: string, c: string)
    requires o != [] && c != []
    ensures TagWrapper([o, c], "\U{00C9}", "\U{00E9}") == o + "\U{00E9}" + c
  {
    AccentedQueryModelScan();
    TagWrapperMarksOccurrences([o, c], "\U{00C9}", "\U{00E9}");
    MarkedStep(o, c, 1, "\U{00E9}", [0], 0);
    assert [0][1..] == [];
    assert "\U{00E9}"[0..0] == [] && "\U{00E9}"[0..1] == "\U{00E9}" && "\U{00E9}"[1..] == [];
  }

  /** `\U{00E9}` encodes as `%C3%A9` and `\U{00C9}` as `%C3%89`. */
  lemma AccentedText()
    ensures FullEncode("\U{00E9}") == "%C3%A9" && FullEncode("\U{00C9}") == "%C3%89"
  {
    assert Utf8('\U{00E9}') == [0xC3, 0xA9];
    assert Utf8('\U{00C9}') == [0xC3, 0x89];
    assert EncodeChar('\U{00E9}') == "%C3%A9";
    assert EncodeChar('\U{00C9}') == "%C3%89";
  }

  /** The pattern `%C3%89` does not occur in `%C3%A9`: the digits `8` and `A` differ. */
  lemma AccentedReplace(rep: string)
    ensures ReplaceAll("%C3%89", "%C3%A9", rep, 0) == "%C3%A9"
  {
    assert RegexIndexFrom("%C3%89", "%C3%A9", 0) == -1 by {
      RegexAgreesPointwise("%C3%89", "%C3%A9", 0);
      assert !PatternCharMatches("%C3%89"[4], "%C3%A9"[4]);
    }
    assert "%C3%A9"[0..] == "%C3%A9";
  }

  /** The first match of `\U{00C9}` in `\U{00E9}` is at 0, and it is the whole text. */
  lemma AccentedMatch()
    ensures IndexOfCI("\U{00C9}", "\U{00E9}") == 0 && HasMatchingQuery("\U{00C9}", "\U{00E9}")
    ensures FirstQueryMatchText("\U{00C9}", "\U{00E9}") == "\U{00E9}" && JsSlice("\U{00E9}", 0, 1) == "\U{00E9}"
    ensures AfterQueryText("\U{00C9}", "\U{00E9}") == []
  {
    AccentedQueryModelScan();
    OccurrencesStep("\U{00C9}", "\U{00E9}", 0);
    assert "\U{00E9}"[0..1] == "\U{00E9}";
  }

  /** Wrapped as written, the piece `\U{00E9}` comes back without tags. */
  lemma AccentedWrap(o: string, c: string)
    ensures WrapQueryAsWritten(o, c, "\U{00C9}", "\U{00E9}") == Returns("\U{00E9}")
  {
    AccentedMatch();
    AccentedText();
    AccentedReplace(o + "%C3%A9" + c);
    WrapQueryFromSteps(o, c, "\U{00C9}", "\U{00E9}", "%C3%A9", "%C3%A9");
    DecodeFullEncode("\U{00E9}");
  }

  /**
    `tagWrapper(tags, '\U{00C9}', '\U{00E9}')` as written returns the text without tags, for any
    tags, although `getQueryIndex` finds the match; the model wraps it.
   */
  lemma AccentedMatchMissed(o: string, c: string)
    requires o != [] && c != []
    ensures TagWrapperAsWritten([o, c], "\U{00C9}", "\U{00E9}") == Returns("\U{00E9}")
    ensures TagWrapper([o, c], "\U{00C9}", "\U{00E9}") == o + "\U{00E9}" + c
  {
    AccentedQueryModel(o, c);
    AccentedWrap(o, c);
    AccentedMatch();
    TagWrapperAsWrittenOnePiece([o, c], "\U{00C9}", "\U{00E9}", Returns("\U{00E9}"));
  }

  // `ab` searched for `ab` with tags holding `$&` or `%`: the tags are read as part of the
  // replacement text, and then decoded.

  /** The scan of "ab" for "ab" finds the one match at 0. */
  lemma WholeMatchModelScan()
    ensures Occurrences("ab", "ab", 0) == [0]
  {
    assert IndexFrom("ab", "ab", 0) == 0 by {
      MatchesAtSpan("ab", "ab", 0);
      assert "ab"[0..2] == "ab";
    }
    assert IndexFrom("ab", "ab", 2) == -1;
    OccurrencesStep("ab", "ab", 0);
    OccurrencesStep("ab", "ab", 2);
  }

  /** The model wraps `ab` in any pair of tags, whatever they hold. */
  lemma WholeMatchModel(o: string, c: string)
    requires o != [] && c != []
    ensures TagWrapper([o, c], "ab", "ab") == o + "ab" + c
  {
    WholeMatchModelScan();
    TagWrapperMarksOccurrences([o, c], "ab", "ab");
    MarkedStep(o, c, 2, "ab", [0], 0);
    assert [0][1..] == [];
    assert "ab"[0..0] == [] && "ab"[0..2] == "ab" && "ab"[2..] == [];
  }

  /** The first match of `ab` in `ab` is the whole text, which is its own encoding. */
  lemma WholeMatch()
    ensures IndexOfCI("ab", "ab") == 0 && HasMatchingQuery("ab", "ab") && PlainText("ab")
    ensures FullEncode("ab") == "ab" && JsSlice("ab", 0, 2) == "ab"
  {
    WholeMatchModelScan();
    OccurrencesStep("ab", "ab", 0);
    assert PlainText("ab");
    FullEncodePlain("ab");
    assert "ab"[0..2] == "ab";
  }

  /** Replacing `ab` in `ab` inserts the replacement with its `$` patterns substituted. */
  lemma WholeMatchReplace(rep: string)
    ensures ReplaceAll("ab", "ab", rep, 0) == Substitute(rep, "ab", 0, 2)
  {
    WholeMatch();
    ReplaceAllOnPiece("ab", "ab", rep);
    assert "ab"[..0] == [];
  }

  /** Wrapped as written, an opening tag holding `$&` gets a copy of the match in its place. */
  lemma DollarTagWrap(a: string, b: string, c: string)
    requires DollarFree(a) && DollarFree(b) && DollarFree(c)
    requires PercentFree(a) && PercentFree(b) && PercentFree(c)
    ensures WrapQueryAsWritten(a + "$&" + b, c, "ab", "ab") == Returns(a + "ab" + b + "ab" + c)
  {
    WholeMatch();
    WrapQueryOnPlainPiece(a + "$&" + b, c, "ab", "ab");
    assert "ab"[..0] == [] && "ab"[0..] == "ab";
    DollarTagSubstituted(a, b, c);
    DecodeWithoutPercent(a + "ab" + b + "ab" + c);
  }

  /** The replacement's `$&` becomes the match `ab`, and the rest is copied. */
  lemma DollarTagSubstituted(a: string, b: string, c: string)
    requires DollarFree(a) && DollarFree(b) && DollarFree(c)
    ensures [] + Substitute(a + "$&" + b + "ab" + c, "ab", 0, 2) == a + "ab" + b + "ab" + c
  {
    Regroup5(a, "$&", b, "ab", c);
    SubstituteMatchBetween(a, b + "ab" + c, "ab", 0, 2);
    assert "ab"[0..2] == "ab";
    Regroup5(a, "ab", b, "ab", c);
    assert [] + (a + "ab" + b + "ab" + c) == a + "ab" + b + "ab" + c;
  }

  /** Regrouping a five-part concatenation. */
  lemma Regroup5(a: string, d: string, b: string, e: string, c: string)
    ensures a + d + b + e + c == a + (d + (b + e + c))
  {
  }

  /**
    With an opening tag such as `<b title="$&">`, `tagWrapper(tags, 'ab', 'ab')` as written
    puts the match inside the tag as well, where the model inserts the tag as it is.
   */
  lemma DollarTagExpanded(a: string, b: string, c: string)
    requires c != [] && DollarFree(a) && DollarFree(b) && DollarFree(c)
    requires PercentFree(a) && PercentFree(b) && PercentFree(c)
    ensures TagWrapperAsWritten([a + "$&" + b, c], "ab", "ab") == Returns(a + "ab" + b + "ab" + c)
    ensures TagWrapper([a + "$&" + b, c], "ab", "ab") == a + "$&" + b + "ab" + c
  {
    WholeMatchModel(a + "$&" + b, c);
    DollarTagWrap(a, b, c);
    WholeMatch();
    TagWrapperAsWrittenOnePiece([a + "$&" + b, c], "ab", "ab", Returns(a + "ab" + b + "ab" + c));
  }

  /** Wrapped as written, an opening tag holding `%` before a non-digit makes the decoding throw. */
  lemma PercentTagWrap(a: string, b: string, c: string)
    requires b != [] && HexValue(b[0]) < 0 && PercentFree(a)
    requires DollarFree(a) && DollarFree(b) && DollarFree(c)
    ensures WrapQueryAsWritten(a + "%" + b, c, "ab", "ab") == Throws
  {
    WholeMatch();
    WrapQueryOnPlainPiece(a + "%" + b, c, "ab", "ab");
    assert "ab"[..0] == [] && "ab"[0..] == "ab";
    PercentTagDecodes(a, b, c);
  }

  /** The tags go in unchanged, and decoding stops at the `%` with a throw. */
  lemma PercentTagDecodes(a: string, b: string, c: string)
    requires b != [] && HexValue(b[0]) < 0 && PercentFree(a)
    requires DollarFree(a) && DollarFree(b) && DollarFree(c)
    ensures Decode([] + Substitute(a + "%" + b + "ab" + c, "ab", 0, 2)) == Throws
  {
    assert DollarFree(a + "%" + b + "ab" + c);
    assert [] + (a + "%" + b + "ab" + c) == a + "%" + (b + "ab" + c);
    StrayPercentAfterLiteral(a, b + "ab" + c);
  }

  /** Text without `%`, then a `%` before a character that is no hexadecimal digit, throws. */
  lemma StrayPercentAfterLiteral(a: string, r: string)
    requires PercentFree(a) && r != [] && HexValue(r[0]) < 0
    ensures Decode(a + "%" + r) == Throws
  {
    assert ("%" + r)[1] == r[0];
    DecodeStrayPercent("%" + r);
    DecodeAfterLiteral(a, "%" + r);
    assert a + "%" + r == a + ("%" + r);
  }

  /**
    With an opening tag such as `<span style="width:100%">`, `tagWrapper(tags, 'ab', 'ab')`
    as written throws, where the model wraps the match.
   */
  lemma PercentTagThrows(a: string, b: string, c: string)
    requires c != [] && b != [] && HexValue(b[0]) < 0 && PercentFree(a)
    requires DollarFree(a) && DollarFree(b) && DollarFree(c)
    ensures TagWrapperAsWritten([a + "%" + b, c], "ab", "ab") == Throws
    ensures TagWrapper([a + "%" + b, c], "ab", "ab") == a + "%" + b + "ab" + c
  {
    WholeMatchModel(a + "%" + b, c);
    PercentTagWrap(a, b, c);
    WholeMatch();
    TagWrapperAsWrittenOnePiece([a + "%" + b, c], "ab", "ab", Throws);
  }
}
