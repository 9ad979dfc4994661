/**
  The behaviour the repository's test suite describes, derived from the model. Each lemma
  states one expected output of `tagWrapper` for a concrete input.
 */
module Examples {
  import opened Search
  import opened Wrapper
  import opened Reference
  import opened Properties

  /** Without tags the text comes back unchanged. */
  lemma ReturnsTextWithoutTags()
    ensures TagWrapper([], "fox", "The quick brown fox jumps over the lazy dog")
      == "The quick brown fox jumps over the lazy dog"
  {
  }

  /** A missing closing tag is falsy, so the text comes back unchanged. */
  lemma ReturnsTextWithoutClosingTag()
    ensures TagWrapper(["<em>"], "fox", "The quick brown fox") == "The quick brown fox"
  {
    assert !HasParams(["<em>"], "fox", "The quick brown fox");
  }

  /** The scan of "The quick brown fox" for "canned beef" finds no match. */
  lemma ReturnsTextWhenNotFoundScan()
    ensures Occurrences("canned beef", "The quick brown fox", 0) == []
  {
    assert IndexFrom("canned beef", "The quick brown fox", 0) == -1 by {
      assert 'd' !in "The quick brown fox" && 'D' !in "The quick brown fox";
      NoMatchWithoutChar("canned beef", "The quick brown fox", 5);
    }
    OccurrencesStep("canned beef", "The quick brown fox", 0);
  }

  /** With no span to mark, "The quick brown fox" stays as it is. */
  lemma ReturnsTextWhenNotFoundMarks()
    ensures Marked("<em>", "</em>", 11, "The quick brown fox", [], 0) == "The quick brown fox"
  {
    assert "The quick brown fox"[0..] == "The quick brown fox";
  }

  /** A query that does not occur leaves the text unchanged (shown on a shorter text). */
  lemma ReturnsTextWhenNotFound()
    ensures TagWrapper(["<em>", "</em>"], "canned beef", "The quick brown fox")
      == "The quick brown fox"
  {
    ReturnsTextWhenNotFoundScan();
    ReturnsTextWhenNotFoundMarks();
    TagWrapperMarksOccurrences(["<em>", "</em>"], "canned beef", "The quick brown fox");
    assert Opening(["<em>", "</em>"]) == "<em>" && Closing(["<em>", "</em>"]) == "</em>";
  }

  /** The scan of "five% nine(" for "nine(" finds the one match at 6. */
  lemma WrapsQueryEndingInParenScan()
    ensures Occurrences("nine(", "five% nine(", 0) == [6]
  {
    assert IndexFrom("nine(", "five% nine(", 0) == 6 by {
      MatchesAtSpan("nine(", "five% nine(", 6);
      assert "five% nine("[6..11] == "nine(";
      assert IndexFrom("nine(", "five% nine(", 3) == 6;
    }
    assert IndexFrom("nine(", "five% nine(", 11) == -1;
    OccurrencesStep("nine(", "five% nine(", 0);
    OccurrencesStep("nine(", "five% nine(", 11);
  }

  /** Wrapping the five characters at 6 of "five% nine(" in `<em>` and `</em>`. */
  lemma WrapsQueryEndingInParenMarks()
    ensures Marked("<em>", "</em>", 5, "five% nine(", [6], 0) == "five% <em>nine(</em>"
  {
    MarkedStep("<em>", "</em>", 5, "five% nine(", [6], 0);
    assert [6][1..] == [];
    assert "five% nine("[0..6] == "five% ";
    assert "five% nine("[6..11] == "nine(";
    assert "five% nine("[11..] == "";
  }

  /** A query ending in a parenthesis is wrapped where it occurs. */
  lemma WrapsQueryEndingInParen()
    ensures TagWrapper(["<em>", "</em>"], "nine(", "five% nine(")
      == "five% <em>nine(</em>"
  {
    WrapsQueryEndingInParenScan();
    WrapsQueryEndingInParenMarks();
    TagWrapperMarksOccurrences(["<em>", "</em>"], "nine(", "five% nine(");
    assert Opening(["<em>", "</em>"]) == "<em>" && Closing(["<em>", "</em>"]) == "</em>";
  }

  /** The scan of "bar %foo bar" for "%foo" finds the one match at 4. */
  lemma WrapsQueryWithPercentScan()
    ensures Occurrences("%foo", "bar %foo bar", 0) == [4]
  {
    assert IndexFrom("%foo", "bar %foo bar", 0) == 4 by {
      MatchesAtSpan("%foo", "bar %foo bar", 4);
      assert "bar %foo bar"[4..8] == "%foo";
      assert IndexFrom("%foo", "bar %foo bar", 1) == 4;
    }
    assert IndexFrom("%foo", "bar %foo bar", 8) == -1;
    OccurrencesStep("%foo", "bar %foo bar", 0);
    OccurrencesStep("%foo", "bar %foo bar", 8);
  }

  /** Wrapping the four characters at 4 of "bar %foo bar" in `<em>` and `</em>`. */
  lemma WrapsQueryWithPercentMarks()
    ensures Marked("<em>", "</em>", 4, "bar %foo bar", [4], 0) == "bar <em>%foo</em> bar"
  {
    MarkedStep("<em>", "</em>", 4, "bar %foo bar", [4], 0);
    assert [4][1..] == [];
    assert "bar %foo bar"[0..4] == "bar ";
    assert "bar %foo bar"[4..8] == "%foo";
    assert "bar %foo bar"[8..] == " bar";
  }

  /** A query starting with a percent sign is wrapped where it occurs. */
  lemma WrapsQueryWithPercent()
    ensures TagWrapper(["<em>", "</em>"], "%foo", "bar %foo bar")
      == "bar <em>%foo</em> bar"
  {
    WrapsQueryWithPercentScan();
    WrapsQueryWithPercentMarks();
    TagWrapperMarksOccurrences(["<em>", "</em>"], "%foo", "bar %foo bar");
    assert Opening(["<em>", "</em>"]) == "<em>" && Closing(["<em>", "</em>"]) == "</em>";
  }

  /** The scan of "bar $foo bar" for "$foo" finds the one match at 4. */
  lemma WrapsQueryWithDollarScan()
    ensures Occurrences("$foo", "bar $foo bar", 0) == [4]
  {
    assert IndexFrom("$foo", "bar $foo bar", 0) == 4 by {
      MatchesAtSpan("$foo", "bar $foo bar", 4);
      assert "bar $foo bar"[4..8] == "$foo";
      assert IndexFrom("$foo", "bar $foo bar", 1) == 4;
    }
    assert IndexFrom("$foo", "bar $foo bar", 8) == -1;
    OccurrencesStep("$foo", "bar $foo bar", 0);
    OccurrencesStep("$foo", "bar $foo bar", 8);
  }

  /** Wrapping the four characters at 4 of "bar $foo bar" in `<em>` and `</em>`. */
  lemma WrapsQueryWithDollarMarks()
    ensures Marked("<em>", "</em>", 4, "bar $foo bar", [4], 0) == "bar <em>$foo</em> bar"
  {
    MarkedStep("<em>", "</em>", 4, "bar $foo bar", [4], 0);
    assert [4][1..] == [];
    assert "bar $foo bar"[0..4] == "bar ";
    assert "bar $foo bar"[4..8] == "$foo";
    assert "bar $foo bar"[8..] == " bar";
  }

  /** A query starting with a dollar sign is wrapped where it occurs. */
  lemma WrapsQueryWithDollar()
    ensures TagWrapper(["<em>", "</em>"], "$foo", "bar $foo bar")
      == "bar <em>$foo</em> bar"
  {
    WrapsQueryWithDollarScan();
    WrapsQueryWithDollarMarks();
    TagWrapperMarksOccurrences(["<em>", "</em>"], "$foo", "bar $foo bar");
    assert Opening(["<em>", "</em>"]) == "<em>" && Closing(["<em>", "</em>"]) == "</em>";
  }

  /** The scan of "bar (foo) bar" for "(foo" finds the one match at 4. */
  lemma WrapsQueryOpeningParenScan()
    ensures Occurrences("(foo", "bar (foo) bar", 0) == [4]
  {
    assert IndexFrom("(foo", "bar (foo) bar", 0) == 4 by {
      MatchesAtSpan("(foo", "bar (foo) bar", 4);
      assert "bar (foo) bar"[4..8] == "(foo";
      assert IndexFrom("(foo", "bar (foo) bar", 1) == 4;
    }
    assert IndexFrom("(foo", "bar (foo) bar", 8) == -1;
    OccurrencesStep("(foo", "bar (foo) bar", 0);
    OccurrencesStep("(foo", "bar (foo) bar", 8);
  }

  /** Wrapping the four characters at 4 of "bar (foo) bar" in `<em>` and `</em>`. */
  lemma WrapsQueryOpeningParenMarks()
    ensures Marked("<em>", "</em>", 4, "bar (foo) bar", [4], 0) == "bar <em>(foo</em>) bar"
  {
    MarkedStep("<em>", "</em>", 4, "bar (foo) bar", [4], 0);
    assert [4][1..] == [];
    assert "bar (foo) bar"[0..4] == "bar ";
    assert "bar (foo) bar"[4..8] == "(foo";
    assert "bar (foo) bar"[8..] == ") bar";
  }

  /** The closing tag goes after the query, even inside a parenthesised word. */
  lemma WrapsQueryOpeningParen()
    ensures TagWrapper(["<em>", "</em>"], "(foo", "bar (foo) bar")
      == "bar <em>(foo</em>) bar"
  {
    WrapsQueryOpeningParenScan();
    WrapsQueryOpeningParenMarks();
    TagWrapperMarksOccurrences(["<em>", "</em>"], "(foo", "bar (foo) bar");
    assert Opening(["<em>", "</em>"]) == "<em>" && Closing(["<em>", "</em>"]) == "</em>";
  }

  /** The scan of "bar (foo) bar" for "foo)" finds the one match at 5. */
  lemma WrapsQueryClosingParenScan()
    ensures Occurrences("foo)", "bar (foo) bar", 0) == [5]
  {
    assert IndexFrom("foo)", "bar (foo) bar", 0) == 5 by {
      MatchesAtSpan("foo)", "bar (foo) bar", 5);
      assert "bar (foo) bar"[5..9] == "foo)";
      assert IndexFrom("foo)", "bar (foo) bar", 2) == 5;
    }
    assert IndexFrom("foo)", "bar (foo) bar", 9) == -1;
    OccurrencesStep("foo)", "bar (foo) bar", 0);
    OccurrencesStep("foo)", "bar (foo) bar", 9);
  }

  /** Wrapping the four characters at 5 of "bar (foo) bar" in `<em>` and `</em>`. */
  lemma WrapsQueryClosingParenMarks()
    ensures Marked("<em>", "</em>", 4, "bar (foo) bar", [5], 0) == "bar (<em>foo)</em> bar"
  {
    MarkedStep("<em>", "</em>", 4, "bar (foo) bar", [5], 0);
    assert [5][1..] == [];
    assert "bar (foo) bar"[0..5] == "bar (";
    assert "bar (foo) bar"[5..9] == "foo)";
    assert "bar (foo) bar"[9..] == " bar";
  }

  /** The opening tag goes before the query, even inside a parenthesised word. */
  lemma WrapsQueryClosingParen()
    ensures TagWrapper(["<em>", "</em>"], "foo)", "bar (foo) bar")
      == "bar (<em>foo)</em> bar"
  {
    WrapsQueryClosingParenScan();
    WrapsQueryClosingParenMarks();
    TagWrapperMarksOccurrences(["<em>", "</em>"], "foo)", "bar (foo) bar");
    assert Opening(["<em>", "</em>"]) == "<em>" && Closing(["<em>", "</em>"]) == "</em>";
  }

  /** The scan of "bar .foo bar" for ".foo" finds the one match at 4. */
  lemma WrapsQueryWithDotScan()
    ensures Occurrences(".foo", "bar .foo bar", 0) == [4]
  {
    assert IndexFrom(".foo", "bar .foo bar", 0) == 4 by {
      MatchesAtSpan(".foo", "bar .foo bar", 4);
      assert "bar .foo bar"[4..8] == ".foo";
      assert IndexFrom(".foo", "bar .foo bar", 1) == 4;
    }
    assert IndexFrom(".foo", "bar .foo bar", 8) == -1;
    OccurrencesStep(".foo", "bar .foo bar", 0);
    OccurrencesStep(".foo", "bar .foo bar", 8);
  }

  /** Wrapping the four characters at 4 of "bar .foo bar" in `<em>` and `</em>`. */
  lemma WrapsQueryWithDotMarks()
    ensures Marked("<em>", "</em>", 4, "bar .foo bar", [4], 0) == "bar <em>.foo</em> bar"
  {
    MarkedStep("<em>", "</em>", 4, "bar .foo bar", [4], 0);
    assert [4][1..] == [];
    assert "bar .foo bar"[0..4] == "bar ";
    assert "bar .foo bar"[4..8] == ".foo";
    assert "bar .foo bar"[8..] == " bar";
  }

  /** A query starting with a dot is wrapped where it occurs. */
  lemma WrapsQueryWithDot()
    ensures TagWrapper(["<em>", "</em>"], ".foo", "bar .foo bar")
      == "bar <em>.foo</em> bar"
  {
    WrapsQueryWithDotScan();
    WrapsQueryWithDotMarks();
    TagWrapperMarksOccurrences(["<em>", "</em>"], ".foo", "bar .foo bar");
    assert Opening(["<em>", "</em>"]) == "<em>" && Closing(["<em>", "</em>"]) == "</em>";
  }

  /** The scan of "fox jumps over" for "um" finds the one match at 5. */
  lemma WrapsInsideWordScan()
    ensures Occurrences("um", "fox jumps over", 0) == [5]
  {
    assert IndexFrom("um", "fox jumps over", 0) == 5 by {
      MatchesAtSpan("um", "fox jumps over", 5);
      assert "fox jumps over"[5..7] == "um";
      assert IndexFrom("um", "fox jumps over", 2) == 5;
    }
    assert IndexFrom("um", "fox jumps over", 7) == -1 by {
      assert IndexFrom("um", "fox jumps over", 10) == -1;
    }
    OccurrencesStep("um", "fox jumps over", 0);
    OccurrencesStep("um", "fox jumps over", 7);
  }

  /** Wrapping the two characters at 5 of "fox jumps over" in `<em>` and `</em>`. */
  lemma WrapsInsideWordMarks()
    ensures Marked("<em>", "</em>", 2, "fox jumps over", [5], 0) == "fox j<em>um</em>ps over"
  {
    MarkedStep("<em>", "</em>", 2, "fox jumps over", [5], 0);
    assert [5][1..] == [];
    assert "fox jumps over"[0..5] == "fox j";
    assert "fox jumps over"[5..7] == "um";
    assert "fox jumps over"[7..] == "ps over";
  }

  /** A match inside a word is wrapped (shown on a shorter text). */
  lemma WrapsInsideWord()
    ensures TagWrapper(["<em>", "</em>"], "um", "fox jumps over")
      == "fox j<em>um</em>ps over"
  {
    WrapsInsideWordScan();
    WrapsInsideWordMarks();
    TagWrapperMarksOccurrences(["<em>", "</em>"], "um", "fox jumps over");
    assert Opening(["<em>", "</em>"]) == "<em>" && Closing(["<em>", "</em>"]) == "</em>";
  }

  /** The scan of "Fox FOX" for "fox" finds the two matches at 0 and 4. */
  lemma WrapsEveryMatchKeepingCaseScan()
    ensures Occurrences("fox", "Fox FOX", 0) == [0, 4]
  {
    assert IndexFrom("fox", "Fox FOX", 0) == 0 by {
      MatchesAtSpan("fox", "Fox FOX", 0);
      assert "Fox FOX"[0..3] == "Fox";
    }
    assert IndexFrom("fox", "Fox FOX", 3) == 4 by {
      MatchesAtSpan("fox", "Fox FOX", 4);
      assert "Fox FOX"[4..7] == "FOX";
    }
    assert IndexFrom("fox", "Fox FOX", 7) == -1;
    OccurrencesStep("fox", "Fox FOX", 0);
    OccurrencesStep("fox", "Fox FOX", 3);
    OccurrencesStep("fox", "Fox FOX", 7);
  }

  /** Wrapping the three characters at 0 and at 4 of "Fox FOX" in `<em>` and `</em>`. */
  lemma WrapsEveryMatchKeepingCaseMarks()
    ensures Marked("<em>", "</em>", 3, "Fox FOX", [0, 4], 0) == "<em>Fox</em> <em>FOX</em>"
  {
    MarkedStep("<em>", "</em>", 3, "Fox FOX", [0, 4], 0);
    assert [0, 4][1..] == [4];
    assert "Fox FOX"[0..0] == "" && "Fox FOX"[0..3] == "Fox";
    MarkedFromSecondFox();
    JoinMarkedFoxes();
  }

  /** The two marked pieces of "Fox FOX" put together. */
  lemma JoinMarkedFoxes()
    ensures "" + "<em>" + "Fox" + "</em>" + " <em>FOX</em>" == "<em>Fox</em> <em>FOX</em>"
  {
    assert "" + "<em>" + "Fox" + "</em>" == "<em>Fox</em>";
  }

  /** Marking "Fox FOX" from 3 on, at its second match. */
  lemma MarkedFromSecondFox()
    ensures Marked("<em>", "</em>", 3, "Fox FOX", [4], 3) == " <em>FOX</em>"
  {
    MarkedStep("<em>", "</em>", 3, "Fox FOX", [4], 3);
    assert [4][1..] == [];
    SlicesOfFoxFox();
  }

  /** The pieces of "Fox FOX" around its two matches. */
  lemma SlicesOfFoxFox()
    ensures "Fox FOX"[0..0] == "" && "Fox FOX"[0..3] == "Fox" && "Fox FOX"[3..4] == " "
    ensures "Fox FOX"[4..7] == "FOX" && "Fox FOX"[7..] == ""
  {
  }

  /** Every match is wrapped, each keeping the text's casing (shown on a shorter text). */
  lemma WrapsEveryMatchKeepingCase()
    ensures TagWrapper(["<em>", "</em>"], "fox", "Fox FOX")
      == "<em>Fox</em> <em>FOX</em>"
  {
    WrapsEveryMatchKeepingCaseScan();
    WrapsEveryMatchKeepingCaseMarks();
    TagWrapperMarksOccurrences(["<em>", "</em>"], "fox", "Fox FOX");
    assert Opening(["<em>", "</em>"]) == "<em>" && Closing(["<em>", "</em>"]) == "</em>";
  }
}
