/**
 * Worked examples: a short text pushed through the whole pipeline, showing
 * case folding, counting in first-appearance order and the tie-break of
 * the top-N list.
 */
module Scenarios {
  import opened Tokenizer
  import opened Frequency
  import opened Ranking
  import opened Report

  /** A worked example: capitals are folded and the text is cut at the
      spaces. */
  lemma SplitWordsExample()
    ensures SplitWords("B a b A c") == ["b", "a", "b", "a", "c"]
  {
    assert LowerString("B a b A c") == "b a b a c";
    var ws := ["b", "a", "b", "a", "c"];
    assert Join(ws) == "b a b a c";
    SplitJoin(ws);
  }

  /** Counting a word list is counting all but its last word, then the last. */
  lemma CountStep(q: seq<string>, before: Table, after: Table)
    requires q != [] && CountWords(q[..|q| - 1]) == before && Increment(before, q[|q| - 1]) == after
    ensures CountWords(q) == after
  {
  }

  /** The Counter of the words `b a b a c`, for any three distinct words
      b, a and c: keys in first-appearance order. */
  lemma CountExample(b: string, a: string, c: string)
    requires b != a && a != c && b != c
    ensures CountWords([b, a, b, a, c]) == [Entry(b, 2), Entry(a, 2), Entry(c, 1)]
  {
    var w3, w4, w5 := [b, a, b], [b, a, b, a], [b, a, b, a, c];
    assert w4[..3] == w3 && w5[..4] == w4;
    CountOpening(b, a);
    CountStep(w4, [Entry(b, 2), Entry(a, 1)], [Entry(b, 2), Entry(a, 2)]);
    CountStep(w5, [Entry(b, 2), Entry(a, 2)], [Entry(b, 2), Entry(a, 2), Entry(c, 1)]);
  }

  /** The Counter of the words `b a b`. */
  lemma CountOpening(b: string, a: string)
    requires b != a
    ensures CountWords([b, a, b]) == [Entry(b, 2), Entry(a, 1)]
  {
    var w1, w2, w3 := [b], [b, a], [b, a, b];
    assert w1[..0] == [] && w2[..1] == w1 && w3[..2] == w2;
    CountStep(w1, [], [Entry(b, 1)]);
    CountStep(w2, [Entry(b, 1)], [Entry(b, 1), Entry(a, 1)]);
    CountStep(w3, [Entry(b, 1), Entry(a, 1)], [Entry(b, 2), Entry(a, 1)]);
  }

  /** Ranking that Counter and keeping two entries: `b` and `a` tie and keep
      their Counter order. */
  lemma RankExample(b: string, a: string, c: string)
    ensures MostCommon([Entry(b, 2), Entry(a, 2), Entry(c, 1)], 2) == [Entry(b, 2), Entry(a, 2)]
  {
    var t := [Entry(b, 2), Entry(a, 2), Entry(c, 1)];
    assert t[1..] == [Entry(a, 2), Entry(c, 1)];
    RankTail(a, c);
    assert SortByCount(t) == t;
  }

  /** Ranking the last two entries of that Counter leaves them in place. */
  lemma RankTail(a: string, c: string)
    ensures SortByCount([Entry(a, 2), Entry(c, 1)]) == [Entry(a, 2), Entry(c, 1)]
  {
    var t := [Entry(a, 2), Entry(c, 1)];
    assert t[1..] == [Entry(c, 1)];
    assert SortByCount(t[1..]) == t[1..];
  }

  /** `Counter([b, a, b, a, c]).most_common(2)` is `[(b, 2), (a, 2)]`. */
  lemma TieExample(b: string, a: string, c: string)
    requires b != a && a != c && b != c
    ensures MostCommon(CountWords([b, a, b, a, c]), 2) == [Entry(b, 2), Entry(a, 2)]
  {
    CountExample(b, a, c);
    RankExample(b, a, c);
  }

  /** The report's list for the text `B a b A c` with N = 2. */
  lemma TieScenario(text: string)
    requires text == "B a b A c"
    ensures AnalyzeText(text, 2, 1).mostCommon == [Entry("b", 2), Entry("a", 2)]
  {
    SplitWordsExample();
    ReportList(text, 2, 1);
    TieExample("b", "a", "c");
  }
}
