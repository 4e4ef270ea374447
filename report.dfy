/**
 * The report of the text analyzer: the numbers `print_report` prints for a
 * text (total words, unique words, the top-N list, the number of long
 * words), and the pipeline of `analyze_file` that produces them from the
 * text, with the file read and the printing left to the caller.
 */
module Report {
  import opened Tokenizer
  import opened Frequency
  import opened LongWords
  import opened Ranking

  /** How many frequent words the report lists (`TOP_WORDS`). */
  const TopWords: int := 5

  /** The length from which a word counts as long (`MIN_LONG_LEN`). */
  const MinLongLen: int := 4

  /** What the report prints, line by line: the two totals, the heading's
      N and the (word, count) lines below it, the minimum length and the
      number of long words. */
  datatype Summary = Summary(
    totalWords: nat,
    uniqueWords: nat,
    topNumbers: int,
    mostCommon: Table,
    minLength: int,
    longWords: nat)

  /** `print_report(word_counts, long_words, top_numbers, min_length)`,
      with the values it prints collected instead of printed. */
  function PrintReport(wordCounts: Table, longWords: seq<string>, topNumbers: int, minLength: int): (r: Summary)
    ensures |r.mostCommon| <= r.uniqueWords
    ensures Descending(r.mostCommon)
    ensures forall i :: 0 <= i < |r.mostCommon| ==> r.mostCommon[i] in wordCounts
    ensures r.topNumbers == topNumbers && r.minLength == minLength
  {
    Summary(Total(wordCounts), |wordCounts|, topNumbers, MostCommon(wordCounts, topNumbers), minLength, |longWords|)
  }

  /** The steps of `analyze_file` after the file is read: split the text,
      count the words, filter the long ones, and compute the report. */
  function AnalyzeText(text: string, topNumbers: int, minLength: int): (r: Summary)
    ensures r.totalWords == |SplitWords(text)|
    ensures r.uniqueWords == |set w | w in SplitWords(text)|
    ensures r.longWords == |LongPositions(SplitWords(text), minLength)| <= r.totalWords
    ensures |r.mostCommon| == if topNumbers <= 0 then 0 else if topNumbers < r.uniqueWords then topNumbers else r.uniqueWords
  {
    var words := SplitWords(text);
    var longWords := FindLongWords(words, minLength);
    FindLongWordsCount(words, minLength);
    TotalIsWordCount(words);
    UniqueIsDistinctCount(words);
    PrintReport(CountWords(words), longWords, topNumbers, minLength)
  }

  /** `analyze_file` on a text already read, with the module's constants. */
  function AnalyzeFile(text: string): (r: Summary)
    ensures r.topNumbers == TopWords && r.minLength == MinLongLen
    ensures |r.mostCommon| <= TopWords
  {
    AnalyzeText(text, TopWords, MinLongLen)
  }

  // ---------------------------------------------------------------------
  // What the top-N lines mean for the counted words.

  /** Each listed word occurs among the words as often as its listed count
      says, so at least once, and no word is listed twice. */
  lemma TopCountsOfWords(words: seq<string>, n: int)
    ensures forall i :: 0 <= i < |MostCommon(CountWords(words), n)| ==>
              MostCommon(CountWords(words), n)[i].count == multiset(words)[MostCommon(CountWords(words), n)[i].word] >= 1
    ensures DistinctKeys(MostCommon(CountWords(words), n))
  {
    var t := CountWords(words);
    var r := MostCommon(t, n);
    CountWordsCounts(words);
    MostCommonCounts(t, n);
    MostCommonDistinct(t, n);
    forall i | 0 <= i < |r|
      ensures r[i].count >= 1
    {
      var a :| 0 <= a < |t| && t[a] == r[i];
    }
  }

  /** Words listed with equal counts come in the order in which they first
      appear among the words. */
  lemma TopTiesOfWords(words: seq<string>, n: int)
    ensures var r := MostCommon(CountWords(words), n);
            forall i, j :: 0 <= i < j < |r| && r[i].count == r[j].count ==>
              && r[i].word in words && r[j].word in words
              && FirstIndex(words, r[i].word) < FirstIndex(words, r[j].word)
  {
    var r := MostCommon(CountWords(words), n);
    forall i, j | 0 <= i < j < |r| && r[i].count == r[j].count
      ensures r[i].word in words && r[j].word in words
      ensures FirstIndex(words, r[i].word) < FirstIndex(words, r[j].word)
    {
      TiedPair(words, n, i, j);
    }
  }

  /** Two listed words with equal counts, in first-appearance order. */
  lemma TiedPair(words: seq<string>, n: int, i: int, j: int)
    requires 0 <= i < j < |MostCommon(CountWords(words), n)|
    requires MostCommon(CountWords(words), n)[i].count == MostCommon(CountWords(words), n)[j].count
    ensures var r := MostCommon(CountWords(words), n);
            && r[i].word in words && r[j].word in words
            && FirstIndex(words, r[i].word) < FirstIndex(words, r[j].word)
  {
    var t := CountWords(words);
    var r := MostCommon(t, n);
    var a :| 0 <= a < |t| && t[a] == r[i];
    var b :| 0 <= b < |t| && t[b] == r[j];
    MostCommonTies(t, n);
    assert a < b;
    KeysInFirstAppearanceOrder(words);
  }

  /** A word that is not listed occurs no more often than any listed word. */
  lemma TopLeftOutOfWords(words: seq<string>, n: int)
    ensures var r := MostCommon(CountWords(words), n);
            forall k, i :: 0 <= k < |words| && words[k] !in Keys(r) && 0 <= i < |r| ==>
              multiset(words)[words[k]] <= r[i].count
  {
    var r := MostCommon(CountWords(words), n);
    forall k | 0 <= k < |words| && words[k] !in Keys(r)
      ensures forall i :: 0 <= i < |r| ==> multiset(words)[words[k]] <= r[i].count
    {
      LeftOutWord(words, n, k);
    }
  }

  /** The Counter's entry for an occurring word, which holds the word's
      number of occurrences. */
  lemma EntryOfWord(words: seq<string>, k: int) returns (a: int)
    requires 0 <= k < |words|
    ensures 0 <= a < |CountWords(words)|
    ensures CountWords(words)[a].word == words[k]
    ensures CountWords(words)[a].count == multiset(words)[words[k]]
  {
    var t := CountWords(words);
    CountWordsKeys(words);
    assert words[k] in Keys(t);
    a :| 0 <= a < |t| && Keys(t)[a] == words[k];
    GetEntry(t, a);
    CountWordsCounts(words);
  }

  /** One word that is not listed occurs no more often than any listed word. */
  lemma LeftOutWord(words: seq<string>, n: int, k: int)
    requires 0 <= k < |words|
    requires words[k] !in Keys(MostCommon(CountWords(words), n))
    ensures forall i :: 0 <= i < |MostCommon(CountWords(words), n)| ==>
              multiset(words)[words[k]] <= MostCommon(CountWords(words), n)[i].count
  {
    var t := CountWords(words);
    var a := EntryOfWord(words, k);
    MostCommonLeftOut(t, n);
  }

  // ---------------------------------------------------------------------
  // What the printed lines mean for the text.

  /** The report's list is the top-N ranking of the text's words. */
  lemma ReportList(text: string, topNumbers: int, minLength: int)
    ensures AnalyzeText(text, topNumbers, minLength).mostCommon == MostCommon(CountWords(SplitWords(text)), topNumbers)
  {
  }

  /** Each listed word occurs in the text as often as its listed count says,
      so at least once, and no word is listed twice. */
  lemma TopCountsAreOccurrences(text: string, topNumbers: int, minLength: int)
    ensures var r := AnalyzeText(text, topNumbers, minLength).mostCommon;
            && (forall i :: 0 <= i < |r| ==> r[i].count == multiset(SplitWords(text))[r[i].word] >= 1)
            && DistinctKeys(r)
  {
    ReportList(text, topNumbers, minLength);
    TopCountsOfWords(SplitWords(text), topNumbers);
  }

  /** Words with equal counts are listed in the order in which they first
      appear in the text. */
  lemma TopTiesInTextOrder(text: string, topNumbers: int, minLength: int)
    ensures var r := AnalyzeText(text, topNumbers, minLength).mostCommon;
            var words := SplitWords(text);
            forall i, j :: 0 <= i < j < |r| && r[i].count == r[j].count ==>
              && r[i].word in words && r[j].word in words
              && FirstIndex(words, r[i].word) < FirstIndex(words, r[j].word)
  {
    ReportList(text, topNumbers, minLength);
    TopTiesOfWords(SplitWords(text), topNumbers);
  }

  /** A word of the text that is not listed occurs no more often than any
      listed word. */
  lemma TopLeavesOutLessFrequent(text: string, topNumbers: int, minLength: int)
    ensures var r := AnalyzeText(text, topNumbers, minLength).mostCommon;
            var words := SplitWords(text);
            forall k, i :: 0 <= k < |words| && words[k] !in Keys(r) && 0 <= i < |r| ==>
              multiset(words)[words[k]] <= r[i].count
  {
    ReportList(text, topNumbers, minLength);
    TopLeftOutOfWords(SplitWords(text), topNumbers);
  }

  /** Every token has at least one character, so a minimum length of one or
      less counts every word as long. */
  lemma AllWordsLongFromOne(text: string, topNumbers: int, minLength: int)
    requires minLength <= 1
    ensures AnalyzeText(text, topNumbers, minLength).longWords == |SplitWords(text)|
  {
    var words := SplitWords(text);
    var longWords := FindLongWords(words, minLength);
    assert multiset(longWords) == multiset(words) by {
      forall w
        ensures multiset(longWords)[w] == multiset(words)[w]
      {
        if w in multiset(words) {
          var k :| 0 <= k < |words| && words[k] == w;
          assert |w| >= 1;
        }
      }
    }
    assert |longWords| == |multiset(longWords)|;
  }

  /** Text made only of whitespace, the empty text included, gives a report
      of zeros with an empty list. */
  lemma BlankTextReport(text: string, topNumbers: int, minLength: int)
    requires forall i :: 0 <= i < |text| ==> IsSpace(text[i])
    ensures var r := AnalyzeText(text, topNumbers, minLength);
            r.totalWords == 0 && r.uniqueWords == 0 && r.mostCommon == [] && r.longWords == 0
  {
    var lowered := LowerString(text);
    SplitEmptyIff(lowered);
    assert SplitWords(text) == [];
  }
}
