/**
 * The frequency counter of the text analyzer: `count_words` builds a
 * `collections.Counter` from the token sequence. A Counter is a dictionary
 * whose keys keep the order in which they were first inserted; it is
 * modelled as the sequence of its (word, count) entries in that order.
 */
module Frequency {

  /** One key of the Counter with its count. */
  datatype Entry = Entry(word: string, count: nat)

  /** The Counter's items, in insertion order. */
  type Table = seq<Entry>

  /** No element occurs twice. */
  predicate NoDup<T(==)>(s: seq<T>) {
    forall i, j :: 0 <= i < j < |s| ==> s[i] != s[j]
  }

  /** The Counter's keys, in insertion order. */
  function Keys(t: Table): (ks: seq<string>)
    ensures |ks| == |t|
    ensures forall i :: 0 <= i < |t| ==> ks[i] == t[i].word
  {
    if t == [] then [] else [t[0].word] + Keys(t[1..])
  }

  /** Each key is stored once. */
  predicate DistinctKeys(t: Table) {
    forall i, j :: 0 <= i < j < |t| ==> t[i].word != t[j].word
  }

  /** What every Counter built by counting satisfies: each key once, each
      count positive. */
  predicate Valid(t: Table) {
    && DistinctKeys(t)
    && forall i :: 0 <= i < |t| ==> t[i].count >= 1
  }

  /** `counter[w]`: the count stored under `w`, and 0 for a word that is not
      a key (a Counter's missing keys read as zero). */
  function Get(t: Table, w: string): (n: nat)
    ensures w !in Keys(t) ==> n == 0
  {
    if t == [] then 0
    else if t[0].word == w then t[0].count
    else Get(t[1..], w)
  }

  /** `sum(counter.values())`. */
  function Total(t: Table): nat {
    if t == [] then 0 else t[0].count + Total(t[1..])
  }

  /** One step of counting: `counter[w] = counter.get(w, 0) + 1`. An existing
      key keeps its place; a new key goes to the end with count 1. */
  function Increment(t: Table, w: string): (r: Table)
    ensures Keys(r) == if w in Keys(t) then Keys(t) else Keys(t) + [w]
    ensures forall v :: Get(r, v) == Get(t, v) + (if v == w then 1 else 0)
    ensures Total(r) == Total(t) + 1
  {
    if t == [] then [Entry(w, 1)]
    else if t[0].word == w then [Entry(w, t[0].count + 1)] + t[1..]
    else [t[0]] + Increment(t[1..], w)
  }

  /** Counting one more word keeps every key once and every count positive. */
  lemma IncrementValid(t: Table, w: string)
    requires Valid(t)
    ensures Valid(Increment(t, w))
  {
    var r := Increment(t, w);
    var ks := Keys(r);
    forall i, j | 0 <= i < j < |r|
      ensures r[i].word != r[j].word
    {
      assert ks[i] == r[i].word && ks[j] == r[j].word;
      if j < |t| {
        assert Keys(t)[i] == ks[i] && Keys(t)[j] == ks[j];
      } else {
        assert ks[j] == w && w !in Keys(t) && ks[i] == Keys(t)[i];
      }
    }
    forall i | 0 <= i < |r|
      ensures r[i].count >= 1
    {
      GetEntry(r, i);
      if r[i].word != w {
        assert ks[i] == r[i].word;
        assert r[i].word in Keys(t);
        var j :| 0 <= j < |t| && Keys(t)[j] == r[i].word;
        GetEntry(t, j);
      }
    }
  }

  /** `count_words(words)`, that is `Counter(words)`: the words counted one
      after the other, in order. */
  function CountWords(words: seq<string>): (t: Table)
    ensures Valid(t)
  {
    if words == [] then []
    else
      var prefix := words[..|words| - 1];
      var last := words[|words| - 1];
      assert words == prefix + [last];
      IncrementValid(CountWords(prefix), last);
      Increment(CountWords(prefix), last)
  }

  /** Each word's count is its number of occurrences; a word that does not
      occur reads as 0. */
  lemma {:induction false} CountWordsCounts(words: seq<string>)
    ensures forall w :: Get(CountWords(words), w) == multiset(words)[w]
  {
    if words != [] {
      var prefix := words[..|words| - 1];
      var last := words[|words| - 1];
      assert words == prefix + [last];
      CountWordsCounts(prefix);
    }
  }

  /** A word is a key exactly when it occurs. */
  lemma {:induction false} CountWordsKeys(words: seq<string>)
    ensures forall w :: w in Keys(CountWords(words)) <==> w in words
  {
    if words != [] {
      var prefix := words[..|words| - 1];
      var last := words[|words| - 1];
      assert words == prefix + [last];
      CountWordsKeys(prefix);
    }
  }

  /** Index of the first occurrence of `w` in `s`. */
  function FirstIndex(s: seq<string>, w: string): (i: nat)
    requires w in s
    ensures i < |s| && s[i] == w && w !in s[..i]
  {
    if s[0] == w then 0 else 1 + FirstIndex(s[1..], w)
  }

  // ---------------------------------------------------------------------
  // The invariants the report relies on.

  /** With each key stored once, the count read back for a key is the count
      stored in its entry. */
  lemma {:induction false} GetEntry(t: Table, i: int)
    requires DistinctKeys(t) && 0 <= i < |t|
    ensures Get(t, t[i].word) == t[i].count
  {
    if i > 0 {
      assert t[0].word != t[i].word;
      GetEntry(t[1..], i - 1);
    }
  }

  /** The counts of a Counter built from `words` add up to the number of
      words ("Total words"). */
  lemma {:induction false} TotalIsWordCount(words: seq<string>)
    ensures Total(CountWords(words)) == |words|
  {
    if words != [] {
      TotalIsWordCount(words[..|words| - 1]);
    }
  }

  /** A sequence without repetitions has as many elements as its set. */
  lemma {:induction false} NoDupCardinality(s: seq<string>)
    requires NoDup(s)
    ensures |set x | x in s| == |s|
  {
    if s != [] {
      var rest := s[1..];
      assert NoDup(rest) by {
        forall a, b | 0 <= a < b < |rest|
          ensures rest[a] != rest[b]
        {
          assert s[a + 1] != s[b + 1];
        }
      }
      NoDupCardinality(rest);
      assert s[0] !in rest by {
        forall a | 0 <= a < |rest|
          ensures rest[a] != s[0]
        {
          assert s[a + 1] != s[0];
        }
      }
      assert (set x | x in s) == {s[0]} + (set x | x in rest) by {
        assert s == [s[0]] + rest;
      }
    }
  }

  /** The Counter has one key per distinct word ("Unique words"). */
  lemma UniqueIsDistinctCount(words: seq<string>)
    ensures |CountWords(words)| == |set w | w in words|
  {
    var t := CountWords(words);
    assert NoDup(Keys(t)) by {
      forall i, j | 0 <= i < j < |t|
        ensures Keys(t)[i] != Keys(t)[j]
      {
        assert t[i].word != t[j].word;
      }
    }
    NoDupCardinality(Keys(t));
    CountWordsKeys(words);
    assert (set x | x in Keys(t)) == (set w | w in words);
  }

  /** Every key is counted as often as it occurs, so at least once. */
  lemma CountsAreOccurrences(words: seq<string>)
    ensures forall i :: 0 <= i < |CountWords(words)| ==>
              CountWords(words)[i].count == multiset(words)[CountWords(words)[i].word] >= 1
  {
    var t := CountWords(words);
    CountWordsCounts(words);
    forall i | 0 <= i < |t|
      ensures t[i].count == multiset(words)[t[i].word] >= 1
    {
      GetEntry(t, i);
    }
  }

  /** An occurrence with no earlier occurrence is the first one. */
  lemma {:induction false} FirstIndexUnique(s: seq<string>, x: string, i: int)
    requires 0 <= i < |s| && s[i] == x && x !in s[..i]
    ensures FirstIndex(s, x) == i
  {
    if i > 0 {
      assert s[0] == s[..i][0];
      assert s[1..][..i - 1] == s[1..i];
      assert forall k :: 0 <= k < i - 1 ==> s[1..i][k] == s[..i][k + 1];
      FirstIndexUnique(s[1..], x, i - 1);
    }
  }

  /** Appending a word does not move the first occurrence of an earlier word. */
  lemma FirstIndexAppend(s: seq<string>, x: string, w: string)
    requires x in s
    ensures FirstIndex(s + [w], x) == FirstIndex(s, x)
  {
    var i := FirstIndex(s, x);
    assert (s + [w])[..i] == s[..i];
    FirstIndexUnique(s + [w], x, i);
  }

  /** The keys of `t` are words of `words`, stored in the order in which
      the words first appear there. */
  predicate InFirstAppearanceOrder(t: Table, words: seq<string>) {
    && (forall i :: 0 <= i < |t| ==> t[i].word in words)
    && forall i, j :: 0 <= i < j < |t| ==>
      && t[i].word in words
      && t[j].word in words
      && FirstIndex(words, t[i].word) < FirstIndex(words, t[j].word)
  }

  /** After counting one more word, every key is a counted word. */
  lemma IncrementKeysOccur(before: Table, prefix: seq<string>, last: string)
    requires forall w :: w in Keys(before) <==> w in prefix
    ensures forall i :: 0 <= i < |Increment(before, last)| ==> Increment(before, last)[i].word in prefix + [last]
  {
    var t := Increment(before, last);
    forall i | 0 <= i < |t|
      ensures t[i].word in prefix + [last]
    {
      assert Keys(t)[i] == t[i].word;
    }
  }

  /** Counting one more word keeps any two keys in first-appearance order. */
  lemma IncrementPairOrder(before: Table, prefix: seq<string>, last: string, i: int, j: int)
    requires forall w :: w in Keys(before) <==> w in prefix
    requires InFirstAppearanceOrder(before, prefix)
    requires 0 <= i < j < |Increment(before, last)|
    ensures var t := Increment(before, last);
            && t[i].word in prefix + [last] && t[j].word in prefix + [last]
            && FirstIndex(prefix + [last], t[i].word) < FirstIndex(prefix + [last], t[j].word)
  {
    var t := Increment(before, last);
    var words := prefix + [last];
    assert Keys(t)[i] == t[i].word && Keys(t)[j] == t[j].word;
    assert Keys(before)[i] == t[i].word;
    FirstIndexAppend(prefix, t[i].word, last);
    if j < |before| {
      assert Keys(before)[j] == t[j].word;
      FirstIndexAppend(prefix, t[j].word, last);
    } else {
      // the new key, first seen at the last position
      assert t[j].word == last && last !in prefix;
      assert words[..|prefix|] == prefix;
    }
  }

  /** Counting one more word keeps the keys in first-appearance order. */
  lemma IncrementKeepsOrder(before: Table, prefix: seq<string>, last: string)
    requires forall w :: w in Keys(before) <==> w in prefix
    requires InFirstAppearanceOrder(before, prefix)
    ensures InFirstAppearanceOrder(Increment(before, last), prefix + [last])
  {
    var t := Increment(before, last);
    var words := prefix + [last];
    IncrementKeysOccur(before, prefix, last);
    forall i, j | 0 <= i < j < |t|
      ensures t[i].word in words && t[j].word in words
      ensures FirstIndex(words, t[i].word) < FirstIndex(words, t[j].word)
    {
      IncrementPairOrder(before, prefix, last, i, j);
    }
  }

  /** The keys are stored in the order in which the words first appear. */
  lemma {:induction false} KeysInFirstAppearanceOrder(words: seq<string>)
    ensures InFirstAppearanceOrder(CountWords(words), words)
  {
    if words != [] {
      var prefix := words[..|words| - 1];
      var last := words[|words| - 1];
      assert words == prefix + [last];
      KeysInFirstAppearanceOrder(prefix);
      CountWordsKeys(prefix);
      IncrementKeepsOrder(CountWords(prefix), prefix, last);
    }
  }
}
