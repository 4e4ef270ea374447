/**
 * The long-word filter of the text analyzer: `find_long_words` keeps the
 * tokens whose length reaches a minimum, as the list comprehension
 * `[w for w in words if len(w) >= min_length]` does.
 */
module LongWords {

  /** `a` is obtained from `b` by deleting elements, without reordering. */
  predicate IsSubsequence(a: seq<string>, b: seq<string>)
    decreases |b|
  {
    || a == []
    || (&& b != []
        && (|| (a[0] == b[0] && IsSubsequence(a[1..], b[1..]))
            || IsSubsequence(a, b[1..])))
  }

  /** `find_long_words(words, min_length)`. The minimum may be any integer;
      one of zero or less keeps every word. */
  function FindLongWords(words: seq<string>, minLength: int): (r: seq<string>)
    ensures |r| <= |words|
    ensures forall k :: 0 <= k < |r| ==> |r[k]| >= minLength
    ensures forall w :: multiset(r)[w] == if |w| >= minLength then multiset(words)[w] else 0
    ensures IsSubsequence(r, words)
  {
    if words == [] then []
    else
      var rest := FindLongWords(words[1..], minLength);
      assert words == [words[0]] + words[1..];
      if |words[0]| >= minLength then [words[0]] + rest else rest
  }

  /** The positions of `words` that hold a word of at least `minLength`
      characters. */
  function LongPositions(words: seq<string>, minLength: int): set<int> {
    set k | 0 <= k < |words| && |words[k]| >= minLength
  }

  /** Appending a word adds its position exactly when it is long. */
  lemma LongPositionsAppend(prefix: seq<string>, last: string, minLength: int)
    ensures LongPositions(prefix + [last], minLength)
         == LongPositions(prefix, minLength) + (if |last| >= minLength then {|prefix|} else {})
  {
    var words := prefix + [last];
    assert forall k :: 0 <= k < |prefix| ==> words[k] == prefix[k];
  }

  /** Appending a word adds one kept word exactly when it is long. */
  lemma FindLongWordsSnoc(prefix: seq<string>, last: string, minLength: int)
    ensures |FindLongWords(prefix + [last], minLength)|
         == |FindLongWords(prefix, minLength)| + (if |last| >= minLength then 1 else 0)
  {
    FindLongWordsAppend(prefix, [last], minLength);
    assert [last][1..] == [];
  }

  /** `len(find_long_words(words, min_length))` is the number of positions
      holding a word of at least `min_length` characters. */
  lemma {:induction false} FindLongWordsCount(words: seq<string>, minLength: int)
    ensures |FindLongWords(words, minLength)| == |LongPositions(words, minLength)|
  {
    if words != [] {
      var n := |words| - 1;
      var prefix := words[..n];
      var last := words[n];
      assert words == prefix + [last];
      FindLongWordsCount(prefix, minLength);
      FindLongWordsSnoc(prefix, last, minLength);
      LongPositionsAppend(prefix, last, minLength);
      assert n !in LongPositions(prefix, minLength);
    }
  }

  /** With a minimum of zero or less, the filter returns its input unchanged:
      same words, same order, same duplicates. */
  lemma {:induction false} FindLongWordsKeepsAll(words: seq<string>, minLength: int)
    requires minLength <= 0
    ensures FindLongWords(words, minLength) == words
  {
    if words != [] {
      FindLongWordsKeepsAll(words[1..], minLength);
    }
  }

  /** Filtering distributes over concatenation: each word is kept or
      dropped on its own, regardless of its neighbours. */
  lemma {:induction false} FindLongWordsAppend(a: seq<string>, b: seq<string>, minLength: int)
    ensures FindLongWords(a + b, minLength) == FindLongWords(a, minLength) + FindLongWords(b, minLength)
  {
    if a == [] {
      assert a + b == b;
    } else {
      assert (a + b)[0] == a[0];
      assert (a + b)[1..] == a[1..] + b;
      FindLongWordsAppend(a[1..], b, minLength);
    }
  }

  /** Filtering twice with the same minimum is filtering once. */
  lemma {:induction false} FindLongWordsIdempotent(words: seq<string>, minLength: int)
    ensures FindLongWords(FindLongWords(words, minLength), minLength) == FindLongWords(words, minLength)
  {
    if words != [] {
      FindLongWordsIdempotent(words[1..], minLength);
    }
  }
}
