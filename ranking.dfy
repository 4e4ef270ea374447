/**
 * The top-N ranking of the report: `Counter.most_common(n)`. For a whole
 * number n it returns the n items with the largest counts, largest first,
 * items with equal counts in the Counter's own (insertion) order; that is
 * the stable descending sort by count, cut after n items, and nothing at
 * all for n <= 0.
 */
module Ranking {
  import opened Frequency

  /** Counts never increase from front to back. */
  predicate Descending(t: Table) {
    forall i, j :: 0 <= i < j < |t| ==> t[i].count >= t[j].count
  }

  /** The entries with count `c`, in their order. */
  function WithCount(t: Table, c: nat): Table {
    if t == [] then []
    else (if t[0].count == c then [t[0]] else []) + WithCount(t[1..], c)
  }

  /** The entries picked out for count `c` are entries of the table with
      that count. */
  lemma {:induction false} WithCountMember(t: Table, c: nat, k: int)
    requires 0 <= k < |WithCount(t, c)|
    ensures WithCount(t, c)[k].count == c && WithCount(t, c)[k] in t
  {
    var rest := WithCount(t[1..], c);
    if t[0].count == c {
      assert WithCount(t, c) == [t[0]] + rest;
      if k > 0 {
        WithCountMember(t[1..], c, k - 1);
      }
    } else {
      WithCountMember(t[1..], c, k);
    }
    assert t == [t[0]] + t[1..];
  }

  /** Puts `e` into a descending table just before the first entry whose
      count is not larger, so after every entry with a larger count and
      before those with an equal or smaller one. */
  function Insert(e: Entry, s: Table): (r: Table)
    requires Descending(s)
    ensures Descending(r)
    ensures |r| == |s| + 1
    ensures r[0] == if s == [] || e.count >= s[0].count then e else s[0]
    ensures multiset(r) == multiset(s) + multiset{e}
  {
    if s == [] || e.count >= s[0].count then
      [e] + s
    else
      var rest := Insert(e, s[1..]);
      assert s == [s[0]] + s[1..];
      [s[0]] + rest
  }

  /** Inserting adds `e` in front of the entries of its own count and leaves
      the entries of every other count as they were. */
  lemma {:induction false} InsertWithCount(e: Entry, s: Table, c: nat)
    requires Descending(s)
    ensures WithCount(Insert(e, s), c) == (if e.count == c then [e] else []) + WithCount(s, c)
  {
    var r := Insert(e, s);
    if s == [] || e.count >= s[0].count {
      assert r == [e] + s;
      assert r[1..] == s;
    } else {
      var rest := Insert(e, s[1..]);
      InsertWithCount(e, s[1..], c);
      assert r == [s[0]] + rest;
      assert r[0] == s[0] && r[1..] == rest;
      assert WithCount(r, c) == (if s[0].count == c then [s[0]] else []) + WithCount(rest, c);
      assert WithCount(s, c) == (if s[0].count == c then [s[0]] else []) + WithCount(s[1..], c);
      if e.count == c {
        // e goes behind s[0], whose count is larger
        assert WithCount(r, c) == WithCount(rest, c) == [e] + WithCount(s[1..], c);
      } else {
        assert WithCount(rest, c) == WithCount(s[1..], c);
      }
    }
  }

  /** `sorted(items, key=count, reverse=True)`: Python's sort is stable, and
      sorting in reverse keeps equal items in their original order. */
  function SortByCount(t: Table): (r: Table)
    ensures Descending(r)
    ensures |r| == |t|
    ensures multiset(r) == multiset(t)
    ensures forall c :: WithCount(r, c) == WithCount(t, c)
  {
    if t == [] then []
    else
      var rest := SortByCount(t[1..]);
      assert t == [t[0]] + t[1..];
      assert forall c :: WithCount(Insert(t[0], rest), c) == WithCount(t, c) by {
        forall c
          ensures WithCount(Insert(t[0], rest), c) == WithCount(t, c)
        {
          InsertWithCount(t[0], rest, c);
        }
      }
      Insert(t[0], rest)
  }

  /** `counter.most_common(n)`: the first n entries of the ranking, all of
      them when n reaches the number of keys, none when n <= 0. */
  function MostCommon(t: Table, n: int): (r: Table)
    ensures |r| == if n <= 0 then 0 else if n < |t| then n else |t|
    ensures Descending(r)
    ensures forall i :: 0 <= i < |r| ==> r[i] in t
  {
    var s := SortByCount(t);
    SortByCountMembers(t);
    if n <= 0 then []
    else if n < |s| then s[..n]
    else s
  }

  /** The ranking lists entries of the table only. */
  lemma SortByCountMembers(t: Table)
    ensures forall i :: 0 <= i < |SortByCount(t)| ==> SortByCount(t)[i] in t
  {
    var s := SortByCount(t);
    forall i | 0 <= i < |s|
      ensures s[i] in t
    {
      assert s[i] in multiset(s);
    }
  }

  // ---------------------------------------------------------------------
  // The ranking is the only stable descending order.

  /** Two descending tables that agree on the entries of every count, in
      order, are equal: stability and sortedness determine the ranking. */
  lemma {:induction false} SortUnique(a: Table, b: Table)
    requires Descending(a) && Descending(b)
    requires forall c :: WithCount(a, c) == WithCount(b, c)
    ensures a == b
    decreases |a| + |b|
  {
    if a != [] && b != [] {
      assert WithCount(a, a[0].count) == [a[0]] + WithCount(a[1..], a[0].count);
      assert WithCount(b, b[0].count) == [b[0]] + WithCount(b[1..], b[0].count);
      assert WithCount(b, a[0].count) == WithCount(a, a[0].count);
      assert WithCount(a, b[0].count) == WithCount(b, b[0].count);
      HeadCountIsMax(b, a[0].count, 0);
      HeadCountIsMax(a, b[0].count, 0);
      assert a[0] == WithCount(a, a[0].count)[0] == b[0];
      SameHeadTails(a, b);
      DescendingTail(a);
      DescendingTail(b);
      SortUnique(a[1..], b[1..]);
      assert a == [a[0]] + a[1..] && b == [b[0]] + b[1..];
    } else if a != [] {
      assert WithCount(a, a[0].count) == [a[0]] + WithCount(a[1..], a[0].count);
      assert false;
    } else if b != [] {
      assert WithCount(b, b[0].count) == [b[0]] + WithCount(b[1..], b[0].count);
      assert false;
    }
  }

  /** No count in a descending table exceeds the count of its head. */
  lemma HeadCountIsMax(t: Table, c: nat, k: int)
    requires Descending(t) && 0 <= k < |WithCount(t, c)|
    ensures t != [] && t[0].count >= c
  {
    WithCountMember(t, c, k);
    var j :| 0 <= j < |t| && t[j] == WithCount(t, c)[k];
    assert t[0].count >= t[j].count;
  }

  /** The tail of a descending table is descending. */
  lemma DescendingTail(t: Table)
    requires Descending(t) && t != []
    ensures Descending(t[1..])
  {
    forall i, j | 0 <= i < j < |t| - 1
      ensures t[1..][i].count >= t[1..][j].count
    {
      assert t[i + 1].count >= t[j + 1].count;
    }
  }

  /** Dropping the same head from two tables that agree on every count
      leaves tails that agree on every count. */
  lemma SameHeadTails(a: Table, b: Table)
    requires a != [] && b != [] && a[0] == b[0]
    requires forall c :: WithCount(a, c) == WithCount(b, c)
    ensures forall c :: WithCount(a[1..], c) == WithCount(b[1..], c)
  {
    forall c
      ensures WithCount(a[1..], c) == WithCount(b[1..], c)
    {
      assert WithCount(a, c) == WithCount(b, c);
      if c == a[0].count {
        assert WithCount(a[1..], c) == WithCount(a, c)[1..];
        assert WithCount(b[1..], c) == WithCount(b, c)[1..];
      } else {
        assert WithCount(a[1..], c) == WithCount(a, c);
        assert WithCount(b[1..], c) == WithCount(b, c);
      }
    }
  }

  /** Any stable descending rearrangement of the table is the ranking. */
  lemma SortByCountCharacterised(t: Table, r: Table)
    requires Descending(r)
    requires forall c :: WithCount(r, c) == WithCount(t, c)
    ensures r == SortByCount(t)
  {
    SortUnique(r, SortByCount(t));
  }

  // ---------------------------------------------------------------------
  // What the report's top-N list promises.

  lemma {:induction false} WithCountAppend(a: Table, b: Table, c: nat)
    ensures WithCount(a + b, c) == WithCount(a, c) + WithCount(b, c)
  {
    if a == [] {
      assert a + b == b;
    } else {
      var head := if a[0].count == c then [a[0]] else [];
      assert (a + b)[0] == a[0];
      assert (a + b)[1..] == a[1..] + b;
      assert WithCount(a + b, c) == head + WithCount(a[1..] + b, c);
      WithCountAppend(a[1..], b, c);
      assert WithCount(a, c) == head + WithCount(a[1..], c);
    }
  }

  /** Two entries of equal count keep their relative order among the
      entries of that count: `x[i]` sits at place `|WithCount(x[..i], c)|`. */
  lemma {:induction false} WithCountPlaces(x: Table, i: int, j: int)
    requires 0 <= i < j < |x| && x[i].count == x[j].count
    ensures |WithCount(x[..i], x[i].count)| < |WithCount(x[..j], x[i].count)| < |WithCount(x, x[i].count)|
    ensures WithCount(x, x[i].count)[|WithCount(x[..i], x[i].count)|] == x[i]
    ensures WithCount(x, x[i].count)[|WithCount(x[..j], x[i].count)|] == x[j]
  {
    var c := x[i].count;
    assert WithCount([x[i]], c) == [x[i]];
    assert WithCount([x[j]], c) == [x[j]];
    assert x[..j] == x[..i] + [x[i]] + x[i + 1..j];
    WithCountAppend(x[..i] + [x[i]], x[i + 1..j], c);
    WithCountAppend(x[..i], [x[i]], c);
    assert x == x[..j] + [x[j]] + x[j + 1..];
    WithCountAppend(x[..j] + [x[j]], x[j + 1..], c);
    WithCountAppend(x[..j], [x[j]], c);
  }

  /** An entry of the tail of a table with distinct keys sits past the head. */
  lemma {:induction false} InTail(x: Table, a: int)
    requires DistinctKeys(x) && 0 <= a < |x| && x != [] && x[a] in x[1..]
    ensures a >= 1
  {
    var m :| 0 <= m < |x[1..]| && x[1..][m] == x[a];
    assert x[m + 1] == x[a];
  }

  /** The tail of a table with distinct keys has distinct keys. */
  lemma DistinctTail(x: Table)
    requires DistinctKeys(x) && x != []
    ensures DistinctKeys(x[1..])
  {
    forall i, j | 0 <= i < j < |x| - 1
      ensures x[1..][i].word != x[1..][j].word
    {
      assert x[i + 1].word != x[j + 1].word;
    }
  }

  /** In a table with distinct keys, the entries of one count keep the
      order of their positions in the table. */
  lemma {:induction false} WithCountOrder(x: Table, c: nat, p: int, q: int, a: int, b: int)
    requires DistinctKeys(x)
    requires 0 <= p < q < |WithCount(x, c)|
    requires 0 <= a < |x| && x[a] == WithCount(x, c)[p]
    requires 0 <= b < |x| && x[b] == WithCount(x, c)[q]
    ensures a < b
  {
    var w := WithCount(x, c);
    var tail := x[1..];
    var rest := WithCount(tail, c);
    DistinctTail(x);
    if x[0].count == c {
      assert w == [x[0]] + rest;
      WithCountHeadAt(x, c, q, b);
      if p > 0 {
        WithCountHeadAt(x, c, p, a);
        WithCountOrder(tail, c, p - 1, q - 1, a - 1, b - 1);
      }
    } else {
      assert w == rest;
      WithCountSkipAt(x, c, p, a);
      WithCountSkipAt(x, c, q, b);
      WithCountOrder(tail, c, p, q, a - 1, b - 1);
    }
  }

  /** When the head has count `c`, the later entries of that count come
      from the tail. */
  lemma WithCountHeadAt(x: Table, c: nat, p: int, a: int)
    requires DistinctKeys(x) && x != [] && x[0].count == c
    requires 0 < p < |WithCount(x, c)|
    requires 0 <= a < |x| && x[a] == WithCount(x, c)[p]
    ensures a >= 1 && p - 1 < |WithCount(x[1..], c)| && x[1..][a - 1] == WithCount(x[1..], c)[p - 1]
  {
    assert WithCount(x, c) == [x[0]] + WithCount(x[1..], c);
    WithCountMember(x[1..], c, p - 1);
    InTail(x, a);
  }

  /** When the head does not have count `c`, the entries of that count come
      from the tail. */
  lemma WithCountSkipAt(x: Table, c: nat, p: int, a: int)
    requires DistinctKeys(x) && x != [] && x[0].count != c
    requires 0 <= p < |WithCount(x, c)|
    requires 0 <= a < |x| && x[a] == WithCount(x, c)[p]
    ensures a >= 1 && p < |WithCount(x[1..], c)| && x[1..][a - 1] == WithCount(x[1..], c)[p]
  {
    assert WithCount(x, c) == WithCount(x[1..], c);
    WithCountMember(x[1..], c, p);
    InTail(x, a);
  }

  /** `most_common` is a prefix of the full ranking. */
  lemma MostCommonIsPrefix(t: Table, n: int)
    ensures |MostCommon(t, n)| <= |SortByCount(t)|
    ensures MostCommon(t, n) == SortByCount(t)[..|MostCommon(t, n)|]
  {
  }

  /** Among equal counts, words come in the order of their keys in the
      Counter. */
  lemma MostCommonTies(t: Table, n: int)
    requires DistinctKeys(t)
    ensures forall i, j, a, b ::
              && 0 <= i < j < |MostCommon(t, n)|
              && MostCommon(t, n)[i].count == MostCommon(t, n)[j].count
              && 0 <= a < |t| && t[a] == MostCommon(t, n)[i]
              && 0 <= b < |t| && t[b] == MostCommon(t, n)[j]
              ==> a < b
  {
    var r := MostCommon(t, n);
    var s := SortByCount(t);
    MostCommonIsPrefix(t, n);
    forall i, j, a, b |
      && 0 <= i < j < |r| && r[i].count == r[j].count
      && 0 <= a < |t| && t[a] == r[i]
      && 0 <= b < |t| && t[b] == r[j]
      ensures a < b
    {
      var c := r[i].count;
      assert s[i] == r[i] && s[j] == r[j];
      WithCountPlaces(s, i, j);
      assert WithCount(s, c) == WithCount(t, c);
      WithCountOrder(t, c, |WithCount(s[..i], c)|, |WithCount(s[..j], c)|, a, b);
    }
  }

  /** Every entry after insertion is the inserted one or an old one. */
  lemma InsertMember(e: Entry, s: Table, k: int)
    requires Descending(s) && 0 <= k < |Insert(e, s)|
    ensures Insert(e, s)[k] == e || exists b :: 0 <= b < |s| && s[b] == Insert(e, s)[k]
  {
    var x := Insert(e, s)[k];
    assert x in multiset(Insert(e, s));
    if x != e {
      assert x in multiset(s);
      assert x in s;
    }
  }

  /** Inserting an entry with a new key keeps the keys distinct. */
  lemma {:induction false} InsertDistinct(e: Entry, s: Table)
    requires Descending(s) && DistinctKeys(s)
    requires forall k :: 0 <= k < |s| ==> s[k].word != e.word
    ensures DistinctKeys(Insert(e, s))
  {
    if s != [] && e.count < s[0].count {
      var tail := s[1..];
      var rest := Insert(e, tail);
      DistinctTail(s);
      InsertDistinct(e, tail);
      assert Insert(e, s) == [s[0]] + rest;
      forall k | 0 <= k < |rest|
        ensures rest[k].word != s[0].word
      {
        InsertMember(e, tail, k);
        if rest[k] != e {
          var b :| 0 <= b < |tail| && tail[b] == rest[k];
          assert s[b + 1] == rest[k];
        }
      }
    }
  }

  /** Ranking a table with distinct keys keeps the keys distinct. */
  lemma {:induction false} SortByCountDistinct(t: Table)
    requires DistinctKeys(t)
    ensures DistinctKeys(SortByCount(t))
  {
    if t != [] {
      SortByCountDistinct(t[1..]);
      var rest := SortByCount(t[1..]);
      forall k | 0 <= k < |rest|
        ensures rest[k].word != t[0].word
      {
        assert rest[k] in multiset(t[1..]);
        var b :| 0 <= b < |t[1..]| && t[1..][b] == rest[k];
        assert t[b + 1] == rest[k];
      }
      InsertDistinct(t[0], rest);
    }
  }

  /** No word is listed twice. */
  lemma MostCommonDistinct(t: Table, n: int)
    requires DistinctKeys(t)
    ensures DistinctKeys(MostCommon(t, n))
  {
    MostCommonIsPrefix(t, n);
    SortByCountDistinct(t);
  }

  /** Each listed count is the count the Counter holds for that word. */
  lemma MostCommonCounts(t: Table, n: int)
    requires DistinctKeys(t)
    ensures forall i :: 0 <= i < |MostCommon(t, n)| ==> MostCommon(t, n)[i].count == Get(t, MostCommon(t, n)[i].word)
  {
    var r := MostCommon(t, n);
    forall i | 0 <= i < |r|
      ensures r[i].count == Get(t, r[i].word)
    {
      var a :| 0 <= a < |t| && t[a] == r[i];
      GetEntry(t, a);
    }
  }

  /** A word left out of the list has a count no larger than any listed one. */
  lemma MostCommonLeftOut(t: Table, n: int)
    ensures forall a, i :: 0 <= a < |t| && t[a].word !in Keys(MostCommon(t, n)) && 0 <= i < |MostCommon(t, n)| ==>
              t[a].count <= MostCommon(t, n)[i].count
  {
    var r := MostCommon(t, n);
    var s := SortByCount(t);
    MostCommonIsPrefix(t, n);
    forall a | 0 <= a < |t|
      ensures t[a].word in Keys(r) || forall i :: 0 <= i < |r| ==> t[a].count <= r[i].count
    {
      assert t[a] in multiset(s);
      var m :| 0 <= m < |s| && s[m] == t[a];
      if m < |r| {
        assert Keys(r)[m] == t[a].word;
      } else {
        forall i | 0 <= i < |r|
          ensures t[a].count <= r[i].count
        {
          assert r[i] == s[i];
        }
      }
    }
  }
}
