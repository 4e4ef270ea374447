/**
 * The tokenizer of the text analyzer: `split_words` folds the text to lower
 * case and then splits it on runs of whitespace, the way Python's
 * `str.lower()` followed by the argument-less `str.split()` does.
 */
module Tokenizer {

  /** The characters Python's argument-less `str.split()` treats as whitespace
      (exactly those for which `str.isspace()` holds). */
  predicate IsSpace(c: char) {
    || ('\t' <= c <= '\r')
    || ('\U{1C}' <= c <= '\U{1F}')
    || c == ' '
    || c == '\U{85}'
    || c == '\U{A0}'
    || c == '\U{1680}'
    || ('\U{2000}' <= c <= '\U{200A}')
    || c == '\U{2028}'
    || c == '\U{2029}'
    || c == '\U{202F}'
    || c == '\U{205F}'
    || c == '\U{3000}'
  }

  /** A string without any whitespace character. */
  predicate NoSpace(w: string) {
    forall i :: 0 <= i < |w| ==> !IsSpace(w[i])
  }

  /** The capital letters whose lower-case form this model knows:
      ASCII and the Latin-1 supplement. */
  predicate IsUpper(c: char) {
    ('A' <= c <= 'Z') || ('\U{C0}' <= c <= '\U{DE}' && c != '\U{D7}')
  }

  /** Lower-case form of one character; every other character is its own
      lower-case form. */
  function Lower(c: char): (d: char)
    ensures !IsUpper(d)
    ensures !IsUpper(c) ==> d == c
    ensures IsUpper(c) ==> d as int == c as int + 32
    ensures IsSpace(d) <==> IsSpace(c)
  {
    if IsUpper(c) then (c as int + 32) as char else c
  }

  /** `str.lower()`, character by character. */
  function LowerString(s: string): (r: string)
    ensures |r| == |s|
    ensures forall i :: 0 <= i < |s| ==> r[i] == Lower(s[i])
  {
    seq(|s|, i requires 0 <= i < |s| => Lower(s[i]))
  }

  /** Lowering is idempotent, and a string without capitals is already lower case. */
  lemma LowerStringFixed(s: string)
    requires NoUpper(s)
    ensures LowerString(s) == s
  {
  }

  lemma LowerStringIdempotent(s: string)
    ensures LowerString(LowerString(s)) == LowerString(s)
  {
    LowerStringFixed(LowerString(s));
  }

  /** What is left of `s` once its leading whitespace is dropped. */
  function DropSpaces(s: string): (r: string)
    ensures |r| <= |s| && r == s[|s| - |r|..]
    ensures r == [] || !IsSpace(r[0])
    ensures forall i :: 0 <= i < |s| - |r| ==> IsSpace(s[i])
  {
    if s != [] && IsSpace(s[0]) then DropSpaces(s[1..]) else s
  }

  /** The longest prefix of `s` that holds no whitespace. */
  function TakeWord(s: string): (w: string)
    ensures |w| <= |s| && w == s[..|w|]
    ensures NoSpace(w)
    ensures |w| < |s| ==> IsSpace(s[|w|])
  {
    if s != [] && !IsSpace(s[0]) then [s[0]] + TakeWord(s[1..]) else []
  }

  /** The argument-less `str.split()`: the maximal runs of non-whitespace
      characters, in order; leading, trailing and repeated whitespace gives
      no empty fragment. */
  function Split(s: string): seq<string>
    decreases |s|
  {
    var t := DropSpaces(s);
    if t == [] then []
    else
      var w := TakeWord(t);
      [w] + Split(t[|w|..])
  }

  /** `split_words(text)`: lower-case the text, then split it. */
  function SplitWords(text: string): (ws: seq<string>)
    ensures forall k :: 0 <= k < |ws| ==> ws[k] != [] && NoSpace(ws[k])
    ensures forall k :: 0 <= k < |ws| ==> LowerString(ws[k]) == ws[k]
  {
    var lowered := LowerString(text);
    SplitTokens(lowered);
    SplitLower(lowered);
    AllLowered(Split(lowered));
    Split(lowered)
  }

  /** Words without capitals are their own lower-case form. */
  lemma AllLowered(ws: seq<string>)
    requires forall k :: 0 <= k < |ws| ==> NoUpper(ws[k])
    ensures forall k :: 0 <= k < |ws| ==> LowerString(ws[k]) == ws[k]
  {
    forall k | 0 <= k < |ws|
      ensures LowerString(ws[k]) == ws[k]
    {
      LowerStringFixed(ws[k]);
    }
  }

  // ---------------------------------------------------------------------
  // Reference definitions the splitter is compared with.

  /** The non-whitespace characters of `s`, in order. */
  function NonSpace(s: string): (r: string)
    ensures NoSpace(r)
  {
    if s == [] then [] else (if IsSpace(s[0]) then [] else [s[0]]) + NonSpace(s[1..])
  }

  /** The tokens glued back together without any separator. */
  function Concat(ws: seq<string>): string {
    if ws == [] then [] else ws[0] + Concat(ws[1..])
  }

  /** The tokens joined with one space between neighbours, `" ".join(ws)`. */
  function Join(ws: seq<string>): string {
    if ws == [] then []
    else if |ws| == 1 then ws[0]
    else ws[0] + (" " + Join(ws[1..]))
  }

  // ---------------------------------------------------------------------
  // Properties of the splitter.

  /** Every token is non-empty and holds no whitespace. */
  lemma {:induction false} SplitTokens(s: string)
    ensures forall k :: 0 <= k < |Split(s)| ==> Split(s)[k] != [] && NoSpace(Split(s)[k])
    decreases |s|
  {
    var t := DropSpaces(s);
    if t != [] {
      var w := TakeWord(t);
      SplitTokens(t[|w|..]);
    }
  }

  /** Leading whitespace contributes no character. */
  lemma {:induction false} NonSpaceDropSpaces(s: string)
    ensures NonSpace(DropSpaces(s)) == NonSpace(s)
    decreases |s|
  {
    if s != [] && IsSpace(s[0]) {
      NonSpaceDropSpaces(s[1..]);
    }
  }

  /** The non-whitespace characters of a string are those of its first word
      followed by those of what comes after it. */
  lemma {:induction false} NonSpaceTakeWord(t: string)
    ensures NonSpace(t) == TakeWord(t) + NonSpace(t[|TakeWord(t)|..])
    decreases |t|
  {
    if t != [] && !IsSpace(t[0]) {
      var v := TakeWord(t[1..]);
      NonSpaceTakeWord(t[1..]);
      assert TakeWord(t) == [t[0]] + v;
      assert t[|TakeWord(t)|..] == t[1..][|v|..];
    } else {
      assert t[0..] == t;
    }
  }

  /** Gluing the tokens back together gives exactly the non-whitespace
      characters of the text: nothing is lost, added or reordered. */
  lemma {:induction false} SplitConcat(s: string)
    ensures Concat(Split(s)) == NonSpace(s)
    decreases |s|
  {
    var t := DropSpaces(s);
    NonSpaceDropSpaces(s);
    if t != [] {
      var w := TakeWord(t);
      var rest := t[|w|..];
      NonSpaceTakeWord(t);
      SplitConcat(rest);
      var tokens := Split(rest);
      assert Split(s) == [w] + tokens;
      assert ([w] + tokens)[1..] == tokens;
    }
  }

  /** The text splits into no token exactly when it is all whitespace
      (the empty text included). */
  lemma SplitEmptyIff(s: string)
    ensures Split(s) == [] <==> forall i :: 0 <= i < |s| ==> IsSpace(s[i])
  {
    var t := DropSpaces(s);
    if t != [] {
      // the first character left after the leading whitespace is not one
      assert s[|s| - |t|] == t[0] && !IsSpace(t[0]);
    }
  }

  lemma {:induction false} DropSpacesOfWordStart(w: string, rest: string)
    requires w != [] && NoSpace(w)
    ensures DropSpaces(w + rest) == w + rest
  {
  }

  lemma {:induction false} TakeWordOfWord(w: string, rest: string)
    requires NoSpace(w)
    requires rest == [] || IsSpace(rest[0])
    ensures TakeWord(w + rest) == w
    decreases |w|
  {
    if w != [] {
      assert (w + rest)[1..] == w[1..] + rest;
      TakeWordOfWord(w[1..], rest);
    } else {
      assert w + rest == rest;
    }
  }

  /** A word followed by whitespace (or by nothing) is split off as one token. */
  lemma SplitWordFirst(w: string, rest: string)
    requires w != [] && NoSpace(w)
    requires rest == [] || IsSpace(rest[0])
    ensures Split(w + rest) == [w] + Split(rest)
  {
    DropSpacesOfWordStart(w, rest);
    TakeWordOfWord(w, rest);
    assert (w + rest)[|w|..] == rest;
  }

  /** Dropping leading whitespace twice is dropping it once. */
  lemma DropSpacesTwice(s: string)
    ensures DropSpaces(DropSpaces(s)) == DropSpaces(s)
  {
    var t := DropSpaces(s);
    assert t == [] || !IsSpace(t[0]);
  }

  /** Splitting ignores leading whitespace. */
  lemma SplitDropSpaces(s: string)
    ensures Split(DropSpaces(s)) == Split(s)
  {
    DropSpacesTwice(s);
  }

  /** A leading space changes nothing. */
  lemma SplitLeadingSpace(s: string)
    ensures Split(" " + s) == Split(s)
  {
    var u := " " + s;
    assert IsSpace(u[0]) && u[1..] == s;
    assert DropSpaces(u) == DropSpaces(s);
    SplitDropSpaces(u);
    SplitDropSpaces(s);
  }

  /** Joining words that are non-empty and free of whitespace with single
      spaces and splitting the result gives the words back. */
  lemma {:induction false} SplitJoin(ws: seq<string>)
    requires forall i :: 0 <= i < |ws| ==> ws[i] != [] && NoSpace(ws[i])
    ensures Split(Join(ws)) == ws
  {
    if |ws| == 1 {
      SplitJoinSingle(ws);
    } else if |ws| >= 2 {
      var tail := ws[1..];
      assert [ws[0]] + tail == ws;
      assert forall i :: 0 <= i < |tail| ==> tail[i] == ws[i + 1];
      SplitJoin(tail);
      SplitJoinStep(ws);
    }
  }

  /** A single word is split back into itself. */
  lemma SplitJoinSingle(ws: seq<string>)
    requires |ws| == 1 && ws[0] != [] && NoSpace(ws[0])
    ensures Split(Join(ws)) == ws
  {
    var w := ws[0];
    assert Join(ws) == w;
    SplitOfWord(w);
  }

  /** A text that is one word splits into that word alone. */
  lemma SplitOfWord(w: string)
    requires w != [] && NoSpace(w)
    ensures Split(w) == [w]
  {
    var e: string := [];
    assert w + e == w;
    DropSpacesOfWordStart(w, e);
    TakeWordOfWord(w, e);
    assert DropSpaces(w) == w && TakeWord(w) == w;
    assert w[|w|..] == e;
  }

  /** Splitting a word joined in front of further words splits that word off. */
  lemma SplitJoinStep(ws: seq<string>)
    requires |ws| >= 2 && ws[0] != [] && NoSpace(ws[0])
    ensures Split(Join(ws)) == [ws[0]] + Split(Join(ws[1..]))
  {
    var tail := Join(ws[1..]);
    var rest := " " + tail;
    assert Join(ws) == ws[0] + rest;
    assert rest[0] == ' ';
    SplitWordFirst(ws[0], rest);
    SplitLeadingSpace(tail);
  }

  /** A string without capital letters. */
  predicate NoUpper(s: string) {
    forall i :: 0 <= i < |s| ==> !IsUpper(s[i])
  }

  lemma NoUpperSlice(s: string, i: int, j: int)
    requires NoUpper(s) && 0 <= i <= j <= |s|
    ensures NoUpper(s[i..j])
  {
    forall k | 0 <= k < j - i
      ensures !IsUpper(s[i..j][k])
    {
      assert s[i..j][k] == s[i + k];
    }
  }

  /** The first word of a text without capitals, and what follows it,
      hold no capital. */
  lemma NoUpperPieces(s: string)
    requires NoUpper(s)
    ensures NoUpper(TakeWord(DropSpaces(s)))
    ensures NoUpper(DropSpaces(s)[|TakeWord(DropSpaces(s))|..])
  {
    var t := DropSpaces(s);
    var w := TakeWord(t);
    NoUpperSlice(s, |s| - |t|, |s|);
    assert s[|s| - |t|..|s|] == t;
    NoUpperSlice(t, 0, |w|);
    assert t[0..|w|] == w;
    NoUpperSlice(t, |w|, |t|);
    assert t[|w|..|t|] == t[|w|..];
  }

  /** The tokens of a text without capitals hold no capital either. */
  lemma {:induction false} SplitLower(s: string)
    requires NoUpper(s)
    ensures forall k :: 0 <= k < |Split(s)| ==> NoUpper(Split(s)[k])
    decreases |s|
  {
    var t := DropSpaces(s);
    if t != [] {
      var w := TakeWord(t);
      var rest := t[|w|..];
      NoUpperPieces(s);
      SplitLower(rest);
      var tokens := Split(rest);
      assert Split(s) == [w] + tokens;
      forall k | 0 <= k < |Split(s)|
        ensures NoUpper(Split(s)[k])
      {
        if k > 0 {
          assert Split(s)[k] == tokens[k - 1];
        }
      }
    }
  }
}
