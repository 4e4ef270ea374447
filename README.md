# text-analyzer in Dafny

A verified model of `text_analyzer.py`, a small script that reads a text and
reports four figures about it: the total number of words, the number of
unique words, the N most frequent words with their counts, and how many
words are "long" (at least a minimum length). The model covers the pipeline
behind these figures:

- **Tokenizer** (`tokenizer.dfy`, module `Tokenizer`): `split_words`, which
  is `text.lower().split()`. Lower-casing is done character by character.
  Splitting drops leading whitespace, takes the longest run of
  non-whitespace characters as a token, and repeats. The whitespace set is
  the one Python's argument-less `str.split()` uses, the characters for which
  `str.isspace()` holds: the ASCII controls TAB to CR and FS to US, space,
  NEL, NBSP, OGHAM SPACE MARK, U+2000 to U+200A, LINE and PARAGRAPH
  SEPARATOR, NARROW NBSP, MEDIUM MATHEMATICAL SPACE and IDEOGRAPHIC SPACE.
  This is wider than ASCII space, tab and newline, and the model follows
  the code.
- **Frequency counter** (`frequency.dfy`, module `Frequency`): `count_words`,
  which is `Counter(words)`. A Counter is a dictionary whose keys keep their
  insertion order. It is modelled as the sequence of its `(word, count)`
  entries, built by counting the words one after the other. An existing key
  keeps its place, and a new key goes to the end with count 1.
- **Long-word filter** (`long_words.dfy`, module `LongWords`):
  `find_long_words`, the comprehension `[w for w in words if len(w) >= min_length]`.
  A string is a sequence of code points, as in Python, so `len` is the
  sequence length.
- **Ranking** (`ranking.dfy`, module `Ranking`): `word_counts.most_common(n)`.
  For an integer n, `Counter.most_common` calls `heapq.nlargest(n, items, key=count)`.
  For `n >= 0` that returns the same list as
  `sorted(items, key=count, reverse=True)[:n]`: largest counts first, and
  entries with equal counts in the Counter's own order. For `n < 0`,
  `nlargest` returns an empty list, unlike the slice, which would keep all
  but the last `-n` items. It is modelled as a stable insertion sort by
  descending count followed by a prefix of length `max(n, 0)`. The model also proves that
  sortedness plus stability determine this list uniquely (`SortUnique`).
- **Report** (`report.dfy`, module `Report`): the figures `print_report`
  prints, collected in a `Summary` value, and the steps of `analyze_file`
  after the file has been read.
- **Scenarios** (`scenarios.dfy`, module `Scenarios`): worked examples,
  including the tie-break case `b a b a c` with N = 2.

## Model

| member | source | states |
|---|---|---|
| Tokenizer.IsSpace | text_analyzer.py:21 | The characters `str.isspace()` accepts, which are the separators of the argument-less `str.split()`. It is a plain definition; `SplitTokens`, `SplitConcat` and `SplitEmptyIff` state what the split does with it. |
| Tokenizer.Lower | text_analyzer.py:21 | A character's lower-case form has no capital. A non-capital is left as it is, and a capital moves to its small letter 32 code points up. Lowering never turns whitespace into non-whitespace or back. |
| Tokenizer.LowerString | text_analyzer.py:21 | `str.lower()` keeps the length and lowers each character in place. |
| Tokenizer.LowerStringIdempotent | text_analyzer.py:21 | Lowering twice is lowering once. |
| Tokenizer.Split | text_analyzer.py:21 | The argument-less `str.split()`: the maximal runs of non-whitespace characters, in order. It is a plain definition; its contract is carried by `SplitTokens` (fragments are non-empty and free of whitespace), `SplitConcat` (they hold exactly the non-whitespace characters, in order), `SplitEmptyIff` and `SplitJoin` (joining with spaces and splitting is the identity). |
| Tokenizer.SplitWords | text_analyzer.py:19-21 | Every token of `split_words` is non-empty, holds no whitespace, and is already lower case: lowering it again changes nothing. |
| Tokenizer.SplitTokens | text_analyzer.py:21 | Every fragment of `str.split()` is non-empty and free of whitespace. |
| Tokenizer.SplitConcat | text_analyzer.py:21 | Gluing the fragments together gives exactly the text's non-whitespace characters, in order. Nothing is lost, added or reordered. |
| Tokenizer.SplitEmptyIff | text_analyzer.py:21 | The text splits into no fragment if and only if every character is whitespace, the empty text included. |
| Tokenizer.SplitJoin | text_analyzer.py:21 | Words that are non-empty and free of whitespace, joined with single spaces, split back into the same words. |
| Tokenizer.SplitLeadingSpace | text_analyzer.py:21 | A leading space does not change the split. |
| Tokenizer.SplitLower | text_analyzer.py:21 | The fragments of a text without capitals hold no capital. |
| Frequency.Get | text_analyzer.py:25 | A word that is not a key reads as count 0, as a Counter's missing keys do. |
| Frequency.Total | text_analyzer.py:35 | `sum(word_counts.values())`. It is a plain definition; `TotalIsWordCount` states that for a Counter of words it is the number of words. |
| Frequency.Increment | text_analyzer.py:25 | Counting one word leaves the keys and their order as they were when the word is already a key, and otherwise appends it. It raises that word's count by one, leaves every other count alone, and raises the total by one. |
| Frequency.IncrementValid | text_analyzer.py:25 | Counting one more word keeps every key once and every count positive. |
| Frequency.CountWords | text_analyzer.py:23-25 | `Counter(words)`, built by counting the words in order, has distinct keys with positive counts. |
| Frequency.CountWordsCounts | text_analyzer.py:23-25 | Each word's count is its number of occurrences, so a word that does not occur reads as 0. |
| Frequency.CountWordsKeys | text_analyzer.py:23-25 | A word is a key if and only if it occurs among the words. |
| Frequency.GetEntry | text_analyzer.py:25 | With distinct keys, looking a key up gives the count stored in its entry. |
| Frequency.TotalIsWordCount | text_analyzer.py:34-35 | The counts add up to the number of words ("Total words"). |
| Frequency.UniqueIsDistinctCount | text_analyzer.py:34-36 | The number of keys is the number of distinct words ("Unique words"). |
| Frequency.CountsAreOccurrences | text_analyzer.py:23-25 | Every entry's count is the number of occurrences of its word, and is at least 1. |
| Frequency.KeysInFirstAppearanceOrder | text_analyzer.py:23-25 | Every key occurs among the words, and the keys are stored in the order of their first appearance. |
| LongWords.FindLongWords | text_analyzer.py:27-29 | Every kept word has length at least `min_length`. Each word of that length is kept as often as it occurs, and no other word is kept. The result is a subsequence of the input, so order and duplicates are preserved, and it is no longer than the input. |
| LongWords.FindLongWordsCount | text_analyzer.py:29 | The length of the result is the number of positions whose word has at least `min_length` characters. |
| LongWords.FindLongWordsKeepsAll | text_analyzer.py:27-29 | With `min_length <= 0` the filter returns its input unchanged. |
| LongWords.FindLongWordsAppend | text_analyzer.py:29 | Filtering a concatenation is concatenating the filtered parts. |
| LongWords.FindLongWordsIdempotent | text_analyzer.py:29 | Filtering twice with the same minimum is filtering once. |
| Ranking.Insert | text_analyzer.py:38 | Inserting an entry into a list with non-increasing counts keeps it non-increasing. It adds exactly that entry. |
| Ranking.InsertWithCount | text_analyzer.py:38 | Inserting puts the entry before the others of its own count and leaves every other count's entries as they were. |
| Ranking.SortByCount | text_analyzer.py:38 | `sorted(items, key=count, reverse=True)` is a permutation of the items with non-increasing counts. It is stable: the entries of each count keep their Counter order. |
| Ranking.SortUnique | text_analyzer.py:38 | Two lists with non-increasing counts that agree, count by count, on the entries and their order are equal. |
| Ranking.SortByCountCharacterised | text_analyzer.py:38 | Any stable rearrangement with non-increasing counts is the ranking. |
| Ranking.MostCommon | text_analyzer.py:38 | `most_common(n)` has length `min(max(n, 0), number of keys)`. Its counts are non-increasing, and it lists entries of the Counter only. |
| Ranking.MostCommonIsPrefix | text_analyzer.py:38 | `most_common(n)` is a prefix of the full ranking. |
| Ranking.MostCommonTies | text_analyzer.py:38 | Entries listed with equal counts are in the order of their keys in the Counter. |
| Ranking.MostCommonDistinct | text_analyzer.py:38 | No word is listed twice. |
| Ranking.MostCommonCounts | text_analyzer.py:38 | Each listed count is the Counter's count for that word. |
| Ranking.MostCommonLeftOut | text_analyzer.py:38 | A word that is left out has a count no larger than any listed count. |
| Report.PrintReport | text_analyzer.py:32-40 | The printed list has no more entries than the printed number of unique words. It is ranked by non-increasing count, holds only entries of the Counter, and carries the N and minimum length given to the report. |
| Report.AnalyzeText | text_analyzer.py:50-62 | For a text, "Total words" is the number of tokens and "Unique words" the number of distinct tokens. The long-word count is the number of tokens with at least `min_length` characters, so at most the total, and the list has `min(max(N, 0), unique words)` entries. |
| Report.AnalyzeFile | text_analyzer.py:43-62 | With the script's constants, the report lists at most `TOP_WORDS` = 5 words and uses minimum length `MIN_LONG_LEN` = 4. |
| Report.TopCountsOfWords | text_analyzer.py:38 | Each word listed by `most_common` on `Counter(words)` occurs among the words exactly as often as its listed count, at least once, and no word is listed twice. |
| Report.TopTiesOfWords | text_analyzer.py:38 | Words listed with equal counts are ordered by their first appearance among the words. |
| Report.TopLeftOutOfWords | text_analyzer.py:38 | A word that occurs but is not listed occurs no more often than any listed word. |
| Report.TopCountsAreOccurrences | text_analyzer.py:53-62 | For a text, each listed count is the word's number of occurrences among the tokens, at least 1, and no word is listed twice. |
| Report.TopTiesInTextOrder | text_analyzer.py:53-62 | For a text, words with equal listed counts come in the order in which they first appear in the text. |
| Report.TopLeavesOutLessFrequent | text_analyzer.py:53-62 | For a text, a token that is not listed occurs no more often than any listed word. |
| Report.AllWordsLongFromOne | text_analyzer.py:27-29 | Tokens are never empty, so with a minimum length of 1 or less the long-word count equals the total. |
| Report.BlankTextReport | text_analyzer.py:35-40 | An empty or all-whitespace text reports 0 total, 0 unique, an empty list and 0 long words. |
| Scenarios.SplitWordsExample | text_analyzer.py:21 | `"B a b A c"` splits into `b, a, b, a, c`. |
| Scenarios.CountExample | text_analyzer.py:25 | For any three distinct words b, a and c, `Counter([b, a, b, a, c])` is `b: 2, a: 2, c: 1`, in that key order. |
| Scenarios.RankExample | text_analyzer.py:38 | `most_common(2)` on the Counter `b: 2, a: 2, c: 1` gives `b: 2, a: 2`: the tie keeps Counter order. |
| Scenarios.TieExample | text_analyzer.py:38 | For distinct words b, a and c, `Counter([b, a, b, a, c]).most_common(2)` is `[(b, 2), (a, 2)]`. |
| Scenarios.TieScenario | text_analyzer.py:50-62 | The report for the text `B a b A c` with N = 2 lists `b: 2, a: 2`. |

## Left out

- `read_text` (text_analyzer.py:14-17) is file I/O. The text is a parameter of `AnalyzeText` and `AnalyzeFile`. A missing file, and the error it raises, is not modelled.
- The printing in `print_report` (text_analyzer.py:35-40) is left out: the f-string text, the quotes around words and the loop that prints one line per pair. `PrintReport` returns the values that would be printed.
- The `__main__` block (text_analyzer.py:66-67) and its fixed file name `sample.txt` are left out.
- Tokenizer.Lower: only ASCII and Latin-1 capitals (U+00C0 to U+00DE, except U+00D7) are lowered. Python's `str.lower()` also lowers Greek, Cyrillic and the other cased scripts, and it maps a few characters to more than one (U+0130 becomes two code points). In the model those characters are left unchanged.
- `collections.Counter` and `heapq` are not modelled line by line. `MostCommon` is the documented result of `most_common(n)` for an integer n, and `most_common(None)`, which the script never uses, is left out.
- Python's Counter can hold any integer count. The model's counts are natural numbers, which is all that counting words produces.
- `find_long_words` and `print_report` have default arguments; the model always passes them explicitly. `AnalyzeFile` passes the module's constants, as `analyze_file` does.
