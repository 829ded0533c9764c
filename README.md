# Text analyzer statistics, modelled in Dafny

This project models the statistics part of `TextAnalyzer.analyze_text` in the
text-analyzer tool. The tool takes a text, picks out its words and its letters,
counts both into frequency tables, and reports four things: the word count, the
average word length, the sentence count and the "top N" entries of each table.
All of it is pure computation over the content string, so the model is
functions and lemmas:

- `char_class.dfy` (module `CharClass`): `str.isalpha`, the regex class `\w` and
  `str.lower`, over ASCII.
- `comprehension.dfy` (module `Comprehension`): the list comprehension
  `[f(x) for x in s if keep(x)]`, and the positions of `s` it keeps.
- `counter.dfy` (module `Counter`): `collections.Counter` as a table of
  `Entry(key, count)` in insertion order. Counting one element works like
  `counter[x] = counter.get(x, 0) + 1`: a known key keeps its place, a new key
  goes last.
- `ranking.dfy` (module `Ranking`): `Counter.most_common(n)`. This is Python's
  stable sort by count, highest first, cut to `n` entries. It gives nothing when
  `n <= 0`.
- `text_analyzer.dfy` (module `TextAnalyzer`): `get_letters`, `get_words` and
  `analyze_text`. The average word length is an exact ratio. The division by
  zero on an empty word list is the error result `Err(ZeroDivisionError)`.
- `examples_text.dfy` (module `AnalyzerExamples`): worked inputs. They include
  "Cats run. Dogs run fast." and "AAAA bbbb".

Word and sentence segmentation are done by NLTK's `word_tokenize` and
`sent_tokenize`. Here they are inputs: `AnalyzeText(content, tokens, sentences)`
gets the token list and the sentence list, and reports `|sentences|` as the
sentence count.

Three points about what the code does:

- A token is a word when `re.match(r"\w+", token)` succeeds. The match is
  anchored at the start, so the token's first character must be a word
  character. Containing one somewhere is not enough, so `'s` is dropped and
  `n't` is kept.
- The filter looks at the raw token and lower-cases it afterwards. Under the
  ASCII model, lower-casing keeps the word-character test the same, so the order
  does not change the result.
- With no words, the average divides by zero and the code raises
  `ZeroDivisionError`.

## Model

| member | source | states |
|---|---|---|
| CharClass.Lower | text_analyzer.py:38 | lower-casing maps an upper-case letter to the lower-case letter at the same place in the alphabet and keeps every other character; it keeps the letter and word-character classes |
| CharClass.LowerString | text_analyzer.py:34 | lower-casing a token keeps its length and lower-cases each character in place |
| Comprehension.KeptPositions | text_analyzer.py:38 | the positions a comprehension keeps: strictly increasing, each accepted by the filter, and every accepted position is among them |
| Comprehension.FilterMapAt | text_analyzer.py:34 | a comprehension has one element per kept position, and its j-th element is the map applied to the j-th kept element |
| Comprehension.FilterMapAppend | text_analyzer.py:38 | a comprehension over a concatenation is the concatenation of the comprehensions |
| TextAnalyzer.GetLettersSpec | text_analyzer.py:37-39 | get_letters has exactly one element per alphabetic character of the content, in source order with repeats, each the lower case of that character; every element is a lower-case letter |
| TextAnalyzer.GetLettersCons | text_analyzer.py:38 | characters are filtered front to back, one at a time |
| TextAnalyzer.GetWordsSpec | text_analyzer.py:32-35 | a token is kept if and only if it is non-empty and its first character is a word character; kept tokens are lower-cased, in order, duplicates kept |
| TextAnalyzer.GetWordsCons | text_analyzer.py:34 | tokens are filtered front to back, one at a time |
| TextAnalyzer.WordsWellFormed | text_analyzer.py:34 | every word is non-empty, starts with a word character and has no upper-case letter |
| TextAnalyzer.SumLengthsAtLeastCount | text_analyzer.py:18 | when every word has at least one character, the summed lengths are at least the number of words |
| TextAnalyzer.AverageWordLength | text_analyzer.py:17-18 | the average fails with ZeroDivisionError exactly when there are no words; otherwise its denominator is the word count |
| TextAnalyzer.AverageAtLeastOne | text_analyzer.py:18 | whenever the average of get_words is defined, the total length is at least the word count, so the average is at least 1 |
| TextAnalyzer.AnalyzeFailsIffNoWords | text_analyzer.py:17-18 | analyze_text fails, always with ZeroDivisionError, if and only if no token passes the word filter; an empty token list fails |
| TextAnalyzer.AnalyzeReport | text_analyzer.py:11-30 | on success: word count = number of words (at least 1); both tables well formed; word counts sum to the word count; letter counts sum to the letter count; keys are exactly the distinct words or letters; each count is the number of occurrences; average = total length / word count, at least 1; sentence count = number of sentences |
| Counter.AddKeys | text_analyzer.py:19 | an update keeps the key order when the key is known and appends a new key last |
| Counter.AddGet | text_analyzer.py:19 | an update adds one to the counted key's count and changes no other count |
| Counter.AddTotal | text_analyzer.py:19 | an update adds one to the sum of the counts |
| Counter.AddValid | text_analyzer.py:19 | an update keeps keys distinct and counts positive |
| Counter.CountValid | text_analyzer.py:19-20 | a built table has distinct keys and positive counts |
| Counter.CountGet | text_analyzer.py:19-20 | each key's count, with zero for a missing key, is its number of occurrences in the counted sequence |
| Counter.CountKeys | text_analyzer.py:19-20 | the keys are exactly the elements of the counted sequence |
| Counter.CountTotal | text_analyzer.py:19-20 | the counts sum to the length of the counted sequence |
| Counter.CountFirstSeenOrder | text_analyzer.py:19-20 | keys are in the order of their first occurrence in the counted sequence |
| Counter.CountMap | text_analyzer.py:19-20 | as a dictionary, the table maps each distinct element to its number of occurrences |
| Counter.GetEntry | text_analyzer.py:19 | in a well-formed table, looking up an entry's key gives that entry's count |
| Ranking.SortPermutes | cli.py:44 | sorting by count is a permutation of the entries |
| Ranking.SortSorted | cli.py:44 | the sorted entries have non-increasing counts |
| Ranking.SortStable | cli.py:44 | sorting keeps the entries of each count in their original order |
| Ranking.SortTotal | cli.py:44 | sorting keeps the sum of the counts |
| Ranking.MostCommonLength | cli.py:44 | most_common(n) returns min(n, table size) entries, and none when n <= 0 |
| Ranking.MostCommonNonIncreasing | cli.py:44 | counts in the result are non-increasing |
| Ranking.MostCommonFromTable | cli.py:44 | the result is a sub-multiset of the table's entries |
| Ranking.MostCommonCounts | cli.py:44 | for a well-formed table, each result entry's count equals the table's count for its key, and no key repeats |
| Ranking.MostCommonTop | cli.py:44 | a table entry that was left out has a count no larger than any listed entry |
| Ranking.MostCommonAll | cli.py:44 | when n is at least the table size, the result holds all entries and the same count total |
| Ranking.MostCommonTieOrder | cli.py:44 | entries with equal counts come out in the table's insertion order |
| Ranking.WithCountPrefix | cli.py:44 | the result's entries of any one count are the first entries of that count in the table |
| Ranking.MostCommonOfCount | cli.py:42-51 | on Counter(xs): min(n, distinct) entries, distinct keys, non-increasing, each an element of xs with its occurrence count |
| Ranking.MostCommonOfCountTies | cli.py:42-51 | on Counter(xs): equal counts come out in order of first occurrence in xs |
| Ranking.MostCommonOfCountTop | cli.py:42-51 | on Counter(xs): an element left out occurs no more often than any element listed |
| AnalyzerExamples.CatsAndDogsWords | text_analyzer.py:34 | the tokens of "Cats run. Dogs run fast." give the words cats, run, dogs, run, fast |
| AnalyzerExamples.CatsAndDogs | text_analyzer.py:11-30 | "Cats run. Dogs run fast." gives 5 words, run counted twice, average 18/5, 2 sentences |
| AnalyzerExamples.TiedLetters | cli.py:50 | "AAAA bbbb" gives letter counts a:4, b:4 in that order, and most_common(1) is a:4 |
| AnalyzerExamples.Contractions | text_analyzer.py:34 | the token 's is dropped and n't is kept |
| AnalyzerExamples.EmptyContent | text_analyzer.py:18 | empty content, with no tokens, fails with ZeroDivisionError |

## Left out

- NLTK word and sentence tokenization (`word_tokenize`, `sent_tokenize`, text_analyzer.py:33, 42) are foreign segmentation models. Their outputs are inputs to `AnalyzeText`.
- VADER sentiment (`get_sentiment`, text_analyzer.py:56-59) is left out. It uses a foreign lexicon and floating-point scoring, so the report has no sentiment entry. Nor is the fact modelled that `analyze_text` computes sentiment before the division, so a failure there would come first.
- Part-of-speech tagging and named-entity chunking (text_analyzer.py:45-54) are foreign calls that `analyze_text` does not use.
- text_scraper.py is left out: it is an HTTP fetch and HTML parsing. cli.py's option parsing and output formatting are left out too. Only its use of `most_common` is modelled.
- CharClass.IsAlpha: restricted to ASCII letters. Python's `isalpha` also accepts non-ASCII letters, which this model drops.
- CharClass.Lower: ASCII only. Python's `lower()` also lower-cases non-ASCII letters, sometimes into more than one character. Here characters outside A-Z are unchanged, so lengths are always kept.
- CharClass.IsWordChar: `\w` restricted to ASCII letters, digits and underscore. Python's `\w` also accepts Unicode letters and digits.
- TextAnalyzer.AverageWordLength: the result is the exact ratio (total length, word count). It is not the IEEE double that Python's `/` rounds to.
- The `TextAnalyzer` object only stores the content once, at construction. The model passes the content as a parameter instead.
