# TF-IDF ranker and call-number ordering, modelled in Dafny

This project models two programs from an information-science coursework repository.

**The TF-IDF ranker, `INST447_WS/tfidf.py`.**
- `get_words` is the tokenizer:
  - it collapses every run of two or more hyphens to a space;
  - it finds the maximal runs of `[\w'-]`;
  - it strips apostrophes, hyphens and underscores from each run's ends;
  - it drops runs that are left empty and lower-cases the rest.
- `TfidfCalculator` keeps two pieces of state:
  - `tf`: each document key mapped to a `Counter` of the document's words;
  - `df`: per word, the number of documents read that contain it.
- `read_file` updates both in place.
- `important_words` scores every word of one document as `(count / total) * log(docs / df)`. It sorts the words by descending score, stably, and returns all of them or the `[:num_words]` slice.

**The call-number sorter, `INST447_WS/books.py`.**
- A `Book` has a call number, a title and an author.
- `parse_call_number` splits the call number with one regular expression into:
  - a class: the leading capitals;
  - an initial numeral: digits, with an optional fraction;
  - a cutter: the rest of the line, stripped.
- `__lt__` compares two books:
  - by class, lexicographically;
  - then, when the numeral strings differ, by the numerals' values;
  - then by cutter.

## Module layout

- `chars.dfy` (`Chars`): the ASCII character classes.
  - `\w`, `\d` and `A-Z`;
  - Python's `isspace` set;
  - `lower`;
  - lexicographic string comparison;
  - `Option` and `Result`.
- `tokenizer.dfy` (`Tokenizer`):
  - `Tokenize`, the tokenizer as a function of the text;
  - `GetWords`, the source's loop, proved to compute `Tokenize`.
- `counter.dfy` (`Counting`):
  - `Counter(words)` as a sequence of entries in first-occurrence order;
  - `Counter.update(set(words))` on the document frequencies.
- `ranking.dfy` (`Ranking`): the scores, the stable descending sort and Python's slice.
- `tfidf.dfy` (`Tfidf`): the class `TfidfCalculator`.
  - Its fields `tf` and `df` are updated in place by `ReadFile`.
  - `ImportantWords` is a function that reads them.
- `books.dfy` (`Books`): the `Book` value, the regular-expression match, `strip()`, the numeral value and the `__lt__` order.

## Behaviour worth knowing

- **Reading a key that has already been read** is not refused. The new counter replaces the old one, and the document frequencies are incremented again, so they can stop being document counts (`RereadCountsTwice`).
- **A document with no tokens** is not an error. Its ranking is empty and no division happens (`RankEmpty`).
- **An unknown key** fails with `KeyError` (`ImportantWords`).
- **`num_words` defaults to 10**, so a call without it returns at most ten words (`DefaultTopTen`).

## Model

| member | source | states |
|---|---|---|
| Tokenizer.GetWords | INST447_WS/tfidf.py:40-55 | The append loop over the runs returns exactly `Tokenize(s)`, the hyphen-collapse / find-runs / strip / drop-empty / lower pipeline |
| Tokenizer.CollapseNoDoubleHyphen | INST447_WS/tfidf.py:50 | After `re.sub(r"--+", " ", s)` no two hyphens are adjacent |
| Tokenizer.CollapseKeeps | INST447_WS/tfidf.py:50 | Text without a double hyphen is unchanged by the substitution |
| Tokenizer.CollapseReplacesRun | INST447_WS/tfidf.py:50 | A maximal run of two or more hyphens becomes exactly one space, and the text on either side is substituted independently |
| Tokenizer.CollapseAppend | INST447_WS/tfidf.py:50 | The substitution distributes over a split point that does not fall inside a hyphen run |
| Tokenizer.CollapseStart | INST447_WS/tfidf.py:50 | The substitution leaves text non-empty exactly when it was non-empty; the result starts with a hyphen exactly when the text starts with a single hyphen |
| Tokenizer.RunSpansSpec | INST447_WS/tfidf.py:51 | The runs `re.findall(r"[\w'-]+")` reports are maximal runs of `[\w'-]`, in text order, not touching, and every `[\w'-]` character lies in one of them |
| Tokenizer.StripInfix | INST447_WS/tfidf.py:52 | `strip("'-_")` is an infix of the word, and everything it removes from either end is `'`, `-` or `_` |
| Tokenizer.Strip | INST447_WS/tfidf.py:52 | The stripped word is empty or has no `'`, `-` or `_` at either end |
| Tokenizer.Normalize | INST447_WS/tfidf.py:52-54 | A run is dropped exactly when stripping leaves nothing |
| Tokenizer.NormalizeIsToken | INST447_WS/tfidf.py:52-54 | A kept run of `[\w'-]` without double hyphens gives a well-formed token: non-empty, no upper case, no edge character at either end, no double hyphen |
| Tokenizer.TokensAreTokens | INST447_WS/tfidf.py:49-55 | Every word `get_words` returns is a well-formed token |
| Tokenizer.TokensFromRuns | INST447_WS/tfidf.py:50-54 | Word `k` is the stripped, lower-cased text of a maximal run of the hyphen-collapsed text |
| Tokenizer.TokensInTextOrder | INST447_WS/tfidf.py:51-54 | The words come in the order of their runs in the text |
| Tokenizer.TokensCoverRuns | INST447_WS/tfidf.py:51-54 | No run is lost: every run that does not strip to nothing yields one of the words |
| Tokenizer.FilterMapOrigins | INST447_WS/tfidf.py:51-54 | The drop-empty loop is an order-preserving filter: each output is the image of an input, at increasing positions, and every kept input appears |
| Chars.Lower | INST447_WS/tfidf.py:54 | `lower()` on ASCII keeps the length and maps each character to its lower-case form |
| Counting.Bump | INST447_WS/tfidf.py:22 | Counting one more word adds a key only when the word is new |
| Counting.TallyCount | INST447_WS/tfidf.py:22 | `Counter(words)[w]` is the number of occurrences of `w` in the words |
| Counting.TallyTotal | INST447_WS/tfidf.py:22 | The counts of `Counter(words)` sum to the number of words |
| Counting.TallyWellFormed | INST447_WS/tfidf.py:22 | `Counter(words)` has distinct keys and positive counts |
| Counting.TallyKeyOrder | INST447_WS/tfidf.py:22 | The keys of `Counter(words)` are exactly the distinct words, in the order of their first occurrences |
| Counting.TallyHas | INST447_WS/tfidf.py:22 | A word is a key of `Counter(words)` exactly when it occurs in the words |
| Counting.AddOnce | INST447_WS/tfidf.py:23 | `df.update(set(words))` adds exactly one to each distinct word and leaves every other frequency as it was |
| Ranking.Scores | INST447_WS/tfidf.py:28-31 | The score dictionary has one entry per key of the document's counter, in the counter's order |
| Ranking.SortPermutes | INST447_WS/tfidf.py:32 | The sort is a permutation |
| Ranking.SortIsDescending | INST447_WS/tfidf.py:32 | The sort orders by non-increasing score |
| Ranking.SortIsStable | INST447_WS/tfidf.py:32 | The sort is stable: entries of equal score keep their relative order |
| Ranking.RankedPermutesScores | INST447_WS/tfidf.py:28-32 | The ranking holds exactly the scored words, each once |
| Ranking.RankEntries | INST447_WS/tfidf.py:28-36 | Each result entry is a word of the document with its TF-IDF score `(count/total) * ln(docs/df)` |
| Ranking.RankDescending | INST447_WS/tfidf.py:32-36 | Scores never increase along the result |
| Ranking.RankStable | INST447_WS/tfidf.py:28-32 | Words of equal score appear in the counter's order, which is first-occurrence order |
| Ranking.RankAll | INST447_WS/tfidf.py:33-34 | With `num_words=None` every distinct word of the document is returned |
| Ranking.RankTruncates | INST447_WS/tfidf.py:35-36 | With `num_words=n` the result is the first `min(n, #words)` entries of the ranking, or all but the last `-n` when `n` is negative |
| Ranking.RankSpec | INST447_WS/tfidf.py:28-36 | For a known document the result holds only the document's words with their TF-IDF scores, in non-increasing order. It is the whole ranking, with every word, for `None`, and Python's `[:n]` slice of the ranking for `n` |
| Ranking.RankEmpty | INST447_WS/tfidf.py:26-36 | A document without words ranks to the empty result |
| Tfidf.TfidfCalculator.constructor | INST447_WS/tfidf.py:15-17 | Both tables start empty, and the invariants hold |
| Tfidf.TfidfCalculator.ReadFile | INST447_WS/tfidf.py:19-23 | Stores `Counter(get_words(text))` under the key, replacing any earlier table. Adds one to the document frequency of each distinct word. Keeps every table rankable. Keeps document frequencies equal to document counts when the key is new |
| Tfidf.TfidfCalculator.ImportantWords | INST447_WS/tfidf.py:25-36 | Fails with `KeyError` exactly for an unknown key. Otherwise every entry is a word of the document carrying its TF-IDF score `(count/total) * ln(docs/df)`, and scores never increase. For `None` the result is the whole ranking and contains every word of the document. For `n` it is the `[:n]` slice of the ranking: the `min(n, #words)` best entries, or all but the last `-n` when `n` is negative. `num_words` defaults to 10 |
| Tfidf.DefaultTopTen | INST447_WS/tfidf.py:25-36 | Called without `num_words` on a known key, the result has `min(10, #words)` entries |
| Tfidf.IngestCovered | INST447_WS/tfidf.py:22-23 | Reading any document, even under a key read before, keeps every table well formed with positive document frequencies |
| Tfidf.IngestConsistent | INST447_WS/tfidf.py:22-23 | Reading a new key keeps each `df[w]` equal to the number of documents containing `w` |
| Tfidf.IngestDocs | INST447_WS/tfidf.py:22 | Reading a new key adds it to the documents containing `w` exactly when its words contain `w` |
| Tfidf.IngestTable | INST447_WS/tfidf.py:21-22 | The new table counts each word's occurrences, has exactly the distinct words in first-occurrence order and sums to the word count. Other keys' tables are untouched |
| Tfidf.IngestFrequencies | INST447_WS/tfidf.py:23 | Reading a document raises `df[w]` by one if `w` occurs in it, however often, and otherwise leaves it alone |
| Tfidf.FrequencyBounds | INST447_WS/tfidf.py:22-29 | When every key was read once, each word of a document has `1 <= df[w] <= len(tf)`, so the argument of the logarithm is at least 1 |
| Tfidf.RereadCountsTwice | INST447_WS/tfidf.py:19-23 | Reading one key twice leaves one document, but every word's document frequency is 2 |
| Tfidf.TwoDocumentExample | INST447_WS/tfidf.py:19-36 | For documents "sun sun moon" and "moon star star", the top word of the first is "sun" at `(2/3) ln 2`, and "moon" scores 0 |
| Books.MatchExists | INST447_WS/books.py:45-46 | The regular expression matches exactly when the call number starts with one or more capitals followed by a digit |
| Books.MatchShape | INST447_WS/books.py:45-49 | On a match: the line up to the first newline is class + numeral + rest; the class is a non-empty run of capitals not followed by a capital; the numeral is digits with an optional `.digits`; the rest has no newline |
| Books.MatchGreedy | INST447_WS/books.py:45 | The numeral is greedy: no digit follows it, and no `.digit` follows a numeral without a fraction |
| Books.MatchOf | INST447_WS/books.py:45 | Conversely, any split of a line into a maximal capital run, a greedy numeral and a newline-free rest is the match |
| Books.StripSpace | INST447_WS/books.py:49 | `strip()` removes only whitespace, from both ends, and leaves an infix with no whitespace at either end |
| Books.ParseCallNumber | INST447_WS/books.py:34-60 | The class is empty exactly when the numeral is, and then all three parts are empty. Any numeral is digits with an optional fraction |
| Books.ParseMatch | INST447_WS/books.py:45-54 | For a matching call number, the class is the maximal leading run of capitals and the initial numeral is the greedy digits-with-optional-fraction after it; together they are a prefix of the call number. The cutter is the rest of that line with white space stripped from both ends |
| Books.ParseFailure | INST447_WS/books.py:45-60 | A call number not starting with capitals and then a digit parses to three empty strings |
| Books.NumeralValueBounds | INST447_WS/books.py:81 | The exact value of a numeral lies between its integer part and the next integer |
| Books.LessCases | INST447_WS/books.py:78-83 | Of two books whose classes differ, one always precedes the other (the order on classes is total). The remaining clauses unfold the three branches: class, then numeral value, then cutter |
| Books.EqualValuesIncomparable | INST447_WS/books.py:80-81 | Same class, different numeral strings of equal value: neither book precedes the other, whatever the cutters |
| Books.LessIrreflexive | INST447_WS/books.py:78-83 | No book precedes itself |
| Books.LessAsymmetric | INST447_WS/books.py:78-83 | Never both `a < b` and `b < a` |
| Books.LessTransitive | INST447_WS/books.py:78-83 | `a < b` and `b < c` imply `a < c` |
| Books.Incomparable | INST447_WS/books.py:78-83 | Neither book precedes the other exactly when their classes are equal, their numeral values are equal, and, for equal numeral strings, their cutters are equal |
| Books.LessIgnoresTitleAndAuthor | INST447_WS/books.py:30-83 | The order depends only on the call numbers, never on title or author |
| Books.IncomparabilityNotTransitive | INST447_WS/books.py:78-83 | "A76 z" and "A76 a" are each incomparable with "A76.0", yet "A76 a" precedes "A76 z". So the order is not a strict weak order, and a sort's result can depend on the input order |

## Left out

- `main` and `parse_args` of both programs: directory globbing, argument parsing, `sys.exit` and printing.
- The `open`/`read` in `read_file`. `ReadFile` receives the key and the text.
- `read_books`, `print_books` and `Book.__repr__`. These cover file reading, printing and Python's `repr` escaping.
- `Book.__init__` only assigns three fields once. It is the `Book` datatype's constructor.
- `math.log` and float division in the score. The logarithm is a parameter `ln`, and the scores are exact reals. So no property depends on rounding, and ties that rounding would create or break are not modelled.
- The float conversion in `__lt__` is modelled as the exact decimal value of the numeral. Rounding of very long numerals is not captured.
- Full Unicode. `\w`, `\d`, `[A-Z]` and `lower()` are modelled on ASCII. `strip()` uses Python's whitespace set.
- The Python dictionary that `important_words` returns is modelled as its items in iteration order.
- `energy.py`, `education.py`, `holidays.py` and `a.py`, which do database, CSV and HTTP work, are not part of this model.
- Tfidf.TfidfCalculator.ReadFile: the frequency bound `df[w] <= len(tf)` is kept only while no key is read twice, because the source re-counts a re-read document.
