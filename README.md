# NGramManager: a verified model of a trigram sentence generator

`NGramManager` (ngram.py) keeps a SQLite table `NGram` of word trigrams.
`insert(text)` splits a text into lines, pads every non-blank line with two
start symbols `<s>` and two end symbols `</s>`, and stores each window of
three consecutive tokens with `INSERT OR IGNORE` under a primary key on the
whole triple. `generate(seed, ending, …)` builds sentences by chaining stored
triples. It starts from the last two words of the seed and runs a recursive
query that repeatedly appends the third token of a triple whose first two
tokens equal the sentence's last two. It then keeps the sentences that are
deep enough and end on the ending's first word (or on two end symbols).
Both operations go through `generate_ngrams`, a thin wrapper around nltk's
`pad_sequence` and `ngrams`.

The model has six modules:

- `Wrappers` (wrappers.dfy): `Option` for Python's `None`, `Result` for a raised exception.
- `Tokens` (tokens.dfy): the Python string primitives used.
  - `str.split()` is `Words`: runs of non-whitespace, with Python's `isspace` set.
  - `str.split("\n")` is `Split`.
  - `str.strip()` is `Strip`.
  - Concatenation with a separator is `Join`.
- `Windows` (windows.dfy): `generate_ngrams`, with nltk's padding and sliding window written out. A token is `Option<string>`, since a pad symbol may be `None`.
- `Store` (store.dfy): the table as a duplicate-free sequence of triples in insertion order. It defines what `insert` does to it as functions on that sequence, plus the same effect as sets of triples.
- `Chains` (chains.dfy): the specification side of `generate`.
  - The seed context and the target.
  - What a chain through the table is.
  - The base case and the recursive step of the query.
  - A termination measure for the worklist.
  - The invariant the worklist keeps.
  - The final select.
- `Manager` (manager.dfy): the class `NGramManager`.
  - The field `table` stands for the SQLite table.
  - `Insert` loops over the lines and updates that field.
  - `GeneratedSentance` runs the recursive query as a first-in first-out worklist. This is the order in which SQLite evaluates a recursive common table expression. Every row taken from the queue counts against `row_limit`.
  - `SelectSentences` is the final select.
  - `Generate` ties them together.

SQL semantics the model follows:

- A negative `LIMIT` means no limit, and `LIMIT 0` means no rows.
- `x = NULL` is never true, so a `None` seed token matches nothing.
- `:p IS NULL` makes a `None` target token a wildcard.
- `INSERT OR IGNORE` skips both a duplicate row and a row with a NULL column.

The recursive step tests the parent row's depth (`GS.Depth <= :max_depth`). A returned chain of `d` triples therefore has `d == 1` or `2 <= d <= max_length + 1`, i.e. `d <= max(1, max_length + 1)`. When `max_length` is negative and `min_length <= 1`, depth-1 chains are still returned although `d > max_length + 1`. `Chains.WithinDepth` states the bound in this exact form.

`Generate` takes the defaults of ngram.py:39: `seed=""`, `ending=""`, `max_length=None`, `min_length=4`, `limit=1`, `row_limit=10000000`. ngram.py itself fixes the arity of the table at 3. It does not randomise the order of results, strip pad symbols from the returned sentences, match seeds partially, or lock the database, and neither does the model.

Every integer `generate` binds into the query must fit a signed 64-bit SQLite integer, or the call raises `OverflowError` (ngram.py:137-147). The model returns `Failure(IntegerOutOfRange)` in that case, tested by `Manager.IsInt64` after the `ValueError` check.

## Model

| member | source | states |
|---|---|---|
| Tokens.Words | ngram.py:33 | `text.split()`: every piece is a non-empty token free of whitespace |
| Tokens.WordsKeepEveryOtherChar | ngram.py:33 | `text.split()` drops exactly the whitespace: its pieces concatenated are the text's non-whitespace characters in order |
| Tokens.NonSpaceAppend | ngram.py:33 | removing whitespace distributes over concatenation |
| Tokens.NonSpaceOfWord | ngram.py:33 | a whitespace-free string is unchanged by removing whitespace |
| Tokens.Split | ngram.py:157 | `text.split("\n")`: at least one piece, and no piece contains a line break |
| Tokens.Strip | ngram.py:159 | `line.strip()` is empty exactly when the line is all whitespace |
| Tokens.StripEmptyIffNoWords | ngram.py:159-162 | a line is skipped as blank exactly when it has no words |
| Tokens.JoinOfSplit | ngram.py:157 | joining the lines of a text with "\n" gives the text back: no character is lost by the line split |
| Tokens.SplitAround | ngram.py:157 | splitting `a + "\n" + b` gives the lines of `a` followed by the lines of `b` |
| Tokens.WordsOfJoin | ngram.py:86-104 | the space-joined sentence of a chain of words splits back into exactly that chain |
| Windows.Repeat | ngram.py:72-77 | `[x] * k`: `max(0, k)` copies of `x` |
| Windows.Lift | ngram.py:33 | the words as tokens, one `Some(word)` per word, in order |
| Windows.NgramsShape | ngram.py:31-37 | nltk's `ngrams`: `|s| - n + 1` windows (none when `|s| < n` or `n == 0`), window `i` is the slice `[i, i + n)` |
| Windows.GenerateNgrams | ngram.py:30-37 | on `k` words, `max(0, L - n + 1)` windows with `L = k + (n-1)[pad_left] + (n-1)[pad_right]`; each has width `n` and is the padded slice `[i, i + n)` |
| Windows.GenerateNgramsOverlap | ngram.py:30-37 | consecutive windows overlap in `n - 1` tokens |
| Store.ExecuteManyEffect | ngram.py:164-176 | `executemany` of `INSERT OR IGNORE`: the rows become old rows ∪ the windows' triples, old rows stay first in order, and no duplicate appears |
| Store.ExecuteManyAbsorbed | ngram.py:164-176 | windows whose triples are all stored leave the table unchanged |
| Store.InsertLineEffect | ngram.py:159-176 | one loop iteration adds exactly the line's triples (nothing for a blank line), keeps old rows first, adds no duplicate |
| Store.InsertLinesEffect | ngram.py:157-176 | the loop over lines adds exactly the union of the lines' triples, keeping old rows first and no duplicates |
| Store.InsertLinesAbsorbed | ngram.py:157-176 | lines whose triples are all stored leave the table unchanged |
| Store.InsertTextEffect | ngram.py:152-176 | after `insert(text)` the table's rows are the old rows ∪ the padded width-3 windows of every non-blank line; old rows keep their place; no duplicates |
| Store.InsertTextAbsorbed | ngram.py:164-176 | a text whose triples are all stored leaves the table unchanged |
| Store.InsertTextIdempotent | ngram.py:19-25 | inserting the same text twice leaves the table as after the first insert |
| Store.InsertTextKeepsValid | ngram.py:19-25 | insert keeps the table duplicate-free (primary key on the whole triple) and made of whitespace-free tokens |
| Store.InsertTextAcrossLineBreak | ngram.py:157-162 | inserting `a + "\n" + b` is inserting `a`, then `b`: padding never crosses a line break |
| Store.TextTrigramsAcrossLineBreak | ngram.py:157-162 | the triples of `a + "\n" + b` are those of `a` ∪ those of `b` |
| Store.LinesTrigramsConcat | ngram.py:157-162 | the triples of a list of lines are the union over its parts |
| Store.InsertLinesConcat | ngram.py:157-176 | inserting two runs of lines is inserting one run, then the other |
| Store.BlankLinesLeaveTable | ngram.py:157-160 | whitespace-only lines add nothing |
| Store.BlankTextLeavesTable | ngram.py:157-160 | a text made only of whitespace adds nothing |
| Store.SplitOfBlank | ngram.py:157-159 | every line of a whitespace-only text is blank |
| Store.PaddedLineLift | ngram.py:162 | a line padded at width 3 is `<s> <s>` + its words + `</s> </s>` |
| Store.LineNgramsShape | ngram.py:157-162 | a line with `k >= 1` words gives exactly `k + 2` windows of three real tokens: the first `(<s>, <s>, w1)`, the last `(wk, </s>, </s>)`, window `i` the triple at `i` of the padded line |
| Store.LineTrigramsOfWords | ngram.py:157-162 | the rows a non-blank line contributes are exactly the consecutive triples of its padded words |
| Store.PaddedLineWords | ngram.py:162 | every token of a padded line, pad symbols included, is a whitespace-free word |
| Store.LinesTrigramsAreWords | ngram.py:162-176 | every triple inserted from a list of lines is made of whitespace-free tokens |
| Store.TextTrigramsAreWords | ngram.py:162-176 | every triple inserted from a text is made of whitespace-free tokens |
| Chains.SeedContext | ngram.py:67-74 | the start context: `(<s>, <s>)` for a seed without words, `(<s>, w)` for one word, the last two words otherwise |
| Chains.SeedWindows | ngram.py:67 | the seed's width-2 left-padded windows: one per word, the last one holding the last word and the word or start symbol before it |
| Chains.LeftPadded | ngram.py:67 | padding the seed on the left at width 2 puts exactly one start symbol in front of its words |
| Chains.TargetContext | ngram.py:69-79 | the target: `(</s>, </s>)` for an ending without words, otherwise `(None, w1)` with `w1` the ending's first word |
| Chains.Matching | ngram.py:110-112 | the join condition: exactly the stored triples whose first two tokens equal the given pair (SQL `=`: `None` matches nothing), without duplicates |
| Chains.InitialRowsAreChains | ngram.py:85-99 | the base case yields valid depth-1 rows, and the first three tokens of every chain from the seed context are one of them |
| Chains.ExtensionsAreChains | ngram.py:103-114 | the recursive step yields valid rows one level deeper |
| Chains.ExtensionCovers | ngram.py:103-114 | every chain that properly extends a row continues through one of the row's extensions |
| Chains.ReachedThroughExtension | ngram.py:101-114 | a chain that properly extends a row stays reachable once the row's extensions are queued |
| Chains.PotentialStep | ngram.py:101-115 | taking a row off the queue and queueing at most `|table|` extensions, none past `max_depth`, decreases the measure |
| Chains.ChainTokensAreWords | ngram.py:86-104 | every token of a chain through a table of words is a word |
| Chains.Limit | ngram.py:135-136 | SQL `LIMIT`: a prefix of the rows, of length `limit` when that is smaller, all of them for a negative limit |
| Chains.SelectedTextsSound | ngram.py:118-134 | every text of the unlimited select is the space-join of a row that is deep enough and matches the target |
| Chains.SelectedTextsComplete | ngram.py:118-134 | every row that is deep enough and matches the target is rendered in the unlimited select |
| Chains.SelectedTextsPrefix | ngram.py:118-136 | selecting from a prefix of the rows gives a prefix of the selection |
| Chains.RenderedAreAnswers | ngram.py:118-136 | every selected row's text is the space-join of an answer chain, and splitting it on whitespace gives that chain back |
| Chains.AnswersAreRendered | ngram.py:118-134 | if every reachable chain was emitted, every answer chain's text is selected |
| Chains.ReachedAfterPop | ngram.py:101-114 | emitting the head of the queue and queueing its extensions loses no reachable chain |
| Chains.WorklistStart | ngram.py:84-99 | the worklist invariant holds with nothing emitted and the base rows queued |
| Chains.WorklistStep | ngram.py:101-114 | one step of the recursive query keeps every emitted and queued row valid and loses no reachable chain |
| Chains.WorklistShrinks | ngram.py:113-115 | one step of the recursive query decreases the termination measure |
| Manager.NGramManager.constructor | ngram.py:18-25 | the table starts empty (and so without duplicates) |
| Manager.NGramManager.InsertLineInto | ngram.py:159-176 | one iteration of the loop: the table becomes `InsertLine(old table, line)`, unchanged for a blank line; the table stays duplicate-free and made of words |
| Store.LineNgramsAreWords | ngram.py:162 | every window of a non-blank line that has no `None` is a triple of whitespace-free words |
| Store.InsertLinesStep | ngram.py:157-176 | the loop over the first `i + 1` lines is the loop over the first `i` lines followed by line `i` |
| Store.AppendNew | ngram.py:164-176 | storing a row that is not present adds exactly that row and keeps the table duplicate-free |
| Manager.NGramManager.ExecuteManyInto | ngram.py:164-176 | `executemany`: the new table is the old one with each window's triple appended in order unless stored already or holding `None`; given windows of words, the table stays duplicate-free and made of words |
| Manager.NGramManager.Insert | ngram.py:152-179 | the loop over lines leaves the table equal to `InsertText(old table, text)`: old rows ∪ the text's triples, old rows first, no duplicates; a text with nothing new leaves it unchanged |
| Manager.NGramManager.GeneratedSentance | ngram.py:81-116 | every emitted row is a chain from the seed context through stored triples at a reachable depth; at most `row_limit` rows; unless `row_limit` stopped it, every reachable chain is emitted |
| Manager.NGramManager.SelectSentences | ngram.py:118-136 | the texts are the selected rows (depth ≥ `min_length`, target matched) in row order, cut to `limit`; each text comes from a selected row; unless the limit cut it, every selected row is rendered |
| Manager.NGramManager.Generate | ngram.py:39-149 | takes ngram.py's defaults; fails with the `ValueError` exactly when `max_length` is given and below `min_length` (`None` means `min_length + 10`), and otherwise with an overflow exactly when `limit`, `min_length`, the effective `max_length` or `row_limit` lies outside the signed 64-bit range; every sentence is the space-join of an answer chain and splits back into it; at most `limit` and `row_limit` sentences; with no row limit and `limit` not reached, every answer chain is returned; the table is unchanged (no `modifies`) |

## Left out

- SQLite plumbing: the connection, cursors, `CREATE TABLE` and `commit` (ngram.py:14-28, 65, 179). The table is the in-memory field `table`.
- Reopening an existing database file: the constructor models only a fresh database, whose table starts empty.
- The result order of `generate` is fixed here by the first-in first-out worklist. The final select has no `ORDER BY`, so nothing else about order is claimed.
- The `end_token` parameter (ngram.py:139): the query never uses it.
- Arguments of the wrong Python type, such as `limit=None` or a non-integer `max_length`. The model takes `Option<int>` for `max_length` and `int` for the limits.
- The demo script tests.py: it fetches a text over the network and calls an API ngram.py does not have.
- The order of the rows matched in one step of the query. `Chains.Matching` lists them in table insertion order; SQLite may scan them in another order, for example along the primary-key index. Under a non-negative `row_limit` or `limit` this order decides which chains are kept, so the model's choice is one of the possible outcomes, not the only one.
- Manager.NGramManager.Generate: its completeness clause needs `row_limit` negative. With a non-negative `row_limit` the rows emitted before the limit depend on the queue order, and `Generate` does not expose how many rows the query produced.
- Manager.NGramManager.GeneratedSentance: the contract does not state that each chain is emitted only once.
