/**
 * `NGramManager`: a table of word trigrams that `insert` fills from text
 * and `generate` walks to build sentences. The SQLite table is the field
 * `table`; the recursive query of `generate` is a first-in first-out
 * worklist, the order in which SQLite evaluates a recursive common table
 * expression.
 */
module Manager {
  import opened Wrappers
  import opened Tokens
  import opened Windows
  import opened Store
  import opened Chains

  /** Why `generate` raises: the `ValueError` when `max_length` is below
      `min_length`, or the `OverflowError` of binding a query parameter that
      does not fit a 64-bit SQLite INTEGER. */
  datatype GenerateError = MaxLengthBelowMinLength | IntegerOutOfRange

  /** The range of a SQLite INTEGER, a signed 64-bit value. */
  predicate IsInt64(x: int) {
    -0x8000_0000_0000_0000 <= x < 0x8000_0000_0000_0000
  }

  /** `max_length`, which defaults to `min_length + 10` when it is None. */
  function EffectiveMaxLength(maxLength: Option<int>, minLength: int): int {
    if maxLength.None? then minLength + 10 else maxLength.value
  }

  class NGramManager {
    /** The rows of the `NGram` table, in insertion order. */
    var table: seq<Trigram>

    /** The primary key keeps rows unique; every stored token is a word or a
        pad symbol. */
    ghost predicate Valid()
      reads this
    {
      NoDuplicates(table) && forall i :: 0 <= i < |table| ==> WordTrigram(table[i])
    }

    /** A manager over a new database: the table starts empty. */
    constructor ()
      ensures Valid() && table == []
    {
      table := [];
    }

    /** `insert(text)`: every non-blank line is padded on both sides and its
        trigrams are inserted with `INSERT OR IGNORE`. The table becomes the
        union of the old rows and the text's trigrams, old rows first; a
        text whose trigrams are all stored already leaves it unchanged. */
    method Insert(text: string)
      requires Valid()
      modifies this
      ensures Valid()
      ensures table == InsertText(old(table), text)
      ensures Elems(table) == Elems(old(table)) + TextTrigrams(text)
      ensures |table| >= |old(table)| && table[..|old(table)|] == old(table)
      ensures TextTrigrams(text) <= Elems(old(table)) ==> table == old(table)
    {
      ghost var before := table;
      var lines := Split(text, '\n');
      for i := 0 to |lines|
        invariant Valid()
        invariant table == InsertLines(before, lines[..i])
      {
        InsertLinesStep(before, lines, i);
        InsertLineInto(lines[i]);
      }
      assert lines[..|lines|] == lines;
      InsertTextEffect(before, text);
      InsertTextKeepsValid(before, text);
      if TextTrigrams(text) <= Elems(before) {
        InsertTextAbsorbed(before, text);
      }
    }

    /** One iteration of the loop in `insert`: a blank line is skipped,
        otherwise its width-3 windows padded on both sides are inserted. */
    method InsertLineInto(line: string)
      requires Valid()
      modifies this
      ensures Valid()
      ensures table == InsertLine(old(table), line)
    {
      if Strip(line) == [] {
        return;
      }
      var ngrams := LineNgrams(line);
      StripEmptyIffNoWords(line);
      LineNgramsAreWords(line);
      ExecuteManyInto(ngrams);
    }

    /** `cursor.executemany` of the `INSERT OR IGNORE` statement: each
        window in turn is stored unless a token is None or the row is
        stored already. */
    method ExecuteManyInto(ngrams: seq<seq<Token>>)
      requires Valid() && WindowsOfWords(ngrams)
      modifies this
      ensures Valid()
      ensures table == ExecuteMany(old(table), ngrams)
    {
      for j := 0 to |ngrams|
        invariant Valid()
        invariant table == ExecuteMany(old(table), ngrams[..j])
      {
        ExecuteManySnoc(old(table), ngrams[..j], ngrams[j]);
        assert ngrams[..j + 1] == ngrams[..j] + [ngrams[j]];
        match AsTrigram(ngrams[j]) {
          case None =>
          case Some(t) =>
            if t !in table {
              AppendNew(table, t);
              table := table + [t];
            }
        }
      }
      assert ngrams[..|ngrams|] == ngrams;
    }

    /** The recursive query `GeneratedSentance`: the base rows are queued,
        then rows are taken from the front of the queue, emitted, counted
        against `rowLimit` (negative: no limit) and, when their depth is at
        most `maxDepth`, extended by every matching triple at the back of
        the queue. Every emitted row is a chain from `ctx` at a reachable
        depth; unless `rowLimit` cut the query short, every such chain is
        emitted. */
    method GeneratedSentance(ctx: (Token, Token), maxDepth: int, rowLimit: int) returns (rows: seq<Row>)
      ensures forall i :: 0 <= i < |rows| ==> IsRow(table, ctx, maxDepth, rows[i])
      ensures rowLimit >= 0 ==> |rows| <= rowLimit
      ensures rowLimit < 0 || |rows| < rowLimit ==>
                forall toks :: IsChain(table, ctx, toks) && WithinDepth(|toks| - 2, maxDepth) ==>
                  exists i :: 0 <= i < |rows| && rows[i].sentence == toks
    {
      var tbl := table;
      var queue := InitialRows(tbl, ctx);
      rows := [];
      WorklistStart(tbl, ctx, maxDepth);
      while queue != [] && (rowLimit < 0 || |rows| < rowLimit)
        invariant WorklistInvariant(tbl, ctx, maxDepth, rows, queue)
        invariant rowLimit >= 0 ==> |rows| <= rowLimit
        decreases Potential(queue, maxDepth, |tbl|)
      {
        var r := queue[0];
        var kids := if r.depth <= maxDepth then Extensions(tbl, r) else [];
        WorklistStep(tbl, ctx, maxDepth, rows, queue);
        WorklistShrinks(tbl, maxDepth, queue);
        rows := rows + [r];
        queue := queue[1..] + kids;
      }
    }

    /** The final select: the rows at least `minDepth` deep that end on the
        target, rendered as text, at most `limit` of them (negative: no
        limit). Unless the limit cut it short, every such row is rendered. */
    static method SelectSentences(rows: seq<Row>, minDepth: int, target: (Token, Token), limit: int)
      returns (texts: seq<string>)
      ensures texts == Limit(SelectedTexts(rows, minDepth, target), limit)
      ensures |texts| <= |rows|
      ensures limit >= 0 ==> |texts| <= limit
      ensures forall k :: 0 <= k < |texts| ==> RenderedFrom(texts[k], rows, minDepth, target)
      ensures limit < 0 || |texts| < limit ==>
                forall i :: 0 <= i < |rows| && Selected(rows[i], minDepth, target) ==>
                  Join(rows[i].sentence, " ") in texts
    {
      texts := [];
      var i := 0;
      while i < |rows| && (limit < 0 || |texts| < limit)
        invariant 0 <= i <= |rows|
        invariant texts == SelectedTexts(rows[..i], minDepth, target)
        invariant limit >= 0 ==> |texts| <= limit
      {
        assert rows[..i + 1] == rows[..i] + [rows[i]];
        SelectedTextsSnoc(rows[..i], rows[i], minDepth, target);
        if Selected(rows[i], minDepth, target) {
          texts := texts + [Join(rows[i].sentence, " ")];
        }
        i := i + 1;
      }
      SelectedTextsPrefix(rows, i, minDepth, target);
      if i == |rows| {
        assert rows[..i] == rows;
      }
      SelectedTextsSound(rows, minDepth, target);
      SelectedTextsComplete(rows, minDepth, target);
      forall k | 0 <= k < |texts| ensures RenderedFrom(texts[k], rows, minDepth, target) {
        assert texts[k] == SelectedTexts(rows, minDepth, target)[k];
      }
    }

    /** `generate(seed, ending, max_length, min_length, limit, row_limit)`.
        It fails with the `ValueError` exactly when `max_length` is given and
        below `min_length`, and otherwise with an overflow exactly when one
        of the bound integers (`limit`, `min_length`, the effective
        `max_length`, `row_limit`) does not fit 64 bits. Otherwise every
        sentence returned is the space-join of a chain that starts with the seed context, steps through stored triples, is at
        least `min_length` and at most `max(1, max_length + 1)` triples
        deep and ends on the target; splitting the sentence on whitespace
        gives that chain back. There are at most `limit` and at most
        `row_limit` sentences (negative: no bound), and with no row limit
        and the result limit not reached every such chain is returned. The
        table is not changed. */
    method Generate(seed: string := "", ending: string := "", maxLength: Option<int> := None,
                    minLength: int := 4, limit: int := 1, rowLimit: int := 10000000)
      returns (result: Result<seq<string>, GenerateError>)
      requires Valid()
      ensures result == Failure(MaxLengthBelowMinLength) <==>
                maxLength.Some? && maxLength.value < minLength
      ensures result == Failure(IntegerOutOfRange) <==>
                EffectiveMaxLength(maxLength, minLength) >= minLength &&
                !(IsInt64(limit) && IsInt64(minLength) &&
                  IsInt64(EffectiveMaxLength(maxLength, minLength)) && IsInt64(rowLimit))
      ensures result.Success? && limit >= 0 ==> |result.value| <= limit
      ensures result.Success? && rowLimit >= 0 ==> |result.value| <= rowLimit
      ensures result.Success? ==>
                forall k :: 0 <= k < |result.value| ==>
                  AnswerText(table, SeedContext(seed), TargetContext(ending), minLength,
                             EffectiveMaxLength(maxLength, minLength), result.value[k])
      ensures result.Success? && rowLimit < 0 && (limit < 0 || |result.value| < limit) ==>
                forall toks :: IsAnswer(table, SeedContext(seed), TargetContext(ending), minLength,
                                        EffectiveMaxLength(maxLength, minLength), toks) ==>
                  Join(toks, " ") in result.value
    {
      var maxDepth := EffectiveMaxLength(maxLength, minLength);
      if maxDepth < minLength {
        return Failure(MaxLengthBelowMinLength);
      }
      if !(IsInt64(limit) && IsInt64(minLength) && IsInt64(maxDepth) && IsInt64(rowLimit)) {
        return Failure(IntegerOutOfRange);
      }
      var ctx := SeedContext(seed);
      var target := TargetContext(ending);
      var rows := GeneratedSentance(ctx, maxDepth, rowLimit);
      var texts := SelectSentences(rows, minLength, target, limit);
      RenderedAreAnswers(table, ctx, target, minLength, maxDepth, rows, texts);
      if rowLimit < 0 && (limit < 0 || |texts| < limit) {
        AnswersAreRendered(table, ctx, target, minLength, maxDepth, rows, texts);
      }
      result := Success(texts);
    }
  }
}
