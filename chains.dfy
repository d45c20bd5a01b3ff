/**
 * The specification side of `generate`: the seed context and the target
 * derived from the `seed` and `ending` texts, the rows of the recursive
 * `GeneratedSentance` query, the join that extends a row by one stored
 * triple, and what a valid chain through the table is.
 */
module Chains {
  import opened Wrappers
  import opened Tokens
  import opened Windows
  import opened Store

  /** The two tokens every generated chain starts with (`seedw1`, `seedw2`):
      the last width-2, left-padded window of the seed, or two start symbols
      for a seed without words. Seed words before the last two play no part. */
  function SeedContext(seed: string): (ctx: (Token, Token))
    ensures var ws := Words(seed);
            ctx == if |ws| == 0 then (Some(LEFT_PAD_SYMBOL), Some(LEFT_PAD_SYMBOL))
                   else if |ws| == 1 then (Some(LEFT_PAD_SYMBOL), Some(ws[0]))
                   else (Some(ws[|ws| - 2]), Some(ws[|ws| - 1]))
  {
    var ngrams := GenerateNgrams(seed, 2, false, true, Some(RIGHT_PAD_SYMBOL), Some(LEFT_PAD_SYMBOL));
    SeedWindows(seed);
    var seedNgram := if |ngrams| == 0 then Repeat(Some(LEFT_PAD_SYMBOL), 3) else ngrams[|ngrams| - 1];
    (seedNgram[0], seedNgram[1])
  }

  /** The seed's width-2, left-padded windows: one per word, the last
      holding the last word and the word (or start symbol) before it. */
  lemma SeedWindows(seed: string)
    ensures var ws, r := Words(seed),
                         GenerateNgrams(seed, 2, false, true, Some(RIGHT_PAD_SYMBOL), Some(LEFT_PAD_SYMBOL));
            && |r| == |ws|
            && (|ws| > 0 ==> r[|ws| - 1] == [if |ws| == 1 then Some(LEFT_PAD_SYMBOL) else Some(ws[|ws| - 2]),
                                             Some(ws[|ws| - 1])])
  {
    var ws := Words(seed);
    var r := GenerateNgrams(seed, 2, false, true, Some(RIGHT_PAD_SYMBOL), Some(LEFT_PAD_SYMBOL));
    var p := Padded(seed, 2, false, true, Some(RIGHT_PAD_SYMBOL), Some(LEFT_PAD_SYMBOL));
    LeftPadded(seed);
    if |ws| > 0 {
      LastPair(p, r[|ws| - 1], |ws|);
    }
  }

  /** Padding a seed on the left at width 2 puts one start symbol in front. */
  lemma LeftPadded(seed: string)
    ensures Padded(seed, 2, false, true, Some(RIGHT_PAD_SYMBOL), Some(LEFT_PAD_SYMBOL))
            == [Some(LEFT_PAD_SYMBOL)] + Lift(Words(seed))
  {
    assert Repeat(Some(LEFT_PAD_SYMBOL), 1) == [Some(LEFT_PAD_SYMBOL)];
  }

  lemma LastPair(p: seq<Token>, w: seq<Token>, k: nat)
    requires 0 < k && |p| == k + 1 && w == p[k - 1..k + 1]
    ensures w == [p[k - 1], p[k]]
  {
  }

  /** What the last two tokens of a chain must match (`targetw1`,
      `targetw2`): two end symbols for an ending without words; otherwise
      the first window of the ending padded on the left with None, so the
      second-to-last token is unconstrained and the last token must be the
      ending's first word. Later ending words play no part. */
  function TargetContext(ending: string): (target: (Token, Token))
    ensures var ws := Words(ending);
            target == if ws == [] then (Some(RIGHT_PAD_SYMBOL), Some(RIGHT_PAD_SYMBOL))
                      else (None, Some(ws[0]))
  {
    var targetNgrams := GenerateNgrams(ending, 2, false, true, Some(RIGHT_PAD_SYMBOL), None);
    var targetNgram := if |targetNgrams| == 0 then Repeat(Some(RIGHT_PAD_SYMBOL), 3) else targetNgrams[0];
    (targetNgram[0], targetNgram[1])
  }

  /** `column = :p OR :p IS NULL`: a None parameter matches anything. */
  predicate Matches(column: string, p: Token) {
    p == None || p == Some(column)
  }

  /** A chain through the table from a context: it starts with the two
      context tokens (SQL `=`: a None context token matches nothing) and
      every three consecutive tokens are a stored row. */
  ghost predicate IsChain(table: seq<Trigram>, ctx: (Token, Token), toks: seq<string>) {
    && |toks| >= 3
    && Some(toks[0]) == ctx.0 && Some(toks[1]) == ctx.1
    && forall i :: 0 <= i < |toks| - 2 ==> TrigramAt(toks, i) in table
  }

  /** A chain of `depth` rows is reached by the recursion: depth 1 always
      (the base case), a deeper one only when its parent's depth is at most
      `maxDepth`, the guard of the recursive step. */
  predicate WithinDepth(depth: int, maxDepth: int) {
    depth == 1 || (2 <= depth <= maxDepth + 1)
  }

  /** A chain `generate` may answer with: reachable, at least `minDepth`
      rows deep, and ending on the target. */
  ghost predicate IsAnswer(table: seq<Trigram>, ctx: (Token, Token), target: (Token, Token),
                           minDepth: int, maxDepth: int, toks: seq<string>)
  {
    && IsChain(table, ctx, toks)
    && WithinDepth(|toks| - 2, maxDepth)
    && |toks| - 2 >= minDepth
    && Matches(toks[|toks| - 2], target.0)
    && Matches(toks[|toks| - 1], target.1)
  }

  /** A row of the recursive table `GeneratedSentance`: the sentence so far
      (as its tokens; `SentanceText` is their space-join), its last two
      tokens (`TokenText2`, `TokenText3`) and its depth. */
  datatype Row = Row(sentence: seq<string>, text2: string, text3: string, depth: int)

  /** The row is a chain from the context with `depth` rows, carrying its
      own last two tokens, at a depth the recursion can reach. */
  ghost predicate IsRow(table: seq<Trigram>, ctx: (Token, Token), maxDepth: int, r: Row) {
    && |r.sentence| == r.depth + 2
    && IsChain(table, ctx, r.sentence)
    && r.text2 == r.sentence[|r.sentence| - 2]
    && r.text3 == r.sentence[|r.sentence| - 1]
    && WithinDepth(r.depth, maxDepth)
  }

  /** The rows of the table whose first two columns equal `a` and `b`, in
      table order (`TokenText1 = a AND TokenText2 = b`). */
  function Matching(table: seq<Trigram>, a: Token, b: Token): (r: seq<Trigram>)
    ensures |r| <= |table|
    ensures forall t :: t in r <==> t in table && Some(t.text1) == a && Some(t.text2) == b
    ensures NoDuplicates(table) ==> NoDuplicates(r)
  {
    if table == [] then []
    else
      var rest := Matching(table[1..], a, b);
      var t := table[0];
      if Some(t.text1) == a && Some(t.text2) == b then [t] + rest else rest
  }

  /** The base case of the recursive query: every stored triple that starts
      with the context, at depth 1. */
  function InitialRows(table: seq<Trigram>, ctx: (Token, Token)): seq<Row> {
    var ms := Matching(table, ctx.0, ctx.1);
    seq(|ms|, i requires 0 <= i < |ms| =>
      Row([ms[i].text1, ms[i].text2, ms[i].text3], ms[i].text2, ms[i].text3, 1))
  }

  /** The recursive step for one row: the row extended by the last token of
      every stored triple whose first two tokens are the row's last two. */
  function Extensions(table: seq<Trigram>, r: Row): seq<Row> {
    var ms := Matching(table, Some(r.text2), Some(r.text3));
    seq(|ms|, i requires 0 <= i < |ms| =>
      Row(r.sentence + [ms[i].text3], ms[i].text2, ms[i].text3, r.depth + 1))
  }

  /** The base case yields exactly the depth-1 chains: each of its rows is
      one, and every chain's first three tokens are one of its rows. */
  lemma InitialRowsAreChains(table: seq<Trigram>, ctx: (Token, Token), maxDepth: int)
    ensures forall i :: 0 <= i < |InitialRows(table, ctx)| ==> IsRow(table, ctx, maxDepth, InitialRows(table, ctx)[i])
    ensures forall toks :: IsChain(table, ctx, toks) ==>
              exists i :: 0 <= i < |InitialRows(table, ctx)| && InitialRows(table, ctx)[i].sentence == toks[..3]
  {
    var ms := Matching(table, ctx.0, ctx.1);
    var rows := InitialRows(table, ctx);
    forall i | 0 <= i < |rows| ensures IsRow(table, ctx, maxDepth, rows[i]) {
      assert ms[i] in ms;
      assert TrigramAt(rows[i].sentence, 0) == ms[i];
    }
    forall toks | IsChain(table, ctx, toks)
      ensures exists i :: 0 <= i < |rows| && rows[i].sentence == toks[..3]
    {
      var t := TrigramAt(toks, 0);
      assert t in ms;
      var i :| 0 <= i < |ms| && ms[i] == t;
      assert rows[i].sentence == toks[..3];
    }
  }

  /** The recursive step keeps rows valid one level deeper. */
  lemma ExtensionsAreChains(table: seq<Trigram>, ctx: (Token, Token), maxDepth: int, r: Row)
    requires IsRow(table, ctx, maxDepth, r)
    requires r.depth <= maxDepth
    ensures forall i :: 0 <= i < |Extensions(table, r)| ==> IsRow(table, ctx, maxDepth, Extensions(table, r)[i])
  {
    var ms := Matching(table, Some(r.text2), Some(r.text3));
    var kids := Extensions(table, r);
    var n := |r.sentence|;
    forall i | 0 <= i < |kids| ensures IsRow(table, ctx, maxDepth, kids[i]) {
      assert ms[i] in ms;
      var s := kids[i].sentence;
      forall j | 0 <= j < |s| - 2 ensures TrigramAt(s, j) in table {
        if j < n - 2 {
          assert TrigramAt(s, j) == TrigramAt(r.sentence, j);
        } else {
          assert TrigramAt(s, j) == ms[i];
        }
      }
    }
  }

  /** A chain that properly extends a row continues through one of the
      row's extensions. */
  lemma ExtensionCovers(table: seq<Trigram>, ctx: (Token, Token), maxDepth: int, r: Row, toks: seq<string>)
    requires IsRow(table, ctx, maxDepth, r)
    requires IsChain(table, ctx, toks) && r.sentence < toks
    ensures exists i :: 0 <= i < |Extensions(table, r)| &&
                        Extensions(table, r)[i].sentence == toks[..|r.sentence| + 1]
  {
    var ms := Matching(table, Some(r.text2), Some(r.text3));
    var kids := Extensions(table, r);
    var n := |r.sentence|;
    var t := TrigramAt(toks, n - 2);
    assert toks[n - 2] == r.sentence[n - 2] && toks[n - 1] == r.sentence[n - 1];
    assert t in ms;
    var i :| 0 <= i < |ms| && ms[i] == t;
    assert kids[i].sentence == toks[..n + 1];
  }

  // ---------------------------------------------------------------------
  // A measure that the worklist decreases: a row that may still be
  // expanded weighs more than all the rows it can produce together.

  function Weight(depth: int, maxDepth: int, fanout: nat): nat
    decreases if depth > maxDepth then 0 else maxDepth - depth + 1
  {
    if depth > maxDepth then 1 else 1 + fanout * Weight(depth + 1, maxDepth, fanout)
  }

  function Potential(queue: seq<Row>, maxDepth: int, fanout: nat): nat {
    if queue == [] then 0
    else Weight(queue[0].depth, maxDepth, fanout) + Potential(queue[1..], maxDepth, fanout)
  }

  lemma {:induction false} PotentialAppend(a: seq<Row>, b: seq<Row>, maxDepth: int, fanout: nat)
    ensures Potential(a + b, maxDepth, fanout) == Potential(a, maxDepth, fanout) + Potential(b, maxDepth, fanout)
  {
    if a == [] {
      assert a + b == b;
    } else {
      assert (a + b)[1..] == a[1..] + b;
      PotentialAppend(a[1..], b, maxDepth, fanout);
    }
  }

  lemma {:induction false} PotentialUniform(rows: seq<Row>, depth: int, maxDepth: int, fanout: nat)
    requires forall i :: 0 <= i < |rows| ==> rows[i].depth == depth
    ensures Potential(rows, maxDepth, fanout) == |rows| * Weight(depth, maxDepth, fanout)
  {
    if rows != [] {
      PotentialUniform(rows[1..], depth, maxDepth, fanout);
    }
  }

  /** Popping a row and queueing its extensions shrinks the measure. */
  lemma PotentialStep(queue: seq<Row>, kids: seq<Row>, maxDepth: int, fanout: nat)
    requires queue != []
    requires queue[0].depth > maxDepth ==> kids == []
    requires |kids| <= fanout
    requires forall i :: 0 <= i < |kids| ==> kids[i].depth == queue[0].depth + 1
    ensures Potential(queue[1..] + kids, maxDepth, fanout) < Potential(queue, maxDepth, fanout)
  {
    PotentialAppend(queue[1..], kids, maxDepth, fanout);
    var d := queue[0].depth;
    if d <= maxDepth {
      var w := Weight(d + 1, maxDepth, fanout);
      PotentialUniform(kids, d + 1, maxDepth, fanout);
      MulMonotone(|kids|, fanout, w);
      assert Weight(d, maxDepth, fanout) == 1 + fanout * w;
    }
  }

  lemma {:induction false} MulMonotone(a: nat, b: nat, c: nat)
    requires a <= b
    ensures a * c <= b * c
    decreases b - a
  {
    if a < b {
      MulMonotone(a, b - 1, c);
      assert b * c == (b - 1) * c + c;
    }
  }

  /** Every token of a chain through a table of words is a word. */
  lemma ChainTokensAreWords(table: seq<Trigram>, ctx: (Token, Token), toks: seq<string>)
    requires forall i :: 0 <= i < |table| ==> WordTrigram(table[i])
    requires IsChain(table, ctx, toks)
    ensures forall i :: 0 <= i < |toks| ==> IsWord(toks[i])
  {
    forall i | 0 <= i < |toks| ensures IsWord(toks[i]) {
      var j := if i < |toks| - 2 then i else |toks| - 3;
      assert TrigramAt(toks, j) in table;
    }
  }

  /** `GS.Depth >= :min_depth` and the target test of the final select. */
  predicate Selected(r: Row, minDepth: int, target: (Token, Token)) {
    r.depth >= minDepth && Matches(r.text2, target.0) && Matches(r.text3, target.1)
  }

  /** `text` is the space-joined sentence of a row of `rows` that the final
      select keeps. */
  ghost predicate RenderedFrom(text: string, rows: seq<Row>, minDepth: int, target: (Token, Token)) {
    exists i :: 0 <= i < |rows| && Selected(rows[i], minDepth, target) &&
                text == Join(rows[i].sentence, " ")
  }

  /** The final select without its `LIMIT`: the selected rows in order,
      each rendered as the space-join of its sentence. */
  function SelectedTexts(rows: seq<Row>, minDepth: int, target: (Token, Token)): (texts: seq<string>)
    ensures |texts| <= |rows|
    decreases |rows|
  {
    if rows == [] then []
    else
      var r := rows[|rows| - 1];
      SelectedTexts(rows[..|rows| - 1], minDepth, target)
      + (if Selected(r, minDepth, target) then [Join(r.sentence, " ")] else [])
  }

  /** SQL `LIMIT`: at most `limit` leading elements; a negative limit keeps all. */
  function Limit(s: seq<string>, limit: int): (r: seq<string>)
    ensures r <= s
    ensures |r| == if 0 <= limit < |s| then limit else |s|
  {
    if limit < 0 || |s| <= limit then s else s[..limit]
  }

  lemma SelectedTextsSnoc(rows: seq<Row>, r: Row, minDepth: int, target: (Token, Token))
    ensures SelectedTexts(rows + [r], minDepth, target) ==
            SelectedTexts(rows, minDepth, target)
            + (if Selected(r, minDepth, target) then [Join(r.sentence, " ")] else [])
  {
    assert (rows + [r])[..|rows|] == rows;
  }

  /** Selecting from a prefix of the rows gives a prefix of the selection. */
  lemma {:induction false} SelectedTextsPrefix(rows: seq<Row>, n: nat, minDepth: int, target: (Token, Token))
    requires n <= |rows|
    ensures SelectedTexts(rows[..n], minDepth, target) <= SelectedTexts(rows, minDepth, target)
    decreases |rows|
  {
    if n < |rows| {
      var init := rows[..|rows| - 1];
      SelectedTextsPrefix(init, n, minDepth, target);
      assert init[..n] == rows[..n];
    } else {
      assert rows[..n] == rows;
    }
  }

  /** Every selected text is the rendering of a selected row. */
  lemma {:induction false} SelectedTextsSound(rows: seq<Row>, minDepth: int, target: (Token, Token))
    ensures forall k :: 0 <= k < |SelectedTexts(rows, minDepth, target)| ==>
              RenderedFrom(SelectedTexts(rows, minDepth, target)[k], rows, minDepth, target)
    decreases |rows|
  {
    if rows != [] {
      var init, r := rows[..|rows| - 1], rows[|rows| - 1];
      SelectedTextsSound(init, minDepth, target);
      var s, s0 := SelectedTexts(rows, minDepth, target), SelectedTexts(init, minDepth, target);
      forall k | 0 <= k < |s| ensures RenderedFrom(s[k], rows, minDepth, target) {
        if k < |s0| {
          var j :| 0 <= j < |init| && Selected(init[j], minDepth, target) &&
                   s0[k] == Join(init[j].sentence, " ");
          assert rows[j] == init[j];
          RenderedByRow(s[k], rows, minDepth, target, j);
        } else {
          RenderedByRow(s[k], rows, minDepth, target, |rows| - 1);
        }
      }
    }
  }

  lemma RenderedByRow(text: string, rows: seq<Row>, minDepth: int, target: (Token, Token), j: nat)
    requires j < |rows| && Selected(rows[j], minDepth, target) && text == Join(rows[j].sentence, " ")
    ensures RenderedFrom(text, rows, minDepth, target)
  {
  }

  /** Every selected row is rendered among the selected texts. */
  lemma {:induction false} SelectedTextsComplete(rows: seq<Row>, minDepth: int, target: (Token, Token))
    ensures forall i :: 0 <= i < |rows| && Selected(rows[i], minDepth, target) ==>
              Join(rows[i].sentence, " ") in SelectedTexts(rows, minDepth, target)
    decreases |rows|
  {
    if rows != [] {
      var init := rows[..|rows| - 1];
      SelectedTextsComplete(init, minDepth, target);
      forall i | 0 <= i < |rows| && Selected(rows[i], minDepth, target)
        ensures Join(rows[i].sentence, " ") in SelectedTexts(rows, minDepth, target)
      {
        if i < |init| {
          assert rows[i] == init[i];
        }
      }
    }
  }

  /** `text` is the space-join of an answer chain, and splitting it on
      whitespace gives that chain back. */
  ghost predicate AnswerText(table: seq<Trigram>, ctx: (Token, Token), target: (Token, Token),
                             minDepth: int, maxDepth: int, text: string)
  {
    exists toks :: IsAnswer(table, ctx, target, minDepth, maxDepth, toks) &&
                   text == Join(toks, " ") && Words(text) == toks
  }

  /** Every sentence the final select renders from rows of the recursion is
      an answer chain, and the sentence determines the chain. */
  lemma RenderedAreAnswers(table: seq<Trigram>, ctx: (Token, Token), target: (Token, Token),
                           minDepth: int, maxDepth: int, rows: seq<Row>, texts: seq<string>)
    requires forall i :: 0 <= i < |table| ==> WordTrigram(table[i])
    requires forall i :: 0 <= i < |rows| ==> IsRow(table, ctx, maxDepth, rows[i])
    requires forall k :: 0 <= k < |texts| ==> RenderedFrom(texts[k], rows, minDepth, target)
    ensures forall k :: 0 <= k < |texts| ==> AnswerText(table, ctx, target, minDepth, maxDepth, texts[k])
  {
    forall k | 0 <= k < |texts|
      ensures AnswerText(table, ctx, target, minDepth, maxDepth, texts[k])
    {
      var i :| 0 <= i < |rows| && Selected(rows[i], minDepth, target) &&
               texts[k] == Join(rows[i].sentence, " ");
      var toks := rows[i].sentence;
      assert IsAnswer(table, ctx, target, minDepth, maxDepth, toks);
      ChainTokensAreWords(table, ctx, toks);
      WordsOfJoin(toks);
    }
  }

  /** When the recursion emitted every reachable chain and the select kept
      every row it selects, every answer chain is rendered. */
  lemma AnswersAreRendered(table: seq<Trigram>, ctx: (Token, Token), target: (Token, Token),
                           minDepth: int, maxDepth: int, rows: seq<Row>, texts: seq<string>)
    requires forall i :: 0 <= i < |rows| ==> IsRow(table, ctx, maxDepth, rows[i])
    requires forall toks :: IsChain(table, ctx, toks) && WithinDepth(|toks| - 2, maxDepth) ==>
               exists i :: 0 <= i < |rows| && rows[i].sentence == toks
    requires forall i :: 0 <= i < |rows| && Selected(rows[i], minDepth, target) ==>
               Join(rows[i].sentence, " ") in texts
    ensures forall toks :: IsAnswer(table, ctx, target, minDepth, maxDepth, toks) ==>
              Join(toks, " ") in texts
  {
    forall toks | IsAnswer(table, ctx, target, minDepth, maxDepth, toks)
      ensures Join(toks, " ") in texts
    {
      assert IsChain(table, ctx, toks) && WithinDepth(|toks| - 2, maxDepth);
      var i :| 0 <= i < |rows| && rows[i].sentence == toks;
      assert IsRow(table, ctx, maxDepth, rows[i]);
      assert Selected(rows[i], minDepth, target);
    }
  }

  /** The worklist has not lost `toks`: it is emitted already, or some
      queued row is a prefix of it. */
  ghost predicate Reached(toks: seq<string>, rows: seq<Row>, queue: seq<Row>) {
    || (exists i :: 0 <= i < |rows| && rows[i].sentence == toks)
    || (exists j :: 0 <= j < |queue| && queue[j].sentence <= toks)
  }

  /** Emitting the head of the queue and queueing its extensions (when its
      depth allows) loses no reachable chain. */
  lemma ReachedAfterPop(table: seq<Trigram>, ctx: (Token, Token), maxDepth: int,
                        rows: seq<Row>, queue: seq<Row>, toks: seq<string>)
    requires queue != [] && IsRow(table, ctx, maxDepth, queue[0])
    requires IsChain(table, ctx, toks) && WithinDepth(|toks| - 2, maxDepth)
    requires Reached(toks, rows, queue)
    ensures Reached(toks, rows + [queue[0]],
                    queue[1..] + (if queue[0].depth <= maxDepth then Extensions(table, queue[0]) else []))
  {
    var r := queue[0];
    var kids := if r.depth <= maxDepth then Extensions(table, r) else [];
    var rows', queue' := rows + [r], queue[1..] + kids;
    if i :| 0 <= i < |rows| && rows[i].sentence == toks {
      assert rows'[i] == rows[i];
      ReachedByRow(toks, rows', queue', i);
    } else {
      var j :| 0 <= j < |queue| && queue[j].sentence <= toks;
      if j > 0 {
        assert queue'[j - 1] == queue[j];
        ReachedByQueue(toks, rows', queue', j - 1);
      } else if r.sentence == toks {
        assert rows'[|rows|] == r;
        ReachedByRow(toks, rows', queue', |rows|);
      } else {
        assert r.sentence < toks && r.depth <= maxDepth;
        ReachedThroughExtension(table, ctx, maxDepth, r, rows', queue[1..], toks);
      }
    }
  }

  /** A chain that properly extends a row is reached through one of the
      row's extensions once they are queued. */
  lemma ReachedThroughExtension(table: seq<Trigram>, ctx: (Token, Token), maxDepth: int, r: Row,
                                rows: seq<Row>, rest: seq<Row>, toks: seq<string>)
    requires IsRow(table, ctx, maxDepth, r)
    requires IsChain(table, ctx, toks) && r.sentence < toks
    ensures Reached(toks, rows, rest + Extensions(table, r))
  {
    ExtensionCovers(table, ctx, maxDepth, r, toks);
    var kids := Extensions(table, r);
    var k :| 0 <= k < |kids| && kids[k].sentence == toks[..|r.sentence| + 1];
    assert kids[k].sentence <= toks;
    assert (rest + kids)[|rest| + k] == kids[k];
    ReachedByQueue(toks, rows, rest + kids, |rest| + k);
  }

  lemma ReachedByRow(toks: seq<string>, rows: seq<Row>, queue: seq<Row>, i: nat)
    requires i < |rows| && rows[i].sentence == toks
    ensures Reached(toks, rows, queue)
  {
  }

  lemma ReachedByQueue(toks: seq<string>, rows: seq<Row>, queue: seq<Row>, j: nat)
    requires j < |queue| && queue[j].sentence <= toks
    ensures Reached(toks, rows, queue)
  {
  }

  /** What the worklist of the recursive query maintains: emitted and queued
      rows are valid rows, and no reachable chain has been lost. */
  ghost predicate WorklistInvariant(table: seq<Trigram>, ctx: (Token, Token), maxDepth: int,
                                    rows: seq<Row>, queue: seq<Row>)
  {
    && (forall i :: 0 <= i < |rows| ==> IsRow(table, ctx, maxDepth, rows[i]))
    && (forall i :: 0 <= i < |queue| ==> IsRow(table, ctx, maxDepth, queue[i]))
    && (forall toks :: IsChain(table, ctx, toks) && WithinDepth(|toks| - 2, maxDepth) ==>
          Reached(toks, rows, queue))
  }

  /** The worklist starts with nothing emitted and the base rows queued. */
  lemma WorklistStart(table: seq<Trigram>, ctx: (Token, Token), maxDepth: int)
    ensures WorklistInvariant(table, ctx, maxDepth, [], InitialRows(table, ctx))
  {
    var queue := InitialRows(table, ctx);
    InitialRowsAreChains(table, ctx, maxDepth);
    forall toks | IsChain(table, ctx, toks) && WithinDepth(|toks| - 2, maxDepth)
      ensures Reached(toks, [], queue)
    {
      var j :| 0 <= j < |queue| && queue[j].sentence == toks[..3];
    }
  }

  /** One step of the worklist keeps its invariant. */
  lemma WorklistStep(table: seq<Trigram>, ctx: (Token, Token), maxDepth: int,
                     rows: seq<Row>, queue: seq<Row>)
    requires queue != []
    requires WorklistInvariant(table, ctx, maxDepth, rows, queue)
    ensures WorklistInvariant(table, ctx, maxDepth, rows + [queue[0]],
              queue[1..] + (if queue[0].depth <= maxDepth then Extensions(table, queue[0]) else []))
  {
    var r := queue[0];
    var kids := if r.depth <= maxDepth then Extensions(table, r) else [];
    var rows', queue' := rows + [r], queue[1..] + kids;
    assert IsRow(table, ctx, maxDepth, r);
    if r.depth <= maxDepth {
      ExtensionsAreChains(table, ctx, maxDepth, r);
    }
    forall i | 0 <= i < |rows'| ensures IsRow(table, ctx, maxDepth, rows'[i]) {
      if i < |rows| { assert rows'[i] == rows[i]; }
    }
    forall i | 0 <= i < |queue'| ensures IsRow(table, ctx, maxDepth, queue'[i]) {
      if i < |queue| - 1 { assert queue'[i] == queue[i + 1]; }
      else { assert queue'[i] == kids[i - |queue| + 1]; }
    }
    forall toks | IsChain(table, ctx, toks) && WithinDepth(|toks| - 2, maxDepth)
      ensures Reached(toks, rows', queue')
    {
      ReachedAfterPop(table, ctx, maxDepth, rows, queue, toks);
    }
  }

  /** Each step removes the head of the queue and adds at most `|table|`
      rows one level deeper, none past `maxDepth`, so the worklist ends. */
  lemma WorklistShrinks(table: seq<Trigram>, maxDepth: int, queue: seq<Row>)
    requires queue != []
    ensures Potential(queue[1..] + (if queue[0].depth <= maxDepth then Extensions(table, queue[0]) else []),
                      maxDepth, |table|)
            < Potential(queue, maxDepth, |table|)
  {
    var kids := if queue[0].depth <= maxDepth then Extensions(table, queue[0]) else [];
    PotentialStep(queue, kids, maxDepth, |table|);
  }
}
