/**
 * The `NGram` table and what `insert` does to it, as functions on the table
 * contents. The table's primary key is the whole triple and every insert
 * is `INSERT OR IGNORE`, so the table is a duplicate-free sequence of
 * string triples in insertion order; `insert` splits its text on "\n",
 * skips blank lines, pads each line on both sides at width 3 and inserts
 * the windows in order.
 */
module Store {
  import opened Wrappers
  import opened Tokens
  import opened Windows

  /** One row of the `NGram` table (TokenText1, TokenText2, TokenText3). */
  datatype Trigram = Trigram(text1: string, text2: string, text3: string)

  /** The primary key on all three columns: no row occurs twice. */
  predicate NoDuplicates(table: seq<Trigram>) {
    forall i, j :: 0 <= i < j < |table| ==> table[i] != table[j]
  }

  function Elems(table: seq<Trigram>): set<Trigram> {
    set t | t in table
  }

  /** Every column of the row is a whitespace-free, non-empty token. */
  predicate WordTrigram(t: Trigram) {
    IsWord(t.text1) && IsWord(t.text2) && IsWord(t.text3)
  }

  /** The triple of consecutive tokens starting at position `i`. */
  function TrigramAt(p: seq<string>, i: nat): Trigram
    requires i + 2 < |p|
  {
    Trigram(p[i], p[i + 1], p[i + 2])
  }

  /** The windows `insert` computes for one line:
      `generate_ngrams(line, 3)`, padded with "<s>" and "</s>" on both sides. */
  function LineNgrams(line: string): seq<seq<Token>> {
    GenerateNgrams(line, 3, true, true, Some(RIGHT_PAD_SYMBOL), Some(LEFT_PAD_SYMBOL))
  }

  /** Binding one window to the three `?` placeholders. A window that is not
      three non-None tokens gives no row: the columns are NOT NULL and
      `OR IGNORE` skips a row that violates that constraint. */
  function AsTrigram(w: seq<Token>): Option<Trigram> {
    if |w| == 3 && w[0].Some? && w[1].Some? && w[2].Some?
    then Some(Trigram(w[0].value, w[1].value, w[2].value))
    else None
  }

  /** `INSERT OR IGNORE` of one window. */
  function InsertOrIgnore(table: seq<Trigram>, w: seq<Token>): seq<Trigram> {
    match AsTrigram(w)
    case None => table
    case Some(t) => if t in table then table else table + [t]
  }

  /** `executemany` of the insert statement over a list of windows, in order. */
  function ExecuteMany(table: seq<Trigram>, ws: seq<seq<Token>>): seq<Trigram>
    decreases |ws|
  {
    if ws == [] then table
    else InsertOrIgnore(ExecuteMany(table, ws[..|ws| - 1]), ws[|ws| - 1])
  }

  /** One iteration of the loop in `insert`: blank lines are skipped. */
  function InsertLine(table: seq<Trigram>, line: string): seq<Trigram> {
    if Strip(line) == [] then table else ExecuteMany(table, LineNgrams(line))
  }

  /** The loop of `insert` over a list of lines, in order. */
  function InsertLines(table: seq<Trigram>, lines: seq<string>): seq<Trigram>
    decreases |lines|
  {
    if lines == [] then table
    else InsertLine(InsertLines(table, lines[..|lines| - 1]), lines[|lines| - 1])
  }

  /** The table after `insert(text)`. */
  function InsertText(table: seq<Trigram>, text: string): seq<Trigram> {
    InsertLines(table, Split(text, '\n'))
  }

  // ---------------------------------------------------------------------
  // The same effect as sets of triples.

  /** The rows a list of windows can produce. */
  function WindowTrigrams(ws: seq<seq<Token>>): set<Trigram> {
    set i | 0 <= i < |ws| && AsTrigram(ws[i]).Some? :: AsTrigram(ws[i]).value
  }

  /** The rows one line contributes; nothing for a blank line. */
  function LineTrigrams(line: string): set<Trigram> {
    if Strip(line) == [] then {} else WindowTrigrams(LineNgrams(line))
  }

  function LinesTrigrams(lines: seq<string>): set<Trigram>
    decreases |lines|
  {
    if lines == [] then {}
    else LinesTrigrams(lines[..|lines| - 1]) + LineTrigrams(lines[|lines| - 1])
  }

  /** The rows a text contributes: the union over its lines, each padded on
      its own. */
  function TextTrigrams(text: string): set<Trigram> {
    LinesTrigrams(Split(text, '\n'))
  }

  /** A line's words with two start symbols in front and two end symbols behind. */
  function PaddedLine(line: string): seq<string> {
    [LEFT_PAD_SYMBOL, LEFT_PAD_SYMBOL] + Words(line) + [RIGHT_PAD_SYMBOL, RIGHT_PAD_SYMBOL]
  }

  // ---------------------------------------------------------------------
  // Lemmas.

  lemma WindowTrigramsSnoc(ws: seq<seq<Token>>, w: seq<Token>)
    ensures WindowTrigrams(ws + [w]) ==
            WindowTrigrams(ws) + (if AsTrigram(w).Some? then {AsTrigram(w).value} else {})
  {
    var s := ws + [w];
    forall t | t in WindowTrigrams(s)
      ensures t in WindowTrigrams(ws) + (if AsTrigram(w).Some? then {AsTrigram(w).value} else {})
    {
      var i :| 0 <= i < |s| && AsTrigram(s[i]).Some? && AsTrigram(s[i]).value == t;
      if i < |ws| { assert s[i] == ws[i]; }
    }
    forall t | t in WindowTrigrams(ws)
      ensures t in WindowTrigrams(s)
    {
      var i :| 0 <= i < |ws| && AsTrigram(ws[i]).Some? && AsTrigram(ws[i]).value == t;
      assert s[i] == ws[i];
    }
    if AsTrigram(w).Some? {
      assert s[|ws|] == w;
    }
  }

  /** `executemany` adds exactly the rows of its windows that were missing,
      at the end, and keeps the table duplicate-free. */
  lemma {:induction false} ExecuteManyEffect(table: seq<Trigram>, ws: seq<seq<Token>>)
    ensures Elems(ExecuteMany(table, ws)) == Elems(table) + WindowTrigrams(ws)
    ensures |ExecuteMany(table, ws)| >= |table| && ExecuteMany(table, ws)[..|table|] == table
    ensures NoDuplicates(table) ==> NoDuplicates(ExecuteMany(table, ws))
    decreases |ws|
  {
    if ws != [] {
      var init, w := ws[..|ws| - 1], ws[|ws| - 1];
      ExecuteManyEffect(table, init);
      assert ws == init + [w];
      WindowTrigramsSnoc(init, w);
      var mid := ExecuteMany(table, init);
      match AsTrigram(w)
      case None =>
      case Some(t) =>
        if t !in mid {
          AppendNew(mid, t);
          assert (mid + [t])[..|table|] == mid[..|table|];
        }
    }
  }

  /** Appending a row that is not stored yet adds just that row and keeps
      the table duplicate-free. */
  lemma AppendNew(table: seq<Trigram>, t: Trigram)
    requires t !in table
    ensures Elems(table + [t]) == Elems(table) + {t}
    ensures NoDuplicates(table) ==> NoDuplicates(table + [t])
  {
    var after := table + [t];
    if NoDuplicates(table) {
      forall i, j | 0 <= i < j < |after| ensures after[i] != after[j] {
        if j == |table| {
          assert after[i] == table[i];
        } else {
          assert after[i] == table[i] && after[j] == table[j];
        }
      }
    }
  }

  /** When every row of the windows is present already, `executemany`
      changes nothing. */
  lemma {:induction false} ExecuteManyAbsorbed(table: seq<Trigram>, ws: seq<seq<Token>>)
    requires WindowTrigrams(ws) <= Elems(table)
    ensures ExecuteMany(table, ws) == table
    decreases |ws|
  {
    if ws != [] {
      var init, w := ws[..|ws| - 1], ws[|ws| - 1];
      assert ws == init + [w];
      WindowTrigramsSnoc(init, w);
      ExecuteManyAbsorbed(table, init);
    }
  }

  /** One line adds exactly its missing rows, at the end. */
  lemma InsertLineEffect(table: seq<Trigram>, line: string)
    ensures Elems(InsertLine(table, line)) == Elems(table) + LineTrigrams(line)
    ensures |InsertLine(table, line)| >= |table| && InsertLine(table, line)[..|table|] == table
    ensures NoDuplicates(table) ==> NoDuplicates(InsertLine(table, line))
  {
    if Strip(line) != [] {
      ExecuteManyEffect(table, LineNgrams(line));
    }
  }

  lemma {:induction false} InsertLinesEffect(table: seq<Trigram>, lines: seq<string>)
    ensures Elems(InsertLines(table, lines)) == Elems(table) + LinesTrigrams(lines)
    ensures |InsertLines(table, lines)| >= |table| && InsertLines(table, lines)[..|table|] == table
    ensures NoDuplicates(table) ==> NoDuplicates(InsertLines(table, lines))
    decreases |lines|
  {
    if lines != [] {
      var init, line := lines[..|lines| - 1], lines[|lines| - 1];
      InsertLinesEffect(table, init);
      var mid := InsertLines(table, init);
      InsertLineEffect(mid, line);
      var after := InsertLine(mid, line);
      assert InsertLines(table, lines) == after;
      assert LinesTrigrams(lines) == LinesTrigrams(init) + LineTrigrams(line);
      PrefixOfPrefix(table, mid, after);
    }
  }

  /** A prefix of a prefix is a prefix. */
  lemma PrefixOfPrefix(a: seq<Trigram>, b: seq<Trigram>, c: seq<Trigram>)
    requires |b| >= |a| && b[..|a|] == a
    requires |c| >= |b| && c[..|b|] == b
    ensures |c| >= |a| && c[..|a|] == a
  {
    assert c[..|a|] == c[..|b|][..|a|];
  }

  lemma {:induction false} InsertLinesAbsorbed(table: seq<Trigram>, lines: seq<string>)
    requires LinesTrigrams(lines) <= Elems(table)
    ensures InsertLines(table, lines) == table
    decreases |lines|
  {
    if lines != [] {
      var init, line := lines[..|lines| - 1], lines[|lines| - 1];
      InsertLinesAbsorbed(table, init);
      if Strip(line) != [] {
        ExecuteManyAbsorbed(table, LineNgrams(line));
      }
    }
  }

  /** `insert(text)` is a set union: the new table holds the old rows, in
      the same positions, followed by the text's rows that were missing,
      and no row twice. */
  lemma InsertTextEffect(table: seq<Trigram>, text: string)
    ensures Elems(InsertText(table, text)) == Elems(table) + TextTrigrams(text)
    ensures |InsertText(table, text)| >= |table| && InsertText(table, text)[..|table|] == table
    ensures NoDuplicates(table) ==> NoDuplicates(InsertText(table, text))
  {
    InsertLinesEffect(table, Split(text, '\n'));
  }

  /** Inserting the same text twice leaves the table as after the first insert. */
  lemma InsertTextIdempotent(table: seq<Trigram>, text: string)
    ensures InsertText(InsertText(table, text), text) == InsertText(table, text)
  {
    InsertTextEffect(table, text);
    InsertLinesAbsorbed(InsertText(table, text), Split(text, '\n'));
  }

  lemma InsertLinesSnoc(table: seq<Trigram>, lines: seq<string>, line: string)
    ensures InsertLines(table, lines + [line]) == InsertLine(InsertLines(table, lines), line)
  {
    assert (lines + [line])[..|lines|] == lines;
  }

  lemma {:induction false} InsertLinesConcat(table: seq<Trigram>, first: seq<string>, second: seq<string>)
    ensures InsertLines(table, first + second) == InsertLines(InsertLines(table, first), second)
    decreases |second|
  {
    if second == [] {
      assert first + second == first;
    } else {
      var init, line := second[..|second| - 1], second[|second| - 1];
      assert first + second == (first + init) + [line];
      assert second == init + [line];
      InsertLinesConcat(table, first, init);
      InsertLinesSnoc(table, first + init, line);
      InsertLinesSnoc(InsertLines(table, first), init, line);
    }
  }

  /** Padding never crosses a line break: inserting `a + "\n" + b` is
      inserting `a` and then `b`. */
  lemma InsertTextAcrossLineBreak(table: seq<Trigram>, a: string, b: string)
    ensures InsertText(table, a + "\n" + b) == InsertText(InsertText(table, a), b)
  {
    SplitAround(a, b, '\n');
    InsertLinesConcat(table, Split(a, '\n'), Split(b, '\n'));
  }

  lemma LinesTrigramsSnoc(lines: seq<string>, line: string)
    ensures LinesTrigrams(lines + [line]) == LinesTrigrams(lines) + LineTrigrams(line)
  {
    assert (lines + [line])[..|lines|] == lines;
  }

  lemma {:induction false} LinesTrigramsConcat(first: seq<string>, second: seq<string>)
    ensures LinesTrigrams(first + second) == LinesTrigrams(first) + LinesTrigrams(second)
    decreases |second|
  {
    if second == [] {
      assert first + second == first;
    } else {
      var init, line := second[..|second| - 1], second[|second| - 1];
      assert first + second == (first + init) + [line];
      assert second == init + [line];
      LinesTrigramsConcat(first, init);
      LinesTrigramsSnoc(first + init, line);
      LinesTrigramsSnoc(init, line);
    }
  }

  /** The rows of a two-part text are the rows of each part. */
  lemma TextTrigramsAcrossLineBreak(a: string, b: string)
    ensures TextTrigrams(a + "\n" + b) == TextTrigrams(a) + TextTrigrams(b)
  {
    SplitAround(a, b, '\n');
    LinesTrigramsConcat(Split(a, '\n'), Split(b, '\n'));
  }

  lemma {:induction false} SplitOfBlank(s: string)
    requires AllSpace(s)
    ensures forall i :: 0 <= i < |Split(s, '\n')| ==> AllSpace(Split(s, '\n')[i])
  {
    if s != [] {
      assert AllSpace(s[1..]);
      SplitOfBlank(s[1..]);
    }
  }

  lemma {:induction false} BlankLinesLeaveTable(table: seq<Trigram>, lines: seq<string>)
    requires forall i :: 0 <= i < |lines| ==> AllSpace(lines[i])
    ensures InsertLines(table, lines) == table
    decreases |lines|
  {
    if lines != [] {
      BlankLinesLeaveTable(table, lines[..|lines| - 1]);
    }
  }

  /** A text made only of whitespace and line breaks adds nothing. */
  lemma BlankTextLeavesTable(table: seq<Trigram>, text: string)
    requires AllSpace(text)
    ensures InsertText(table, text) == table
  {
    SplitOfBlank(text);
    BlankLinesLeaveTable(table, Split(text, '\n'));
  }

  lemma PaddedLineLift(line: string)
    ensures Padded(line, 3, true, true, Some(RIGHT_PAD_SYMBOL), Some(LEFT_PAD_SYMBOL))
            == Lift(PaddedLine(line))
  {
    var p := Padded(line, 3, true, true, Some(RIGHT_PAD_SYMBOL), Some(LEFT_PAD_SYMBOL));
    var q := Lift(PaddedLine(line));
    var k := |Words(line)|;
    assert |p| == |q| == k + 4;
    forall i | 0 <= i < k + 4 ensures p[i] == q[i] {
      if 2 <= i < k + 2 {
        assert p[i] == Lift(Words(line))[i - 2];
      }
    }
  }

  /** A line with `k >= 1` words gives exactly `k + 2` windows before
      deduplication, all of three real tokens: the first is
      ("<s>", "<s>", w1), the last (wk, "</s>", "</s>"), and window `i` is
      the triple at `i` of the padded line. */
  lemma LineNgramsShape(line: string)
    requires Words(line) != []
    ensures var ws, r := Words(line), LineNgrams(line);
            && |r| == |ws| + 2
            && (forall i :: 0 <= i < |r| ==> AsTrigram(r[i]) == Some(TrigramAt(PaddedLine(line), i)))
            && AsTrigram(r[0]) == Some(Trigram(LEFT_PAD_SYMBOL, LEFT_PAD_SYMBOL, ws[0]))
            && AsTrigram(r[|r| - 1]) == Some(Trigram(ws[|ws| - 1], RIGHT_PAD_SYMBOL, RIGHT_PAD_SYMBOL))
  {
    var ws, r := Words(line), LineNgrams(line);
    var p := PaddedLine(line);
    PaddedLineLift(line);
    forall i | 0 <= i < |r| ensures AsTrigram(r[i]) == Some(TrigramAt(p, i)) {
      assert r[i] == Lift(p)[i..i + 3];
    }
    assert p[1] == LEFT_PAD_SYMBOL && p[2] == ws[0];
    assert p[|p| - 3] == ws[|ws| - 1] && p[|p| - 2] == RIGHT_PAD_SYMBOL;
  }

  /** The rows a non-blank line contributes are the consecutive triples of
      its padded words. */
  lemma LineTrigramsOfWords(line: string)
    requires Words(line) != []
    ensures LineTrigrams(line) ==
            set i | 0 <= i < |PaddedLine(line)| - 2 :: TrigramAt(PaddedLine(line), i)
  {
    StripEmptyIffNoWords(line);
    LineNgramsShape(line);
  }

  lemma PaddedLineWords(line: string)
    ensures forall i :: 0 <= i < |PaddedLine(line)| ==> IsWord(PaddedLine(line)[i])
  {
    var p := PaddedLine(line);
    assert IsWord(LEFT_PAD_SYMBOL) && IsWord(RIGHT_PAD_SYMBOL);
    forall i | 0 <= i < |p| ensures IsWord(p[i]) {
      if 2 <= i < |p| - 2 { assert p[i] == Words(line)[i - 2]; }
    }
  }

  lemma {:induction false} LinesTrigramsAreWords(lines: seq<string>)
    ensures forall t :: t in LinesTrigrams(lines) ==> WordTrigram(t)
    decreases |lines|
  {
    if lines != [] {
      var line := lines[|lines| - 1];
      LinesTrigramsAreWords(lines[..|lines| - 1]);
      if Strip(line) != [] {
        StripEmptyIffNoWords(line);
        LineTrigramsOfWords(line);
        PaddedLineWords(line);
      }
    }
  }

  /** Every stored token is a single whitespace-free word or a pad symbol. */
  lemma TextTrigramsAreWords(text: string)
    ensures forall t :: t in TextTrigrams(text) ==> WordTrigram(t)
  {
    LinesTrigramsAreWords(Split(text, '\n'));
  }

  lemma ExecuteManySnoc(table: seq<Trigram>, ws: seq<seq<Token>>, w: seq<Token>)
    ensures ExecuteMany(table, ws + [w]) == InsertOrIgnore(ExecuteMany(table, ws), w)
  {
    assert (ws + [w])[..|ws|] == ws;
  }

  /** The table stays duplicate-free and made of words through an insert. */
  lemma InsertTextKeepsValid(table: seq<Trigram>, text: string)
    requires NoDuplicates(table) && forall i :: 0 <= i < |table| ==> WordTrigram(table[i])
    ensures var after := InsertText(table, text);
            NoDuplicates(after) && forall i :: 0 <= i < |after| ==> WordTrigram(after[i])
    ensures Elems(InsertText(table, text)) == Elems(table) + TextTrigrams(text)
  {
    var after := InsertText(table, text);
    InsertTextEffect(table, text);
    TextTrigramsAreWords(text);
    forall i | 0 <= i < |after| ensures WordTrigram(after[i]) {
      assert after[i] in Elems(after);
      if after[i] in Elems(table) {
        var j :| 0 <= j < |table| && table[j] == after[i];
      }
    }
  }

  /** A text whose triples are all stored already leaves the table as it is. */
  lemma InsertTextAbsorbed(table: seq<Trigram>, text: string)
    requires TextTrigrams(text) <= Elems(table)
    ensures InsertText(table, text) == table
  {
    InsertLinesAbsorbed(table, Split(text, '\n'));
  }

  /** One more line of the loop in `insert`. */
  lemma InsertLinesStep(table: seq<Trigram>, lines: seq<string>, i: nat)
    requires i < |lines|
    ensures InsertLines(table, lines[..i + 1]) == InsertLine(InsertLines(table, lines[..i]), lines[i])
  {
    assert lines[..i + 1][..i] == lines[..i];
  }

  /** Every window that `INSERT OR IGNORE` would store is made of words. */
  predicate WindowsOfWords(ws: seq<seq<Token>>) {
    forall j :: 0 <= j < |ws| && AsTrigram(ws[j]).Some? ==> WordTrigram(AsTrigram(ws[j]).value)
  }

  /** The windows of a non-blank line store only words and pad symbols. */
  lemma LineNgramsAreWords(line: string)
    requires Words(line) != []
    ensures WindowsOfWords(LineNgrams(line))
  {
    var r := LineNgrams(line);
    LineNgramsShape(line);
    PaddedLineWords(line);
    forall j | 0 <= j < |r| && AsTrigram(r[j]).Some?
      ensures WordTrigram(AsTrigram(r[j]).value)
    {
      assert AsTrigram(r[j]).value == TrigramAt(PaddedLine(line), j);
    }
  }
}
