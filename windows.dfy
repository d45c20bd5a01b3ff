/**
 * `NGramManager.generate_ngrams`: split a text on whitespace, pad it with
 * `n-1` boundary symbols on either side (nltk's `pad_sequence`) and slide a
 * window of width `n` across it with stride 1 (nltk's `ngrams`).
 */
module Windows {
  import opened Wrappers
  import opened Tokens

  /** A token as nltk hands it out: a word or a pad symbol, which may be None. */
  type Token = Option<string>

  const LEFT_PAD_SYMBOL: string := "<s>"
  const RIGHT_PAD_SYMBOL: string := "</s>"

  /** Python's `(x,) * k`: no copies at all when `k` is not positive. */
  function Repeat(x: Token, k: int): (r: seq<Token>)
    ensures |r| == if k <= 0 then 0 else k
    ensures forall i :: 0 <= i < |r| ==> r[i] == x
  {
    if k <= 0 then [] else [x] + Repeat(x, k - 1)
  }

  /** The words of a text as tokens. */
  function Lift(ws: seq<string>): (r: seq<Token>)
    ensures |r| == |ws|
    ensures forall i :: 0 <= i < |ws| ==> r[i] == Some(ws[i])
  {
    if ws == [] then [] else [Some(ws[0])] + Lift(ws[1..])
  }

  /** nltk's `pad_sequence`: `n-1` copies of a pad symbol in front and/or behind. */
  function PadSequence(s: seq<Token>, n: nat, padLeft: bool, leftPadSymbol: Token,
                       padRight: bool, rightPadSymbol: Token): seq<Token>
  {
    (if padLeft then Repeat(leftPadSymbol, n - 1) else [])
    + s
    + (if padRight then Repeat(rightPadSymbol, n - 1) else [])
  }

  /** nltk's `ngrams` on an already padded sequence: the first window, then
      the windows of the sequence with its first token dropped. Width 0
      yields nothing (`zip()` of no iterators). */
  function Ngrams(s: seq<Token>, n: nat): seq<seq<Token>>
    decreases |s|
  {
    if n == 0 || |s| < n then [] else [s[..n]] + Ngrams(s[1..], n)
  }

  /** There are `|s| - n + 1` windows (none if `s` is shorter than `n`), and
      window `i` is the slice `[i, i + n)`. */
  lemma {:induction false} NgramsShape(s: seq<Token>, n: nat)
    ensures |Ngrams(s, n)| == if n == 0 || |s| < n then 0 else |s| - n + 1
    ensures forall i :: 0 <= i < |Ngrams(s, n)| ==> Ngrams(s, n)[i] == s[i..i + n]
    decreases |s|
  {
    if n > 0 && |s| >= n {
      NgramsShape(s[1..], n);
      forall i | 0 < i < |Ngrams(s, n)|
        ensures Ngrams(s, n)[i] == s[i..i + n]
      {
        assert Ngrams(s, n)[i] == Ngrams(s[1..], n)[i - 1];
        assert s[1..][i - 1..i - 1 + n] == s[i..i + n];
      }
    }
  }

  /** The padded token sequence `generate_ngrams` slides its window over. */
  function Padded(text: string, n: nat, padRight: bool, padLeft: bool,
                  rightPadSymbol: Token, leftPadSymbol: Token): seq<Token>
  {
    PadSequence(Lift(Words(text)), n, padLeft, leftPadSymbol, padRight, rightPadSymbol)
  }

  /** `generate_ngrams(text, n, pad_right, pad_left, right_pad_symbol, left_pad_symbol)`.
      On `k` words it yields `max(0, L - n + 1)` windows of width `n`, where
      `L = k + (n-1)*[pad_left] + (n-1)*[pad_right]`; window `i` is the padded
      slice `[i, i + n)`, so consecutive windows overlap in `n - 1` tokens. */
  function GenerateNgrams(text: string, n: nat, padRight: bool, padLeft: bool,
                          rightPadSymbol: Token, leftPadSymbol: Token): (r: seq<seq<Token>>)
    ensures var l := |Words(text)| + (if padLeft && n > 0 then n - 1 else 0)
                                   + (if padRight && n > 0 then n - 1 else 0);
            |r| == if n == 0 || l < n then 0 else l - n + 1
    ensures forall i :: 0 <= i < |r| ==>
              r[i] == Padded(text, n, padRight, padLeft, rightPadSymbol, leftPadSymbol)[i..i + n]
    ensures forall i :: 0 <= i < |r| ==> |r[i]| == n
  {
    var p := Padded(text, n, padRight, padLeft, rightPadSymbol, leftPadSymbol);
    NgramsShape(p, n);
    Ngrams(p, n)
  }

  /** Consecutive windows overlap in `n - 1` tokens. */
  lemma GenerateNgramsOverlap(text: string, n: nat, padRight: bool, padLeft: bool,
                              rightPadSymbol: Token, leftPadSymbol: Token, i: nat)
    requires i + 1 < |GenerateNgrams(text, n, padRight, padLeft, rightPadSymbol, leftPadSymbol)|
    ensures var r := GenerateNgrams(text, n, padRight, padLeft, rightPadSymbol, leftPadSymbol);
            r[i][1..] == r[i + 1][..n - 1]
  {
    var r := GenerateNgrams(text, n, padRight, padLeft, rightPadSymbol, leftPadSymbol);
    var p := Padded(text, n, padRight, padLeft, rightPadSymbol, leftPadSymbol);
    assert r[i] == p[i..i + n] && r[i + 1] == p[i + 1..i + 1 + n];
    assert n > 0;
  }
}
