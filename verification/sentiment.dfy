/** Lexicon-based Kiswahili scoring (`is_swahili`, `swahili_lexicon_score`)
    and the part of `analyze_sentiment` that uses it.

    The lexicon file is a parameter (`Lexicon`); the TextBlob, VADER and
    BERT scores are opaque library results and are not modelled. */
module Sentiment {
  import opened Wrappers
  import opened Text

  /** The loaded `swahili_lexicon.json`: word to weight. */
  type Lexicon = map<string, int>

  datatype Label = Positive | Negative | Neutral

  /** `text.lower().split()`. */
  function Tokens(text: string): (r: seq<string>)
    ensures forall k :: 0 <= k < |r| ==> r[k] != [] && NoSpace(r[k])
    ensures Concat(r) == NonSpace(Lower(text))
  {
    Words(Lower(text))
  }

  /** `sum(1 for w in words if w in swahili_lexicon)`. */
  function Hits(lexicon: Lexicon, ws: seq<string>): (n: nat)
    ensures n <= |ws|
    decreases |ws|
  {
    if ws == [] then 0 else (if ws[0] in lexicon then 1 else 0) + Hits(lexicon, ws[1..])
  }

  /** `sum(swahili_lexicon.get(w, 0) for w in words)`. */
  function Score(lexicon: Lexicon, ws: seq<string>): (s: int)
    ensures Hits(lexicon, ws) == 0 ==> s == 0
    ensures (forall w :: w in lexicon ==> lexicon[w] >= 0) ==> s >= 0
    ensures (forall w :: w in lexicon ==> lexicon[w] <= 0) ==> s <= 0
    decreases |ws|
  {
    if ws == [] then 0 else (if ws[0] in lexicon then lexicon[ws[0]] else 0) + Score(lexicon, ws[1..])
  }

  /** `is_swahili(text)`: more than 30% of the tokens are lexicon words.
      The source divides by the token count, so text without tokens is
      outside its domain. */
  function IsSwahili(lexicon: Lexicon, text: string): (b: bool)
    requires |Tokens(text)| > 0
    ensures b <==> (Hits(lexicon, Tokens(text)) as real) / (|Tokens(text)| as real) > 0.3
  {
    RatioThreshold(Hits(lexicon, Tokens(text)), |Tokens(text)|);
    10 * Hits(lexicon, Tokens(text)) > 3 * |Tokens(text)|
  }

  /** For a positive denominator, a quotient exceeds `c` exactly when the
      numerator exceeds `c` times the denominator. */
  lemma DivAbove(x: real, y: real, c: real)
    requires y > 0.0
    ensures x / y > c <==> x > c * y
  {
    var q := x / y;
    assert q * y == x;
    if q > c {
      assert (q - c) * y > 0.0;
    } else {
      assert (c - q) * y >= 0.0;
    }
  }

  /** Above 30% as a ratio is the same as `10 * h > 3 * n` in integers. */
  lemma RatioThreshold(h: int, n: int)
    requires n > 0
    ensures (h as real) / (n as real) > 0.3 <==> 10 * h > 3 * n
  {
    DivAbove(h as real, n as real, 0.3);
  }

  /** `swahili_lexicon_score(text)`: the sign of the summed weights. */
  function LexiconLabel(lexicon: Lexicon, text: string): (l: Label)
    ensures l == Positive <==> Score(lexicon, Tokens(text)) > 0
    ensures l == Negative <==> Score(lexicon, Tokens(text)) < 0
    ensures l == Neutral <==> Score(lexicon, Tokens(text)) == 0
  {
    var score := Score(lexicon, Tokens(text));
    if score > 0 then Positive
    else if score < 0 then Negative
    else Neutral
  }

  /** The score of two token runs is the sum of their scores. */
  lemma {:induction false} ScoreAppend(lexicon: Lexicon, a: seq<string>, b: seq<string>)
    ensures Score(lexicon, a + b) == Score(lexicon, a) + Score(lexicon, b)
    decreases |a|
  {
    if a == [] {
      assert a + b == b;
    } else {
      assert (a + b)[0] == a[0];
      assert (a + b)[1..] == a[1..] + b;
      ScoreAppend(lexicon, a[1..], b);
    }
  }

  /** The hit count of two token runs is the sum of their counts. */
  lemma {:induction false} HitsAppend(lexicon: Lexicon, a: seq<string>, b: seq<string>)
    ensures Hits(lexicon, a + b) == Hits(lexicon, a) + Hits(lexicon, b)
    decreases |a|
  {
    if a == [] {
      assert a + b == b;
    } else {
      assert (a + b)[0] == a[0];
      assert (a + b)[1..] == a[1..] + b;
      HitsAppend(lexicon, a[1..], b);
    }
  }

  /** One token is one hit exactly when it is a lexicon word, and scores
      its weight, or 0 when it is not in the lexicon. */
  lemma SingleToken(lexicon: Lexicon, w: string)
    ensures Hits(lexicon, [w]) == if w in lexicon then 1 else 0
    ensures Score(lexicon, [w]) == if w in lexicon then lexicon[w] else 0
  {
    assert [w][1..] == [];
  }

  /** A word missing from the lexicon contributes nothing. */
  lemma UnknownWordIgnored(lexicon: Lexicon, a: seq<string>, w: string, b: seq<string>)
    requires w !in lexicon
    ensures Score(lexicon, a + [w] + b) == Score(lexicon, a + b)
  {
    ScoreAppend(lexicon, a + [w], b);
    ScoreAppend(lexicon, a, [w]);
    ScoreAppend(lexicon, a, b);
  }

  /** Text without a single lexicon word scores 0 and is labelled neutral. */
  lemma {:induction false} NoHitsNoScore(lexicon: Lexicon, ws: seq<string>)
    requires Hits(lexicon, ws) == 0
    ensures Score(lexicon, ws) == 0
    decreases |ws|
  {
    if ws != [] {
      NoHitsNoScore(lexicon, ws[1..]);
    }
  }

  /** Scoring looks only at the lower-cased tokens: the text and its
      lower-case form get the same label and the same language verdict. */
  lemma ScoringIgnoresCase(lexicon: Lexicon, text: string)
    ensures Tokens(Lower(text)) == Tokens(text)
    ensures LexiconLabel(lexicon, Lower(text)) == LexiconLabel(lexicon, text)
    ensures |Tokens(text)| > 0 ==> IsSwahili(lexicon, Lower(text)) == IsSwahili(lexicon, text)
  {
    LowerIdempotent(text);
  }

  lemma {:induction false} NonSpaceEmpty(s: string)
    ensures NonSpace(s) == [] <==> AllSpace(s)
    decreases |s|
  {
    if s != [] {
      NonSpaceEmpty(s[1..]);
      assert AllSpace(s) <==> IsSpace(s[0]) && AllSpace(s[1..]);
    }
  }

  lemma {:induction false} ConcatEmpty(ws: seq<string>)
    requires forall k :: 0 <= k < |ws| ==> ws[k] != []
    ensures Concat(ws) == [] <==> ws == []
  {
  }

  /** A text has no tokens exactly when it is blank (empty or whitespace). */
  lemma NoTokensIffBlank(text: string)
    ensures Tokens(text) == [] <==> AllSpace(text)
  {
    var low := Lower(text);
    ConcatEmpty(Words(low));
    NonSpaceEmpty(low);
    assert AllSpace(low) <==> AllSpace(text) by {
      assert forall i :: 0 <= i < |text| ==> (IsSpace(low[i]) <==> IsSpace(text[i]));
    }
  }

  /** The result of `analyze_sentiment` restricted to the fields this
      model covers: the text and `swahili_sentiment`. */
  datatype Analysis = Analysis(text: string, swahiliSentiment: Option<Label>)

  /** `analyze_sentiment(text)`. It raises (ZeroDivisionError inside
      `is_swahili`) when the text has no tokens. */
  function AnalyzeSentiment(lexicon: Lexicon, text: string): (r: Outcome<Analysis>)
    ensures r.Raised? <==> AllSpace(text)
    ensures r.Raised? <==> Tokens(text) == []
    ensures r.Returned? ==> r.value.text == text
    ensures r.Returned? ==> (r.value.swahiliSentiment.None? <==> !IsSwahili(lexicon, text))
    ensures r.Returned? && r.value.swahiliSentiment.Some? ==>
              r.value.swahiliSentiment.value == LexiconLabel(lexicon, text)
  {
    NoTokensIffBlank(text);
    if |Tokens(text)| == 0 then Raised
    else if IsSwahili(lexicon, text) then Returned(Analysis(text, Some(LexiconLabel(lexicon, text))))
    else Returned(Analysis(text, None))
  }
}
