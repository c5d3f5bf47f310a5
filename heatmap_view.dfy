/** The read-only heatmap webview of `curator/src/ui/heatmapView.ts`: every
    piece becomes a `<span>` tinted from green (score 0) to red (score 1)
    with its score in the tooltip. */
module HeatmapView {
  import opened Wrappers
  import opened Text
  import opened Scores
  import opened Html

  /** `35 + Math.round((1 - clamped) * 5)`: slightly brighter for low risk. */
  function Lightness(score: real): (l: nat)
    ensures 35 <= l <= 40
    ensures score <= 0.0 ==> l == 40
    ensures score >= 1.0 ==> l == 35
  {
    var c := Clamp01(score);
    assert 0 <= JsRound((1.0 - c) * 5.0) <= 5;
    35 + JsRound((1.0 - c) * 5.0)
  }

  /** A higher score is never lighter. */
  lemma LightnessNonIncreasing(a: real, b: real)
    requires a <= b
    ensures Lightness(b) <= Lightness(a)
  {
    Clamp01Monotone(a, b);
    JsRoundMonotone((1.0 - Clamp01(b)) * 5.0, (1.0 - Clamp01(a)) * 5.0);
  }

  /** `scoreToStyle(score)`: nothing for a null score, else a background
      colour with white text. */
  function ScoreToStyle(score: Option<real>): string {
    match score
    case None => ""
    case Some(s) =>
      "background:hsl(" + NatToString(Hue(s)) + ", 85%, " + NatToString(Lightness(s)) + "%);color:#ffffff;"
  }

  /** The tooltip: `score: null`, or the raw score to two decimals. */
  function Title(score: Option<real>): string {
    match score
    case None => "score: null"
    case Some(s) => "score: " + Fixed(s, 2)
  }

  /** One rendered piece. */
  function TokenSpan(t: TokenScore): string {
    Span("class=\"tok\" style=\"" + ScoreToStyle(t.score) + "\" title=\"" + Title(t.score) + "\"",
         EscapeHtml(t.token))
  }

  /** `renderTokenContent(tokenScores)`: the pieces' spans, joined. */
  function RenderTokenContent(ts: seq<TokenScore>): string {
    Concat(seq(|ts|, i requires 0 <= i < |ts| => TokenSpan(ts[i])))
  }

  /** A style is empty exactly for a null score, and it can neither end
      its attribute nor open a tag. */
  lemma StyleIsInert(score: Option<real>)
    ensures ScoreToStyle(score) == "" <==> score.None?
    ensures '"' !in ScoreToStyle(score) && '<' !in ScoreToStyle(score)
  {
    if score.Some? {
      var s := score.value;
      var h, l := NatToString(Hue(s)), NatToString(Lightness(s));
      var a, b, c := "background:hsl(", ", 85%, ", "%);color:#ffffff;";
      StyleTextInert();
      assert ScoreToStyle(score) == a + h + b + l + c;
      assert '"' !in h && '<' !in h && '"' !in l && '<' !in l;
    }
  }

  /** The fixed text of a style can neither end its attribute nor open a
      tag, and it is not empty. */
  lemma StyleTextInert()
    ensures "background:hsl("[0] == 'b'
    ensures '"' !in "background:hsl(" && '<' !in "background:hsl("
    ensures '"' !in ", 85%, " && '<' !in ", 85%, "
    ensures '"' !in "%);color:#ffffff;" && '<' !in "%);color:#ffffff;"
  {
  }

  /** A tooltip can neither end its attribute nor open a tag. */
  lemma TitleIsInert(score: Option<real>)
    ensures '"' !in Title(score) && '<' !in Title(score)
  {
    if score.Some? {
      var f := Fixed(score.value, 2);
      assert '"' !in f && '<' !in f;
    }
  }

  /** A style is empty exactly for a null score, and no style or tooltip
      can end its attribute or open a tag. */
  lemma AttributesAreInert(score: Option<real>)
    ensures ScoreToStyle(score) == "" <==> score.None?
    ensures '"' !in ScoreToStyle(score) && '<' !in ScoreToStyle(score)
    ensures '"' !in Title(score) && '<' !in Title(score)
  {
    StyleIsInert(score);
    TitleIsInert(score);
  }

  /** One piece's span opens and closes exactly one tag. */
  lemma TokenSpanTagCount(t: TokenScore)
    ensures CountChar(TokenSpan(t), '<') == 2
  {
    var style, title := ScoreToStyle(t.score), Title(t.score);
    StyleIsInert(t.score);
    TitleIsInert(t.score);
    var attrs := "class=\"tok\" style=\"" + style + "\" title=\"" + title + "\"";
    SpanTextInert();
    assert '<' !in attrs;
    EscapedHasNoMarkup(t.token);
    SpanTagCount(attrs, EscapeHtml(t.token));
  }

  /** Each piece opens and closes exactly one tag: the content holds two
      `<` per piece, whatever the tokens contain. */
  lemma RenderedTagCount(ts: seq<TokenScore>)
    ensures CountChar(RenderTokenContent(ts), '<') == 2 * |ts|
  {
    var spans := seq(|ts|, i requires 0 <= i < |ts| => TokenSpan(ts[i]));
    forall i | 0 <= i < |ts| ensures CountChar(spans[i], '<') == 2 {
      TokenSpanTagCount(ts[i]);
    }
    CountConcat(spans, '<', 2);
  }
}
