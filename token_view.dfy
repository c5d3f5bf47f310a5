/** The token webview script `curator/media/tokenView.js`: it renders the
    posted `tokenScores` as `<span>`s whose `data-tip` tooltip shows the
    clamped score and an optional reason. Its colour and tooltip helpers are
    the same text in `curator/media/sidebar.js` and are defined once here. */
module TokenView {
  import opened Wrappers
  import opened Text
  import opened Scores
  import opened Html

  /** One posted element. `token` and `score` are `None` for `null` or
      `undefined`; `reason` is `""` when it is falsy. A `null` element reads
      like `Item(None, None, "")`. */
  datatype Item = Item(token: Option<string>, score: Option<real>, reason: string)

  /** `scoreToColor(score)`: `hsl(hue, 85%, 40%)`. */
  function ScoreToColor(score: real): string {
    "hsl(" + NatToString(Hue(score)) + ", 85%, 40%)"
  }

  /** `item.token != null ? item.token : ''`. */
  function TokenText(item: Item): string {
    if item.token.Some? then item.token.value else ""
  }

  /** The background style: empty for a null score. */
  function Style(item: Item): string {
    match item.score
    case None => ""
    case Some(s) => "background:" + ScoreToColor(s) + ";"
  }

  /** The tooltip: empty for a null score, else the clamped score to three
      decimals, then the reason on its own line when there is one. */
  function Tip(item: Item): string {
    match item.score
    case None => ""
    case Some(s) =>
      "score: " + FixedNonNegative(Clamp01(s), 3) + (if item.reason != "" then "\nreason: " + item.reason else "")
  }

  /** One rendered element: tooltip before style. */
  function TipSpan(item: Item): string {
    Span("class=\"tok\" data-tip=\"" + EscapeHtml(Tip(item)) + "\" style=\"" + Style(item) + "\"",
         EscapeHtml(TokenText(item)))
  }

  /** What `renderTokens` returns: the spans of `tokenScores || []`, joined. */
  function TokenViewHtml(tokenScores: Option<seq<Item>>): string {
    var items := if tokenScores.Some? then tokenScores.value else [];
    Concat(seq(|items|, i requires 0 <= i < |items| => TipSpan(items[i])))
  }

  /** `renderTokens(tokenScores)`: push one span per element, then join. */
  method RenderTokens(tokenScores: Option<seq<Item>>) returns (html: string)
    ensures html == TokenViewHtml(tokenScores)
  {
    var items := if tokenScores.Some? then tokenScores.value else [];
    ghost var spans := seq(|items|, j requires 0 <= j < |items| => TipSpan(items[j]));
    var parts: seq<string> := [];
    var i := 0;
    while i < |items|
      invariant 0 <= i <= |items|
      invariant parts == spans[..i]
    {
      TakeSnoc(spans, i);
      parts := parts + [TipSpan(items[i])];
      i := i + 1;
    }
    assert spans[..|items|] == spans;
    html := Concat(parts);
  }

  /** A style holds no `"` and no `<`, and is empty exactly when the score
      is null. */
  lemma StyleIsInert(item: Item)
    ensures Style(item) == "" <==> item.score.None?
    ensures '"' !in Style(item) && '<' !in Style(item)
  {
    if item.score.Some? {
      var h := NatToString(Hue(item.score.value));
      StyleTextInert();
      assert Style(item) == "background:" + ("hsl(" + h + ", 85%, 40%)") + ";";
      assert '"' !in h && '<' !in h;
    }
  }

  /** The fixed text of a style can neither end its attribute nor open a
      tag, and it is not empty. */
  lemma StyleTextInert()
    ensures "background:"[0] == 'b'
    ensures '"' !in "background:" && '<' !in "background:"
    ensures '"' !in "hsl(" && '<' !in "hsl("
    ensures '"' !in ", 85%, 40%)" && '<' !in ", 85%, 40%)"
    ensures '"' !in ";" && '<' !in ";"
  {
  }

  /** One element's span opens and closes exactly one tag. */
  lemma TipSpanTagCount(item: Item)
    ensures CountChar(TipSpan(item), '<') == 2
  {
    var tip, style := EscapeHtml(Tip(item)), Style(item);
    StyleIsInert(item);
    EscapedHasNoMarkup(Tip(item));
    EscapedHasNoMarkup(TokenText(item));
    var attrs := "class=\"tok\" data-tip=\"" + tip + "\" style=\"" + style + "\"";
    SpanTextInert();
    assert '<' !in attrs;
    SpanTagCount(attrs, EscapeHtml(TokenText(item)));
  }

  /** Whatever the tokens and reasons contain, the markup has two `<` per
      element: one opening and one closing tag. */
  lemma TokenViewTagCount(tokenScores: Option<seq<Item>>)
    ensures tokenScores.None? ==> TokenViewHtml(tokenScores) == ""
    ensures tokenScores.Some? ==> CountChar(TokenViewHtml(tokenScores), '<') == 2 * |tokenScores.value|
  {
    var items := if tokenScores.Some? then tokenScores.value else [];
    var spans := seq(|items|, i requires 0 <= i < |items| => TipSpan(items[i]));
    forall i | 0 <= i < |items| ensures CountChar(spans[i], '<') == 2 {
      TipSpanTagCount(items[i]);
    }
    CountConcat(spans, '<', 2);
  }

  /** A scored element's tooltip starts with its score and ends with a
      reason line exactly when it has a reason. */
  lemma TipShowsReason(item: Item)
    requires item.score.Some?
    ensures StartsWith(Tip(item), "score: ")
    ensures item.reason != "" ==> EndsWith(Tip(item), "\nreason: " + item.reason)
    ensures item.reason == "" ==> '\n' !in Tip(item)
  {
    var f := FixedNonNegative(Clamp01(item.score.value), 3);
    var tip := Tip(item);
    assert tip[..7] == "score: ";
    if item.reason == "" {
      assert tip == "score: " + f;
      assert '\n' !in f;
    } else {
      assert tip == ("score: " + f) + ("\nreason: " + item.reason);
    }
  }
}
