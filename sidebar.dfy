/** The sidebar webview script `curator/media/sidebar.js`: an Analyze
    button with a spinner and a status line, a message handler for the
    extension's `loading`, `render` and `status` messages, and the token
    list (spans with a `title` tooltip). The elements are taken to exist. */
module Sidebar {
  import opened Wrappers
  import opened Text
  import opened Scores
  import opened Html
  import opened TokenView

  const AnalyzeLabel := "Analyze"
  const AnalyzingLabel := "Analyzing\U{2026}"
  const RunningStatus := "Running analysis on first uncommitted file\U{2026}"

  /** A message from the extension. `kind` is `msg.type` (`""` when
      absent), `value` is `!!msg.value`; `error`, `filename` and `text` are
      `""` when absent or falsy; `tokenScores` is `None` when falsy. */
  datatype Message = Message(
    kind: string,
    value: bool,
    error: string,
    filename: string,
    text: string,
    tokenScores: Option<seq<Item>>)

  /** One element of the sidebar's list: style before tooltip. */
  function TitleSpan(item: Item): string {
    Span("class=\"tok\" style=\"" + Style(item) + "\" title=\"" + EscapeHtml(Tip(item)) + "\"",
         EscapeHtml(TokenText(item)))
  }

  /** The markup the sidebar's `renderTokens(items)` puts in the code area. */
  function SidebarHtml(items: seq<Item>): string {
    Concat(seq(|items|, i requires 0 <= i < |items| => TitleSpan(items[i])))
  }

  /** One element's span opens and closes exactly one tag. */
  lemma TitleSpanTagCount(item: Item)
    ensures CountChar(TitleSpan(item), '<') == 2
  {
    var style, tip := Style(item), EscapeHtml(Tip(item));
    StyleIsInert(item);
    EscapedHasNoMarkup(Tip(item));
    EscapedHasNoMarkup(TokenText(item));
    var attrs := "class=\"tok\" style=\"" + style + "\" title=\"" + tip + "\"";
    SpanTextInert();
    assert '<' !in attrs;
    SpanTagCount(attrs, EscapeHtml(TokenText(item)));
  }

  /** Whatever the tokens and reasons contain, the sidebar's markup has two
      `<` per element: one opening and one closing tag. */
  lemma SidebarTagCount(items: seq<Item>)
    ensures CountChar(SidebarHtml(items), '<') == 2 * |items|
  {
    var spans := seq(|items|, i requires 0 <= i < |items| => TitleSpan(items[i]));
    forall i | 0 <= i < |items| ensures CountChar(spans[i], '<') == 2 {
      TitleSpanTagCount(items[i]);
    }
    CountConcat(spans, '<', 2);
  }

  class SidebarView {
    var buttonDisabled: bool
    var buttonText: string
    var spinnerHidden: bool
    var status: string
    var code: string
    /** Messages posted to the extension, oldest first. */
    var posted: seq<string>

    /** The button and the spinner always show the same state. */
    predicate Consistent()
      reads this
    {
      spinnerHidden == !buttonDisabled &&
      buttonText == (if buttonDisabled then AnalyzingLabel else AnalyzeLabel)
    }

    constructor ()
      ensures Consistent() && !buttonDisabled
      ensures status == "" && code == "" && posted == []
    {
      buttonDisabled := false;
      buttonText := AnalyzeLabel;
      spinnerHidden := true;
      status := "";
      code := "";
      posted := [];
    }

    /** `setLoading(isLoading)`. */
    method SetLoading(isLoading: bool)
      modifies this
      ensures Consistent() && buttonDisabled == isLoading
      ensures status == (if isLoading then RunningStatus else "")
      ensures code == old(code) && posted == old(posted)
    {
      buttonDisabled := isLoading;
      spinnerHidden := !isLoading;
      buttonText := if isLoading then AnalyzingLabel else AnalyzeLabel;
      status := if isLoading then RunningStatus else "";
    }

    /** `onAnalyzeClick()`: show the loading state and ask for an analysis. */
    method OnAnalyzeClick()
      modifies this
      ensures Consistent() && buttonDisabled
      ensures status == RunningStatus && code == old(code)
      ensures posted == old(posted) + ["analyze"]
    {
      SetLoading(true);
      posted := posted + ["analyze"];
    }

    /** The sidebar's `renderTokens(items)`: one span per element, joined
      into the code area. */
    method RenderTokens(items: seq<Item>)
      modifies this
      ensures code == SidebarHtml(items)
      ensures buttonDisabled == old(buttonDisabled) && buttonText == old(buttonText)
      ensures spinnerHidden == old(spinnerHidden) && status == old(status) && posted == old(posted)
    {
      ghost var spans := seq(|items|, j requires 0 <= j < |items| => TitleSpan(items[j]));
      var parts: seq<string> := [];
      var i := 0;
      while i < |items|
        invariant 0 <= i <= |items|
        invariant parts == spans[..i]
        invariant buttonDisabled == old(buttonDisabled) && buttonText == old(buttonText)
        invariant spinnerHidden == old(spinnerHidden) && status == old(status) && posted == old(posted)
      {
        TakeSnoc(spans, i);
        parts := parts + [TitleSpan(items[i])];
        i := i + 1;
      }
      assert spans[..|items|] == spans;
      code := Concat(parts);
    }

    /** `onMessage(event)`; `None` is an event without data. */
    method OnMessage(msg: Option<Message>)
      requires Consistent()
      modifies this
      ensures Consistent() && posted == old(posted)
      ensures msg.None? ==> buttonDisabled == old(buttonDisabled) && status == old(status) && code == old(code)
      ensures msg.Some? && msg.value.kind == "loading" ==>
        buttonDisabled == msg.value.value && code == old(code) &&
        status == (if msg.value.value then RunningStatus else "")
      ensures msg.Some? && msg.value.kind == "render" ==> !buttonDisabled
      ensures msg.Some? && msg.value.kind == "render" && msg.value.error != "" ==>
        status == msg.value.error && code == ""
      ensures msg.Some? && msg.value.kind == "render" && msg.value.error == "" ==>
        status == (if msg.value.filename != "" then "Results for: " + msg.value.filename else "") &&
        code == SidebarHtml(if msg.value.tokenScores.Some? then msg.value.tokenScores.value else [])
      ensures msg.Some? && msg.value.kind == "status" ==>
        status == msg.value.text && buttonDisabled == old(buttonDisabled) && code == old(code)
      ensures msg.Some? && msg.value.kind !in {"loading", "render", "status"} ==>
        buttonDisabled == old(buttonDisabled) && status == old(status) && code == old(code)
    {
      if msg.None? {
        return;
      }
      var m := msg.value;
      if m.kind == "loading" {
        SetLoading(m.value);
      } else if m.kind == "render" {
        SetLoading(false);
        if m.error != "" {
          status := m.error;
          code := "";
        } else {
          status := if m.filename != "" then "Results for: " + m.filename else "";
          RenderTokens(if m.tokenScores.Some? then m.tokenScores.value else []);
        }
      } else if m.kind == "status" {
        status := m.text;
      }
    }
  }
}
