/** The results page of `test-server/public/app.js`: the file list with its
    filter and default selection, the heatmap colour of a score, and the
    check that picks diff highlighting. The DOM, `fetch`, the event source
    and the highlighter are not part of this model. */
module FileList {
  import opened Wrappers
  import opened Text
  import opened Scores

  /** The hue of `scoreToColor(score)`, `(1 - score) * 120`. It is not
      clamped: a score outside [0,1] gives a hue outside [0,120]. */
  function PageHue(score: real): (h: real)
    ensures 0.0 <= score <= 1.0 ==> 0.0 <= h <= 120.0
    ensures score == 0.0 ==> h == 120.0
    ensures score == 1.0 ==> h == 0.0
    ensures score < 0.0 ==> h > 120.0
    ensures score > 1.0 ==> h < 0.0
  {
    (1.0 - score) * 120.0
  }

  /** A higher score is always redder. */
  lemma PageHueDecreasing(a: real, b: real)
    requires a < b
    ensures PageHue(b) < PageHue(a)
  {
    assert PageHue(a) - PageHue(b) == (b - a) * 120.0;
  }

  /** On [0,1] the page's hue is within half a degree of the rounded hue
      the editor's webviews use. */
  lemma PageHueNearWebviewHue(score: real)
    requires 0.0 <= score <= 1.0
    ensures Dist(PageHue(score), Hue(score) as real) <= 0.5
  {
    var r := JsRound(score * 120.0);
    assert Hue(score) == 120 - r;
    assert PageHue(score) == 120.0 - score * 120.0;
  }

  /** `!state.selected`: nothing selected, or the empty path. */
  predicate NothingSelected(selected: Option<string>) {
    selected.None? || selected.value == ""
  }

  /** `paths.filter(p => p.toLowerCase().includes(q))`. */
  function Listed(paths: seq<string>, q: string): seq<string> {
    if paths == [] then []
    else
      var p := paths[|paths| - 1];
      Listed(paths[..|paths| - 1], q) + (if Contains(Lower(p), q) then [p] else [])
  }

  /** A path is listed exactly when it is a result path whose lower-cased
      form contains the lower-cased filter; each is listed at most as often
      as it is a result. */
  lemma {:induction false} ListedSpec(paths: seq<string>, q: string)
    ensures forall p :: p in Listed(paths, q) <==> p in paths && Contains(Lower(p), q)
    ensures multiset(Listed(paths, q)) <= multiset(paths)
    decreases |paths|
  {
    if paths != [] {
      var init, p := paths[..|paths| - 1], paths[|paths| - 1];
      ListedSpec(init, q);
      assert paths == init + [p];
    }
  }

  /** The list is a filter that keeps the result order: listing a
      concatenation lists each part in turn ... */
  lemma {:induction false} ListedAppend(a: seq<string>, b: seq<string>, q: string)
    ensures Listed(a + b, q) == Listed(a, q) + Listed(b, q)
    decreases |b|
  {
    if b == [] {
      assert a + b == a;
    } else {
      var b', p := b[..|b| - 1], b[|b| - 1];
      assert (a + b)[..|a + b| - 1] == a + b';
      ListedAppend(a, b', q);
    }
  }

  /** ... and a single path is listed exactly when it matches. */
  lemma ListedSingle(p: string, q: string)
    ensures Listed([p], q) == (if Contains(Lower(p), q) then [p] else [])
  {
    assert [p][..0] == [];
  }

  /** Something is listed exactly when some result matches. */
  lemma {:induction false} ListedNonEmpty(paths: seq<string>, q: string)
    ensures Listed(paths, q) != [] <==> exists j :: 0 <= j < |paths| && Contains(Lower(paths[j]), q)
  {
    ListedSpec(paths, q);
    if Listed(paths, q) != [] {
      var p := Listed(paths, q)[0];
      assert p in Listed(paths, q);
      var j :| 0 <= j < |paths| && paths[j] == p;
    }
    if exists j :: 0 <= j < |paths| && Contains(Lower(paths[j]), q) {
      var j :| 0 <= j < |paths| && Contains(Lower(paths[j]), q);
      assert paths[j] in paths;
    }
  }

  /** The first listed path, the default selection, is the first matching
      result. */
  lemma {:induction false} ListedFirst(paths: seq<string>, q: string)
    requires Listed(paths, q) != []
    ensures exists j ::
      && 0 <= j < |paths| && paths[j] == Listed(paths, q)[0] && Contains(Lower(paths[j]), q)
      && (forall k :: 0 <= k < j ==> !Contains(Lower(paths[k]), q))
    decreases |paths|
  {
    var p, rest := paths[0], paths[1..];
    assert paths == [p] + rest;
    ListedAppend([p], rest, q);
    ListedSingle(p, q);
    if !Contains(Lower(p), q) {
      ListedFirst(rest, q);
      var j :| 0 <= j < |rest| && rest[j] == Listed(rest, q)[0] && Contains(Lower(rest[j]), q)
        && forall k :: 0 <= k < j ==> !Contains(Lower(rest[k]), q);
      assert paths[j + 1] == rest[j];
      NoMatchBefore(paths, q, j);
    } else {
      assert paths[0] == Listed(paths, q)[0];
    }
  }

  /** No match before `j + 1` in `paths` when the first path does not
      match and no path before `j` in the rest does. */
  lemma NoMatchBefore(paths: seq<string>, q: string, j: nat)
    requires j < |paths| - 1 && !Contains(Lower(paths[0]), q)
    requires forall k :: 0 <= k < j ==> !Contains(Lower(paths[1..][k]), q)
    ensures forall k :: 0 <= k < j + 1 ==> !Contains(Lower(paths[k]), q)
  {
    forall k | 0 < k < j + 1
      ensures !Contains(Lower(paths[k]), q)
    {
      assert paths[k] == paths[1..][k - 1];
    }
  }

  /** An empty filter lists every result. */
  lemma {:induction false} EmptyFilterListsAll(paths: seq<string>)
    ensures Listed(paths, "") == paths
    decreases |paths|
  {
    if paths != [] {
      var init, p := paths[..|paths| - 1], paths[|paths| - 1];
      EmptyFilterListsAll(init);
      ContainsEmpty(Lower(p));
      assert paths == init + [p];
    }
  }

  /** An entry of the file list: its text and whether it is marked active. */
  datatype ListItem = ListItem(path: string, active: bool)

  /** The results page's state. */
  class Page {
    /** The paths of `state.results`, in order. */
    var results: seq<string>
    /** `state.selected`. */
    var selected: Option<string>
    /** The entries of the file list element. */
    var items: seq<ListItem>

    constructor ()
      ensures results == [] && selected == None && items == []
    {
      results := [];
      selected := None;
      items := [];
    }

    /** `renderFileList()`, with `filter` the filter box's text: list the
        matching paths, mark the selected one active, and select the first
        listed path when nothing is selected. */
    method RenderFileList(filter: string)
      modifies this
      ensures results == old(results)
      ensures var list := Listed(old(results), Lower(filter));
        && |items| == |list|
        && (forall i :: 0 <= i < |list| ==>
              items[i].path == list[i] && (items[i].active <==> old(selected) == Some(list[i])))
        && selected == (if NothingSelected(old(selected)) && |list| > 0 then Some(list[0]) else old(selected))
    {
      var q := Lower(filter);
      items := [];
      var list := Listed(results, q);
      var i := 0;
      while i < |list|
        invariant 0 <= i <= |list|
        invariant results == old(results) && selected == old(selected)
        invariant |items| == i
        invariant forall k :: 0 <= k < i ==>
          items[k].path == list[k] && (items[k].active <==> selected == Some(list[k]))
      {
        var p := list[i];
        items := items + [ListItem(p, Some(p) == selected)];
        i := i + 1;
      }
      if NothingSelected(selected) && |list| > 0 {
        selected := Some(list[0]);
      }
    }
  }

  /** When the result paths are distinct, at most one entry of the file
      list is marked active. */
  lemma AtMostOneActive(paths: seq<string>, q: string, selected: Option<string>, items: seq<ListItem>)
    requires Distinct(paths)
    requires var list := Listed(paths, q);
      && |items| == |list|
      && forall i :: 0 <= i < |list| ==>
           items[i].path == list[i] && (items[i].active <==> selected == Some(list[i]))
    ensures forall i, j :: 0 <= i < j < |items| && items[i].active ==> !items[j].active
  {
    var list := Listed(paths, q);
    ListedSpec(paths, q);
    assert Distinct(list) by {
      forall x ensures multiset(list)[x] <= 1 {
        assert multiset(list)[x] <= multiset(paths)[x];
      }
    }
    forall i, j | 0 <= i < j < |items| && items[i].active
      ensures !items[j].active
    {
      DistinctIndices(list, i, j);
    }
  }

  /** Nothing is marked active in the rendering that makes the default
      selection: the first entry becomes selected only afterwards. */
  lemma DefaultSelectionNotYetActive(selected: Option<string>, items: seq<ListItem>, list: seq<string>)
    requires NothingSelected(selected)
    requires |items| == |list|
    requires forall i :: 0 <= i < |list| ==>
      items[i].path == list[i] && (items[i].active <==> selected == Some(list[i]))
    requires forall p :: p in list ==> p != ""
    ensures forall i :: 0 <= i < |items| ==> !items[i].active
  {
    forall i | 0 <= i < |items| ensures !items[i].active {
      assert list[i] in list;
    }
  }

  /** `isDiff`: the lower-cased path ends with `.diff` or `.patch`. */
  predicate IsDiff(path: string) {
    EndsWith(Lower(path), ".diff") || EndsWith(Lower(path), ".patch")
  }

  /** A path counts as a diff whatever the case of its letters. */
  lemma IsDiffIgnoresCase(path: string)
    ensures IsDiff(path) <==> IsDiff(Lower(path))
  {
    assert Lower(Lower(path)) == Lower(path);
  }
}
