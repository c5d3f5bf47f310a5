/** The editor heatmap of `curator/src/ui/editorHeatmap.ts`: the pieces are
    joined into a plain-text document and each scored, non-empty piece is
    decorated with the background of one of 21 bins, green to red, and a
    hover message with its score. Positions are character offsets; the
    document's `positionAt` is not part of this model. */
module EditorHeatmap {
  import opened Wrappers
  import opened Text
  import opened Scores

  const NumBins := 21

  /** `buildContentFromTokens(tokenScores)`: the tokens, joined. */
  function BuildContent(ts: seq<TokenScore>): string {
    Concat(Tokens(ts))
  }

  /** Where the piece after `prefix` starts in the document. */
  function Offset(prefix: seq<TokenScore>): nat {
    |BuildContent(prefix)|
  }

  /** `Math.max(a, b)`. */
  function Max(a: int, b: int): int {
    if a < b then b else a
  }

  /** `Math.min(a, b)`. */
  function Min(a: int, b: int): int {
    if a < b then a else b
  }

  /** `scoreToBin(score)`: the bin nearest to the clamped score. */
  function ScoreToBin(score: real): (b: nat)
    ensures b < NumBins
    ensures score <= 0.0 ==> b == 0
    ensures score >= 1.0 ==> b == NumBins - 1
    ensures Dist(b as real / 20.0, Clamp01(score)) <= 1.0 / 40.0
  {
    Min(NumBins - 1, Max(0, JsRound(Clamp01(score) * 20.0)))
  }

  /** A higher score never lands in a lower bin. */
  lemma ScoreToBinMonotone(a: real, b: real)
    requires a <= b
    ensures ScoreToBin(a) <= ScoreToBin(b)
  {
    Clamp01Monotone(a, b);
    JsRoundMonotone(Clamp01(a) * 20.0, Clamp01(b) * 20.0);
  }

  /** The hue of a bin, `120 - Math.round(bin / 20 * 120)`. */
  function HueForBin(bin: nat): (h: nat)
    requires bin < NumBins
    ensures h == 120 - 6 * bin
  {
    var ratio := bin as real / 20.0;
    assert ratio * 120.0 == (6 * bin) as real;
    JsRoundOfInt(6 * bin);
    120 - JsRound(ratio * 120.0)
  }

  /** `colorForBin(bin)`. */
  function ColorForBin(bin: nat): string
    requires bin < NumBins
  {
    "hsla(" + NatToString(HueForBin(bin)) + ", 85%, 45%, 0.65)"
  }

  /** The editor's binned hue stays within 3 degrees of the hue the
      webviews paint the same score with. */
  lemma BinHueNearWebviewHue(score: real)
    ensures -3 <= HueForBin(ScoreToBin(score)) - Hue(score) <= 3
  {
    var c := Clamp01(score);
    var b := JsRound(c * 20.0);
    assert 0 <= b <= 20;
    assert ScoreToBin(score) == b;
    var h := JsRound(c * 120.0);
    assert Hue(score) == 120 - h;
    assert -3.5 < (6 * b - h) as real < 3.5;
  }

  /** A decoration type: one per bin, with that bin's colour. */
  datatype DecorationType = DecorationType(bin: nat, color: string)

  /** `createDecorationTypes()`: bins 0 to 20, each with its colour. */
  method CreateDecorationTypes() returns (types: map<nat, DecorationType>)
    ensures forall b: nat :: b in types <==> b < NumBins
    ensures forall b :: b in types ==> b < NumBins && types[b] == DecorationType(b, ColorForBin(b))
  {
    types := map[];
    var bin := 0;
    while bin < NumBins
      invariant 0 <= bin <= NumBins
      invariant forall b: nat :: b in types <==> b < bin
      invariant forall b :: b in types ==> b < NumBins && types[b] == DecorationType(b, ColorForBin(b))
    {
      types := types[bin := DecorationType(bin, ColorForBin(bin))];
      bin := bin + 1;
    }
  }

  /** A decorated range `[start, end)` of the document and the score its
      hover message shows; the message itself is `Hover(score)`. */
  datatype Decoration = Decoration(start: nat, end: nat, score: real)

  /** The hover message, `score: ` and the clamped score to three decimals. */
  function Hover(score: real): string {
    "score: " + FixedNonNegative(Clamp01(score), 3)
  }

  /** The hover message reads back as the clamped score rounded to the
      nearest thousandth, written with three decimals. */
  lemma HoverShowsScore(score: real)
    ensures exists f :: Hover(score) == "score: " + f && WritesScaled(f, JsRound(Scaled(Clamp01(score), 3)), 3)
  {
    var f := FixedNonNegative(Clamp01(score), 3);
    FixedNonNegativeValue(Clamp01(score), 3);
    assert Hover(score) == "score: " + f;
  }

  /** The decoration of piece `t` placed at `offset`, with its bin: none
      for an empty piece or a null score. */
  function Placed(offset: nat, t: TokenScore): seq<(nat, Decoration)> {
    if |t.token| > 0 && t.score.Some? then
      [(ScoreToBin(t.score.value), Decoration(offset, offset + |t.token|, t.score.value))]
    else []
  }

  /** The decorations of the pieces `ts` when the first starts at `offset`,
      in document order. */
  function DecorationsFrom(ts: seq<TokenScore>, offset: nat): seq<(nat, Decoration)> {
    if ts == [] then []
    else Placed(offset, ts[0]) + DecorationsFrom(ts[1..], offset + |ts[0].token|)
  }

  /** All decorations of the document built from `ts`. */
  function Decorations(ts: seq<TokenScore>): seq<(nat, Decoration)> {
    DecorationsFrom(ts, 0)
  }

  /** The decorations that fall in bin `b`, in order. */
  function Bucket(ds: seq<(nat, Decoration)>, b: nat): seq<Decoration> {
    if ds == [] then []
    else Bucket(ds[..|ds| - 1], b) + (if ds[|ds| - 1].0 == b then [ds[|ds| - 1].1] else [])
  }

  /** `bucketed.get(bin) ?? []`. */
  function Lookup(bucketed: map<nat, seq<Decoration>>, b: nat): seq<Decoration> {
    if b in bucketed then bucketed[b] else []
  }

  /** The text editor: the decorations last set for each type. */
  class Editor {
    var decorations: map<DecorationType, seq<Decoration>>

    constructor ()
      ensures decorations == map[]
    {
      decorations := map[];
    }

    /** `editor.setDecorations(type, options)`. */
    method SetDecorations(t: DecorationType, options: seq<Decoration>)
      modifies this
      ensures decorations == old(decorations)[t := options]
    {
      decorations := decorations[t := options];
    }
  }

  lemma BucketAppend(ds: seq<(nat, Decoration)>, more: seq<(nat, Decoration)>, b: nat)
    requires |more| <= 1
    ensures Bucket(ds + more, b) == Bucket(ds, b) + Bucket(more, b)
  {
    if more != [] {
      assert (ds + more)[..|ds + more| - 1] == ds;
      assert more[..0] == [];
    } else {
      assert ds + more == ds;
    }
  }

  /** Each bin's list holds the bucket of the decorations `ds`. */
  ghost predicate Bucketed(bucketed: map<nat, seq<Decoration>>, ds: seq<(nat, Decoration)>) {
    forall b :: Lookup(bucketed, b) == Bucket(ds, b)
  }

  /** Appending a decoration to its bin's list buckets it. */
  lemma BucketAdd(bucketed: map<nat, seq<Decoration>>, ds: seq<(nat, Decoration)>, bin: nat, d: Decoration)
    requires Bucketed(bucketed, ds)
    ensures Bucketed(bucketed[bin := Lookup(bucketed, bin) + [d]], ds + [(bin, d)])
  {
    forall b ensures Lookup(bucketed[bin := Lookup(bucketed, bin) + [d]], b) == Bucket(ds + [(bin, d)], b) {
      BucketAppend(ds, [(bin, d)], b);
      assert [(bin, d)][..0] == [];
    }
  }

  lemma PlacedScored(offset: nat, t: TokenScore)
    requires |t.token| > 0 && t.score.Some?
    ensures Placed(offset, t) == [(ScoreToBin(t.score.value), Decoration(offset, offset + |t.token|, t.score.value))]
  {
  }

  /** The decorations from piece `i` on: piece `i`'s, then the rest's. */
  lemma DecorationsFromStep(ts: seq<TokenScore>, i: nat, offset: nat)
    requires i < |ts|
    ensures DecorationsFrom(ts[i..], offset)
      == Placed(offset, ts[i]) + DecorationsFrom(ts[i + 1..], offset + |ts[i].token|)
  {
    assert ts[i..][1..] == ts[i + 1..];
  }

  /** The loop's first invariant: `ds` holds the decorations of the pieces
      before `i`, which start at `offset`. */
  ghost predicate DecoratedUpTo(ts: seq<TokenScore>, i: nat, offset: nat, ds: seq<(nat, Decoration)>) {
    i <= |ts| && ds + DecorationsFrom(ts[i..], offset) == Decorations(ts)
  }

  /** Stepping past piece `i` adds its decorations to `ds`. */
  lemma DecoratedStep(ts: seq<TokenScore>, i: nat, offset: nat, ds: seq<(nat, Decoration)>)
    requires i < |ts| && DecoratedUpTo(ts, i, offset, ds)
    ensures DecoratedUpTo(ts, i + 1, offset + |ts[i].token|, ds + Placed(offset, ts[i]))
  {
    DecorationsFromStep(ts, i, offset);
    AppendAssociative(ds, Placed(offset, ts[i]), DecorationsFrom(ts[i + 1..], offset + |ts[i].token|));
  }

  /** A scored, non-empty piece's decoration goes to the end of its bin. */
  lemma BucketScored(offset: nat, t: TokenScore, ds: seq<(nat, Decoration)>,
                     bucketed: map<nat, seq<Decoration>>, bin: nat, d: Decoration)
    requires |t.token| > 0 && t.score.Some? && Bucketed(bucketed, ds)
    requires bin == ScoreToBin(t.score.value) && d == Decoration(offset, offset + |t.token|, t.score.value)
    ensures Bucketed(bucketed[bin := Lookup(bucketed, bin) + [d]], ds + Placed(offset, t))
  {
    PlacedScored(offset, t);
    BucketAdd(bucketed, ds, bin, d);
  }

  /** Any other piece has no decoration. */
  lemma BucketSkipped(offset: nat, t: TokenScore, ds: seq<(nat, Decoration)>)
    requires !(|t.token| > 0 && t.score.Some?)
    ensures ds + Placed(offset, t) == ds
  {
  }

  /** The body of the first loop of `applyTokenDecorations` for one piece
      at `offset`: a scored, non-empty piece's decoration is appended to
      its bin's list. */
  method PlacePiece(t: TokenScore, offset: nat, bucketed: map<nat, seq<Decoration>>, ghost ds: seq<(nat, Decoration)>)
    returns (bucketed': map<nat, seq<Decoration>>)
    requires Bucketed(bucketed, ds)
    ensures Bucketed(bucketed', ds + Placed(offset, t))
  {
    var length := |t.token|;
    bucketed' := bucketed;
    if length > 0 && t.score.Some? {
      var bin := ScoreToBin(t.score.value);
      var arr := Lookup(bucketed, bin);
      var d := Decoration(offset, offset + length, t.score.value);
      BucketScored(offset, t, ds, bucketed, bin, d);
      arr := arr + [d];
      bucketed' := bucketed[bin := arr];
    } else {
      BucketSkipped(offset, t, ds);
    }
  }

  /** The first loop of `applyTokenDecorations`: walk the pieces, keeping
      the running offset, and append each scored, non-empty piece's
      decoration to its bin's list. */
  method BucketDecorations(ts: seq<TokenScore>) returns (bucketed: map<nat, seq<Decoration>>)
    ensures Bucketed(bucketed, Decorations(ts))
  {
    var offset: nat := 0;
    bucketed := map[];
    ghost var ds: seq<(nat, Decoration)> := [];
    var i := 0;
    assert ts[..0] == [];
    while i < |ts|
      invariant DecoratedUpTo(ts, i, offset, ds)
      invariant offset == Offset(ts[..i])
      invariant Bucketed(bucketed, ds)
    {
      var t := ts[i];
      DecoratedStep(ts, i, offset, ds);
      OffsetSnoc(ts, i);
      bucketed := PlacePiece(t, offset, bucketed, ds);
      ds := ds + Placed(offset, t);
      offset := offset + |t.token|;
      i := i + 1;
    }
    assert ds + [] == ds;
    // The running offset ends at the length of the whole document.
    assert ts[..|ts|] == ts;
    assert offset == |BuildContent(ts)|;
  }

  /** The offset after piece `i` is the offset before it plus its length. */
  lemma OffsetSnoc(ts: seq<TokenScore>, i: nat)
    requires i < |ts|
    ensures Offset(ts[..i + 1]) == Offset(ts[..i]) + |ts[i].token|
  {
    assert ts[..i + 1] == ts[..i] + [ts[i]];
    assert Tokens(ts[..i + 1]) == Tokens(ts[..i]) + [ts[i].token];
    ConcatAppend(Tokens(ts[..i]), [ts[i].token]);
    assert [ts[i].token][..0] == [];
  }

  /** Bins below `bin` that have a type show that bin's bucket. */
  predicate BinsInstalled(decorations: map<DecorationType, seq<Decoration>>, types: map<nat, DecorationType>,
                          ds: seq<(nat, Decoration)>, bin: nat)
  {
    forall b :: 0 <= b < bin && b in types ==>
      types[b] in decorations && decorations[types[b]] == Bucket(ds, b)
  }

  /** Types not installed for a bin below `bin` keep their old decorations. */
  predicate OthersKept(decorations: map<DecorationType, seq<Decoration>>, before: map<DecorationType, seq<Decoration>>,
                       types: map<nat, DecorationType>, bin: nat)
  {
    forall t :: t in decorations && !(t.bin < bin && t.bin in types && types[t.bin] == t) ==>
      t in before && decorations[t] == before[t]
  }

  /** Setting bin `bin`'s bucket on its type extends both facts by one bin. */
  lemma InstallStep(decorations: map<DecorationType, seq<Decoration>>, before: map<DecorationType, seq<Decoration>>,
                    types: map<nat, DecorationType>, ds: seq<(nat, Decoration)>, bin: nat)
    requires forall b :: b in types ==> types[b].bin == b
    requires BinsInstalled(decorations, types, ds, bin) && OthersKept(decorations, before, types, bin)
    ensures bin in types ==>
      var after := decorations[types[bin] := Bucket(ds, bin)];
      BinsInstalled(after, types, ds, bin + 1) && OthersKept(after, before, types, bin + 1)
    ensures bin !in types ==>
      BinsInstalled(decorations, types, ds, bin + 1) && OthersKept(decorations, before, types, bin + 1)
  {
  }

  /** `applyTokenDecorations(editor, tokenScores, decorationTypes)`: bucket
      the decorations by bin, then set each bin's list on its type; types
      of other bins keep what they had. */
  method ApplyTokenDecorations(editor: Editor, ts: seq<TokenScore>, types: map<nat, DecorationType>)
    requires forall b :: b in types ==> types[b].bin == b
    modifies editor
    ensures BinsInstalled(editor.decorations, types, Decorations(ts), NumBins)
    ensures OthersKept(editor.decorations, old(editor.decorations), types, NumBins)
  {
    var bucketed := BucketDecorations(ts);
    var ds := Decorations(ts);
    var bin := 0;
    while bin < NumBins
      invariant 0 <= bin <= NumBins
      invariant BinsInstalled(editor.decorations, types, ds, bin)
      invariant OthersKept(editor.decorations, old(editor.decorations), types, bin)
    {
      InstallStep(editor.decorations, old(editor.decorations), types, ds, bin);
      if bin in types {
        editor.SetDecorations(types[bin], Lookup(bucketed, bin));
      }
      bin := bin + 1;
    }
  }

  lemma OffsetCons(t: TokenScore, rest: seq<TokenScore>)
    ensures Offset([t] + rest) == |t.token| + Offset(rest)
  {
    assert Tokens([t] + rest) == [t.token] + Tokens(rest);
    ConcatCons(t.token, Tokens(rest));
  }

  /** Each piece sits in the document exactly where the offsets say. */
  lemma TokenLocated(ts: seq<TokenScore>, i: nat)
    requires i < |ts|
    ensures Offset(ts[..i]) + |ts[i].token| <= |BuildContent(ts)|
    ensures BuildContent(ts)[Offset(ts[..i])..Offset(ts[..i]) + |ts[i].token|] == ts[i].token
  {
    var before, rest := Tokens(ts[..i]), Tokens(ts[i + 1..]);
    assert Tokens(ts) == before + [ts[i].token] + rest;
    ConcatAppend(before + [ts[i].token], rest);
    ConcatAppend(before, [ts[i].token]);
    assert [ts[i].token][..0] == [];
    var content := BuildContent(ts);
    assert content == Concat(before) + ts[i].token + Concat(rest);
  }

  /** Decoration `m` from `offset` on is a non-empty range inside the
      pieces' span of the document. */
  lemma DecorationWithin(ts: seq<TokenScore>, offset: nat, m: nat)
    requires m < |DecorationsFrom(ts, offset)|
    ensures offset <= DecorationsFrom(ts, offset)[m].1.start < DecorationsFrom(ts, offset)[m].1.end
    ensures DecorationsFrom(ts, offset)[m].1.end <= offset + Offset(ts)
  {
    var i := DecorationFromCovered(ts, offset, m);
    TokenLocated(ts, i);
    PlacedScored(offset + Offset(ts[..i]), ts[i]);
  }

  /** The first piece's decoration ends where or before the rest's first
      decoration starts. */
  lemma OrderedAtSeam(ts: seq<TokenScore>, offset: nat)
    requires ts != [] && Placed(offset, ts[0]) != []
    requires DecorationsFrom(ts[1..], offset + |ts[0].token|) != []
    ensures Placed(offset, ts[0])[0].1.end <= DecorationsFrom(ts[1..], offset + |ts[0].token|)[0].1.start
  {
    assert |ts[0].token| > 0 && ts[0].score.Some?;
    PlacedScored(offset, ts[0]);
    assert Placed(offset, ts[0])[0].1.end == offset + |ts[0].token|;
    DecorationStartsAfter(ts[1..], offset + |ts[0].token|, 0);
  }

  /** No decoration from `offset` on starts before `offset`. */
  lemma {:induction false} DecorationStartsAfter(ts: seq<TokenScore>, offset: nat, m: nat)
    requires m < |DecorationsFrom(ts, offset)|
    ensures offset <= DecorationsFrom(ts, offset)[m].1.start
    decreases |ts|
  {
    assert ts != [];
    var off' := offset + |ts[0].token|;
    var ds, p, r := DecorationsFrom(ts, offset), Placed(offset, ts[0]), DecorationsFrom(ts[1..], off');
    DecorationsFromCons(ts, offset);
    assert |ds| == |p| + |r|;
    if m < |p| {
      PlacedScored(offset, ts[0]);
      assert ds[m] == p[0];
    } else {
      DecorationStartsAfter(ts[1..], off', m - |p|);
      assert ds[m] == r[m - |p|];
    }
  }

  /** Decoration `m` from `offset` on ends where or before decoration
      `m + 1` starts. */
  lemma {:induction false} DecorationOrdered(ts: seq<TokenScore>, offset: nat, m: nat)
    requires m + 1 < |DecorationsFrom(ts, offset)|
    ensures DecorationsFrom(ts, offset)[m].1.end <= DecorationsFrom(ts, offset)[m + 1].1.start
    decreases |ts|
  {
    assert ts != [];
    var off' := offset + |ts[0].token|;
    var ds, p, r := DecorationsFrom(ts, offset), Placed(offset, ts[0]), DecorationsFrom(ts[1..], off');
    DecorationsFromCons(ts, offset);
    assert |ds| == |p| + |r|;
    if m < |p| {
      OrderedAtSeam(ts, offset);
      assert ds[m] == p[0] && ds[m + 1] == r[0];
    } else {
      DecorationOrdered(ts[1..], off', m - |p|);
      assert ds[m] == r[m - |p|] && ds[m + 1] == r[m - |p| + 1];
    }
  }

  /** Decorations lie inside the document, in order, without overlap. */
  lemma DecorationsOrdered(ts: seq<TokenScore>)
    ensures forall m :: 0 <= m < |Decorations(ts)| ==>
      Decorations(ts)[m].1.start < Decorations(ts)[m].1.end <= |BuildContent(ts)|
    ensures forall m :: 0 <= m < |Decorations(ts)| - 1 ==>
      Decorations(ts)[m].1.end <= Decorations(ts)[m + 1].1.start
  {
    forall m | 0 <= m < |Decorations(ts)|
      ensures Decorations(ts)[m].1.start < Decorations(ts)[m].1.end <= |BuildContent(ts)|
    {
      DecorationWithin(ts, 0, m);
    }
    forall m | 0 <= m < |Decorations(ts)| - 1
      ensures Decorations(ts)[m].1.end <= Decorations(ts)[m + 1].1.start
    {
      DecorationOrdered(ts, 0, m);
    }
  }

  /** The decorations of the pieces after the first: `m` of the rest is
      `m + 1` of the whole, shifted by the first piece's length. */
  lemma PrefixCons(ts: seq<TokenScore>, i': nat)
    requires 0 < |ts| && i' < |ts| - 1
    ensures ts[..i' + 1] == [ts[0]] + ts[1..][..i']
    ensures Offset(ts[..i' + 1]) == |ts[0].token| + Offset(ts[1..][..i'])
    ensures ts[i' + 1] == ts[1..][i']
  {
    assert ts[..i' + 1] == [ts[0]] + ts[1..][..i'];
    OffsetCons(ts[0], ts[1..][..i']);
  }

  /** Decoration `d` is the one piece `i` of `ts` gets when the pieces
      start at `offset`. */
  ghost predicate PlacedFor(ts: seq<TokenScore>, offset: nat, d: (nat, Decoration), i: int) {
    0 <= i < |ts| && |ts[i].token| > 0 && ts[i].score.Some? &&
    d == Placed(offset + Offset(ts[..i]), ts[i])[0]
  }

  /** A piece's decoration among the rest is that piece's among all. */
  lemma PlacedForShift(ts: seq<TokenScore>, offset: nat, d: (nat, Decoration), i': nat)
    requires ts != [] && PlacedFor(ts[1..], offset + |ts[0].token|, d, i')
    ensures PlacedFor(ts, offset, d, i' + 1)
  {
    PrefixCons(ts, i');
  }

  /** The first piece's decoration, when it has one, is placed at `offset`. */
  lemma PlacedForFirst(ts: seq<TokenScore>, offset: nat)
    requires ts != [] && Placed(offset, ts[0]) != []
    ensures PlacedFor(ts, offset, Placed(offset, ts[0])[0], 0)
  {
    assert ts[..0] == [] && Tokens([]) == [];
  }

  /** The decorations from `offset` on: the first piece's, then the rest's. */
  lemma DecorationsFromCons(ts: seq<TokenScore>, offset: nat)
    requires ts != []
    ensures DecorationsFrom(ts, offset)
      == Placed(offset, ts[0]) + DecorationsFrom(ts[1..], offset + |ts[0].token|)
  {
  }

  /** Decoration `m` from `offset` on is the decoration of the scored,
      non-empty piece `i`, placed after the pieces before it. */
  lemma {:induction false} DecorationFromCovered(ts: seq<TokenScore>, offset: nat, m: nat) returns (i: nat)
    requires m < |DecorationsFrom(ts, offset)|
    ensures PlacedFor(ts, offset, DecorationsFrom(ts, offset)[m], i)
    decreases |ts|
  {
    assert ts != [];
    var off' := offset + |ts[0].token|;
    var p, r := Placed(offset, ts[0]), DecorationsFrom(ts[1..], off');
    DecorationsFromCons(ts, offset);
    assert |DecorationsFrom(ts, offset)| == |p| + |r|;
    if m < |p| {
      PlacedForFirst(ts, offset);
      i := 0;
    } else {
      assert m - |p| < |r|;
      var i' := DecorationFromCovered(ts[1..], off', m - |p|);
      PlacedForShift(ts, offset, r[m - |p|], i');
      i := i' + 1;
    }
  }

  /** Decoration `d` covers piece `i` of the document built from `ts`: it
      carries that piece's bin and score, and its range holds exactly that
      piece's text. */
  ghost predicate Covers(ts: seq<TokenScore>, d: (nat, Decoration), i: int) {
    0 <= i < |ts| && |ts[i].token| > 0 && ts[i].score.Some? &&
    d.0 == ScoreToBin(ts[i].score.value) && d.1.score == ts[i].score.value &&
    d.1.start + |ts[i].token| == d.1.end <= |BuildContent(ts)| &&
    BuildContent(ts)[d.1.start..d.1.end] == ts[i].token
  }

  /** Decoration `d` covers some piece of the document built from `ts`. */
  ghost predicate CoversSomePiece(ts: seq<TokenScore>, d: (nat, Decoration)) {
    exists i :: Covers(ts, d, i)
  }

  /** Every decoration covers a scored, non-empty piece of the document,
      and every scored, non-empty piece is covered by a decoration. */
  lemma DecorationsCoverTokens(ts: seq<TokenScore>)
    ensures forall m :: 0 <= m < |Decorations(ts)| ==> CoversSomePiece(ts, Decorations(ts)[m])
    ensures forall i :: 0 <= i < |ts| && |ts[i].token| > 0 && ts[i].score.Some? ==>
      exists m :: 0 <= m < |Decorations(ts)| && Covers(ts, Decorations(ts)[m], i)
  {
    forall m | 0 <= m < |Decorations(ts)|
      ensures CoversSomePiece(ts, Decorations(ts)[m])
    {
      var i := DecorationFromCovered(ts, 0, m);
      TokenLocated(ts, i);
      PlacedScored(Offset(ts[..i]), ts[i]);
      assert Decorations(ts)[m].1.start == Offset(ts[..i]);
      assert Covers(ts, Decorations(ts)[m], i);
    }
    forall i | 0 <= i < |ts| && |ts[i].token| > 0 && ts[i].score.Some?
      ensures exists m :: 0 <= m < |Decorations(ts)| && Covers(ts, Decorations(ts)[m], i)
    {
      var m := PieceCovered(ts, i);
    }
  }

  /** The decoration that covers a scored, non-empty piece. */
  lemma PieceCovered(ts: seq<TokenScore>, i: nat) returns (m: nat)
    requires i < |ts| && |ts[i].token| > 0 && ts[i].score.Some?
    ensures m < |Decorations(ts)| && Covers(ts, Decorations(ts)[m], i)
  {
    PieceDecorated(ts, 0, i);
    var d := Placed(Offset(ts[..i]), ts[i])[0];
    m :| 0 <= m < |Decorations(ts)| && Decorations(ts)[m] == d;
    TokenLocated(ts, i);
    PlacedScored(Offset(ts[..i]), ts[i]);
  }

  /** A scored, non-empty piece's decoration is among the decorations. */
  lemma {:induction false} PieceDecorated(ts: seq<TokenScore>, offset: nat, i: nat)
    requires i < |ts| && |ts[i].token| > 0 && ts[i].score.Some?
    ensures Placed(offset + Offset(ts[..i]), ts[i]) != []
    ensures Placed(offset + Offset(ts[..i]), ts[i])[0] in DecorationsFrom(ts, offset)
    decreases i
  {
    if i == 0 {
      FirstPieceDecorated(ts, offset);
    } else {
      var off' := offset + |ts[0].token|;
      PieceDecorated(ts[1..], off', i - 1);
      LaterPieceDecorated(ts, offset, off', i);
    }
  }

  lemma FirstPieceDecorated(ts: seq<TokenScore>, offset: nat)
    requires ts != [] && |ts[0].token| > 0 && ts[0].score.Some?
    ensures Placed(offset + Offset(ts[..0]), ts[0]) != []
    ensures Placed(offset + Offset(ts[..0]), ts[0])[0] in DecorationsFrom(ts, offset)
  {
    DecorationsFromCons(ts, offset);
    assert ts[..0] == [] && Tokens([]) == [];
  }

  /** Piece `i` among the rest is piece `i` among all. */
  lemma LaterPieceDecorated(ts: seq<TokenScore>, offset: nat, off': nat, i: nat)
    requires 0 < i < |ts| && |ts[i].token| > 0 && ts[i].score.Some?
    requires off' == offset + |ts[0].token|
    requires Placed(off' + Offset(ts[1..][..i - 1]), ts[1..][i - 1]) != []
    requires Placed(off' + Offset(ts[1..][..i - 1]), ts[1..][i - 1])[0] in DecorationsFrom(ts[1..], off')
    ensures Placed(offset + Offset(ts[..i]), ts[i]) != []
    ensures Placed(offset + Offset(ts[..i]), ts[i])[0] in DecorationsFrom(ts, offset)
  {
    StartShift(ts, i);
    assert ts[i] == ts[1..][i - 1];
    MemberShift(ts, offset, Placed(offset + Offset(ts[..i]), ts[i])[0]);
  }

  /** Where piece `i` starts, counted from the second piece. */
  lemma StartShift(ts: seq<TokenScore>, i: nat)
    requires 0 < i < |ts|
    ensures Offset(ts[..i]) == |ts[0].token| + Offset(ts[1..][..i - 1])
  {
    PrefixCons(ts, i - 1);
  }

  /** A decoration of the pieces after the first is a decoration of all. */
  lemma MemberShift(ts: seq<TokenScore>, offset: nat, x: (nat, Decoration))
    requires ts != [] && x in DecorationsFrom(ts[1..], offset + |ts[0].token|)
    ensures x in DecorationsFrom(ts, offset)
  {
    DecorationsFromCons(ts, offset);
  }


  /** Bin `b` receives exactly the decorations whose bin is `b`. */
  lemma {:induction false} BucketMembers(ds: seq<(nat, Decoration)>, b: nat)
    ensures forall d :: d in Bucket(ds, b) <==> (b, d) in ds
    decreases |ds|
  {
    if ds != [] {
      var init := ds[..|ds| - 1];
      BucketMembers(init, b);
      assert ds == init + [ds[|ds| - 1]];
    }
  }
}
