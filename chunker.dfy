/** The placeholder scorer of the algo service: the diff text is cut into
    pieces of 1 to 120 characters that prefer to end just before whitespace,
    and each piece gets a random score or none. `Math.random` is an injected
    oracle: one stream of draws, consumed first by the chunker (one draw per
    piece) and then by the scorer (one or two draws per piece). */
module Chunker {
  import opened Wrappers
  import opened Text
  import opened Scores

  /** A value `Math.random()` can return. */
  type Unit = r: real | 0.0 <= r < 1.0

  /** `rand(k)` is the k-th draw of `Math.random()`. */
  type Random = nat -> Unit

  const MinChunk := 20
  const MaxChunk := 120
  const NullChance := 0.15

  /** `randomInt(lo, hi)`: `Math.floor(u * (hi - lo + 1)) + lo`. */
  function RandomInt(u: Unit, lo: int, hi: int): (r: int)
    requires lo <= hi
    ensures lo <= r <= hi
  {
    var width := (hi - lo + 1) as real;
    assert u * width < width;
    (u * width).Floor + lo
  }

  /** The target length drawn for a piece: `randomInt(20, 120)`. */
  function Target(rand: Random, k: nat): (t: int)
    ensures MinChunk <= t <= MaxChunk
  {
    RandomInt(rand(k), MinChunk, MaxChunk)
  }

  /** The backward walk `while (j > i && !/\s/.test(text[j])) j--`. */
  function BackToWhitespace(text: string, i: nat, j: nat): (r: nat)
    requires i <= j < |text|
    ensures i <= r <= j
    ensures r > i ==> IsWhitespace(text[r])
    ensures forall m :: r < m <= j ==> !IsWhitespace(text[m])
    decreases j
  {
    if j == i || IsWhitespace(text[j]) then j else BackToWhitespace(text, i, j - 1)
  }

  /** Where the piece that starts at `i` ends for a drawn target length: at
      the last whitespace position in (i, i + target] if there is one, else
      after `target` characters, and never past the end of the text. */
  function ChunkEnd(text: string, i: nat, target: int): (e: nat)
    requires i < |text| && 1 <= target
    ensures i < e <= |text| && e <= i + target
  {
    var end := if i + target < |text| then i + target else |text|;
    if end < |text| then
      var j := BackToWhitespace(text, i, end);
      if j > i then j else end
    else end
  }

  /** A piece that stops before the end of the text stops at the last
      whitespace position in (i, i + target], or after exactly `target`
      characters when that window holds no whitespace. */
  lemma ChunkEndIsLastWhitespace(text: string, i: nat, target: int)
    requires i < |text| && 1 <= target
    ensures var e := ChunkEnd(text, i, target);
      e < |text| ==>
      && i + target < |text|
      && (forall m :: e < m <= i + target ==> !IsWhitespace(text[m]))
      && (IsWhitespace(text[e]) ||
          (e == i + target && forall m :: i < m <= i + target ==> !IsWhitespace(text[m])))
  {
  }

  /** The pieces `chunkTextRandomly` cuts from `text[i..]` when its next
      target is the k-th draw. */
  function Chunks(text: string, i: nat, rand: Random, k: nat): seq<string>
    requires i <= |text|
    decreases |text| - i
  {
    if i == |text| then []
    else
      var e := ChunkEnd(text, i, Target(rand, k));
      [text[i..e]] + Chunks(text, e, rand, k + 1)
  }

  /** `chunkTextRandomly(text)`, starting at draw `k`; `next` is the first
      draw it leaves unused. */
  method ChunkTextRandomly(text: string, rand: Random, k: nat) returns (chunks: seq<string>, next: nat)
    ensures chunks == Chunks(text, 0, rand, k)
    ensures next == k + |chunks|
    ensures Concat(chunks) == text
    ensures forall c :: c in chunks ==> 1 <= |c| <= MaxChunk
  {
    var n := |text|;
    if n == 0 {
      return [], k;
    }
    chunks, next := [], k;
    var i := 0;
    while i < n
      invariant 0 <= i <= n
      invariant next == k + |chunks|
      invariant chunks + Chunks(text, i, rand, next) == Chunks(text, 0, rand, k)
      decreases n - i
    {
      var end := PieceEnd(text, i, RandomInt(rand(next), MinChunk, MaxChunk));
      ChunksAdvance(text, i, rand, k, next, chunks, end);
      chunks := chunks + [text[i..end]];
      i, next := end, next + 1;
    }
    ChunksFacts(text, rand, k, chunks);
  }

  /** The loop invariant of `chunkTextRandomly` survives cutting one piece. */
  lemma ChunksAdvance(text: string, i: nat, rand: Random, k: nat, next: nat, chunks: seq<string>, end: nat)
    requires i < |text|
    requires chunks + Chunks(text, i, rand, next) == Chunks(text, 0, rand, k)
    requires end == ChunkEnd(text, i, RandomInt(rand(next), MinChunk, MaxChunk))
    ensures i < end <= |text|
    ensures chunks + [text[i..end]] + Chunks(text, end, rand, next + 1) == Chunks(text, 0, rand, k)
  {
    ChunksStep(text, i, rand, next);
    assert chunks + [text[i..end]] + Chunks(text, end, rand, next + 1)
        == chunks + ([text[i..end]] + Chunks(text, end, rand, next + 1));
  }

  /** What `chunkTextRandomly` promises of the whole list of pieces. */
  lemma ChunksFacts(text: string, rand: Random, k: nat, chunks: seq<string>)
    requires chunks == Chunks(text, 0, rand, k)
    ensures Concat(chunks) == text
    ensures forall c :: c in chunks ==> 1 <= |c| <= MaxChunk
  {
    ChunksLossless(text, 0, rand, k);
    ChunksBounded(text, 0, rand, k);
  }

  /** One pass of the loop body of `chunkTextRandomly`: cut at `i + target`
      (or the end of the text), then walk back to the last whitespace
      position after `i`, keeping the cut when there is none. */
  method PieceEnd(text: string, i: nat, target: int) returns (end: nat)
    requires i < |text| && 1 <= target
    ensures end == ChunkEnd(text, i, target)
  {
    var n := |text|;
    end := if i + target < n then i + target else n;
    if end < n {
      var j := end;
      while j > i && !IsWhitespace(text[j])
        invariant i <= j <= end
        invariant BackToWhitespace(text, i, j) == BackToWhitespace(text, i, end)
        decreases j
      {
        j := j - 1;
      }
      assert j == BackToWhitespace(text, i, j);
      if j > i {
        end := j;
      }
    }
  }

  lemma ChunksStep(text: string, i: nat, rand: Random, k: nat)
    requires i < |text|
    ensures var e := ChunkEnd(text, i, Target(rand, k));
      Chunks(text, i, rand, k) == [text[i..e]] + Chunks(text, e, rand, k + 1)
  {
  }

  /** Concatenating the pieces gives back the text exactly. */
  lemma {:induction false} ChunksLossless(text: string, i: nat, rand: Random, k: nat)
    requires i <= |text|
    ensures Concat(Chunks(text, i, rand, k)) == text[i..]
    decreases |text| - i
  {
    if i < |text| {
      var e := ChunkEnd(text, i, Target(rand, k));
      ChunksLossless(text, e, rand, k + 1);
      ConcatCons(text[i..e], Chunks(text, e, rand, k + 1));
      assert text[i..e] + text[e..] == text[i..];
    }
  }

  /** Every piece has 1 to 120 characters, so there are at most as many
      pieces (and chunking draws) as characters. */
  lemma {:induction false} ChunksBounded(text: string, i: nat, rand: Random, k: nat)
    requires i <= |text|
    ensures forall c :: c in Chunks(text, i, rand, k) ==> 1 <= |c| <= MaxChunk
    ensures |Chunks(text, i, rand, k)| <= |text| - i
    ensures i == |text| <==> Chunks(text, i, rand, k) == []
    decreases |text| - i
  {
    if i < |text| {
      var e := ChunkEnd(text, i, Target(rand, k));
      ChunksBounded(text, e, rand, k + 1);
    }
  }

  predicate StartsWithWhitespace(s: string) {
    s != [] && IsWhitespace(s[0])
  }

  /** A piece that is not the last one is exactly as long as its drawn
      target, or the next piece starts with a whitespace character. */
  lemma {:induction false} ChunksBoundary(text: string, i: nat, rand: Random, k: nat)
    requires i <= |text|
    ensures var cs := Chunks(text, i, rand, k);
      forall m :: 0 <= m < |cs| - 1 ==>
        |cs[m]| == Target(rand, k + m) || StartsWithWhitespace(cs[m + 1])
    decreases |text| - i
  {
    var cs := Chunks(text, i, rand, k);
    if i < |text| {
      var e := ChunkEnd(text, i, Target(rand, k));
      var rest := Chunks(text, e, rand, k + 1);
      ChunksStep(text, i, rand, k);
      assert cs == [text[i..e]] + rest;
      ChunksBoundary(text, e, rand, k + 1);
      if rest != [] {
        FirstChunkBoundary(text, i, rand, k);
      }
      forall m | 1 <= m < |cs| - 1
        ensures |cs[m]| == Target(rand, k + m) || StartsWithWhitespace(cs[m + 1])
      {
        assert cs[m] == rest[m - 1] && cs[m + 1] == rest[m];
        assert k + 1 + (m - 1) == k + m;
      }
    }
  }

  lemma FirstChunkBoundary(text: string, i: nat, rand: Random, k: nat)
    requires i < |text|
    requires ChunkEnd(text, i, Target(rand, k)) < |text|
    ensures var cs := Chunks(text, i, rand, k);
      |cs| >= 2 && (|cs[0]| == Target(rand, k) || StartsWithWhitespace(cs[1]))
  {
    var e := ChunkEnd(text, i, Target(rand, k));
    ChunksStep(text, i, rand, k);
    ChunksStep(text, e, rand, k + 1);
    var e' := ChunkEnd(text, e, Target(rand, k + 1));
    assert Chunks(text, i, rand, k)[1] == text[e..e'];
    ChunkEndIsLastWhitespace(text, i, Target(rand, k));
  }

  /** How many draws the scorer takes for one piece: the null draw, and the
      score draw when the piece is not null. */
  function Consumed(rand: Random, k: nat): nat {
    if rand(k) < NullChance then 1 else 2
  }

  /** The score of one piece whose draws start at `k`: null exactly when the
      null draw is below 0.15, otherwise the next draw to three decimals. */
  function ScoreOf(rand: Random, k: nat): (r: Option<real>)
    ensures r.None? <==> rand(k) < NullChance
    ensures r.Some? ==> 0.0 <= r.value <= 1.0 && Abs(r.value - rand(k + 1)) <= 0.0005
    ensures r.Some? ==> (r.value * 1000.0).Floor as real == r.value * 1000.0
  {
    if rand(k) < NullChance then None else Some(RoundTo3(rand(k + 1)))
  }

  /** The first draw the scorer uses for piece `i` when it starts at `k`. */
  function DrawIndex(rand: Random, k: nat, i: nat): nat
    decreases i
  {
    if i == 0 then k else DrawIndex(rand, k + Consumed(rand, k), i - 1)
  }

  /** `scoreTokensRandomly(tokens)`, starting at draw `k`. */
  function ScoreTokens(tokens: seq<string>, rand: Random, k: nat): (r: seq<TokenScore>)
    ensures |r| == |tokens|
  {
    if tokens == [] then []
    else [TokenScore(tokens[0], ScoreOf(rand, k))] + ScoreTokens(tokens[1..], rand, k + Consumed(rand, k))
  }

  /** One entry per token, in order, token unchanged; entry i is scored from
      the draws at `DrawIndex(rand, k, i)`, so every score lies in [0,1]. */
  lemma {:induction false} ScoreTokensSpec(tokens: seq<string>, rand: Random, k: nat)
    ensures Tokens(ScoreTokens(tokens, rand, k)) == tokens
    ensures forall i :: 0 <= i < |tokens| ==>
      ScoreTokens(tokens, rand, k)[i].score == ScoreOf(rand, DrawIndex(rand, k, i))
    ensures forall i :: 0 <= i < |tokens| && ScoreTokens(tokens, rand, k)[i].score.Some? ==>
      0.0 <= ScoreTokens(tokens, rand, k)[i].score.value <= 1.0
    decreases |tokens|
  {
    if tokens != [] {
      var k' := k + Consumed(rand, k);
      ScoreTokensSpec(tokens[1..], rand, k');
      var r := ScoreTokens(tokens, rand, k);
      var rest := ScoreTokens(tokens[1..], rand, k');
      assert r == [TokenScore(tokens[0], ScoreOf(rand, k))] + rest;
      forall i | 0 <= i < |tokens|
        ensures r[i].token == tokens[i]
        ensures r[i].score == ScoreOf(rand, DrawIndex(rand, k, i))
      {
        if i > 0 {
          assert r[i] == rest[i - 1];
          assert DrawIndex(rand, k, i) == DrawIndex(rand, k', i - 1);
        }
      }
    }
  }

  /** `{ fileDiff?, file? }`; `None` stands for `undefined` or `null`. */
  datatype AlgoInput = AlgoInput(fileDiff: Option<string>, file: Option<string>)

  /** `input.fileDiff ?? input.file ?? ''`: `fileDiff` whenever present, even
      empty; `file` only when `fileDiff` is absent; otherwise empty. */
  function SourceText(input: AlgoInput): (s: string)
    ensures input.fileDiff.Some? ==> s == input.fileDiff.value
    ensures input.fileDiff.None? && input.file.Some? ==> s == input.file.value
    ensures input.fileDiff.None? && input.file.None? ==> s == ""
  {
    match input.fileDiff
    case Some(d) => d
    case None => match input.file case Some(f) => f case None => ""
  }

  /** The scored pieces of `text` when chunking starts at draw `k` and
      scoring continues where chunking stopped. */
  function Scored(text: string, rand: Random, k: nat): seq<TokenScore> {
    var cs := Chunks(text, 0, rand, k);
    ScoreTokens(cs, rand, k + |cs|)
  }

  lemma ScoredUnfold(text: string, rand: Random, k: nat, tokens: seq<string>, next: nat)
    requires tokens == Chunks(text, 0, rand, k) && next == k + |tokens|
    ensures ScoreTokens(tokens, rand, next) == Scored(text, rand, k)
  {
  }

  /** `computeTokenScores(input)`, starting at draw `k`: the pieces of the
      source text, each with its score. */
  method ComputeTokenScores(input: AlgoInput, rand: Random, k: nat) returns (scores: seq<TokenScore>)
    ensures scores == Scored(SourceText(input), rand, k)
    ensures Concat(Tokens(scores)) == SourceText(input)
    ensures forall i :: 0 <= i < |scores| ==> 1 <= |scores[i].token| <= MaxChunk
    ensures forall i :: 0 <= i < |scores| && scores[i].score.Some? ==>
      0.0 <= scores[i].score.value <= 1.0
  {
    var source := SourceText(input);
    var tokens, next := ChunkTextRandomly(source, rand, k);
    scores := ScoreTokens(tokens, rand, next);
    assert scores == Scored(source, rand, k) by {
      ScoredUnfold(source, rand, k, tokens, next);
    }
    assert Tokens(scores) == tokens && forall i :: 0 <= i < |scores| && scores[i].score.Some? ==>
      0.0 <= scores[i].score.value <= 1.0 by {
      ScoreTokensSpec(tokens, rand, next);
    }
    forall i | 0 <= i < |scores| ensures 1 <= |scores[i].token| <= MaxChunk {
      assert Tokens(scores)[i] == tokens[i];
      assert tokens[i] in tokens;
    }
  }
}
