/** The stand-alone analyzer server of `algo/src/index.ts`: `POST /file`
    reads `{ fileDiff?, file? }`, cuts the text with the same chunker as the
    library and answers `{ tokenScores }`. Its scorer differs from the
    library's in one place, modelled here as written and corrected. */
module AlgoServer {
  import opened Wrappers
  import opened Json
  import opened Text
  import opened Scores
  import opened Chunker

  /** `body?.fileDiff ?? body?.file ?? ''` for a body that may be missing. */
  function RequestSource(body: Option<AlgoInput>): (s: string)
    ensures body.None? ==> s == ""
    ensures body.Some? && body.value.fileDiff.Some? ==> s == body.value.fileDiff.value
    ensures body.Some? && body.value.fileDiff.None? && body.value.file.Some? ==> s == body.value.file.value
  {
    match body
    case None => ""
    case Some(input) => SourceText(input)
  }

  /** The server's score for one piece as written: `Number(u.toFixed(3) + 1)`
      appends the digit `1` to the three-decimal string, which adds 0.0001. */
  function ScoreOfAsWritten(rand: Random, k: nat): (r: Option<real>)
    ensures r.None? <==> rand(k) < NullChance
  {
    if rand(k) < NullChance then None else Some(RoundTo3(rand(k + 1)) + 0.0001)
  }

  /** Shifting a score by the appended digit. */
  function Shifted(score: Option<real>): Option<real> {
    match score
    case None => None
    case Some(v) => Some(v + 0.0001)
  }

  /** `scoreTokensRandomly` of `index.ts` as written, starting at draw `k`. */
  function ScoreTokensAsWritten(tokens: seq<string>, rand: Random, k: nat): (r: seq<TokenScore>)
    ensures |r| == |tokens|
  {
    if tokens == [] then []
    else
      [TokenScore(tokens[0], ScoreOfAsWritten(rand, k))]
      + ScoreTokensAsWritten(tokens[1..], rand, k + Consumed(rand, k))
  }

  /** As written, every piece keeps its token and its null draw, and every
      non-null score is the library's score plus 0.0001. */
  lemma {:induction false} AsWrittenIsShifted(tokens: seq<string>, rand: Random, k: nat)
    ensures forall i :: 0 <= i < |tokens| ==>
      ScoreTokensAsWritten(tokens, rand, k)[i]
        == TokenScore(tokens[i], Shifted(ScoreTokens(tokens, rand, k)[i].score))
    decreases |tokens|
  {
    if tokens != [] {
      var k' := k + Consumed(rand, k);
      AsWrittenIsShifted(tokens[1..], rand, k');
      var w := ScoreTokensAsWritten(tokens, rand, k);
      var c := ScoreTokens(tokens, rand, k);
      assert w == [TokenScore(tokens[0], ScoreOfAsWritten(rand, k))] + ScoreTokensAsWritten(tokens[1..], rand, k');
      assert c == [TokenScore(tokens[0], ScoreOf(rand, k))] + ScoreTokens(tokens[1..], rand, k');
      forall i | 0 <= i < |tokens|
        ensures w[i] == TokenScore(tokens[i], Shifted(c[i].score))
      {
        if i > 0 {
          assert w[i] == ScoreTokensAsWritten(tokens[1..], rand, k')[i - 1];
          assert c[i] == ScoreTokens(tokens[1..], rand, k')[i - 1];
          assert tokens[1..][i - 1] == tokens[i];
        }
      }
    }
  }

  /** As written, a non-null score lies in [0.0001, 1.0001], and it leaves
      [0,1] exactly when the score draw is at least 0.9995. */
  lemma AsWrittenScoreRange(rand: Random, k: nat)
    ensures ScoreOfAsWritten(rand, k).Some? ==>
      0.0001 <= ScoreOfAsWritten(rand, k).value <= 1.0001
    ensures ScoreOfAsWritten(rand, k).Some? ==>
      (ScoreOfAsWritten(rand, k).value > 1.0 <==> rand(k + 1) >= 0.9995)
  {
    var u: real := rand(k + 1);
    var m := JsRound(u * 1000.0);
    assert 0 <= m <= 1000;
    assert m == 1000 <==> u >= 0.9995;
  }

  /** A null draw of 0.5 followed by a score draw of 0.9996: `toFixed(3)`
      gives "1.000", the appended digit makes "1.0001", and the client is
      sent a score above 1. */
  lemma AsWrittenScoreLeavesUnitRange()
    ensures ScoreOfAsWritten(n => if n == 0 then 0.5 else 0.9996, 0) == Some(1.0001)
  {
    var rand: Random := n => if n == 0 then 0.5 else 0.9996;
    assert JsRound(999.6) == 1000;
  }

  /** `POST /file` with the scorer as evidently intended (the library's
      `Number(u.toFixed(3))`): the reply's pieces rebuild the request text,
      each is 1 to 120 characters, and every score lies in [0,1]. */
  method HandleFile(body: Option<AlgoInput>, rand: Random, k: nat) returns (tokenScores: seq<TokenScore>)
    ensures tokenScores == Scored(RequestSource(body), rand, k)
    ensures Concat(Tokens(tokenScores)) == RequestSource(body)
    ensures forall i :: 0 <= i < |tokenScores| ==> 1 <= |tokenScores[i].token| <= MaxChunk
    ensures forall i :: 0 <= i < |tokenScores| && tokenScores[i].score.Some? ==>
      0.0 <= tokenScores[i].score.value <= 1.0
  {
    var input := if body.Some? then body.value else AlgoInput(None, None);
    tokenScores := ComputeTokenScores(input, rand, k);
  }

  /** The JSON form of one scored piece, `{ token, score }`. */
  function ItemJson(t: TokenScore): (j: Json)
    ensures j.JObject? && j.fields.Keys == {"token", "score"}
    ensures j.fields["token"] == JString(t.token)
    ensures t.score.None? <==> j.fields["score"] == JNull
    ensures t.score.Some? ==> j.fields["score"] == JNumber(t.score.value)
  {
    JObject(map["token" := JString(t.token),
                "score" := if t.score.Some? then JNumber(t.score.value) else JNull])
  }

  /** `res.json({ tokenScores })`: the reply body of `POST /file`. */
  function Reply(tokenScores: seq<TokenScore>): (j: Json)
    ensures j.JObject? && j.fields.Keys == {"tokenScores"}
    ensures j.fields["tokenScores"].JArray?
    ensures |j.fields["tokenScores"].items| == |tokenScores|
    ensures forall i :: 0 <= i < |tokenScores| ==>
      j.fields["tokenScores"].items[i] == ItemJson(tokenScores[i])
  {
    JObject(map["tokenScores" := JArray(seq(|tokenScores|, i requires 0 <= i < |tokenScores| => ItemJson(tokenScores[i])))])
  }
}
