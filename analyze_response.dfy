/** The clients' side of the analyzer protocol: the request body they post
    and `parseAnalyzeResponse`, which checks the reply's shape and clamps
    every score into [0,1]. `curator/src/services/networkClient.ts` and
    `chrome-extension/networkClient.js` hold the same parser text; it is
    defined once here. */
module AnalyzeResponse {
  import opened Wrappers
  import opened Json
  import opened Scores
  import opened Chunker
  import opened AlgoServer

  /** Which shape check threw, in the order the parser makes them. */
  datatype ParseError =
    | NotAnObject
    | TokenScoresNotArray
    | ItemNotObject
    | TokenNotString
    | ScoreNotNumber

  /** The request body of the VS Code extension, `{ fileDiff, file }`: the
      server analyses the diff. */
  function CuratorRequest(fileDiff: string, file: string): (r: AlgoInput)
    ensures SourceText(r) == fileDiff
    ensures RequestSource(Some(r)) == fileDiff
  {
    AlgoInput(Some(fileDiff), Some(file))
  }

  /** The request body of the browser extension, `{ fileDiff, file: '' }`. */
  function ExtensionRequest(fileDiff: string): (r: AlgoInput)
    ensures RequestSource(Some(r)) == fileDiff
    ensures r.file == Some("")
  {
    AlgoInput(Some(fileDiff), Some(""))
  }

  /** One element of `tokenScores`: an object (or array) whose `token` is a
      string and whose `score` is null or a number; the score is clamped. */
  function ParseItem(item: Json): (r: Result<TokenScore, ParseError>)
    ensures r.Success? <==>
      && IsRecord(item)
      && Get(item, "token").Some? && Get(item, "token").value.JString?
      && Get(item, "score").Some? && (Get(item, "score").value.JNull? || Get(item, "score").value.JNumber?)
    ensures r.Success? ==> r.value.token == Get(item, "token").value.s
    ensures r.Success? ==> (r.value.score.None? <==> Get(item, "score").value.JNull?)
    ensures r.Success? && r.value.score.Some? ==>
      r.value.score.value == Clamp01(Get(item, "score").value.n)
    ensures !IsRecord(item) ==> r == Failure(ItemNotObject)
    ensures IsRecord(item) && !(Get(item, "token").Some? && Get(item, "token").value.JString?) ==>
      r == Failure(TokenNotString)
  {
    if !IsRecord(item) then Failure(ItemNotObject)
    else
      match Get(item, "token")
      case Some(JString(token)) =>
        (match Get(item, "score")
         case Some(JNull) => Success(TokenScore(token, None))
         case Some(JNumber(n)) => Success(TokenScore(token, Some(Clamp01(n))))
         case _ => Failure(ScoreNotNumber))
      case _ => Failure(TokenNotString)
  }

  /** `tokenScores.map(...)`: the items in order, stopping at the first that
      throws. */
  function ParseItems(items: seq<Json>): (r: Result<seq<TokenScore>, ParseError>)
  {
    if items == [] then Success([])
    else
      match ParseItem(items[0])
      case Failure(e) => Failure(e)
      case Success(t) =>
        match ParseItems(items[1..])
        case Failure(e) => Failure(e)
        case Success(rest) => Success([t] + rest)
  }

  /** The list parses exactly when every item does; it then holds each
      item's result in order, and otherwise reports the first bad item. */
  lemma {:induction false} ParseItemsSpec(items: seq<Json>)
    ensures ParseItems(items).Success? <==> forall i :: 0 <= i < |items| ==> ParseItem(items[i]).Success?
    ensures ParseItems(items).Success? ==>
      |ParseItems(items).value| == |items| &&
      forall i :: 0 <= i < |items| ==> ParseItems(items).value[i] == ParseItem(items[i]).value
    ensures ParseItems(items).Failure? ==>
      exists j :: 0 <= j < |items| && ParseItem(items[j]).Failure?
        && ParseItems(items).error == ParseItem(items[j]).error
        && forall i :: 0 <= i < j ==> ParseItem(items[i]).Success?
    decreases |items|
  {
    if items != [] {
      ParseItemsSpec(items[1..]);
      var r := ParseItems(items);
      var head := ParseItem(items[0]);
      if head.Failure? {
        assert ParseItem(items[0]).Failure? && r.error == ParseItem(items[0]).error;
      } else {
        var tail := ParseItems(items[1..]);
        if tail.Success? {
          forall i | 0 <= i < |items|
            ensures ParseItem(items[i]).Success? && r.value[i] == ParseItem(items[i]).value
          {
            if i > 0 {
              assert items[i] == items[1..][i - 1];
            }
          }
        } else {
          var j :| 0 <= j < |items[1..]| && ParseItem(items[1..][j]).Failure?
            && tail.error == ParseItem(items[1..][j]).error
            && forall i :: 0 <= i < j ==> ParseItem(items[1..][i]).Success?;
          assert items[j + 1] == items[1..][j];
          forall i | 0 <= i < j + 1 ensures ParseItem(items[i]).Success? {
            if i > 0 {
              assert items[i] == items[1..][i - 1];
            }
          }
          assert ParseItem(items[1..][j]).Failure?;
          assert !ParseItem(items[1..][j]).Success?;
        }
      }
    }
  }

  /** `parseAnalyzeResponse(value)`. */
  function ParseAnalyzeResponse(value: Json): (r: Result<seq<TokenScore>, ParseError>)
    ensures !IsRecord(value) ==> r == Failure(NotAnObject)
    ensures IsRecord(value) && !(Get(value, "tokenScores").Some? && Get(value, "tokenScores").value.JArray?) ==>
      r == Failure(TokenScoresNotArray)
    ensures r.Success? ==> Get(value, "tokenScores").Some? && Get(value, "tokenScores").value.JArray?
  {
    if !IsRecord(value) then Failure(NotAnObject)
    else
      match Get(value, "tokenScores")
      case Some(JArray(items)) => ParseItems(items)
      case _ => Failure(TokenScoresNotArray)
  }

  /** Every score a successful parse hands on lies in [0,1]. */
  lemma ParsedScoresInUnitRange(value: Json)
    ensures ParseAnalyzeResponse(value).Success? ==>
      InUnitRange(ParseAnalyzeResponse(value).value)
  {
    if ParseAnalyzeResponse(value).Success? {
      ParseItemsSpec(Get(value, "tokenScores").value.items);
    }
  }

  /** Scores already in [0,1]. */
  predicate InUnitRange(ts: seq<TokenScore>) {
    forall i :: 0 <= i < |ts| && ts[i].score.Some? ==> 0.0 <= ts[i].score.value <= 1.0
  }

  /** The client reads back exactly what the server sent whenever the
      server's scores lie in [0,1]. */
  lemma ParseReply(ts: seq<TokenScore>)
    requires InUnitRange(ts)
    ensures ParseAnalyzeResponse(Reply(ts)) == Success(ts)
  {
    var items := Reply(ts).fields["tokenScores"].items;
    ParseItemsSpec(items);
    forall i | 0 <= i < |items| ensures ParseItem(items[i]) == Success(ts[i]) {
      assert items[i] == ItemJson(ts[i]);
    }
    assert ParseItems(items).value == ts;
  }

  /** End to end: a `POST /file` reply with the corrected scorer parses back
      to the server's pieces and scores unchanged. */
  lemma ParseServerReply(body: Option<AlgoInput>, rand: Random, k: nat)
    ensures ParseAnalyzeResponse(Reply(Scored(RequestSource(body), rand, k)))
      == Success(Scored(RequestSource(body), rand, k))
  {
    var text := RequestSource(body);
    var cs := Chunks(text, 0, rand, k);
    ScoreTokensSpec(cs, rand, k + |cs|);
    ParseReply(Scored(text, rand, k));
  }
}
