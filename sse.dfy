/** The server-sent events of `test-server/src/index.ts`: the frames
    `broadcast` writes, a reader of the event-stream format of section 9.2
    of the WHATWG HTML Living Standard (what the page's `EventSource` does
    with those frames), and the registry of connected clients. */
module Sse {
  import opened Json
  import opened Text

  // ---------------------------------------------------------------------
  // Frames

  /** One message as written: its event type and its data line. */
  datatype Frame = Frame(eventType: string, data: string)

  /** The text of one frame: `event: T\n` then `data: P\n\n`. */
  function FrameText(f: Frame): string {
    "event: " + f.eventType + "\n" + "data: " + f.data + "\n\n"
  }

  /** The text of several frames, one after another. */
  function Stream(frames: seq<Frame>): string
    decreases |frames|
  {
    if frames == [] then "" else FrameText(frames[0]) + Stream(frames[1..])
  }

  /** Writing one more frame extends the text written so far. */
  lemma {:induction false} StreamSnoc(frames: seq<Frame>, f: Frame)
    ensures Stream(frames + [f]) == Stream(frames) + FrameText(f)
    decreases |frames|
  {
    if frames == [] {
      assert [f][1..] == [];
    } else {
      StreamSnoc(frames[1..], f);
      assert (frames + [f])[1..] == frames[1..] + [f];
    }
  }

  /** The payload of `broadcast`: a string is sent as it is, any other
      value as its JSON text (`stringify` stands for `JSON.stringify`). */
  function Payload(data: Json, stringify: Json -> string): string {
    if data.JString? then data.s else stringify(data)
  }

  /** The frame every new client is sent first. */
  const Hello: Frame := Frame("hello", "connected")

  // ---------------------------------------------------------------------
  // Reading an event stream (WHATWG HTML, section 9.2.6)

  /** A dispatched event: its type and its data. */
  datatype Event = Event(eventType: string, data: string)

  /** The reader's buffers: the event type and the data read so far. */
  datatype Pending = Pending(eventType: string, data: string)

  const Empty: Pending := Pending("", "")

  /** The text of a line before its first colon (all of it when it has
      none). */
  function BeforeColon(line: string): (r: string)
    ensures |r| <= |line| && r == line[..|r|] && ':' !in r
    ensures |r| < |line| ==> line[|r|] == ':'
    decreases |line|
  {
    if line == [] || line[0] == ':' then []
    else
      assert line == [line[0]] + line[1..];
      [line[0]] + BeforeColon(line[1..])
  }

  /** The field name and value of a line: split at the first colon, with
      one space after it dropped; a line without a colon is all name. */
  function Field(line: string): (string, string) {
    var name := BeforeColon(line);
    if |name| < |line| then
      var v := line[|name| + 1..];
      (name, if v != [] && v[0] == ' ' then v[1..] else v)
    else (line, "")
  }

  /** A blank line: dispatch the buffered event, unless there is no data;
      the final line feed of the data is removed and an empty type reads
      as `message`. Both buffers are reset. */
  function Dispatch(p: Pending): (Pending, seq<Event>) {
    if p.data == "" then (Empty, [])
    else
      var d := if p.data[|p.data| - 1] == '\n' then p.data[..|p.data| - 1] else p.data;
      (Empty, [Event(if p.eventType == "" then "message" else p.eventType, d)])
  }

  /** One line: blank dispatches, a leading colon is a comment, `event`
      sets the type, `data` appends its value and a line feed; other
      fields have no effect on the events. */
  function ReadLine(p: Pending, line: string): (Pending, seq<Event>) {
    if line == "" then Dispatch(p)
    else if line[0] == ':' then (p, [])
    else
      var (name, value) := Field(line);
      if name == "event" then (p.(eventType := value), [])
      else if name == "data" then (p.(data := p.data + value + "\n"), [])
      else (p, [])
  }

  /** The events of a sequence of complete lines. */
  function ReadLines(p: Pending, lines: seq<string>): seq<Event>
    decreases |lines|
  {
    if lines == [] then []
    else
      var (p', events) := ReadLine(p, lines[0]);
      events + ReadLines(p', lines[1..])
  }

  /** The events of a stream whose lines end in line feeds; the text after
      the last line feed is an unfinished line and is not read. */
  function Parse(stream: string): seq<Event> {
    var lines := Split(stream, '\n');
    ReadLines(Empty, lines[..|lines| - 1])
  }

  /** The event a frame is read as. */
  function Expected(f: Frame): Event {
    Event(if f.eventType == "" then "message" else f.eventType, f.data)
  }

  function ExpectedAll(frames: seq<Frame>): (r: seq<Event>)
    ensures |r| == |frames|
    decreases |frames|
  {
    if frames == [] then [] else [Expected(frames[0])] + ExpectedAll(frames[1..])
  }

  /** Text that fits on one line of an event stream. */
  predicate OneLine(s: string) {
    '\n' !in s && '\r' !in s
  }

  predicate WellFramed(f: Frame) {
    OneLine(f.eventType) && OneLine(f.data)
  }

  /** The three lines a frame's text consists of. */
  function FrameLines(f: Frame): seq<string> {
    ["event: " + f.eventType, "data: " + f.data, ""]
  }

  function StreamLines(frames: seq<Frame>): seq<string>
    decreases |frames|
  {
    if frames == [] then [] else FrameLines(frames[0]) + StreamLines(frames[1..])
  }

  lemma {:induction false} BeforeColonOf(name: string, rest: string)
    requires ':' !in name && rest != [] && rest[0] == ':'
    ensures BeforeColon(name + rest) == name
    decreases |name|
  {
    if name != [] {
      BeforeColonOf(name[1..], rest);
      assert (name + rest)[1..] == name[1..] + rest;
      assert [name[0]] + name[1..] == name;
    }
  }

  /** A field written as `name: value` reads back as that name and value. */
  lemma FieldOfWritten(name: string, value: string)
    requires ':' !in name
    ensures Field(name + ": " + value) == (name, value)
  {
    var line := name + ": " + value;
    assert line == name + (": " + value);
    BeforeColonOf(name, ": " + value);
    assert line[|name| + 1..] == " " + value;
    assert (" " + value)[1..] == value;
  }

  /** An `event` line sets the type buffer. */
  lemma ReadEventLine(p: Pending, t: string)
    ensures ReadLine(p, "event: " + t) == (p.(eventType := t), [])
  {
    FieldOfWritten("event", t);
    assert "event: " + t == "event" + ": " + t;
    assert ("event: " + t)[0] == 'e';
  }

  /** A `data` line appends its value and a line feed to the data buffer. */
  lemma ReadDataLine(p: Pending, d: string)
    ensures ReadLine(p, "data: " + d) == (p.(data := p.data + d + "\n"), [])
  {
    FieldOfWritten("data", d);
    assert "data: " + d == "data" + ": " + d;
    assert ("data: " + d)[0] == 'd';
  }

  /** The text of one frame followed by more text splits into the frame's
      lines and the parts of that text. */
  lemma SplitFrame(f: Frame, rest: string)
    requires WellFramed(f)
    ensures Split(FrameText(f) + rest, '\n') == FrameLines(f) + Split(rest, '\n')
  {
    var a, b := "event: " + f.eventType, "data: " + f.data;
    var x := "" + ['\n'] + rest;
    var y := b + ['\n'] + x;
    var z := a + ['\n'] + y;
    assert FrameText(f) + rest == z;
    SplitAfterPiece("", '\n', rest);
    SplitAfterPiece(b, '\n', x);
    SplitAfterPiece(a, '\n', y);
  }

  /** The text of well-framed frames splits into their lines, and an empty
      unfinished line after them. */
  lemma {:induction false} SplitStream(frames: seq<Frame>)
    requires forall i :: 0 <= i < |frames| ==> WellFramed(frames[i])
    ensures Split(Stream(frames), '\n') == StreamLines(frames) + [""]
    decreases |frames|
  {
    if frames != [] {
      var tail := frames[1..];
      assert forall i :: 0 <= i < |tail| ==> WellFramed(tail[i]) by {
        forall i | 0 <= i < |tail| ensures WellFramed(tail[i]) {
          assert tail[i] == frames[i + 1];
        }
      }
      SplitStream(tail);
      SplitFrame(frames[0], Stream(tail));
      AppendAssociative(FrameLines(frames[0]), StreamLines(tail), [""]);
    }
  }

  /** Reading the first line, then the rest. */
  lemma ReadLinesStep(p: Pending, lines: seq<string>, p': Pending, events: seq<Event>)
    requires lines != [] && ReadLine(p, lines[0]) == (p', events)
    ensures ReadLines(p, lines) == events + ReadLines(p', lines[1..])
  {
  }

  /** A well-framed frame's three lines dispatch exactly its event, and
      leave the buffers empty. */
  lemma FrameReads(f: Frame, rest: seq<string>)
    requires WellFramed(f)
    ensures ReadLines(Empty, FrameLines(f) + rest) == [Expected(f)] + ReadLines(Empty, rest)
  {
    var l0 := FrameLines(f) + rest;
    var l1, l2 := l0[1..], l0[2..];
    assert l0[0] == "event: " + f.eventType && l1[0] == "data: " + f.data && l2[0] == "";
    assert l1[1..] == l2 && l2[1..] == rest;
    var p1 := Pending(f.eventType, "");
    var p2 := Pending(f.eventType, f.data + "\n");
    ReadEventLine(Empty, f.eventType);
    ReadLinesStep(Empty, l0, p1, []);
    ReadDataLine(p1, f.data);
    assert p1.data + f.data + "\n" == p2.data;
    ReadLinesStep(p1, l1, p2, []);
    assert p2.data[..|p2.data| - 1] == f.data;
    assert Dispatch(p2) == (Empty, [Expected(f)]);
    ReadLinesStep(p2, l2, Empty, [Expected(f)]);
  }

  lemma {:induction false} StreamLinesRead(frames: seq<Frame>)
    requires forall i :: 0 <= i < |frames| ==> WellFramed(frames[i])
    ensures ReadLines(Empty, StreamLines(frames)) == ExpectedAll(frames)
    decreases |frames|
  {
    if frames != [] {
      var tail := frames[1..];
      assert forall i :: 0 <= i < |tail| ==> WellFramed(tail[i]) by {
        forall i | 0 <= i < |tail| ensures WellFramed(tail[i]) {
          assert tail[i] == frames[i + 1];
        }
      }
      StreamLinesRead(tail);
      FrameReads(frames[0], StreamLines(tail));
    }
  }

  /** A reader of the written text receives exactly the broadcast events,
      in order: the type (or `message` for an empty one) and the data of
      each frame, as long as neither holds a line break. */
  lemma StreamRoundTrip(frames: seq<Frame>)
    requires forall i :: 0 <= i < |frames| ==> WellFramed(frames[i])
    ensures Parse(Stream(frames)) == ExpectedAll(frames)
  {
    SplitStream(frames);
    var lines := StreamLines(frames) + [""];
    assert lines[..|lines| - 1] == StreamLines(frames);
    StreamLinesRead(frames);
  }

  // ---------------------------------------------------------------------
  // The client registry

  /** A connected client: its id and the text written to it so far. */
  datatype Client = Client(id: nat, out: string)

  /** The client ids, strictly increasing along the list. */
  predicate IdsIncreasing(cs: seq<Client>) {
    forall i, j :: 0 <= i < j < |cs| ==> cs[i].id < cs[j].id
  }

  /** `clients.findIndex((c) => c.id === id)`: the first position holding
      `id`, or -1. */
  function FindIndex(cs: seq<Client>, id: nat): (r: int)
    ensures -1 <= r < |cs|
    ensures r >= 0 ==> cs[r].id == id && forall m :: 0 <= m < r ==> cs[m].id != id
    ensures r == -1 ==> forall m :: 0 <= m < |cs| ==> cs[m].id != id
    decreases |cs|
  {
    if cs == [] then -1
    else if cs[0].id == id then 0
    else
      var r := FindIndex(cs[1..], id);
      if r < 0 then -1 else r + 1
  }

  /** `if (idx >= 0) clients.splice(idx, 1)`. */
  function Spliced(cs: seq<Client>, idx: int): seq<Client>
    requires -1 <= idx < |cs|
  {
    if idx >= 0 then cs[..idx] + cs[idx + 1..] else cs
  }

  /** The position in the spliced list of each remaining client. */
  lemma SplicedAt(cs: seq<Client>, idx: nat, m: nat)
    requires idx < |cs| && m < |cs| - 1
    ensures Spliced(cs, idx)[m] == cs[if m < idx then m else m + 1]
  {
  }

  /** Every client with another id survives the splice. */
  lemma OthersSurvive(cs: seq<Client>, id: nat, m: nat)
    requires m < |cs| && cs[m].id != id
    ensures cs[m] in Spliced(cs, FindIndex(cs, id))
  {
    var idx := FindIndex(cs, id);
    if idx >= 0 {
      var r := Spliced(cs, idx);
      if m < idx {
        SplicedAt(cs, idx, m);
        assert r[m] == cs[m];
      } else {
        SplicedAt(cs, idx, m - 1);
        assert r[m - 1] == cs[m];
      }
    }
  }

  /** A client that survives the splice had another id, given distinct ids. */
  lemma SurvivorsHaveOtherIds(cs: seq<Client>, id: nat, m: nat)
    requires IdsIncreasing(cs)
    requires m < |Spliced(cs, FindIndex(cs, id))|
    ensures Spliced(cs, FindIndex(cs, id))[m] in cs
    ensures Spliced(cs, FindIndex(cs, id))[m].id != id
  {
    var idx := FindIndex(cs, id);
    if idx >= 0 {
      SplicedAt(cs, idx, m);
      var m' := if m < idx then m else m + 1;
      assert m' != idx;
      assert cs[m'].id != cs[idx].id;
    }
  }

  /** With distinct ids, closing removes the client with that id and no
      other. */
  lemma CloseRemovesOnlyThatId(cs: seq<Client>, id: nat)
    requires IdsIncreasing(cs)
    ensures forall c :: c in Spliced(cs, FindIndex(cs, id)) <==> c in cs && c.id != id
  {
    var r := Spliced(cs, FindIndex(cs, id));
    forall c ensures c in r <==> c in cs && c.id != id {
      if c in cs && c.id != id {
        var m :| 0 <= m < |cs| && cs[m] == c;
        OthersSurvive(cs, id, m);
      }
      if c in r {
        var m :| 0 <= m < |r| && r[m] == c;
        SurvivorsHaveOtherIds(cs, id, m);
      }
    }
  }

  /** Closing keeps the remaining ids in increasing order. */
  lemma CloseKeepsIdsIncreasing(cs: seq<Client>, id: nat)
    requires IdsIncreasing(cs)
    ensures IdsIncreasing(Spliced(cs, FindIndex(cs, id)))
  {
    var idx := FindIndex(cs, id);
    var r := Spliced(cs, idx);
    if idx >= 0 {
      forall i, j | 0 <= i < j < |r| ensures r[i].id < r[j].id {
        SplicedAt(cs, idx, i);
        SplicedAt(cs, idx, j);
      }
    }
  }

  /** The `/events` endpoint's state: the next id to hand out and the
      connected clients. */
  class Registry {
    var nextClientId: nat
    var clients: seq<Client>

    /** Ids are handed out in increasing order and never reused. */
    ghost predicate Valid()
      reads this
    {
      1 <= nextClientId
      && IdsIncreasing(clients)
      && forall i :: 0 <= i < |clients| ==> clients[i].id < nextClientId
    }

    constructor ()
      ensures Valid() && nextClientId == 1 && clients == []
    {
      nextClientId := 1;
      clients := [];
    }

    /** A client connects: it gets the next id and is sent the hello frame. */
    method Connect() returns (id: nat)
      requires Valid()
      modifies this
      ensures Valid()
      ensures id == old(nextClientId) && nextClientId == id + 1
      ensures clients == old(clients) + [Client(id, FrameText(Hello))]
      ensures forall i :: 0 <= i < |old(clients)| ==> old(clients)[i].id < id
    {
      id := nextClientId;
      nextClientId := nextClientId + 1;
      var out := "";
      out := out + "event: hello\n";
      out := out + "data: connected\n\n";
      assert out == FrameText(Hello);
      clients := clients + [Client(id, out)];
    }

    /** A client's connection closes: find its position and remove it. */
    method Close(id: nat)
      requires Valid()
      modifies this
      ensures Valid()
      ensures nextClientId == old(nextClientId)
      ensures clients == Spliced(old(clients), FindIndex(old(clients), id))
      ensures forall c :: c in clients <==> c in old(clients) && c.id != id
    {
      var k := 0;
      while k < |clients| && clients[k].id != id
        invariant 0 <= k <= |clients|
        invariant forall m :: 0 <= m < k ==> clients[m].id != id
      {
        k := k + 1;
      }
      var idx := if k < |clients| then k else -1;
      assert idx == FindIndex(clients, id);
      CloseRemovesOnlyThatId(clients, id);
      CloseKeepsIdsIncreasing(clients, id);
      if idx >= 0 {
        clients := clients[..idx] + clients[idx + 1..];
      }
    }

    /** `broadcast(type, data)`: write the frame to every connected client. */
    method Broadcast(eventType: string, data: Json, stringify: Json -> string)
      requires Valid()
      modifies this
      ensures Valid()
      ensures nextClientId == old(nextClientId)
      ensures |clients| == |old(clients)|
      ensures forall i :: 0 <= i < |clients| ==>
        clients[i].id == old(clients[i].id)
        && clients[i].out == old(clients[i].out) + FrameText(Frame(eventType, Payload(data, stringify)))
    {
      var payload := Payload(data, stringify);
      var i := 0;
      while i < |clients|
        invariant 0 <= i <= |clients| == |old(clients)|
        invariant nextClientId == old(nextClientId)
        invariant forall m :: 0 <= m < |clients| ==> clients[m].id == old(clients[m].id)
        invariant forall m :: 0 <= m < i ==>
          clients[m].out == old(clients[m].out) + FrameText(Frame(eventType, payload))
        invariant forall m :: i <= m < |clients| ==> clients[m].out == old(clients[m].out)
      {
        var c := clients[i];
        c := c.(out := c.out + "event: " + eventType + "\n");
        c := c.(out := c.out + "data: " + payload + "\n\n");
        assert c.out == old(clients[i].out) + FrameText(Frame(eventType, payload));
        clients := clients[i := c];
        i := i + 1;
      }
    }
  }
}
