/** What the response emitter promises, stated over the emission the worker
    sends: complete streams, the head on the first payload only, the stop
    and failure cases, the informational-status guard, and the two streamed
    responses of the unit tests replayed against the test relay. */
module StreamProperties {
  import opened Php
  import opened Stub
  import opened Transport
  import opened HttpWorker

  /** The `(string)` cast of every chunk, in order. */
  function ChunkTexts(g: Gen): (ts: seq<string>)
    ensures |ts| == |g.chunks|
  {
    seq(|g.chunks|, j requires 0 <= j < |g.chunks| => ToStr(g.chunks[j]))
  }

  /** The stop poll stays negative while the generator yields. */
  predicate NoStop(g: Gen, stopAt: Option<nat>) {
    stopAt.None? || stopAt.value >= |g.chunks|
  }

  /** Advancing the generator never raises. */
  predicate NoFailure(g: Gen) {
    g.failAt.None? || g.failAt.value > |g.chunks|
  }

  /** The bodies of the first `n` chunk payloads are the first `n` chunk
      texts, concatenated. */
  lemma {:induction false} FramesBodies(g: Gen, n: nat, head: Option<Head>)
    requires n <= |g.chunks|
    ensures Bodies(Frames(g, n, head)) == Concat(ChunkTexts(g)[..n])
  {
    if n > 0 {
      FramesBodies(g, n - 1, head);
      var p := Payload(ToStr(g.chunks[n - 1]), if n - 1 == 0 then head else None, false);
      FramesSnoc(g, n - 1, head);
      BodiesAppend(Frames(g, n - 1, head), [p]);
      assert Bodies([p]) == p.body;
      assert ChunkTexts(g)[..n] == ChunkTexts(g)[..n - 1] + [ToStr(g.chunks[n - 1])];
      ConcatAppend(ChunkTexts(g)[..n - 1], [ToStr(g.chunks[n - 1])]);
      assert Concat([ToStr(g.chunks[n - 1])]) == ToStr(g.chunks[n - 1]);
    }
  }

  /** A generator that neither fails nor is stopped: one payload per chunk
      with the stream left open, then its return value with the caller's
      end-of-stream flag, unless the stream stays open and that value is
      empty. The bodies spell the chunks followed by the return value. */
  lemma CompleteStream(status: int, g: Gen, headers: Arr<seq<string>>, endOfStream: bool, stopAt: Option<nat>)
    requires NoStop(g, stopAt) && NoFailure(g)
    ensures var e := StreamEmission(status, g, headers, endOfStream, stopAt);
      var n := |g.chunks|;
      var content := ToStr(g.result);
      var suppressed := !endOfStream && content == "";
      && e.outcome == Returned
      && |e.sent| == (if suppressed then n else n + 1)
      && (forall j :: 0 <= j < n ==> e.sent[j].body == ToStr(g.chunks[j]) && !e.sent[j].endOfStream)
      && (!suppressed ==> e.sent[n].body == content && e.sent[n].endOfStream == endOfStream)
      && Bodies(e.sent) == Concat(ChunkTexts(g)) + content
  {
    var n := |g.chunks|;
    var first := Some(EncodeHead(status, headers));
    FirstEndIs(g, stopAt, n);
    var t := TurnAt(g, n, if n == 0 then first else None, endOfStream, stopAt);
    FramesBodies(g, n, first);
    assert ChunkTexts(g)[..n] == ChunkTexts(g);
    BodiesAppend(Frames(g, n, first), TurnSent(t));
    if !(!endOfStream && ToStr(g.result) == "") {
      assert Bodies(TurnSent(t)) == ToStr(g.result);
    }
  }

  /** The head goes on the first payload, and only on it; it is missing
      there only when the stop poll fires before the first chunk is sent. */
  lemma HeadOnFirstOnly(status: int, g: Gen, headers: Arr<seq<string>>, endOfStream: bool, stopAt: Option<nat>)
    requires g.failAt != Some(0)
    ensures var sent := StreamEmission(status, g, headers, endOfStream, stopAt).sent;
      && (forall j :: 0 < j < |sent| ==> sent[j].head.None?)
      && (sent != [] ==> (sent[0].head.Some? <==> !(|g.chunks| > 0 && stopAt == Some(0))))
      && (sent != [] && sent[0].head.Some? ==> sent[0].head.value == EncodeHead(status, headers))
  {
    var first := Some(EncodeHead(status, headers));
    var k := FirstEnd(g, stopAt, 0);
    var t := TurnAt(g, k, if k == 0 then first else None, endOfStream, stopAt);
    var sent := Frames(g, k, first) + TurnSent(t);
    assert StreamEmission(status, g, headers, endOfStream, stopAt).sent == LoopEmission(g, first, endOfStream, stopAt).sent == sent;
    if k > 0 {
      assert sent[0] == Frames(g, k, first)[0];
    }
  }

  /** A generator without yields sends one payload carrying both the head
      and the return value (or nothing, when the stream stays open and that
      value is empty). */
  lemma StreamWithoutYields(status: int, g: Gen, headers: Arr<seq<string>>, endOfStream: bool, stopAt: Option<nat>)
    requires g.chunks == [] && g.failAt != Some(0)
    ensures StreamEmission(status, g, headers, endOfStream, stopAt)
      == if !endOfStream && ToStr(g.result) == "" then Emission([], Returned)
         else Emission([Payload(ToStr(g.result), Some(EncodeHead(status, headers)), endOfStream)], Returned)
  {
    FirstEndIs(g, stopAt, 0);
  }

  /** A stop seen while chunk k is current: chunks before k are sent, chunk
      k is not; a generator that handles the stop is followed by one empty
      payload, one that does not lets the stop escape with nothing more
      sent. */
  lemma StopAtChunk(status: int, g: Gen, headers: Arr<seq<string>>, endOfStream: bool, k: nat)
    requires k < |g.chunks|
    requires g.failAt.None? || g.failAt.value > k
    ensures var e := StreamEmission(status, g, headers, endOfStream, Some(k));
      && e.sent == Frames(g, k, Some(EncodeHead(status, headers))) + (if g.catchesStop then [EmptyPayload] else [])
      && e.outcome == (if g.catchesStop then Returned else Raised(StreamStopped))
      && Bodies(e.sent) == Concat(ChunkTexts(g)[..k])
  {
    var first := Some(EncodeHead(status, headers));
    FirstEndIs(g, Some(k), k);
    FramesBodies(g, k, first);
    var last := if g.catchesStop then [EmptyPayload] else [];
    BodiesAppend(Frames(g, k, first), last);
    assert Bodies(last) == "";
  }

  /** Advancing the generator past chunk k-1 raises: chunks up to k-1 are
      sent, then one empty payload, and the error does not escape. */
  lemma FailAfterChunk(status: int, g: Gen, headers: Arr<seq<string>>, endOfStream: bool, stopAt: Option<nat>, k: nat)
    requires 1 <= k <= |g.chunks| && g.failAt == Some(k)
    requires stopAt.None? || stopAt.value >= k
    ensures var e := StreamEmission(status, g, headers, endOfStream, stopAt);
      && e.sent == Frames(g, k, Some(EncodeHead(status, headers))) + [EmptyPayload]
      && e.outcome == Returned
      && Bodies(e.sent) == Concat(ChunkTexts(g)[..k])
  {
    var first := Some(EncodeHead(status, headers));
    FirstEndIs(g, stopAt, k - 1);
    FramesSnoc(g, k - 1, first);
    FramesBodies(g, k, first);
    BodiesAppend(Frames(g, k, first), [EmptyPayload]);
    assert Bodies([EmptyPayload]) == "";
  }

  /** With an informational status the call fails, sending nothing,
      exactly when the body is not ''; a generator body always counts as
      non-empty, and the body '' goes out as one payload. */
  lemma InformationalStatus(status: int, body: Body, headers: Arr<seq<string>>, endOfStream: bool, stopAt: Option<nat>)
    requires 100 <= status < 200
    ensures var e := RespondEmission(status, body, headers, endOfStream, stopAt);
      (e == Emission([], Raised(InvalidStatusBody))) <==> body != Text("")
    ensures body.Stream? ==> RespondEmission(status, body, headers, endOfStream, stopAt).outcome == Raised(InvalidStatusBody)
    ensures body == Text("") ==>
      RespondEmission(status, body, headers, endOfStream, stopAt)
        == Emission([Payload("", Some(EncodeHead(status, headers)), endOfStream)], Returned)
  {
  }

  /** A string body is one payload with the head and the caller's
      end-of-stream flag; its header array is sent as an empty object when
      it is empty. */
  lemma StringBody(status: int, s: string, headers: Arr<seq<string>>, endOfStream: bool, stopAt: Option<nat>,
                    encodeHead: Head -> string)
    requires !(100 <= status < 200) || s == ""
    ensures var e := RespondEmission(status, Text(s), headers, endOfStream, stopAt);
      && e == Emission([Payload(s, Some(Head(status, if headers == [] then EmptyObject else HeaderArray(headers))), endOfStream)], Returned)
      && ReceivedBody(PackAll(e.sent, encodeHead)) == s
  {
    var e := RespondEmission(status, Text(s), headers, endOfStream, stopAt);
    ReceivedBodyOfPacked(e.sent, encodeHead);
    assert Bodies(e.sent) == s;
  }

  /** Through the relay: whatever the header text, the bodies the relay
      reads back from a complete stream are the chunks followed by the
      return value. */
  lemma RelayReadsCompleteStream(status: int, g: Gen, headers: Arr<seq<string>>, endOfStream: bool, stopAt: Option<nat>,
                                 encodeHead: Head -> string)
    requires NoStop(g, stopAt) && NoFailure(g)
    ensures ReceivedBody(PackAll(StreamEmission(status, g, headers, endOfStream, stopAt).sent, encodeHead))
      == Concat(ChunkTexts(g)) + ToStr(g.result)
  {
    CompleteStream(status, g, headers, endOfStream, stopAt);
    ReceivedBodyOfPacked(StreamEmission(status, g, headers, endOfStream, stopAt).sent, encodeHead);
  }

  /** The generator of the multi-frame test: five string chunks, no return
      value. */
  function HelloWorld(catchesStop: bool): Gen {
    Gen([Str("Hel"), Str("lo,"), Str(" Wo"), Str("rld"), Str("!")], Null, None, catchesStop)
  }

  lemma HelloWorldTexts(catchesStop: bool)
    ensures ChunkTexts(HelloWorld(catchesStop)) == ["Hel", "lo,", " Wo", "rld", "!"]
    ensures Concat(ChunkTexts(HelloWorld(catchesStop))) == "Hello, World!"
    ensures Concat(ChunkTexts(HelloWorld(catchesStop))[..2]) == "Hello,"
  {
    var ts := ChunkTexts(HelloWorld(catchesStop));
    assert ts == ["Hel", "lo,", " Wo", "rld", "!"];
    assert ts[..2] == ["Hel", "lo,"];
    HelloWorldSpells();
  }

  /** The test's chunks spell "Hello, World!", the first two "Hello,". */
  lemma HelloWorldSpells()
    ensures Concat(["Hel", "lo,", " Wo", "rld", "!"]) == "Hello, World!"
    ensures Concat(["Hel", "lo,"]) == "Hello,"
  {
    ConcatCons("!", []);
    ConcatCons("rld", ["!"]);
    ConcatCons(" Wo", ["rld", "!"]);
    ConcatCons("lo,", [" Wo", "rld", "!"]);
    ConcatCons("Hel", ["lo,", " Wo", "rld", "!"]);
    ConcatCons("lo,", []);
    ConcatCons("Hel", ["lo,"]);
  }

  lemma ConcatCons(x: string, rest: seq<string>)
    ensures Concat([x] + rest) == x + Concat(rest)
  {
    assert ([x] + rest)[1..] == rest;
  }

  /** The multi-frame test: a five-chunk generator is streamed with status
      200 and no headers. The relay reads back "Hello, World!" from six
      frames (the last one, for the null return value, is empty), and no
      inbound frame is left behind. */
  method StreamResponseWithMultipleFrames(encodeHead: Head -> string)
    returns (body: string, frameCount: nat, pending: bool, outcome: Outcome)
    ensures body == "Hello, World!" && frameCount == 6 && !pending && outcome == Returned
  {
    var relay := new TestRelay();
    var worker := new RelayWorker(relay, encodeHead);
    var httpWorker := new HttpWorker(worker);
    var g := HelloWorld(false);
    outcome := httpWorker.Respond(200, Stream(g), [], true, None);
    ghost var sent := StreamEmission(200, g, [], true, None).sent;
    assert RespondEmission(200, Stream(g), [], true, None).sent == sent;
    assert relay.received == PackAll(sent, encodeHead);
    CompleteStream(200, g, [], true, None);
    RelayReadsCompleteStream(200, g, [], true, None, encodeHead);
    HelloWorldTexts(false);
    body := relay.GetReceivedBody();
    frameCount := |relay.received|;
    pending := relay.HasFrame();
  }

  /** The stop test: the stop request arrives while the third chunk is
      current and the generator handles it by returning. The relay reads
      back "Hello,": two chunks, then the empty closing payload. */
  method StopStreamResponse(encodeHead: Head -> string)
    returns (body: string, frameCount: nat, outcome: Outcome)
    ensures body == "Hello," && frameCount == 3 && outcome == Returned
  {
    var relay := new TestRelay();
    var worker := new RelayWorker(relay, encodeHead);
    var httpWorker := new HttpWorker(worker);
    var g := HelloWorld(true);
    outcome := httpWorker.Respond(200, Stream(g), [], true, Some(2));
    StopAtChunk(200, g, [], true, 2);
    ghost var sent := StreamEmission(200, g, [], true, Some(2)).sent;
    assert RespondEmission(200, Stream(g), [], true, Some(2)).sent == sent;
    assert relay.received == PackAll(sent, encodeHead);
    ReceivedBodyOfPacked(sent, encodeHead);
    FramesBodies(g, 2, Some(EncodeHead(200, [])));
    HelloWorldTexts(true);
    body := relay.GetReceivedBody();
    frameCount := |relay.received|;
  }
}
