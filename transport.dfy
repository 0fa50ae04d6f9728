/** What the HTTP worker hands to the underlying worker: payloads made of a
    body, an optional response head and an end-of-stream flag; and how such a
    payload becomes a relay frame. The worker library itself (its payload
    class and its `respond`) is not part of this model; `RelayWorker` keeps
    only what the unit tests observe through the relay. */
module Transport {
  import opened Php
  import opened Stub

  /** The `headers` member of a JSON response head: a non-empty header array,
      or the empty object that stands in for an empty one. */
  datatype JsonHeaders = EmptyObject | HeaderArray(entries: Arr<seq<string>>)

  /** The JSON response head `{status, headers}`, before it is rendered as
      text. */
  datatype Head = Head(status: int, headers: JsonHeaders)

  /** An outbound payload. A missing head is sent as the empty header text. */
  datatype Payload = Payload(body: string, head: Option<Head>, endOfStream: bool)

  /** `new Payload('')`: empty body, no head, end of stream. */
  const EmptyPayload: Payload := Payload("", None, true)

  function HeadText(p: Payload, encodeHead: Head -> string): string {
    if p.head.Some? then encodeHead(p.head.value) else ""
  }

  /** The frame the worker builds for a payload: the header text followed by
      the body, the header length as the first option, and the stream flag
      set on a payload that does not end the stream. */
  function Pack(p: Payload, encodeHead: Head -> string): Frame
  {
    MakeFrame(HeadText(p, encodeHead), p.body, !p.endOfStream, false)
  }

  /** The relay reads the payload body back from the frame, and the frame is
      marked as streamed exactly when the payload does not end the stream. */
  lemma PackParts(p: Payload, encodeHead: Head -> string)
    ensures var f := Pack(p, encodeHead);
      BodyOf(f) == p.body && f.payload[..|HeadText(p, encodeHead)|] == HeadText(p, encodeHead)
      && f.options == [|HeadText(p, encodeHead)|] && f.stream == !p.endOfStream && !f.stop
  {
    MakeFrameParts(HeadText(p, encodeHead), p.body, !p.endOfStream, false);
  }

  function PackAll(ps: seq<Payload>, encodeHead: Head -> string): (fs: seq<Frame>)
  {
    seq(|ps|, i requires 0 <= i < |ps| => Pack(ps[i], encodeHead))
  }

  /** The bodies of the given payloads, concatenated in order. */
  function Bodies(ps: seq<Payload>): string {
    if ps == [] then "" else ps[0].body + Bodies(ps[1..])
  }

  lemma {:induction false} BodiesAppend(a: seq<Payload>, b: seq<Payload>)
    ensures Bodies(a + b) == Bodies(a) + Bodies(b)
  {
    if a == [] {
      assert a + b == b;
    } else {
      assert (a + b)[0] == a[0];
      assert (a + b)[1..] == a[1..] + b;
      BodiesAppend(a[1..], b);
    }
  }

  /** Whatever the header text, the relay reads back exactly the payload
      bodies. */
  lemma {:induction false} ReceivedBodyOfPacked(ps: seq<Payload>, encodeHead: Head -> string)
    ensures ReceivedBody(PackAll(ps, encodeHead)) == Bodies(ps)
  {
    if ps != [] {
      ReceivedBodyOfPacked(ps[1..], encodeHead);
      PackParts(ps[0], encodeHead);
      assert PackAll(ps, encodeHead)[1..] == PackAll(ps[1..], encodeHead);
    }
  }

  lemma PackAllAppend(a: seq<Payload>, b: seq<Payload>, encodeHead: Head -> string)
    ensures PackAll(a + b, encodeHead) == PackAll(a, encodeHead) + PackAll(b, encodeHead)
  {
  }

  lemma PackAllSnoc(a: seq<Payload>, p: Payload, encodeHead: Head -> string)
    ensures PackAll(a + [p], encodeHead) == PackAll(a, encodeHead) + [Pack(p, encodeHead)]
  {
    PackAllAppend(a, [p], encodeHead);
  }

  /** The worker as the unit tests build it: a worker over a `TestRelay`,
      with the JSON rendering of heads given as `encodeHead`. */
  class RelayWorker {
    const relay: TestRelay
    const encodeHead: Head -> string

    constructor (relay: TestRelay, encodeHead: Head -> string)
      ensures this.relay == relay && this.encodeHead == encodeHead
    {
      this.relay := relay;
      this.encodeHead := encodeHead;
    }

    method Respond(p: Payload)
      modifies relay
      ensures relay.received == old(relay.received) + [Pack(p, encodeHead)]
      ensures relay.frames == old(relay.frames)
    {
      relay.Send(Pack(p, encodeHead));
    }
  }
}
