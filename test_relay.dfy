/** The in-memory relay the unit tests drive the worker with: a FIFO queue of
    inbound frames and an append-only list of frames the worker sent. */
module Stub {
  import opened Php

  /** A transport frame: its payload, its option words, and the two flag bits
      the tests set (stream and stop). */
  datatype Frame = Frame(payload: string, options: seq<int>, stream: bool, stop: bool)

  datatype RelayError = NoFrames

  /** The body part of a frame: its payload without the first `options[0]`
      characters, which hold the header. Every frame the worker sends has
      that option; a frame without one is read here from offset 0, a case
      the PHP stub does not handle (with strict types it raises instead). */
  function BodyOf(f: Frame): string {
    SubstrFrom(f.payload, if |f.options| > 0 then f.options[0] else 0)
  }

  /** The bodies of the given frames, concatenated in order. */
  function ReceivedBody(fs: seq<Frame>): string {
    if fs == [] then "" else BodyOf(fs[0]) + ReceivedBody(fs[1..])
  }

  /** The body part of each frame, as `array_map` gives them. */
  function FrameBodies(fs: seq<Frame>): (bs: seq<string>)
    ensures |bs| == |fs|
  {
    seq(|fs|, i requires 0 <= i < |fs| => BodyOf(fs[i]))
  }

  /** The received body is `implode('', ...)` of the per-frame bodies. */
  lemma {:induction false} ReceivedBodyImplode(fs: seq<Frame>)
    ensures ReceivedBody(fs) == Concat(FrameBodies(fs))
    decreases |fs|
  {
    if fs != [] {
      assert FrameBodies(fs)[1..] == FrameBodies(fs[1..]);
      ReceivedBodyImplode(fs[1..]);
    }
  }

  /** The frame `addFrame` builds: header text followed by the body, with the
      header length as the first option. */
  function MakeFrame(head: string, body: string, stream: bool, stopStream: bool): Frame
  {
    Frame(head + body, [|head|], stream, stopStream)
  }

  /** The frame starts with the header text, and reading it back past the
      header gives exactly the body. */
  lemma MakeFrameParts(head: string, body: string, stream: bool, stopStream: bool)
    ensures var f := MakeFrame(head, body, stream, stopStream);
      BodyOf(f) == body && |head| <= |f.payload| && f.payload[..|head|] == head
  {
    var f := MakeFrame(head, body, stream, stopStream);
    assert f.payload[|head|..] == body;
  }

  lemma {:induction false} ReceivedBodyAppend(a: seq<Frame>, b: seq<Frame>)
    ensures ReceivedBody(a + b) == ReceivedBody(a) + ReceivedBody(b)
  {
    if a == [] {
      assert a + b == b;
    } else {
      assert (a + b)[0] == a[0];
      assert (a + b)[1..] == a[1..] + b;
      ReceivedBodyAppend(a[1..], b);
    }
  }

  /** `json_encode(['status' => 200, 'headers' => []])`, the header of the
      stop frame `addStopStreamFrame` queues. */
  const StopFrameHead: string := "{\"status\":200,\"headers\":[]}"

  class TestRelay {
    var frames: seq<Frame>
    var received: seq<Frame>

    constructor ()
      ensures frames == [] && received == []
    {
      frames := [];
      received := [];
    }

    method AddFrames(fs: seq<Frame>)
      modifies this
      ensures frames == old(frames) + fs
      ensures received == old(received)
    {
      frames := frames + fs;
    }

    /** Queues one frame whose payload is `head` (the JSON text of the
        status and headers) followed by `body`. */
    method AddFrame(head: string, body: string, stream: bool, stopStream: bool)
      modifies this
      ensures frames == old(frames) + [MakeFrame(head, body, stream, stopStream)]
      ensures BodyOf(frames[|frames| - 1]) == body
      ensures received == old(received)
    {
      AddFrames([MakeFrame(head, body, stream, stopStream)]);
      MakeFrameParts(head, body, stream, stopStream);
    }

    method AddStopStreamFrame()
      modifies this
      ensures frames == old(frames) + [MakeFrame(StopFrameHead, "", false, true)]
      ensures received == old(received)
    {
      AddFrame(StopFrameHead, "", false, true);
    }

    /** The bodies of all frames sent so far, in send order. */
    function GetReceivedBody(): (body: string)
      reads this
      ensures body == Concat(FrameBodies(received))
      ensures received == [] ==> body == ""
    {
      ReceivedBodyImplode(received);
      ReceivedBody(received)
    }

    /** Takes the oldest queued frame; fails when the queue is empty. */
    method WaitFrame() returns (r: Result<Frame, RelayError>)
      modifies this
      ensures r.Success? <==> old(frames) != []
      ensures r.Success? ==> r.value == old(frames)[0] && frames == old(frames)[1..]
      ensures r.Failure? ==> frames == old(frames)
      ensures received == old(received)
    {
      if frames == [] {
        return Failure(NoFrames);
      }
      r := Success(frames[0]);
      frames := frames[1..];
    }

    method Send(f: Frame)
      modifies this
      ensures received == old(received) + [f]
      ensures frames == old(frames)
      ensures GetReceivedBody() == old(GetReceivedBody()) + BodyOf(f)
    {
      received := received + [f];
      ReceivedBodyAppend(old(received), [f]);
    }

    method HasFrame() returns (b: bool)
      ensures b <==> frames != []
    {
      b := frames != [];
    }
  }

  /** Frames come back in the order they were queued, and an empty queue
      refuses. */
  method FifoOrder(f1: Frame, f2: Frame)
  {
    var relay := new TestRelay();
    relay.AddFrames([f1, f2]);
    var has := relay.HasFrame();
    assert has;
    var r1 := relay.WaitFrame();
    assert r1 == Success(f1);
    var r2 := relay.WaitFrame();
    assert r2 == Success(f2);
    has := relay.HasFrame();
    assert !has;
    var r3 := relay.WaitFrame();
    assert r3.Failure?;
  }
}
