/** The HTTP worker: it turns an inbound payload into a request, and a status,
    headers and a string or lazily produced body into outbound payloads,
    watching for the host's request to stop a stream. */
module HttpWorker {
  import opened Php
  import opened Stub
  import opened Transport

  // ---------------------------------------------------------------------
  // Response head

  /** The head `{status, headers}`; `$headers ?: (object)[]` sends an empty
      header array as an empty object rather than as an empty list. */
  function EncodeHead(status: int, headers: Arr<seq<string>>): (h: Head)
    ensures h.status == status
    ensures h.headers.EmptyObject? <==> headers == []
    ensures HeadHeaders(h) == headers
  {
    Head(status, if headers == [] then EmptyObject else HeaderArray(headers))
  }

  /** The header array a head carries, reading the empty object as no headers. */
  function HeadHeaders(h: Head): Arr<seq<string>> {
    match h.headers
    case EmptyObject => []
    case HeaderArray(entries) => entries
  }

  // ---------------------------------------------------------------------
  // Body producers and what responding emits

  /** A generator: it yields `chunks` in order and then returns `result`.
      `failAt == Some(k)` with k <= |chunks| means that advancing the
      generator to its k-th suspension raises instead (k = 0: while it first
      runs up to its first `yield`). `catchesStop` tells whether it catches
      the exception thrown into it at a stop request. */
  datatype Gen = Gen(chunks: seq<Scalar>, result: Scalar, failAt: Option<nat>, catchesStop: bool)

  datatype Body = Text(s: string) | Stream(g: Gen)

  /** The exceptions `respond` lets escape: a body with an informational
      status, a stop exception the generator did not catch, and a failure
      of the generator before its first chunk. */
  datatype Error = InvalidStatusBody | StreamStopped | GeneratorFailure

  datatype Outcome = Returned | Raised(error: Error)

  /** The payloads one call sends, in order, and how the call ends. */
  datatype Emission = Emission(sent: seq<Payload>, outcome: Outcome)

  predicate Informational(status: int) {
    status < 200 && status >= 100
  }

  /** Chunk `j` is sent and the loop goes on past it: the stop poll is
      negative while it is current and advancing past it does not raise. */
  predicate Continues(g: Gen, j: nat, stopAt: Option<nat>) {
    j < |g.chunks| && stopAt != Some(j) && g.failAt != Some(j + 1)
  }

  /** The turn at which the stream loop ends, looking from turn `i` on. */
  function FirstEnd(g: Gen, stopAt: Option<nat>, i: nat): (k: nat)
    requires i <= |g.chunks|
    ensures i <= k <= |g.chunks| && !Continues(g, k, stopAt)
    ensures forall j :: i <= j < k ==> Continues(g, j, stopAt)
    decreases |g.chunks| - i
  {
    if Continues(g, i, stopAt) then FirstEnd(g, stopAt, i + 1) else i
  }

  /** What one turn of the stream loop does while chunk `i` is current (or
      the generator has returned, when i = |chunks|), with `head` still to
      be attached: it either ends the call, having sent `last`, or sends
      `frame` and moves on to the next chunk. `stopAt == Some(k)`: the stop
      poll answers yes while chunk k is current. */
  datatype Turn = Ends(last: seq<Payload>, outcome: Outcome) | Sends(frame: Payload)

  function TurnAt(g: Gen, i: nat, head: Option<Head>, endOfStream: bool, stopAt: Option<nat>): (t: Turn)
    requires i <= |g.chunks|
    ensures t.Sends? <==> Continues(g, i, stopAt)
    ensures t.Sends? ==> t.frame == Payload(ToStr(g.chunks[i]), head, false)
  {
    if i == |g.chunks| then
      var content := ToStr(g.result);
      if !endOfStream && content == "" then Ends([], Returned)
      else Ends([Payload(content, head, endOfStream)], Returned)
    else if stopAt == Some(i) then
      if g.catchesStop then Ends([EmptyPayload], Returned)
      else Ends([], Raised(StreamStopped))
    else if g.failAt == Some(i + 1) then
      Ends([Payload(ToStr(g.chunks[i]), head, false), EmptyPayload], Returned)
    else Sends(Payload(ToStr(g.chunks[i]), head, false))
  }

  /** The payloads one turn sends. */
  function TurnSent(t: Turn): seq<Payload> {
    match t
    case Ends(last, _) => last
    case Sends(frame) => [frame]
  }

  /** The payloads of the first `n` chunks, the head on the first only. */
  function Frames(g: Gen, n: nat, head: Option<Head>): (ps: seq<Payload>)
    requires n <= |g.chunks|
    ensures |ps| == n
  {
    seq(n, j requires 0 <= j < n => Payload(ToStr(g.chunks[j]), if j == 0 then head else None, false))
  }

  lemma FramesSnoc(g: Gen, i: nat, head: Option<Head>)
    requires i < |g.chunks|
    ensures Frames(g, i + 1, head) == Frames(g, i, head) + [Payload(ToStr(g.chunks[i]), if i == 0 then head else None, false)]
  {
    assert Frames(g, i + 1, head)[..i] == Frames(g, i, head);
  }

  /** What streaming a generator emits: nothing if it fails before its first
      chunk; otherwise one payload per chunk up to the turn that ends the
      loop, then what that turn sends. */
  function StreamEmission(status: int, g: Gen, headers: Arr<seq<string>>, endOfStream: bool, stopAt: Option<nat>): (e: Emission)
    ensures e.outcome == Raised(GeneratorFailure) <==> g.failAt == Some(0)
    ensures e.outcome == Raised(GeneratorFailure) ==> e.sent == []
    ensures e.outcome != Raised(InvalidStatusBody)
    ensures e.sent != [] && !(|g.chunks| > 0 && stopAt == Some(0)) ==> e.sent[0].head == Some(EncodeHead(status, headers))
  {
    if g.failAt == Some(0) then Emission([], Raised(GeneratorFailure))
    else LoopEmission(g, Some(EncodeHead(status, headers)), endOfStream, stopAt)
  }

  /** What the stream loop emits, with `first` as the head of the first
      payload. */
  function LoopEmission(g: Gen, first: Option<Head>, endOfStream: bool, stopAt: Option<nat>): (e: Emission)
    ensures e.outcome == Returned || (e.outcome == Raised(StreamStopped) && stopAt.Some? && !g.catchesStop)
    ensures FirstEnd(g, stopAt, 0) <= |e.sent| <= FirstEnd(g, stopAt, 0) + 2
    ensures forall j :: 0 <= j < FirstEnd(g, stopAt, 0) ==> e.sent[j] == Payload(ToStr(g.chunks[j]), if j == 0 then first else None, false)
    ensures forall j :: 0 < j < |e.sent| ==> e.sent[j].head == None
  {
    var k := FirstEnd(g, stopAt, 0);
    var t := TurnAt(g, k, if k == 0 then first else None, endOfStream, stopAt);
    Emission(Frames(g, k, first) + t.last, t.outcome)
  }

  /** The loop ends at the first turn that does not continue. */
  lemma FirstEndIs(g: Gen, stopAt: Option<nat>, i: nat)
    requires i <= |g.chunks| && !Continues(g, i, stopAt)
    requires forall j :: 0 <= j < i ==> Continues(g, j, stopAt)
    ensures FirstEnd(g, stopAt, 0) == i
  {
  }

  /** A loop that ends at turn `i` emits the payloads of the chunks before
      it, then what that turn sends. */
  lemma LoopEndsAt(g: Gen, first: Option<Head>, endOfStream: bool, stopAt: Option<nat>, i: nat, head: Option<Head>)
    requires i <= |g.chunks| && !Continues(g, i, stopAt)
    requires forall j :: 0 <= j < i ==> Continues(g, j, stopAt)
    requires head == if i == 0 then first else None
    ensures var t := TurnAt(g, i, head, endOfStream, stopAt);
      LoopEmission(g, first, endOfStream, stopAt) == Emission(Frames(g, i, first) + TurnSent(t), t.outcome)
  {
    FirstEndIs(g, stopAt, i);
  }

  /** What `respond` emits. */
  function RespondEmission(status: int, body: Body, headers: Arr<seq<string>>, endOfStream: bool, stopAt: Option<nat>): (e: Emission)
    ensures e.outcome == Raised(InvalidStatusBody) <==> Informational(status) && body != Text("")
    ensures e.outcome == Raised(InvalidStatusBody) ==> e.sent == []
    ensures body.Text? && e.outcome != Raised(InvalidStatusBody) ==>
      e.sent == [Payload(body.s, Some(EncodeHead(status, headers)), endOfStream)] && e.outcome == Returned
  {
    if Informational(status) && body != Text("") then Emission([], Raised(InvalidStatusBody))
    else match body
      case Text(s) => Emission([Payload(s, Some(EncodeHead(status, headers)), endOfStream)], Returned)
      case Stream(g) => StreamEmission(status, g, headers, endOfStream, stopAt)
  }

  // ---------------------------------------------------------------------
  // Requests

  /** One uploaded file, as the decoded message describes it. */
  datatype FileUpload = FileUpload(name: string, mime: string, size: int, error: int, tempFilename: string)

  /** The decoded request message. Its map fields are listed in iteration
      order, each a list of values. */
  datatype RequestProto = RequestProto(
    remoteAddr: string,
    protocol: string,
    httpMethod: string,
    uri: string,
    header: seq<(string, seq<string>)>,
    cookies: seq<(string, seq<string>)>,
    rawQuery: string,
    parsed: bool,
    uploads: seq<(string, FileUpload)>,
    attributes: seq<(string, seq<string>)>)

  /** The array `['name', 'mime', 'size', 'error', 'tmpName']` describing an
      upload. */
  datatype UploadRecord = UploadRecord(name: string, mime: string, size: int, error: int, tmpName: string)

  /** An upload list: a record (an array with a 'name'), or a nested array
      of further entries. */
  datatype UploadTree = File(record: UploadRecord) | Dir(entries: Arr<UploadTree>)

  /** A value `parse_str` produces. */
  datatype QueryValue = QueryString(s: string) | QueryArray(entries: Arr<QueryValue>)

  /** An attribute value: the reserved parsed-body flag, or a header-value
      message taken from the decoded attributes. */
  datatype AttrValue = BoolAttr(b: bool) | MessageAttr(values: seq<string>)

  datatype Request = Request(
    remoteAddr: string,
    protocol: string,
    httpMethod: string,
    uri: string,
    headers: Arr<seq<string>>,
    cookies: Arr<string>,
    uploads: Arr<UploadTree>,
    attributes: Arr<AttrValue>,
    query: Arr<QueryValue>,
    body: string,
    parsed: bool)

  /** The payload `waitPayload` returns. */
  datatype Inbound = Inbound(body: string, header: string)

  /** Code the request assembly calls but that is not part of this model:
      the message decoder (`mergeFromString`, none if the bytes do not
      parse), `parse_str`, and the name of the reserved parsed-body
      attribute. */
  datatype Collaborators = Collaborators(
    mergeFromString: string -> Option<RequestProto>,
    parseStr: string -> Arr<QueryValue>,
    parsedBodyAttribute: string)

  datatype DecodeError = MalformedPayload

  /** A termination request: no payload, or one whose body and header are
      both falsy. */
  predicate IsTermination(payload: Option<Inbound>) {
    payload.None? || (Falsy(payload.value.body) && Falsy(payload.value.header))
  }

  predicate DistinctNames<V>(m: seq<(string, V)>) {
    forall i, j :: 0 <= i < j < |m| ==> m[i].0 != m[j].0
  }

  /** Copying a decoded map into a PHP array, `$result[$key] = $value` per
      entry in iteration order. */
  function ToArray<V>(m: seq<(string, V)>): Arr<V>
    decreases |m|
  {
    if m == [] then [] else Put(ToArray(m[..|m| - 1]), ArrayKey(m[|m| - 1].0), m[|m| - 1].1)
  }

  /** The entries of `m` under their PHP keys. */
  function Keyed<V>(m: seq<(string, V)>): (a: Arr<V>)
    ensures |a| == |m|
  {
    seq(|m|, i requires 0 <= i < |m| => (ArrayKey(m[i].0), m[i].1))
  }

  /** A header name the sanitizer keeps: a non-empty string key. */
  predicate ValidHeaderKey(k: Key) {
    k.StrKey? && k.s != ""
  }

  predicate ValidHeaders(h: Arr<seq<string>>) {
    forall i :: 0 <= i < |h| ==> ValidHeaderKey(h[i].0)
  }

  /** The headers with every invalid key left out, in their order. */
  function Filtered(h: Arr<seq<string>>): (r: Arr<seq<string>>)
    ensures ValidHeaders(r)
    decreases |h|
  {
    if h == [] then []
    else Filtered(h[..|h| - 1]) + (if ValidHeaderKey(h[|h| - 1].0) then [h[|h| - 1]] else [])
  }

  /** `array_map(fn ($values) => implode(',', $values), $cookies)`. */
  function JoinCookies(c: Arr<seq<string>>): (r: Arr<string>)
    ensures |r| == |c|
    ensures forall i :: 0 <= i < |c| ==> r[i] == (c[i].0, Implode(",", c[i].1))
  {
    seq(|c|, i requires 0 <= i < |c| => (c[i].0, Implode(",", c[i].1)))
  }

  /** A cookie reads back as its values joined with ',', and a missing
      cookie stays missing. */
  lemma {:induction false} GetJoinCookies(c: Arr<seq<string>>, k: Key)
    ensures Get(JoinCookies(c), k) == if Get(c, k).Some? then Some(Implode(",", Get(c, k).value)) else None
    decreases |c|
  {
    if c != [] {
      assert JoinCookies(c)[1..] == JoinCookies(c[1..]);
      GetJoinCookies(c[1..], k);
    }
  }

  function UploadEntries(u: seq<(string, FileUpload)>): (r: seq<(string, UploadTree)>)
    ensures |r| == |u|
  {
    seq(|u|, i requires 0 <= i < |u| =>
      (u[i].0, File(UploadRecord(u[i].1.name, u[i].1.mime, u[i].1.size, u[i].1.error, u[i].1.tempFilename))))
  }

  function AttrEntries(a: seq<(string, seq<string>)>): (r: seq<(string, AttrValue)>)
    ensures |r| == |a|
  {
    seq(|a|, i requires 0 <= i < |a| => (a[i].0, MessageAttr(a[i].1)))
  }

  /** The attribute array: the reserved parsed-body flag first, then the
      decoded attributes under keys it does not take. */
  function Attributes(m: RequestProto, env: Collaborators): Arr<AttrValue> {
    Union([(ArrayKey(env.parsedBodyAttribute), BoolAttr(m.parsed))], ToArray(AttrEntries(m.attributes)))
  }

  /** The request assembled from a decoded message: only valid header
      names, each cookie under its PHP key with its values joined by ',',
      the reserved attribute holding the parsed flag, and the raw query as
      the body. */
  function RequestOf(m: RequestProto, env: Collaborators): (r: Request)
    ensures ValidHeaders(r.headers)
    ensures forall k :: Get(r.cookies, k) == if Get(ToArray(m.cookies), k).Some? then Some(Implode(",", Get(ToArray(m.cookies), k).value)) else None
    ensures DistinctNames(m.cookies) ==>
      forall i :: 0 <= i < |m.cookies| ==> Get(r.cookies, ArrayKey(m.cookies[i].0)) == Some(Implode(",", m.cookies[i].1))
    ensures Get(r.attributes, ArrayKey(env.parsedBodyAttribute)) == Some(BoolAttr(m.parsed))
    ensures r.body == m.rawQuery && r.parsed == m.parsed
  {
    CookiesOf(m.cookies);
    GetUnion([(ArrayKey(env.parsedBodyAttribute), BoolAttr(m.parsed))], ToArray(AttrEntries(m.attributes)),
             ArrayKey(env.parsedBodyAttribute));
    Request(
      m.remoteAddr, m.protocol, m.httpMethod, m.uri,
      Filtered(ToArray(m.header)),
      JoinCookies(ToArray(m.cookies)),
      ToArray(UploadEntries(m.uploads)),
      Attributes(m, env),
      env.parseStr(m.rawQuery),
      m.rawQuery,
      m.parsed)
  }

  // ---------------------------------------------------------------------
  // Lemmas on the request helpers

  /** The cookies of a decoded message, looked up by key and by name. */
  lemma CookiesOf(m: seq<(string, seq<string>)>)
    ensures forall k :: Get(JoinCookies(ToArray(m)), k) == if Get(ToArray(m), k).Some? then Some(Implode(",", Get(ToArray(m), k).value)) else None
    ensures DistinctNames(m) ==>
      forall i :: 0 <= i < |m| ==> Get(JoinCookies(ToArray(m)), ArrayKey(m[i].0)) == Some(Implode(",", m[i].1))
  {
    forall k ensures Get(JoinCookies(ToArray(m)), k) == if Get(ToArray(m), k).Some? then Some(Implode(",", Get(ToArray(m), k).value)) else None {
      GetJoinCookies(ToArray(m), k);
    }
    if DistinctNames(m) {
      forall i | 0 <= i < |m| ensures Get(JoinCookies(ToArray(m)), ArrayKey(m[i].0)) == Some(Implode(",", m[i].1)) {
        GetToArray(m, i);
      }
    }
  }

  lemma {:induction false} ToArrayPrefixKeys<V>(m: seq<(string, V)>, k: Key)
    requires forall i :: 0 <= i < |m| ==> ArrayKey(m[i].0) != k
    ensures !HasKey(ToArray(m), k)
    decreases |m|
  {
    if m != [] {
      ToArrayPrefixKeys(m[..|m| - 1], k);
      GetPut(ToArray(m[..|m| - 1]), ArrayKey(m[|m| - 1].0), m[|m| - 1].1, k);
    }
  }

  /** With distinct names (a decoded map has them), every entry lands under
      its own PHP key, in iteration order. */
  lemma {:induction false} ToArrayDistinct<V>(m: seq<(string, V)>)
    requires DistinctNames(m)
    ensures ToArray(m) == Keyed(m)
    ensures DistinctKeys(ToArray(m))
    decreases |m|
  {
    ToArrayKeysDistinct(m);
    if m != [] {
      var init := m[..|m| - 1];
      var last := m[|m| - 1];
      assert DistinctNames(init) by {
        forall i, j | 0 <= i < j < |init| ensures init[i].0 != init[j].0 {
          assert init[i] == m[i] && init[j] == m[j];
        }
      }
      ToArrayDistinct(init);
      forall i | 0 <= i < |init| ensures ArrayKey(init[i].0) != ArrayKey(last.0) {
        assert init[i] == m[i];
        ArrayKeyInjective(init[i].0, last.0);
      }
      ToArrayPrefixKeys(init, ArrayKey(last.0));
      PutAppends(ToArray(init), ArrayKey(last.0), last.1);
      KeyedSnoc(m);
    }
  }

  lemma KeyedSnoc<V>(m: seq<(string, V)>)
    requires m != []
    ensures Keyed(m) == Keyed(m[..|m| - 1]) + [(ArrayKey(m[|m| - 1].0), m[|m| - 1].1)]
  {
  }

  /** Each entry of a decoded map can be read back under its PHP key. */
  lemma GetToArray<V>(m: seq<(string, V)>, i: nat)
    requires DistinctNames(m) && i < |m|
    ensures Get(ToArray(m), ArrayKey(m[i].0)) == Some(m[i].1)
  {
    ToArrayDistinct(m);
    GetDistinct(ToArray(m), i);
  }

  /** A header named "111" is stored under the integer key 111 and an empty
      name under the empty string key, so the sanitizer drops both, while
      "Content-Type" stays. */
  lemma InvalidHeaderNames()
    ensures ArrayKey("111") == IntKey(111) && !ValidHeaderKey(ArrayKey("111"))
    ensures !ValidHeaderKey(ArrayKey(""))
    ensures ValidHeaderKey(ArrayKey("Content-Type"))
  {
    assert IntToString(111) == "111";
    NonNumericKey("Content-Type");
  }

  lemma {:induction false} FilteredMembers(h: Arr<seq<string>>, e: (Key, seq<string>))
    ensures e in Filtered(h) <==> e in h && ValidHeaderKey(e.0)
    decreases |h|
  {
    if h != [] {
      var init := h[..|h| - 1];
      FilteredMembers(init, e);
      assert h == init + [h[|h| - 1]];
    }
  }

  lemma FilteredHasKey(h: Arr<seq<string>>, k: Key)
    ensures HasKey(Filtered(h), k) <==> HasKey(h, k) && ValidHeaderKey(k)
  {
    if HasKey(Filtered(h), k) {
      var j :| 0 <= j < |Filtered(h)| && Filtered(h)[j].0 == k;
      FilteredMembers(h, Filtered(h)[j]);
    }
    if HasKey(h, k) && ValidHeaderKey(k) {
      var j :| 0 <= j < |h| && h[j].0 == k;
      FilteredMembers(h, h[j]);
      var jj :| 0 <= jj < |Filtered(h)| && Filtered(h)[jj] == h[j];
    }
  }

  /** The sanitized headers answer like the original ones for a valid key,
      and not at all for an invalid one. */
  lemma {:induction false} FilteredGet(h: Arr<seq<string>>, k: Key)
    ensures Get(Filtered(h), k) == if ValidHeaderKey(k) then Get(h, k) else None
    decreases |h|
  {
    if h != [] {
      var init := h[..|h| - 1];
      var last := h[|h| - 1];
      var tail := if ValidHeaderKey(last.0) then [last] else [];
      FilteredGet(init, k);
      FilteredHasKey(init, k);
      assert h == init + [last];
      assert Filtered(h) == Filtered(init) + tail;
      GetAppend(init, [last], k);
      GetAppend(Filtered(init), tail, k);
    }
  }

  /** Removing the key of the first entry after a part that lacks it. */
  lemma {:induction false} RemoveAfter(p: Arr<seq<string>>, e: (Key, seq<string>), rest: Arr<seq<string>>)
    requires !HasKey(p, e.0)
    ensures Remove(p + [e] + rest, e.0) == p + rest
  {
    if p == [] {
      assert p + [e] + rest == [e] + rest;
    } else {
      assert p[0].0 != e.0;
      forall i | 0 <= i < |p[1..]| ensures p[1..][i].0 != e.0 {
        assert p[1..][i] == p[i + 1];
      }
      RemoveAfter(p[1..], e, rest);
      assert (p + [e] + rest)[1..] == p[1..] + [e] + rest;
      assert p + rest == [p[0]] + (p[1..] + rest);
    }
  }

  /** One turn of the sanitizing loop: an invalid key is unset, a valid one
      stays. */
  lemma FilterStep(h: Arr<seq<string>>, i: nat)
    requires i < |h|
    ensures (if ValidHeaderKey(h[i].0) then Filtered(h[..i]) + h[i..]
             else Remove(Filtered(h[..i]) + h[i..], h[i].0))
      == Filtered(h[..i + 1]) + h[i + 1..]
  {
    var done := Filtered(h[..i]);
    assert h[..i + 1] == h[..i] + [h[i]];
    assert h[..i + 1][..i] == h[..i];
    assert done + h[i..] == done + [h[i]] + h[i + 1..] by {
      assert h[i..] == [h[i]] + h[i + 1..];
    }
    if !ValidHeaderKey(h[i].0) {
      assert Filtered(h[..i + 1]) == done;
      assert !HasKey(done, h[i].0);
      RemoveAfter(done, h[i], h[i + 1..]);
    } else {
      assert Filtered(h[..i + 1]) == done + [h[i]];
    }
  }

  // ---------------------------------------------------------------------
  // The worker

  class HttpWorker {
    const worker: RelayWorker

    constructor (worker: RelayWorker)
      ensures this.worker == worker
    {
      this.worker := worker;
    }

    /** Sends a response: one payload for a string body, a stream of
        payloads for a generator. An informational status with a body other
        than '' is refused before anything is sent. */
    method Respond(status: int, body: Body, headers: Arr<seq<string>>, endOfStream: bool, stopAt: Option<nat>)
      returns (outcome: Outcome)
      modifies worker.relay
      ensures worker.relay.received
        == old(worker.relay.received) + PackAll(RespondEmission(status, body, headers, endOfStream, stopAt).sent, worker.encodeHead)
      ensures worker.relay.frames == old(worker.relay.frames)
      ensures outcome == RespondEmission(status, body, headers, endOfStream, stopAt).outcome
    {
      if Informational(status) && body != Text("") {
        return Raised(InvalidStatusBody);
      }
      if body.Stream? {
        outcome := RespondStream(status, body.g, headers, endOfStream, stopAt);
        return;
      }
      var head := EncodeHead(status, headers);
      worker.Respond(Payload(body.s, Some(head), endOfStream));
      outcome := Returned;
    }

    /** Pulls chunks from the generator and sends one payload per chunk, the
        head on the first only; then the return value as the last payload. */
    method RespondStream(status: int, g: Gen, headers: Arr<seq<string>>, endOfStream: bool, stopAt: Option<nat>)
      returns (outcome: Outcome)
      modifies worker.relay
      ensures worker.relay.received
        == old(worker.relay.received) + PackAll(StreamEmission(status, g, headers, endOfStream, stopAt).sent, worker.encodeHead)
      ensures worker.relay.frames == old(worker.relay.frames)
      ensures outcome == StreamEmission(status, g, headers, endOfStream, stopAt).outcome
    {
      var head: Option<Head> := Some(EncodeHead(status, headers));
      // the first `valid()` runs the generator up to its first yield
      if g.failAt == Some(0) {
        assert worker.relay.received + PackAll([], worker.encodeHead) == worker.relay.received;
        return Raised(GeneratorFailure);
      }
      outcome := StreamChunks(g, head, endOfStream, stopAt);
    }

    /** The `do ... while (true)` loop of `respondStream`: one turn per
        chunk, `first` attached to the first payload only. */
    method StreamChunks(g: Gen, first: Option<Head>, endOfStream: bool, stopAt: Option<nat>)
      returns (outcome: Outcome)
      modifies worker.relay
      ensures worker.relay.received
        == old(worker.relay.received) + PackAll(LoopEmission(g, first, endOfStream, stopAt).sent, worker.encodeHead)
      ensures worker.relay.frames == old(worker.relay.frames)
      ensures outcome == LoopEmission(g, first, endOfStream, stopAt).outcome
    {
      var head := first;
      var i := 0;
      while true
        invariant i <= |g.chunks|
        invariant head == if i == 0 then first else None
        invariant forall j :: 0 <= j < i ==> Continues(g, j, stopAt)
        invariant worker.relay.received == old(worker.relay.received) + PackAll(Frames(g, i, first), worker.encodeHead)
        invariant worker.relay.frames == old(worker.relay.frames)
        decreases |g.chunks| - i
      {
        var done;
        done, outcome := StreamTurn(g, i, head, endOfStream, stopAt);
        if done {
          ghost var last := TurnSent(TurnAt(g, i, head, endOfStream, stopAt));
          LoopEndsAt(g, first, endOfStream, stopAt, i, head);
          PackAllAppend(Frames(g, i, first), last, worker.encodeHead);
          AppendAssoc(old(worker.relay.received), PackAll(Frames(g, i, first), worker.encodeHead), PackAll(last, worker.encodeHead));
          return;
        }
        FramesSnoc(g, i, first);
        PackAllSnoc(Frames(g, i, first), TurnAt(g, i, head, endOfStream, stopAt).frame, worker.encodeHead);
        AppendAssoc(old(worker.relay.received), PackAll(Frames(g, i, first), worker.encodeHead),
                    [Pack(TurnAt(g, i, head, endOfStream, stopAt).frame, worker.encodeHead)]);
        head := None;
        i := i + 1;
      }
    }

    /** One pass of the stream loop's body while chunk `i` is current (or
        the generator has returned, when i = |chunks|). `done` tells whether
        the call ends here. */
    method StreamTurn(g: Gen, i: nat, head: Option<Head>, endOfStream: bool, stopAt: Option<nat>)
      returns (done: bool, outcome: Outcome)
      requires i <= |g.chunks|
      modifies worker.relay
      ensures done <==> TurnAt(g, i, head, endOfStream, stopAt).Ends?
      ensures done ==> outcome == TurnAt(g, i, head, endOfStream, stopAt).outcome
      ensures worker.relay.received
        == old(worker.relay.received) + PackAll(TurnSent(TurnAt(g, i, head, endOfStream, stopAt)), worker.encodeHead)
      ensures worker.relay.frames == old(worker.relay.frames)
    {
      if i == |g.chunks| {
        // the generator has returned
        var content := ToStr(g.result);
        if !endOfStream && content == "" {
          // no empty frame while the stream stays open
          return true, Returned;
        }
        worker.Respond(Payload(content, head, endOfStream));
        return true, Returned;
      }
      var content := ToStr(g.chunks[i]);
      if stopAt == Some(i) {
        // the stop exception is thrown into the generator
        if !g.catchesStop {
          return true, Raised(StreamStopped);
        }
        worker.Respond(EmptyPayload);
        return true, Returned;
      }
      worker.Respond(Payload(content, head, false));
      if g.failAt == Some(i + 1) {
        // `next()` raised: the stream is closed with an empty payload
        worker.Respond(EmptyPayload);
        return true, Returned;
      }
      return false, Returned;
    }

    /** Waits for the next request; `payload` is what the worker delivered.
        A termination request gives no request and decodes nothing; otherwise
        the payload body is decoded, and bytes that do not parse fail. */
    method WaitRequest(payload: Option<Inbound>, env: Collaborators) returns (r: Result<Option<Request>, DecodeError>)
      ensures IsTermination(payload) ==> r == Success(None)
      ensures !IsTermination(payload) && env.mergeFromString(payload.value.body).None? ==> r == Failure(MalformedPayload)
      ensures !IsTermination(payload) && env.mergeFromString(payload.value.body).Some? ==>
        r == Success(Some(RequestOf(env.mergeFromString(payload.value.body).value, env)))
    {
      if payload.None? || (Falsy(payload.value.body) && Falsy(payload.value.header)) {
        return Success(None);
      }
      var message := env.mergeFromString(payload.value.body);
      if message.None? {
        return Failure(MalformedPayload);
      }
      var request := RequestFromProto(message.value, env);
      r := Success(Some(request));
    }

    /** Assembles the request from a decoded message. */
    method RequestFromProto(m: RequestProto, env: Collaborators) returns (r: Request)
      ensures r == RequestOf(m, env)
      ensures ValidHeaders(r.headers)
      ensures Get(r.attributes, ArrayKey(env.parsedBodyAttribute)) == Some(BoolAttr(m.parsed))
      ensures DistinctNames(m.cookies) ==>
        forall i :: 0 <= i < |m.cookies| ==> Get(r.cookies, ArrayKey(m.cookies[i].0)) == Some(Implode(",", m.cookies[i].1))
    {
      var headers := HeaderValueToArray(m.header);
      var entries := UploadEntries(m.uploads);
      var uploadedFiles: Arr<UploadTree> := [];
      for i := 0 to |entries|
        invariant uploadedFiles == ToArray(entries[..i])
      {
        uploadedFiles := Put(uploadedFiles, ArrayKey(entries[i].0), entries[i].1);
        assert entries[..i + 1][..i] == entries[..i];
      }
      assert entries[..|entries|] == entries;
      var query := env.parseStr(m.rawQuery);
      var filtered := FilterHeaders(headers);
      var cookies := HeaderValueToArray(m.cookies);
      var attributes := Union([(ArrayKey(env.parsedBodyAttribute), BoolAttr(m.parsed))], ToArray(AttrEntries(m.attributes)));
      r := Request(m.remoteAddr, m.protocol, m.httpMethod, m.uri, filtered, JoinCookies(cookies),
                   uploadedFiles, attributes, query, m.rawQuery, m.parsed);
      GetUnion([(ArrayKey(env.parsedBodyAttribute), BoolAttr(m.parsed))], ToArray(AttrEntries(m.attributes)),
               ArrayKey(env.parsedBodyAttribute));
    }

    /** Removes every entry whose key is not a non-empty string. */
    method FilterHeaders(headers: Arr<seq<string>>) returns (r: Arr<seq<string>>)
      ensures r == Filtered(headers)
      ensures forall e :: e in r <==> e in headers && ValidHeaderKey(e.0)
      ensures forall k :: Get(r, k) == if ValidHeaderKey(k) then Get(headers, k) else None
    {
      r := headers;
      for i := 0 to |headers|
        invariant r == Filtered(headers[..i]) + headers[i..]
      {
        FilterStep(headers, i);
        if !ValidHeaderKey(headers[i].0) {
          r := Remove(r, headers[i].0);
        }
      }
      assert headers[..|headers|] == headers && headers[|headers|..] == [];
      assert r == Filtered(headers);
      forall e ensures e in r <==> e in headers && ValidHeaderKey(e.0) {
        FilteredMembers(headers, e);
      }
      forall k ensures Get(r, k) == if ValidHeaderKey(k) then Get(headers, k) else None {
        FilteredGet(headers, k);
      }
    }

    /** Copies a decoded header map into a PHP array of value lists. */
    method HeaderValueToArray(message: seq<(string, seq<string>)>) returns (result: Arr<seq<string>>)
      ensures result == ToArray(message)
      ensures DistinctKeys(result)
      ensures DistinctNames(message) ==> result == Keyed(message)
    {
      result := [];
      for i := 0 to |message|
        invariant result == ToArray(message[..i])
      {
        result := Put(result, ArrayKey(message[i].0), message[i].1);
        assert message[..i + 1][..i] == message[..i];
      }
      assert message[..|message|] == message;
      ToArrayKeysDistinct(message);
      if DistinctNames(message) {
        ToArrayDistinct(message);
      }
    }
  }

  /** Dropping the first entry keeps the keys distinct, and that entry's
      key no longer occurs. */
  lemma DistinctTail<V>(a: Arr<V>)
    requires a != [] && DistinctKeys(a)
    ensures DistinctKeys(a[1..]) && !HasKey(a[1..], a[0].0)
  {
    forall i, j | 0 <= i < j < |a[1..]| ensures a[1..][i].0 != a[1..][j].0 {
      assert a[1..][i] == a[i + 1] && a[1..][j] == a[j + 1];
    }
    forall i | 0 <= i < |a[1..]| ensures a[1..][i].0 != a[0].0 {
      assert a[1..][i] == a[i + 1];
    }
  }

  /** An entry under a new key in front of distinct keys keeps them distinct. */
  lemma DistinctCons<V>(x: (Key, V), rest: Arr<V>)
    requires DistinctKeys(rest) && !HasKey(rest, x.0)
    ensures DistinctKeys([x] + rest)
  {
    forall i, j | 0 <= i < j < |[x] + rest| ensures ([x] + rest)[i].0 != ([x] + rest)[j].0 {
      assert ([x] + rest)[j] == rest[j - 1];
      if i > 0 {
        assert ([x] + rest)[i] == rest[i - 1];
      }
    }
  }

  /** `Put` never duplicates a key. */
  lemma {:induction false} PutKeepsDistinct<V>(a: Arr<V>, k: Key, v: V)
    requires DistinctKeys(a)
    ensures DistinctKeys(Put(a, k, v))
    ensures forall j :: HasKey(Put(a, k, v), j) <==> HasKey(a, j) || j == k
  {
    forall j ensures HasKey(Put(a, k, v), j) <==> HasKey(a, j) || j == k {
      GetPut(a, k, v, j);
    }
    if a != [] {
      DistinctTail(a);
      if a[0].0 == k {
        DistinctCons((k, v), a[1..]);
      } else {
        PutKeepsDistinct(a[1..], k, v);
        DistinctCons(a[0], Put(a[1..], k, v));
      }
    }
  }

  lemma {:induction false} ToArrayKeysDistinct<V>(m: seq<(string, V)>)
    ensures DistinctKeys(ToArray(m))
    decreases |m|
  {
    if m != [] {
      ToArrayKeysDistinct(m[..|m| - 1]);
      PutKeepsDistinct(ToArray(m[..|m| - 1]), ArrayKey(m[|m| - 1].0), m[|m| - 1].1);
    }
  }
}
