/** The PSR-7 adapter over the HTTP worker: how a response body stream is
    cut into a chunk generator, how the server array of a request is built,
    how uploads are wrapped, and how the protocol version is normalised. The
    PSR-7 factories and message objects are not part of this model; uploads
    are wrapped into values that record which stream each file gets. */
module PSR7Worker {
  import opened Php
  import opened Stub
  import opened Transport
  import opened HttpWorker
  import opened StreamProperties

  // ---------------------------------------------------------------------
  // Response body streams

  /** A response body stream over in-memory content: reads are full (a read
      of `n` bytes returns `n` bytes unless fewer are left), the end is
      reached once the cursor is at the end of the content, and the size is
      reported only when `sizeKnown`. */
  class BodyStream {
    const content: string
    const sizeKnown: bool
    var cursor: nat

    ghost predicate Valid()
      reads this
    {
      cursor <= |content|
    }

    constructor (content: string, sizeKnown: bool)
      ensures this.content == content && this.sizeKnown == sizeKnown && cursor == 0
      ensures Valid()
    {
      this.content := content;
      this.sizeKnown := sizeKnown;
      cursor := 0;
    }

    /** `rewind()`. */
    method Rewind()
      modifies this
      ensures cursor == 0 && Valid()
    {
      cursor := 0;
    }

    /** `getSize()`: the content length, or none for a stream of unknown
        size. */
    function GetSize(): (size: Option<nat>)
      ensures size.Some? <==> sizeKnown
      ensures size.Some? ==> size.value == |content|
    {
      if sizeKnown then Some(|content|) else None
    }

    /** `eof()`. */
    function Eof(): (atEnd: bool)
      reads this
      requires Valid()
      ensures atEnd <==> cursor == |content|
    {
      cursor >= |content|
    }

    /** `read($length)`: the next `length` bytes, or what is left. */
    method Read(length: nat) returns (chunk: string)
      requires Valid()
      modifies this
      ensures Valid()
      ensures chunk == old(content[cursor..Min(cursor + length, |content|)])
      ensures cursor == old(Min(cursor + length, |content|))
    {
      var stop := Min(cursor + length, |content|);
      chunk := content[cursor..stop];
      cursor := stop;
    }

    /** The `(string)` cast: the whole content, from the start. */
    method ToString() returns (s: string)
      modifies this
      ensures s == content && cursor == |content| && Valid()
    {
      cursor := |content|;
      s := content;
    }
  }

  function Min(a: int, b: int): (m: int)
    ensures m <= a && m <= b && (m == a || m == b)
  {
    if a <= b then a else b
  }

  // ---------------------------------------------------------------------
  // Cutting a body into chunks

  /** The chunks a stream of unknown size is read in: pieces of `n` bytes,
      the last one shorter when the content does not divide evenly. */
  function Split(s: string, n: nat): seq<string>
    requires n > 0
    decreases |s|
  {
    if s == [] then []
    else if |s| <= n then [s]
    else [s[..n]] + Split(s[n..], n)
  }

  /** The chunks a stream of known size yields: full pieces of `n` bytes as
      long as more than `n` bytes are left. */
  function KnownChunks(s: string, n: nat): seq<string>
    requires n > 0
    decreases |s|
  {
    if |s| <= n then [] else [s[..n]] + KnownChunks(s[n..], n)
  }

  /** The last piece of a stream of known size, which the generator returns
      instead of yielding. */
  function KnownLast(s: string, n: nat): string
    requires n > 0
    decreases |s|
  {
    if |s| <= n then s else KnownLast(s[n..], n)
  }

  function Strs(ps: seq<string>): (cs: seq<Scalar>)
    ensures |cs| == |ps|
  {
    seq(|ps|, i requires 0 <= i < |ps| => Str(ps[i]))
  }

  /** The generator `streamToGenerator` builds for a body of the given
      content: it raises nothing and does not handle a stop request. */
  function ChunkedBody(content: string, chunkSize: nat, sizeKnown: bool): (g: Gen)
    requires chunkSize > 0
    ensures g.result.Null? <==> !sizeKnown
    ensures sizeKnown && |content| < chunkSize ==> g.chunks == [] && g.result == Str(content)
  {
    if sizeKnown && |content| < chunkSize then Gen([], Str(content), None, false)
    else if sizeKnown then Gen(Strs(KnownChunks(content, chunkSize)), Str(KnownLast(content, chunkSize)), None, false)
    else Gen(Strs(Split(content, chunkSize)), Null, None, false)
  }

  /** Reading unknown-size content: the pieces are non-empty, none is longer
      than `n`, all but the last are exactly `n` long, and together they
      spell the content. */
  lemma {:induction false} SplitPieces(s: string, n: nat)
    requires n > 0
    ensures Concat(Split(s, n)) == s
    ensures forall i :: 0 <= i < |Split(s, n)| ==> 0 < |Split(s, n)[i]| <= n
    ensures forall i :: 0 <= i < |Split(s, n)| - 1 ==> |Split(s, n)[i]| == n
    decreases |s|
  {
    if s != [] && |s| > n {
      SplitPieces(s[n..], n);
      var rest := Split(s[n..], n);
      assert Split(s, n) == [s[..n]] + rest;
      forall i | 0 < i < |Split(s, n)| ensures Split(s, n)[i] == rest[i - 1] {
      }
      assert Concat(Split(s, n)) == s[..n] + Concat(rest);
      assert s == s[..n] + s[n..];
    } else if s != [] {
      assert Concat([s]) == s + Concat([]);
    }
  }

  /** Reading known-size content: every yielded chunk is exactly `n` long,
      the returned piece is at most `n` long and empty only for empty
      content, and chunks and piece together spell the content. */
  lemma {:induction false} KnownPieces(s: string, n: nat)
    requires n > 0
    ensures Concat(KnownChunks(s, n)) + KnownLast(s, n) == s
    ensures forall i :: 0 <= i < |KnownChunks(s, n)| ==> |KnownChunks(s, n)[i]| == n
    ensures |KnownLast(s, n)| <= n
    ensures KnownLast(s, n) == "" <==> s == ""
    decreases |s|
  {
    if |s| > n {
      KnownPieces(s[n..], n);
      var rest := KnownChunks(s[n..], n);
      assert KnownChunks(s, n) == [s[..n]] + rest;
      forall i | 0 < i < |KnownChunks(s, n)| ensures KnownChunks(s, n)[i] == rest[i - 1] {
      }
      assert Concat(KnownChunks(s, n)) == s[..n] + Concat(rest);
      AppendAssoc(s[..n], Concat(rest), KnownLast(s, n));
      assert s == s[..n] + s[n..];
    }
  }

  /** Both readings cut the content at the same places: the known-size
      reading returns the last piece instead of yielding it. */
  lemma {:induction false} KnownSplitAgree(s: string, n: nat)
    requires n > 0 && s != ""
    ensures Split(s, n) == KnownChunks(s, n) + [KnownLast(s, n)]
    decreases |s|
  {
    if |s| > n {
      KnownSplitAgree(s[n..], n);
      AppendAssoc([s[..n]], KnownChunks(s[n..], n), [KnownLast(s[n..], n)]);
    }
  }

  /** Content shorter than a chunk is returned at once; the loop would have
      returned the same piece without yielding. */
  lemma ShortContent(s: string, n: nat)
    requires 0 < n && |s| < n
    ensures KnownChunks(s, n) == [] && KnownLast(s, n) == s
  {
  }

  /** The texts of a chunk generator are its pieces. */
  lemma ChunkTextsOfStrs(ps: seq<string>, result: Scalar, failAt: Option<nat>, catchesStop: bool)
    ensures ChunkTexts(Gen(Strs(ps), result, failAt, catchesStop)) == ps
  {
  }

  /** The generator yields the content's chunks, each at most `chunkSize`
      long, and its chunks followed by its return value spell the content. */
  lemma ChunkedBodySpells(content: string, chunkSize: nat, sizeKnown: bool)
    requires chunkSize > 0
    ensures var g := ChunkedBody(content, chunkSize, sizeKnown);
      && Concat(ChunkTexts(g)) + ToStr(g.result) == content
      && (forall i :: 0 <= i < |g.chunks| ==> |ToStr(g.chunks[i])| <= chunkSize)
      && (sizeKnown ==> g.result.Str? && |g.result.s| <= chunkSize)
      && (!sizeKnown ==> g.result == Null)
      && g.failAt.None?
  {
    var g := ChunkedBody(content, chunkSize, sizeKnown);
    if sizeKnown && |content| < chunkSize {
      assert ChunkTexts(g) == [];
    } else if sizeKnown {
      ChunkTextsOfStrs(KnownChunks(content, chunkSize), g.result, None, false);
      KnownPieces(content, chunkSize);
    } else {
      ChunkTextsOfStrs(Split(content, chunkSize), Null, None, false);
      SplitPieces(content, chunkSize);
    }
  }

  /** A streamed PSR-7 body that is not stopped reaches the relay whole:
      the relay reads back exactly the content, no payload carries more than
      `chunkSize` bytes, and the call returns normally. */
  lemma StreamedBodyArrives(status: int, content: string, chunkSize: nat, sizeKnown: bool,
                            headers: Arr<seq<string>>, stopAt: Option<nat>, encodeHead: Head -> string)
    requires chunkSize > 0 && !Informational(status)
    requires NoStop(ChunkedBody(content, chunkSize, sizeKnown), stopAt)
    ensures var e := RespondEmission(status, Stream(ChunkedBody(content, chunkSize, sizeKnown)), headers, true, stopAt);
      && ReceivedBody(PackAll(e.sent, encodeHead)) == content
      && (forall j :: 0 <= j < |e.sent| ==> |e.sent[j].body| <= chunkSize)
      && e.outcome == Returned
  {
    var g := ChunkedBody(content, chunkSize, sizeKnown);
    var e := RespondEmission(status, Stream(g), headers, true, stopAt);
    assert e == StreamEmission(status, g, headers, true, stopAt);
    ChunkedBodySpells(content, chunkSize, sizeKnown);
    CompleteStream(status, g, headers, true, stopAt);
    RelayReadsCompleteStream(status, g, headers, true, stopAt, encodeHead);
    if !sizeKnown {
      assert ToStr(g.result) == "";
    } else if |content| < chunkSize {
      assert ToStr(g.result) == content;
    }
  }

  /** With streaming on, every informational status is refused, even for an
      empty body, since a generator is never the empty string. */
  lemma StreamedInformationalRefused(status: int, content: string, chunkSize: nat, sizeKnown: bool,
                                     headers: Arr<seq<string>>, stopAt: Option<nat>)
    requires chunkSize > 0 && Informational(status)
    ensures RespondEmission(status, Stream(ChunkedBody(content, chunkSize, sizeKnown)), headers, true, stopAt)
      == Emission([], Raised(InvalidStatusBody))
  {
  }

  // ---------------------------------------------------------------------
  // The server array

  /** A `$_SERVER` value. */
  datatype ServerValue = ServerText(s: string) | ServerInt(i: int) | ServerFloat(x: real)

  /** The server variable a header is copied to: the name upper-cased with
      '-' turned into '_', prefixed with "HTTP_" unless it is CONTENT_TYPE
      or CONTENT_LENGTH. */
  function ServerName(header: string): (name: string)
    ensures |name| == |header| || |name| == |header| + 5
  {
    var key := Upper(ReplaceChar(header, '-', '_'));
    if key == "CONTENT_TYPE" || key == "CONTENT_LENGTH" then key else "HTTP_" + key
  }

  /** The prefix is left off exactly when the converted header name is
      "CONTENT_TYPE" or "CONTENT_LENGTH": the server name is then that
      converted name, and otherwise "HTTP_" followed by it. */
  lemma ServerNamePrefix(header: string)
    ensures var key := Upper(ReplaceChar(header, '-', '_'));
      && ((key == "CONTENT_TYPE" || key == "CONTENT_LENGTH") <==> |ServerName(header)| == |header|)
      && (|ServerName(header)| == |header| ==> ServerName(header) == key)
      && (|ServerName(header)| != |header| ==> ServerName(header) == "HTTP_" + key)
  {
  }

  /** A server name is "CONTENT_TYPE" or "CONTENT_LENGTH" kept as it is, or
      "HTTP_" followed by the header name, in both cases with every '-'
      turned into '_' and every ASCII lower-case letter upper-cased. */
  lemma ServerNameChars(header: string)
    ensures var name := ServerName(header);
      && (|name| == |header| ==> name == "CONTENT_TYPE" || name == "CONTENT_LENGTH")
      && (|name| == |header| + 5 ==> name[..5] == "HTTP_")
      && forall i :: 0 <= i < |header| ==>
           name[|name| - |header| + i]
             == if header[i] == '-' then '_' else if 'a' <= header[i] <= 'z' then (header[i] as int - 32) as char else header[i]
  {
    var key := Upper(ReplaceChar(header, '-', '_'));
    var name := ServerName(header);
    assert name[|name| - |header|..] == key;
  }

  /** A header name starts with 'C' (CONTENT_TYPE, CONTENT_LENGTH) or 'H'
      (the "HTTP_" prefix), so it never looks like an integer and never
      takes one of the request entries, which all start with 'R'. */
  lemma ServerNameCases(header: string)
    ensures ArrayKey(ServerName(header)) == StrKey(ServerName(header))
    ensures ServerName(header)[0] in "CH"
  {
    var name := ServerName(header);
    assert name[0] == 'C' || name[0] == 'H';
    NonNumericKey(name);
  }

  /** No header is copied to a name starting with 'R'. */
  lemma NoHeaderReaches(h: Arr<seq<string>>, f: string)
    requires StringKeys(h) && |f| > 0 && f[0] == 'R'
    ensures LastHeaderFor(h, StrKey(f)).None?
  {
    forall j | 0 <= j < |h| ensures Targets(h)[j] != StrKey(f) {
      ServerNameCases(h[j].0.s);
    }
  }

  /** The request entries of the server array, which no header reaches. */
  function RequestNames(): seq<string> {
    ["REQUEST_URI", "REQUEST_TIME", "REQUEST_TIME_FLOAT", "REMOTE_ADDR", "REQUEST_METHOD"]
  }

  /** The entries the server array gets before the headers are copied. */
  function FixedNames(): seq<string> {
    RequestNames() + ["HTTP_USER_AGENT"]
  }

  /** The header key as text; header keys reaching the server array are
      strings. */
  predicate StringKeys<V>(h: Arr<V>) {
    forall i :: 0 <= i < |h| ==> h[i].0.StrKey?
  }

  /** The original server array with the request entries set. */
  function FixedEntries(original: Arr<ServerValue>, request: Request, time: int, timeFloat: real,
                        remoteAddr: string): Arr<ServerValue>
  {
    var s1 := Put(original, StrKey("REQUEST_URI"), ServerText(request.uri));
    var s2 := Put(s1, StrKey("REQUEST_TIME"), ServerInt(time));
    var s3 := Put(s2, StrKey("REQUEST_TIME_FLOAT"), ServerFloat(timeFloat));
    var s4 := Put(s3, StrKey("REMOTE_ADDR"), ServerText(remoteAddr));
    var s5 := Put(s4, StrKey("REQUEST_METHOD"), ServerText(request.httpMethod));
    Put(s5, StrKey("HTTP_USER_AGENT"), ServerText(""))
  }

  /** The server array with the headers copied in, in order, each one's
      values joined by ", ". */
  function WithHeaders(base: Arr<ServerValue>, h: Arr<seq<string>>): Arr<ServerValue>
    requires StringKeys(h)
    decreases |h|
  {
    if h == [] then base
    else Put(WithHeaders(base, h[..|h| - 1]), StrKey(ServerName(h[|h| - 1].0.s)), ServerText(Implode(", ", h[|h| - 1].1)))
  }

  function ServerOf(original: Arr<ServerValue>, request: Request, time: int, timeFloat: real,
                    remoteAddr: string): Arr<ServerValue>
    requires StringKeys(request.headers)
  {
    WithHeaders(FixedEntries(original, request, time, timeFloat, remoteAddr), request.headers)
  }

  /** The server variable each header is copied to. */
  function Targets(h: Arr<seq<string>>): (ks: seq<Key>)
    requires StringKeys(h)
    ensures |ks| == |h|
  {
    seq(|h|, j requires 0 <= j < |h| => StrKey(ServerName(h[j].0.s)))
  }

  /** The last position holding `k`, if any. */
  function LastIndex(ks: seq<Key>, k: Key): (r: Option<nat>)
    ensures r.Some? ==> (r.value < |ks| && ks[r.value] == k && forall j :: r.value < j < |ks| ==> ks[j] != k)
    ensures r.None? ==> forall j :: 0 <= j < |ks| ==> ks[j] != k
    decreases |ks|
  {
    if ks == [] then None
    else if ks[|ks| - 1] == k then Some(|ks| - 1)
    else LastIndex(ks[..|ks| - 1], k)
  }

  /** The last header copied to server variable `k`, if any. */
  function LastHeaderFor(h: Arr<seq<string>>, k: Key): Option<nat>
    requires StringKeys(h)
  {
    LastIndex(Targets(h), k)
  }

  /** A server variable holds the values of the last header copied to it,
      or else what it held before. */
  lemma {:induction false} GetWithHeaders(base: Arr<ServerValue>, h: Arr<seq<string>>, k: Key)
    requires StringKeys(h)
    ensures Get(WithHeaders(base, h), k) == match LastHeaderFor(h, k) {
      case None => Get(base, k)
      case Some(i) => Some(ServerText(Implode(", ", h[i].1)))
    }
    decreases |h|
  {
    if h != [] {
      var init := h[..|h| - 1];
      GetWithHeaders(base, init, k);
      GetPut(WithHeaders(base, init), StrKey(ServerName(h[|h| - 1].0.s)), ServerText(Implode(", ", h[|h| - 1].1)), k);
      assert Targets(init) == Targets(h)[..|h| - 1];
      assert Targets(h)[|h| - 1] == StrKey(ServerName(h[|h| - 1].0.s));
      if Targets(h)[|h| - 1] != k && LastHeaderFor(init, k).Some? {
        assert h[LastHeaderFor(init, k).value] == init[LastHeaderFor(init, k).value];
      }
    }
  }

  /** The request URI, time, address and method are exactly as set, since
      no header reaches them; the user agent is '' unless a User-Agent
      header is copied over it. */
  lemma RequestEntries(original: Arr<ServerValue>, request: Request, time: int, timeFloat: real, remoteAddr: string)
    requires StringKeys(request.headers)
    ensures var server := ServerOf(original, request, time, timeFloat, remoteAddr);
      && Get(server, StrKey("REQUEST_URI")) == Some(ServerText(request.uri))
      && Get(server, StrKey("REQUEST_TIME")) == Some(ServerInt(time))
      && Get(server, StrKey("REQUEST_TIME_FLOAT")) == Some(ServerFloat(timeFloat))
      && Get(server, StrKey("REMOTE_ADDR")) == Some(ServerText(remoteAddr))
      && Get(server, StrKey("REQUEST_METHOD")) == Some(ServerText(request.httpMethod))
      && (LastHeaderFor(request.headers, StrKey("HTTP_USER_AGENT")).None? ==>
            Get(server, StrKey("HTTP_USER_AGENT")) == Some(ServerText("")))
  {
    var h := request.headers;
    var fixed := FixedEntries(original, request, time, timeFloat, remoteAddr);
    NoHeaderReaches(h, "REQUEST_URI");
    GetWithHeaders(fixed, h, StrKey("REQUEST_URI"));
    FixedEntryGet(original, request, time, timeFloat, remoteAddr, StrKey("REQUEST_URI"));
    NoHeaderReaches(h, "REQUEST_TIME");
    GetWithHeaders(fixed, h, StrKey("REQUEST_TIME"));
    FixedEntryGet(original, request, time, timeFloat, remoteAddr, StrKey("REQUEST_TIME"));
    NoHeaderReaches(h, "REQUEST_TIME_FLOAT");
    GetWithHeaders(fixed, h, StrKey("REQUEST_TIME_FLOAT"));
    FixedEntryGet(original, request, time, timeFloat, remoteAddr, StrKey("REQUEST_TIME_FLOAT"));
    NoHeaderReaches(h, "REMOTE_ADDR");
    GetWithHeaders(fixed, h, StrKey("REMOTE_ADDR"));
    FixedEntryGet(original, request, time, timeFloat, remoteAddr, StrKey("REMOTE_ADDR"));
    NoHeaderReaches(h, "REQUEST_METHOD");
    GetWithHeaders(fixed, h, StrKey("REQUEST_METHOD"));
    FixedEntryGet(original, request, time, timeFloat, remoteAddr, StrKey("REQUEST_METHOD"));
    GetWithHeaders(fixed, h, StrKey("HTTP_USER_AGENT"));
    FixedEntryGet(original, request, time, timeFloat, remoteAddr, StrKey("HTTP_USER_AGENT"));
  }

  /** Each header's values, joined by ", ", sit under its server name unless
      a later header is copied to the same name. */
  lemma HeaderEntries(original: Arr<ServerValue>, request: Request, time: int, timeFloat: real, remoteAddr: string)
    requires StringKeys(request.headers)
    ensures var h := request.headers;
      forall i :: 0 <= i < |h| && LastHeaderFor(h, Targets(h)[i]) == Some(i) ==>
        Get(ServerOf(original, request, time, timeFloat, remoteAddr), Targets(h)[i]) == Some(ServerText(Implode(", ", h[i].1)))
  {
    var h := request.headers;
    var fixed := FixedEntries(original, request, time, timeFloat, remoteAddr);
    forall i | 0 <= i < |h| && LastHeaderFor(h, Targets(h)[i]) == Some(i)
      ensures Get(WithHeaders(fixed, h), Targets(h)[i]) == Some(ServerText(Implode(", ", h[i].1)))
    {
      GetWithHeaders(fixed, h, Targets(h)[i]);
    }
  }

  /** Every other original entry is kept. */
  lemma OtherEntries(original: Arr<ServerValue>, request: Request, time: int, timeFloat: real, remoteAddr: string)
    requires StringKeys(request.headers)
    ensures forall k :: LastHeaderFor(request.headers, k).None? && (k.StrKey? ==> k.s !in FixedNames()) ==>
      Get(ServerOf(original, request, time, timeFloat, remoteAddr), k) == Get(original, k)
  {
    var h := request.headers;
    var fixed := FixedEntries(original, request, time, timeFloat, remoteAddr);
    forall k | LastHeaderFor(h, k).None? && (k.StrKey? ==> k.s !in FixedNames())
      ensures Get(WithHeaders(fixed, h), k) == Get(original, k)
    {
      GetWithHeaders(fixed, h, k);
      FixedEntryGet(original, request, time, timeFloat, remoteAddr, k);
    }
  }

  lemma FixedEntryGet(original: Arr<ServerValue>, request: Request, time: int, timeFloat: real, remoteAddr: string, k: Key)
    ensures Get(FixedEntries(original, request, time, timeFloat, remoteAddr), k) == (
      if k == StrKey("HTTP_USER_AGENT") then Some(ServerText(""))
      else if k == StrKey("REQUEST_METHOD") then Some(ServerText(request.httpMethod))
      else if k == StrKey("REMOTE_ADDR") then Some(ServerText(remoteAddr))
      else if k == StrKey("REQUEST_TIME_FLOAT") then Some(ServerFloat(timeFloat))
      else if k == StrKey("REQUEST_TIME") then Some(ServerInt(time))
      else if k == StrKey("REQUEST_URI") then Some(ServerText(request.uri))
      else Get(original, k))
  {
    var s1 := Put(original, StrKey("REQUEST_URI"), ServerText(request.uri));
    var s2 := Put(s1, StrKey("REQUEST_TIME"), ServerInt(time));
    var s3 := Put(s2, StrKey("REQUEST_TIME_FLOAT"), ServerFloat(timeFloat));
    var s4 := Put(s3, StrKey("REMOTE_ADDR"), ServerText(remoteAddr));
    var s5 := Put(s4, StrKey("REQUEST_METHOD"), ServerText(request.httpMethod));
    GetPut(original, StrKey("REQUEST_URI"), ServerText(request.uri), k);
    GetPut(s1, StrKey("REQUEST_TIME"), ServerInt(time), k);
    GetPut(s2, StrKey("REQUEST_TIME_FLOAT"), ServerFloat(timeFloat), k);
    GetPut(s3, StrKey("REMOTE_ADDR"), ServerText(remoteAddr), k);
    GetPut(s4, StrKey("REQUEST_METHOD"), ServerText(request.httpMethod), k);
    GetPut(s5, StrKey("HTTP_USER_AGENT"), ServerText(""), k);
  }

  /** The server array keeps its keys distinct. */
  lemma {:induction false} WithHeadersDistinct(base: Arr<ServerValue>, h: Arr<seq<string>>)
    requires StringKeys(h) && DistinctKeys(base)
    ensures DistinctKeys(WithHeaders(base, h))
    decreases |h|
  {
    if h != [] {
      WithHeadersDistinct(base, h[..|h| - 1]);
      PutKeepsDistinct(WithHeaders(base, h[..|h| - 1]), StrKey(ServerName(h[|h| - 1].0.s)), ServerText(Implode(", ", h[|h| - 1].1)));
    }
  }

  // ---------------------------------------------------------------------
  // Uploads

  const UPLOAD_ERR_OK: int := 0

  /** The stream an uploaded file is given: one over its temporary file, or
      an empty one. */
  datatype UploadStream = FromFile(path: string) | EmptyStream

  /** `createUploadedFile($stream, size, error, name, mime)`, or a nested
      list of them. */
  datatype Wrapped =
    | UploadedFile(stream: UploadStream, size: int, error: int, name: string, mime: string)
    | Nested(entries: Arr<Wrapped>)

  function WrapFile(r: UploadRecord): (w: Wrapped)
    ensures w.UploadedFile? && w.size == r.size && w.error == r.error && w.name == r.name && w.mime == r.mime
    ensures w.stream == (if r.error == UPLOAD_ERR_OK then FromFile(r.tmpName) else EmptyStream)
  {
    UploadedFile(if r.error == UPLOAD_ERR_OK then FromFile(r.tmpName) else EmptyStream, r.size, r.error, r.name, r.mime)
  }

  /** The first `n` entries of the list `d` wrapped: `$result[$index] =
      ...` for each of them, in order. */
  function WrapPrefix(d: UploadTree, n: nat): Arr<Wrapped>
    requires d.Dir? && n <= |d.entries|
    decreases d, n
  {
    if n == 0 then []
    else Put(WrapPrefix(d, n - 1), d.entries[n - 1].0, WrapTree(d.entries[n - 1].1))
  }

  function WrapTree(t: UploadTree): Wrapped
    decreases t, if t.Dir? then |t.entries| + 1 else 0
  {
    match t
    case File(r) => WrapFile(r)
    case Dir(entries) => Nested(WrapPrefix(t, |entries|))
  }

  /** The wrapped upload list. */
  function WrapAll(files: Arr<UploadTree>): Arr<Wrapped> {
    WrapPrefix(Dir(files), |files|)
  }

  /** Every level of the tree has distinct keys, as a PHP array does. */
  predicate WellFormed(t: UploadTree)
    decreases t
  {
    t.Dir? ==> (DistinctKeys(t.entries) && forall i :: 0 <= i < |t.entries| ==> WellFormed(t.entries[i].1))
  }

  /** The nesting the tree keeps: each node is wrapped by the same kind of
      node, under the same keys in the same order. */
  predicate SameShape(t: UploadTree, w: Wrapped)
    decreases t
  {
    match t
    case File(r) => w == WrapFile(r)
    case Dir(entries) =>
      (w.Nested? && |w.entries| == |entries|
       && forall i :: 0 <= i < |entries| ==> w.entries[i].0 == entries[i].0 && SameShape(entries[i].1, w.entries[i].1))
  }

  /** Wrapping the first `n` entries keeps their keys and order and wraps
      each entry to its own shape. */
  lemma {:induction false} WrapPrefixShape(d: UploadTree, n: nat)
    requires d.Dir? && n <= |d.entries| && WellFormed(d)
    ensures |WrapPrefix(d, n)| == n
    ensures forall i :: 0 <= i < n ==>
      WrapPrefix(d, n)[i].0 == d.entries[i].0 && SameShape(d.entries[i].1, WrapPrefix(d, n)[i].1)
    decreases d, n
  {
    if n > 0 {
      var e := d.entries;
      WrapPrefixShape(d, n - 1);
      var prev := WrapPrefix(d, n - 1);
      assert !HasKey(prev, e[n - 1].0) by {
        forall i | 0 <= i < |prev| ensures prev[i].0 != e[n - 1].0 {
          assert prev[i].0 == e[i].0;
        }
      }
      PutAppends(prev, e[n - 1].0, WrapTree(e[n - 1].1));
      WrapTreeShape(e[n - 1].1);
    }
  }

  /** Wrapping keeps the keys and their order at every level, recurses into
      the nested lists, and gives a leaf its temporary file as a stream
      exactly when it has no upload error. */
  lemma {:induction false} WrapTreeShape(t: UploadTree)
    requires WellFormed(t)
    ensures SameShape(t, WrapTree(t))
    decreases t, if t.Dir? then |t.entries| + 1 else 0
  {
    if t.Dir? {
      WrapPrefixShape(t, |t.entries|);
    }
  }

  // ---------------------------------------------------------------------
  // Protocol version

  /** The protocol versions a request may carry. */
  const AllowedVersions: seq<string> := ["1.0", "1.1", "2"]

  /** The version after the "HTTP/" prefix: "2.0" becomes "2", an allowed
      version is kept and anything else becomes "1.1". */
  function FetchProtocolVersion(version: string): (v: string)
    ensures v in AllowedVersions
  {
    var given := SubstrFrom(version, 5);
    if given == "2.0" then "2"
    else if given !in AllowedVersions then "1.1"
    else given
  }

  /** Exactly which versions map where. */
  lemma ProtocolVersionCases(version: string)
    ensures var given := if |version| >= 5 then version[5..] else "";
      && (FetchProtocolVersion(version) == "2" <==> given == "2" || given == "2.0")
      && (FetchProtocolVersion(version) == "1.0" <==> given == "1.0")
      && (FetchProtocolVersion(version) == "1.1" <==> given !in ["1.0", "2", "2.0"])
  {
  }

  /** A normalised version normalises to itself. */
  lemma ProtocolVersionStable(version: string)
    ensures FetchProtocolVersion("HTTP/" + FetchProtocolVersion(version)) == FetchProtocolVersion(version)
  {
    var v := FetchProtocolVersion(version);
    assert ("HTTP/" + v)[5..] == v;
  }

  // ---------------------------------------------------------------------
  // The worker

  class PSR7Worker {
    /** Streaming is on when this is positive. */
    var chunkSize: int
    const httpWorker: HttpWorker
    /** `$_SERVER` as it was when the worker was built. */
    const originalServer: Arr<ServerValue>

    constructor (worker: RelayWorker, originalServer: Arr<ServerValue>)
      ensures chunkSize == 0 && httpWorker.worker == worker && this.originalServer == originalServer
      ensures fresh(httpWorker)
    {
      chunkSize := 0;
      httpWorker := new HttpWorker(worker);
      this.originalServer := originalServer;
    }

    /** Sends a response: its body as a chunk generator when streaming is on,
        as one string otherwise, with status and headers passed on and the
        stream ended. A generator's body does not run before its first
        `valid()`, so when an informational status refuses it the stream is
        left as it was; in every other case the body has been read to its end. */
    method Respond(status: int, body: BodyStream, headers: Arr<seq<string>>, stopAt: Option<nat>)
      returns (outcome: Outcome)
      modifies body, httpWorker.worker.relay
      ensures var sent := if chunkSize > 0 then Stream(ChunkedBody(body.content, chunkSize, body.sizeKnown)) else Text(body.content);
        && httpWorker.worker.relay.received
             == old(httpWorker.worker.relay.received) + PackAll(RespondEmission(status, sent, headers, true, stopAt).sent, httpWorker.worker.encodeHead)
        && outcome == RespondEmission(status, sent, headers, true, stopAt).outcome
      ensures httpWorker.worker.relay.frames == old(httpWorker.worker.relay.frames)
      ensures body.cursor == if chunkSize > 0 && Informational(status) then old(body.cursor) else |body.content|
    {
      var sent: Body;
      if chunkSize > 0 && Informational(status) {
        sent := Stream(ChunkedBody(body.content, chunkSize, body.sizeKnown));
      } else if chunkSize > 0 {
        var g := StreamToGenerator(body);
        sent := Stream(g);
      } else {
        var s := body.ToString();
        sent := Text(s);
      }
      outcome := httpWorker.Respond(status, sent, headers, true, stopAt);
    }

    /** Cuts the body into the chunk generator: the whole content at once
        when the size is known and below a chunk, else chunks of at most
        `chunkSize` bytes until the end, the last piece of a known-size body
        returned rather than yielded. */
    method StreamToGenerator(stream: BodyStream) returns (g: Gen)
      requires chunkSize > 0
      modifies stream
      ensures g == ChunkedBody(stream.content, chunkSize, stream.sizeKnown)
      ensures stream.cursor == |stream.content|
    {
      stream.Rewind();
      var size := stream.GetSize();
      if size.Some? && size.value < chunkSize {
        var s := stream.ToString();
        return Gen([], Str(s), None, false);
      }
      var content := stream.content;
      var n: nat := chunkSize;
      var sum: nat := 0;
      var pieces: seq<string> := [];
      while !stream.Eof()
        invariant stream.Valid() && stream.cursor == sum && sum <= |content|
        invariant size.Some? ==> sum < |content|
        invariant size.Some? ==> (KnownChunks(content, n) == pieces + KnownChunks(content[sum..], n)
          && KnownLast(content, n) == KnownLast(content[sum..], n))
        invariant size.None? ==> Split(content, n) == pieces + Split(content[sum..], n)
        decreases |content| - sum
      {
        var chunk;
        if size.None? {
          chunk := stream.Read(n);
          SplitStep(content, n, sum);
          AppendAssoc(pieces, [chunk], Split(content[sum + |chunk|..], n));
        } else {
          var left := size.value - sum;
          chunk := stream.Read(Min(n, left));
          if left <= n && |chunk| == left {
            KnownSizeDone(content, n, pieces, sum, chunk);
            return Gen(Strs(pieces), Str(chunk), None, false);
          }
          KnownStep(content, n, sum);
          AppendAssoc(pieces, [chunk], KnownChunks(content[sum + n..], n));
        }
        sum := sum + |chunk|;
        pieces := pieces + [chunk];
      }
      UnknownSizeDone(content, n, pieces);
      g := Gen(Strs(pieces), Null, None, false);
    }

    /** The server array for a request: the original entries, the request's
        URI, time, address and method, an empty user agent, then every
        header under its server name. The clock readings and the remote
        address the request reports are passed in. */
    method ConfigureServer(request: Request, time: int, timeFloat: real, remoteAddr: string)
      returns (server: Arr<ServerValue>)
      requires StringKeys(request.headers)
      ensures server == ServerOf(originalServer, request, time, timeFloat, remoteAddr)
    {
      server := originalServer;
      server := Put(server, StrKey("REQUEST_URI"), ServerText(request.uri));
      server := Put(server, StrKey("REQUEST_TIME"), ServerInt(time));
      server := Put(server, StrKey("REQUEST_TIME_FLOAT"), ServerFloat(timeFloat));
      server := Put(server, StrKey("REMOTE_ADDR"), ServerText(remoteAddr));
      server := Put(server, StrKey("REQUEST_METHOD"), ServerText(request.httpMethod));
      server := Put(server, StrKey("HTTP_USER_AGENT"), ServerText(""));
      var h := request.headers;
      for i := 0 to |h|
        invariant server == WithHeaders(FixedEntries(originalServer, request, time, timeFloat, remoteAddr), h[..i])
      {
        var key := Upper(ReplaceChar(h[i].0.s, '-', '_'));
        var value := ServerText(Implode(", ", h[i].1));
        if key == "CONTENT_TYPE" || key == "CONTENT_LENGTH" {
          server := Put(server, StrKey(key), value);
        } else {
          server := Put(server, StrKey("HTTP_" + key), value);
        }
        assert h[..i + 1][..i] == h[..i];
      }
      assert h[..|h|] == h;
    }

    /** Wraps every upload of the list, recursing into nested lists. */
    method WrapUploads(files: Arr<UploadTree>) returns (result: Arr<Wrapped>)
      ensures result == WrapAll(files)
      decreases Dir(files)
    {
      result := [];
      for i := 0 to |files|
        invariant result == WrapPrefix(Dir(files), i)
      {
        var index := files[i].0;
        var file := files[i].1;
        var wrapped;
        if file.Dir? {
          assert Dir(file.entries) == file;
          var entries := WrapUploads(file.entries);
          wrapped := Nested(entries);
        } else {
          var stream := if file.record.error == UPLOAD_ERR_OK then FromFile(file.record.tmpName) else EmptyStream;
          wrapped := UploadedFile(stream, file.record.size, file.record.error, file.record.name, file.record.mime);
        }
        result := Put(result, index, wrapped);
      }
    }
  }

  /** One read of unknown-size content: the next chunk is the first piece
      of what is left. */
  lemma SplitStep(content: string, n: nat, sum: nat)
    requires n > 0 && sum < |content|
    ensures var chunk := content[sum..Min(sum + n, |content|)];
      Split(content[sum..], n) == [chunk] + Split(content[sum + |chunk|..], n)
  {
    var rest := content[sum..];
    if |rest| > n {
      assert rest[..n] == content[sum..sum + n];
      assert rest[n..] == content[sum + n..];
    } else {
      assert content[sum..Min(sum + n, |content|)] == rest;
      assert Split(rest, n) == [rest];
      assert content[sum + |rest|..] == [];
    }
  }

  /** Unknown-size content read to its end has been yielded whole. */
  lemma UnknownSizeDone(content: string, n: nat, pieces: seq<string>)
    requires n > 0 && Split(content, n) == pieces + Split(content[|content|..], n)
    ensures ChunkedBody(content, n, false) == Gen(Strs(pieces), Null, None, false)
  {
    assert content[|content|..] == [];
    assert pieces + [] == pieces;
  }

  /** Known-size content whose rest fits one read returns that rest after
      the pieces yielded so far. */
  lemma KnownSizeDone(content: string, n: nat, pieces: seq<string>, sum: nat, chunk: string)
    requires 0 < n <= |content| && sum < |content|
    requires KnownChunks(content, n) == pieces + KnownChunks(content[sum..], n)
    requires KnownLast(content, n) == KnownLast(content[sum..], n)
    requires content[sum..] == chunk && |chunk| <= n
    ensures ChunkedBody(content, n, true) == Gen(Strs(pieces), Str(chunk), None, false)
  {
    assert pieces + [] == pieces;
  }

  /** One read of known-size content with more than a chunk left: the next
      chunk is the first full piece of what is left. */
  lemma KnownStep(content: string, n: nat, sum: nat)
    requires n > 0 && sum + n < |content|
    ensures KnownChunks(content[sum..], n) == [content[sum..sum + n]] + KnownChunks(content[sum + n..], n)
    ensures KnownLast(content[sum..], n) == KnownLast(content[sum + n..], n)
  {
    var rest := content[sum..];
    assert rest[..n] == content[sum..sum + n];
    assert rest[n..] == content[sum + n..];
  }
}
