# RoadRunner HTTP worker: a verified model

This project models the PHP side of the RoadRunner HTTP bridge in Dafny:

- `HttpWorker`. It turns an inbound payload into a request. The model covers the termination check, header filtering, cookie joining, upload records and attributes. It also sends responses: one payload for a string body, or a stream of payloads pulled from a generator. The stream stops when the server asks it to, and ends early when the generator raises.
- `PSR7Worker`. It adapts PSR-7 messages to the worker:
  - it cuts a response body stream into chunks of at most `chunkSize` bytes;
  - it builds the `$_SERVER` array of a request;
  - it wraps upload trees into uploaded-file values;
  - it normalises the protocol version.
- The unit tests' `TestRelay`: a FIFO queue of inbound frames and a list of sent frames. The streaming properties are stated against it, as the unit tests do.

Files:

- `php.dfy` (module `Php`): the PHP behaviour the code relies on.
  - the `(string)` cast of scalars, and PHP falsiness;
  - array keys, where a canonical integer string becomes an integer key;
  - ordered arrays as sequences of key/value pairs, with `$a[$k] = $v` (`Put`), `unset` (`Remove`), `+` (`Union`) and lookup (`Get`);
  - `implode`, `substr`, `strtoupper` and `str_replace` on one character.
- `test_relay.dfy` (module `Stub`): frames and the `TestRelay` class.
- `transport.dfy` (module `Transport`): outbound payloads and how a payload becomes a relay frame. `RelayWorker` is a worker over a `TestRelay`.
- `http_worker.dfy` (module `HttpWorker`):
  - the response emission specification and the request assembly functions;
  - the `HttpWorker` class, whose methods are proved against them.
- `stream_properties.dfy` (module `StreamProperties`):
  - lemmas about what a response sends;
  - the two streamed responses of the unit tests, replayed against the relay.
- `psr7_worker.dfy` (module `PSR7Worker`): a `BodyStream` class, the chunking specification and its lemmas, the server array and upload lemmas, and the `PSR7Worker` class.

How a generator is modelled: `Gen(chunks, result, failAt, catchesStop)` is fixed in advance.

- `failAt == Some(0)` means the first `valid()` raises. The error escapes `respond`.
- `failAt == Some(k)` with k ≥ 1 means the `next()` after chunk k-1 raises. The worker then sends `Payload('')` and returns.
- `catchesStop` says whether the generator handles the `StreamStoppedException` thrown into it.
- The stop poll (`getPayload(StreamStop::class)`) is an oracle, `stopAt: Option<nat>`. It gives the first turn, counting chunks from 0, at which a stop is seen.

`RespondEmission` states in closed form which payloads a response sends and how the call ends. `HttpWorker.HttpWorker.Respond` is proved to append exactly those payloads, packed as frames, to the relay.

Behaviours of the code worth knowing, which the model follows:

- There is no codec negotiation. Heads are JSON text, rendered by a caller-supplied `encodeHead`.
- Requests are decoded from the payload body (`mergeFromString($payload->body)`).
- `Request.body` is the raw query string, and no `"{}"` is put in place of an empty parsed body.
- A streamed response normally ends with one more payload: the generator's return value, sent with the caller's end-of-stream flag. Five chunks are therefore six frames when the stream is ended. There are two exceptions. If the stream stays open and the value is '', that payload is not sent. If the loop ends early through a stop or a failing `next()`, the last payload is `Payload('')` or nothing, as below.
- After a stop that the generator handles, one empty payload follows. A stop the generator does not handle escapes, and nothing more is sent. After a failing `next()`, one empty payload follows the chunk just sent.

## Model

| member | source | states |
|---|---|---|
| Php.ToStr | src/HttpWorker.php:88 | the `(string)` cast: a string is itself, null is '', a boolean is '' exactly when false and '1' when true, and an integer is its decimal form |
| Php.ArrayKey | src/HttpWorker.php:193 | `$a[$s]` uses an integer key exactly when `$s` is the canonical decimal form of a 64-bit integer: that integer, which prints back as `$s`; any other string stays a string key |
| Php.ParseIntToString | src/HttpWorker.php:193 | reading a rendered integer back gives the integer, so every canonical integer string is recognised |
| Php.CanonicalIntegerKeys | src/HttpWorker.php:193 | the canonical decimal form of a 64-bit integer is an integer key for that integer |
| Php.ArrayKeyInjective | src/HttpWorker.php:193 | distinct names never collide on one PHP key |
| Php.NonNumericKey | src/PSR7Worker.php:134-137 | a name that starts with neither a digit nor '-' stays a string key |
| Php.Get | src/HttpWorker.php:193 | a lookup fails exactly when the key is absent, and a hit is an entry of the array |
| Php.GetPut | src/HttpWorker.php:193 | after `$a[$k] = $v`, `$a[$k]` is `$v` and every other key reads as before |
| Php.PutAppends | src/HttpWorker.php:193 | assigning to a new key appends the entry at the end |
| Php.GetUnion | src/HttpWorker.php:152-154 | in `$a + $b` the left operand wins: a key of `$a` reads from `$a`, any other from `$b` |
| Php.SubstrFrom | src/PSR7Worker.php:232 | `substr($s, $n)` with `$n` ≥ 0 is the suffix from `$n`, or '' past the end |
| Php.Upper | src/PSR7Worker.php:133 | `strtoupper` keeps the length and raises exactly the ASCII lower-case letters |
| Php.ReplaceChar | src/PSR7Worker.php:133 | `str_replace` of one character keeps the length and swaps exactly that character |
| Php.ConcatAppend | tests/Unit/Stub/TestRelay.php:53-54 | `implode('', ...)` of two lists is the two implosions joined |
| Stub.MakeFrameParts | tests/Unit/Stub/TestRelay.php:31-35 | a queued frame starts with its header, and reading past the header gives exactly the body |
| Stub.TestRelay.GetReceivedBody | tests/Unit/Stub/TestRelay.php:51-55 | the received body is `implode('')` of each sent frame's payload past its header length, in send order, and '' before anything is sent |
| Stub.ReceivedBodyImplode | tests/Unit/Stub/TestRelay.php:53-54 | concatenating the frame bodies one by one is the same as imploding the mapped list |
| Stub.ReceivedBodyAppend | tests/Unit/Stub/TestRelay.php:51-55 | the received body of two frame lists is their bodies joined in order |
| Stub.TestRelay.constructor | tests/Unit/Stub/TestRelay.php:12-16 | a new relay has no queued and no received frames |
| Stub.TestRelay.AddFrames | tests/Unit/Stub/TestRelay.php:18-22 | frames are queued at the back; nothing is received |
| Stub.TestRelay.AddFrame | tests/Unit/Stub/TestRelay.php:24-39 | queues one frame of header then body, flagged as asked, whose body reads back as given |
| Stub.TestRelay.AddStopStreamFrame | tests/Unit/Stub/TestRelay.php:41-44 | queues an empty frame with the stop flag |
| Stub.TestRelay.WaitFrame | tests/Unit/Stub/TestRelay.php:57-64 | takes the oldest queued frame, and fails exactly when the queue is empty |
| Stub.TestRelay.Send | tests/Unit/Stub/TestRelay.php:66-69 | appends the frame to the received list and its body to the received body |
| Stub.TestRelay.HasFrame | tests/Unit/Stub/TestRelay.php:71-74 | true exactly when a frame is queued |
| Transport.PackParts | src/HttpWorker.php:71 | a payload's frame reads back as the payload body, is flagged as a stream exactly when the payload does not end it, and has the header length as its first option |
| Transport.ReceivedBodyOfPacked | src/HttpWorker.php:93-115 | whatever the header text, the relay reads back exactly the payload bodies, in order |
| Transport.BodiesAppend | src/HttpWorker.php:93-115 | the bodies of two payload lists are their bodies joined |
| Transport.PackAllAppend | src/HttpWorker.php:93-115 | packing two payload lists is packing each, in order |
| Transport.RelayWorker.Respond | src/HttpWorker.php:71 | sending a payload appends its frame to the relay and leaves the queue alone |
| HttpWorker.EncodeHead | src/HttpWorker.php:66-69 | the head carries the status, an empty header array becomes the empty object, and the headers can be read back from the head unchanged |
| HttpWorker.RespondEmission | src/HttpWorker.php:55-72 | a response fails with nothing sent exactly when the status is informational and the body is not ''; otherwise a string body is one payload with the head and the caller's flag, and the call returns |
| HttpWorker.StreamEmission | src/HttpWorker.php:74-119 | a stream fails with the generator's error exactly when its first `valid()` raises, and then sends nothing; it never fails for the status; whenever something is sent, the first payload carries the head, unless a stop is seen before the first chunk |
| HttpWorker.LoopEmission | src/HttpWorker.php:85-118 | the loop returns, or lets a stop escape only when one is seen and the generator does not handle it; it sends the chunk payloads up to the ending turn in order, at most two payloads after them, and no head after the first payload |
| HttpWorker.FirstEnd | src/HttpWorker.php:85-118 | the first turn at which the loop stops: every earlier turn sends a chunk and goes on |
| HttpWorker.TurnAt | src/HttpWorker.php:86-117 | a turn sends the current chunk and goes on exactly when the generator is valid, no stop is seen and the following `next()` does not raise; the chunk carries the head only when given one |
| HttpWorker.FramesSnoc | src/HttpWorker.php:108-109 | one more sent chunk adds its payload at the end, with the head only on the first |
| HttpWorker.LoopEndsAt | src/HttpWorker.php:85-118 | a loop whose turns up to `i` go on and whose turn `i` ends sends the chunks before `i`, then what turn `i` sends |
| HttpWorker.HttpWorker.constructor | src/HttpWorker.php:27-30 | the HTTP worker wraps the given worker |
| HttpWorker.HttpWorker.Respond | src/HttpWorker.php:55-72 | refuses an informational status with a body other than '' before sending; sends a string body as one payload with the head and the caller's end-of-stream flag; streams a generator; the relay queue is untouched |
| HttpWorker.HttpWorker.RespondStream | src/HttpWorker.php:74-119 | a generator that raises at its first `valid()` sends nothing and the error escapes; otherwise the relay gets exactly the payloads of the stream emission |
| HttpWorker.HttpWorker.StreamChunks | src/HttpWorker.php:85-118 | the `do … while (true)` loop: the relay gets the chunk payloads up to the first turn that ends, then what that turn sends, and the call ends as that turn says |
| HttpWorker.HttpWorker.StreamTurn | src/HttpWorker.php:86-117 | one pass of the loop: the return value (suppressed when the stream stays open and it is ''), the stop path, the failing `next()`, or one chunk sent with the head |
| HttpWorker.HttpWorker.WaitRequest | src/HttpWorker.php:37-50 | no payload, or one whose body and header are both falsy, is a termination (null); bytes the decoder rejects are an error; otherwise the request is assembled from the decoded message |
| HttpWorker.HttpWorker.RequestFromProto | src/HttpWorker.php:121-159 | the request is the assembled one: filtered headers, comma-joined cookies, upload records, the parsed flag first among the attributes, the parsed query, the raw query as body; with distinct cookie names each cookie reads back under its PHP key as its values joined by ',' |
| HttpWorker.RequestOf | src/HttpWorker.php:121-159 | the assembled request has only valid header names, each cookie key reads back as the decoded values joined by ',' and a key with no cookie reads nothing, the reserved attribute holds the parsed flag, and the body is the raw query |
| HttpWorker.HttpWorker.FilterHeaders | src/HttpWorker.php:167-179 | exactly the entries whose key is a non-empty string are kept, in order; each kept key reads its original values |
| HttpWorker.HttpWorker.HeaderValueToArray | src/HttpWorker.php:185-197 | the result is the decoded map copied key by key, with distinct keys; with distinct names every entry lands under its own key, in order |
| HttpWorker.Filtered | src/HttpWorker.php:167-179 | every key of the filtered headers is a non-empty string |
| HttpWorker.FilteredMembers | src/HttpWorker.php:167-179 | an entry is kept exactly when it is in the input and its key is valid |
| HttpWorker.FilteredGet | src/HttpWorker.php:167-179 | a valid key reads the same before and after filtering, and an invalid key is gone |
| HttpWorker.JoinCookies | src/HttpWorker.php:147-150 | the cookie array keeps its length, and each entry keeps its key and joins its values with ',' |
| HttpWorker.GetJoinCookies | src/HttpWorker.php:147-150 | looking up a cookie after joining gives its values joined with ',', and a missing cookie stays missing |
| HttpWorker.CookiesOf | src/HttpWorker.php:147-150 | the cookies of a decoded message read back by key as their joined values; with distinct names, each one under its own PHP key |
| HttpWorker.InvalidHeaderNames | tests/Unit/HttpWorkerTest.php:148-159 | the header named 111 is an integer key and the empty name an empty string key, so both are invalid, while Content-Type is valid |
| HttpWorker.ToArrayDistinct | src/HttpWorker.php:185-197 | with distinct names, copying a map puts each entry at its own position under its PHP key |
| HttpWorker.GetToArray | src/HttpWorker.php:192-194 | each decoded entry can be read back under its PHP key |
| HttpWorker.ToArrayKeysDistinct | src/HttpWorker.php:192-194 | a copied map never holds a key twice |
| HttpWorker.PutKeepsDistinct | src/HttpWorker.php:193 | assignment never duplicates a key, and the keys afterwards are the old ones plus the assigned one |
| StreamProperties.FramesBodies | src/HttpWorker.php:97-108 | the bodies of the first n chunk payloads spell the first n chunks |
| StreamProperties.CompleteStream | src/HttpWorker.php:85-118 | a generator that neither fails nor is stopped sends one open payload per chunk, then its return value with the caller's flag (none when the stream stays open and the value is ''), and the bodies spell chunks then return value |
| StreamProperties.HeadOnFirstOnly | src/HttpWorker.php:93-109 | the head is on the first payload only; it is missing there only when a stop is seen before the first chunk is sent |
| StreamProperties.StreamWithoutYields | src/HttpWorker.php:86-94 | a generator without yields sends one payload with head and return value, or nothing when the stream stays open and the value is '' |
| StreamProperties.StopAtChunk | src/HttpWorker.php:97-105 | a stop seen at chunk k sends the chunks before k, then one empty payload if the generator handles the stop, and otherwise lets the stop escape; chunk k is never sent |
| StreamProperties.FailAfterChunk | src/HttpWorker.php:111-117 | a `next()` that raises after chunk k-1 sends chunks up to k-1, then one empty payload, and returns |
| StreamProperties.InformationalStatus | src/HttpWorker.php:57-59 | with status 100–199 the call fails with nothing sent exactly when the body is not ''; a generator always fails; the body '' goes out as one payload with the head |
| StreamProperties.StringBody | src/HttpWorker.php:66-71 | a string body is one payload with status, headers (an empty object when there are none) and the caller's flag, and the relay reads it back whole |
| StreamProperties.RelayReadsCompleteStream | tests/Unit/StreamResponseTest.php:40-54 | through the relay, a complete stream reads back as its chunks followed by its return value |
| StreamProperties.HelloWorldTexts | tests/Unit/StreamResponseTest.php:40-54 | the test generator's chunk texts are the five test strings; they spell "Hello, World!", and the first two spell "Hello," |
| StreamProperties.HelloWorldSpells | tests/Unit/StreamResponseTest.php:40-54 | the five test strings joined are "Hello, World!", and the first two "Hello," |
| StreamProperties.StreamResponseWithMultipleFrames | tests/Unit/StreamResponseTest.php:40-54 | streaming the five test chunks sends six frames that read back as "Hello, World!", leaves no frame queued, and returns |
| StreamProperties.StopStreamResponse | tests/Unit/StreamResponseTest.php:56-74 | with a stop seen at the third chunk and a generator that handles it, three frames are sent, reading back as "Hello,", and the call returns |
| PSR7Worker.BodyStream.constructor | src/PSR7Worker.php:92-95 | a body stream over given content, cursor at the start |
| PSR7Worker.BodyStream.Rewind | src/PSR7Worker.php:94 | `rewind()` puts the cursor at the start |
| PSR7Worker.BodyStream.GetSize | src/PSR7Worker.php:95 | `getSize()` is the content length, or null for a stream of unknown size |
| PSR7Worker.BodyStream.Eof | src/PSR7Worker.php:100 | `eof()` holds exactly when the cursor is at the end |
| PSR7Worker.BodyStream.Read | src/PSR7Worker.php:102-105 | `read($n)` returns the next `$n` bytes, or what is left, and moves the cursor past them |
| PSR7Worker.BodyStream.ToString | src/PSR7Worker.php:83 | the `(string)` cast is the whole content |
| PSR7Worker.SplitPieces | src/PSR7Worker.php:100-112 | for an unknown size the chunks are non-empty, none is longer than `chunkSize`, all but the last are exactly `chunkSize` long, and together they spell the content |
| PSR7Worker.KnownPieces | src/PSR7Worker.php:104-108 | for a known size every yielded chunk is exactly `chunkSize` long, the returned last piece is at most `chunkSize` long and empty only for empty content, and chunks then piece spell the content |
| PSR7Worker.KnownSplitAgree | src/PSR7Worker.php:100-112 | known and unknown sizes cut the content at the same places; with a known size the last piece is returned instead of yielded |
| PSR7Worker.ShortContent | src/PSR7Worker.php:96-98 | content shorter than a chunk is returned at once, as the loop would have returned it |
| PSR7Worker.ChunkedBody | src/PSR7Worker.php:92-113 | the generator returns null exactly when the size is unknown; content with a known size below a chunk is returned whole, with no chunks |
| PSR7Worker.ChunkedBodySpells | src/PSR7Worker.php:92-113 | the generator's chunks and return value spell the content, no chunk is longer than `chunkSize`, a known-size generator returns a piece of at most `chunkSize` bytes, and an unknown-size one returns null |
| PSR7Worker.StreamedBodyArrives | src/PSR7Worker.php:77-86 | with streaming on and no stop, the relay reads back exactly the body content, no payload holds more than `chunkSize` bytes, and the call returns |
| PSR7Worker.StreamedInformationalRefused | src/PSR7Worker.php:79-85 | with streaming on, every informational status is refused before anything is sent, even with an empty body |
| PSR7Worker.ServerName | src/PSR7Worker.php:133-138 | a server name is as long as the header name (no prefix), or five characters longer (the `HTTP_` prefix); which one is stated by `ServerNamePrefix`, and the characters by `ServerNameChars` |
| PSR7Worker.ServerNamePrefix | src/PSR7Worker.php:133-138 | with `key` the header name upper-cased with '-' as '_', the prefix is left off exactly when `key` is CONTENT_TYPE or CONTENT_LENGTH: the server name is then `key`, and otherwise `"HTTP_" + key` |
| PSR7Worker.ServerNameChars | src/PSR7Worker.php:133-138 | a server name of the header's length is CONTENT_TYPE or CONTENT_LENGTH, a longer one starts with `HTTP_`, and its last characters are the header name with '-' as '_' and ASCII letters upper-cased |
| PSR7Worker.ServerNameCases | src/PSR7Worker.php:133-138 | a header's server name starts with 'C' (CONTENT_TYPE, CONTENT_LENGTH) or 'H' (the `HTTP_` prefix) and is a string key |
| PSR7Worker.NoHeaderReaches | src/PSR7Worker.php:125-138 | no header is copied to a name that starts with 'R' |
| PSR7Worker.LastIndex | src/PSR7Worker.php:132-139 | the last position holding a key, with no later position holding it; none when it is absent |
| PSR7Worker.GetWithHeaders | src/PSR7Worker.php:132-139 | a server variable holds the ', '-joined values of the last header copied to it, or what it held before |
| PSR7Worker.FixedEntryGet | src/PSR7Worker.php:123-131 | before the headers, the six request entries hold the URI, time, float time, address, method and '' user agent, and every other key holds its original value |
| PSR7Worker.RequestEntries | src/PSR7Worker.php:123-131 | the URI, time, address and method entries are exactly as set, since no header reaches them; the user agent is '' unless a User-Agent header is copied |
| PSR7Worker.HeaderEntries | src/PSR7Worker.php:132-139 | each header's values, joined by ', ', sit under its server name unless a later header takes that name |
| PSR7Worker.OtherEntries | src/PSR7Worker.php:123 | every original entry that neither a request entry nor a header reaches is kept |
| PSR7Worker.WithHeadersDistinct | src/PSR7Worker.php:132-139 | copying the headers never duplicates a server key |
| PSR7Worker.WrapFile | src/PSR7Worker.php:209-221 | a leaf gets a stream over its temporary file exactly when its error is UPLOAD_ERR_OK, else an empty stream; size, error, name and MIME type pass through |
| PSR7Worker.WrapPrefixShape | src/PSR7Worker.php:198-225 | wrapping a list keeps its keys and order and wraps each entry to its own shape |
| PSR7Worker.WrapTreeShape | src/PSR7Worker.php:202-207 | a record is wrapped as a file, and an entry without a name is recursed into with its shape kept |
| PSR7Worker.FetchProtocolVersion | src/PSR7Worker.php:230-244 | the result is always 1.0, 1.1 or 2 |
| PSR7Worker.ProtocolVersionCases | src/PSR7Worker.php:230-244 | after the first five characters, 2 and 2.0 become 2, 1.0 stays 1.0, and everything else becomes 1.1 |
| PSR7Worker.ProtocolVersionStable | src/PSR7Worker.php:230-244 | a normalised version, put back behind "HTTP/", normalises to itself |
| PSR7Worker.PSR7Worker.constructor | src/PSR7Worker.php:31-50 | streaming starts off (`chunkSize` 0), the worker is wrapped in a new HTTP worker, and the server array is kept as given |
| PSR7Worker.PSR7Worker.Respond | src/PSR7Worker.php:77-86 | the body goes out as a chunk generator exactly when `chunkSize` is positive, and as its whole string otherwise, with status and headers passed through and the stream ended; a generator refused for an informational status leaves the stream unread |
| PSR7Worker.PSR7Worker.StreamToGenerator | src/PSR7Worker.php:92-113 | the generator is the chunking of the content: whole and unyielded when the size is known and below a chunk, else full chunks with the last known-size piece returned, or chunks until the end for an unknown size; the stream is read to its end |
| PSR7Worker.PSR7Worker.ConfigureServer | src/PSR7Worker.php:121-142 | the server array is the original one with the request entries set and every header copied under its server name |
| PSR7Worker.PSR7Worker.WrapUploads | src/PSR7Worker.php:198-225 | the result is the wrapping of the whole upload tree, level by level |

## Left out

- `HttpWorker.Collaborators.parsedBodyAttribute`: the name of the reserved parsed-body attribute is a parameter, because it is a constant of `Request` and src/Request.php is not part of this model.
- `PSR7Worker.ServerValue` holds strings, integers and floats only. Array values of `$_SERVER`, such as `argv`, are not modelled; an original entry of that kind has no representation.
- `PSR7Worker.ServerName`: its own contract states only the length rule. The choice of prefix is stated by the lemma `ServerNamePrefix`, and the characters by `ServerNameChars`. As ensures of the function they made the server-array proofs too costly.
- Protobuf decoding (`mergeFromString`), `parse_str` and `iterator_to_array` over protobuf maps are not modelled. The decoder and `parse_str` are parameters (`Collaborators`). A decoded map is a list of name/value pairs in iteration order.
- `json_encode` of the response head is not modelled. A head is a value; its text is a parameter `encodeHead`. `JsonException` is not modelled.
- The worker library (the `Payload` class, `Worker::respond`, `withStreamMode`, `StreamWorkerInterface`) is not part of this model. Sending a payload packs it as a frame of header text then body, and appends it to the test relay.
- The stop poll `getPayload(StreamStop::class)` is the oracle `stopAt`. The relay's queued stop frames are not read by the model.
- Generators are values fixed in advance. Laziness, side effects between yields, and exceptions other than at the first `valid()` and at `next()` are left out.
- `HttpWorker.HttpWorker.WaitRequest`: `waitPayload()` is an input. `mergeFromString` throwing is modelled as the decoder returning none.
- PSR7Worker `waitRequest`, `mapRequest` and `getWorker` are not modelled. The PSR-7 factories and the `with*` calls of `mapRequest` are not modelled. The model does not set the global `$_SERVER`.
- `PSR7Worker.PSR7Worker.ConfigureServer`:
  - `time()` and `microtime(true)` are parameters;
  - the floating-point time is a `real` that is only stored;
  - `Request::getRemoteAddr()` is a parameter, because src/Request.php is not part of this model;
  - it requires string header keys: under `strict_types`, `str_replace` would reject an integer key, and `filterHeaders` guarantees string keys.
- `PSR7Worker.PSR7Worker.Respond`, when a generator is sent and not refused, reads the whole stream before the first frame is sent. The source reads it lazily, from the first `valid()` on: after a stop, or in an interleaving of reads with sends, the real cursor differs from the model's. A refused generator is not run, and the model leaves its stream unread too.
- Floats and `Stringable` objects are not modelled as chunks or return values of a generator (`Scalar` holds null, booleans, integers and strings). `(string)` of a float and `__toString()` are not modelled.
- Every length is counted in Dafny characters. Each character stands for one byte, as `strlen`, `read($n)` and `substr` count bytes. Multi-byte encodings are not modelled.
- `PSR7Worker.BodyStream` is an in-memory stream with full reads. A PSR-7 stream whose `read` returns fewer bytes than asked for, or whose `eof()` lags behind the cursor, is not modelled.
- `PSR7Worker.WrapUploads`: the `createStream`, `createStreamFromFile` and `createUploadedFile` factories are not modelled. Each uploaded file records which stream it gets, plus its size, error, name and MIME type. `isset($file['name'])` is the distinction between a record and a nested list.
- The interfaces `HttpWorkerInterface`, `StreamedHttpWorkerInterface` and `WorkerAwareInterface` contain no logic.
