# Traffic advice checkup: the fetch handler, modelled in Dafny

The repository's one serverless function, `handler` in `netlify/functions/fetch.mjs`,
takes an `origin`, resolves `/.well-known/traffic-advice` against `origin`, refuses anything but an
`http:` or `https:` URL on the scheme's default port, fetches it once, and reports the
response to the client. The report holds the response's `type`, `status`, `headers` and
MIME `essence`. Only when the response is `ok` and the essence is exactly
`application/trafficadvice+json` does it also read the body. The body goes into a
zero-filled 512 KiB buffer, chunk by chunk. The report then carries the base64 of the
bytes received as `body`, or an `error`: `"body too large"` or `"error reading body"`.
A fetch that throws is reported as `{ error: "unreachable" }`.

Modules:

- `Wrappers` (`wrappers.dfy`): `Option` and `Result`.
- `Bytes` (`bytes.dfy`): the `byte` type, the concatenation of chunks and two facts about it.
- `Base64` (`base64.dfy`): the encoding of section 4 of RFC 4648 (standard alphabet, `=`
  padding), which is what `buffer.toString('base64', 0, offset)` produces. It comes with a
  strict decoder and both round trips, so "the body is the base64 of exactly these bytes"
  is a statement that can be checked.
- `UrlGuard` (`url_guard.dfy`): the protocol and port check, applied to the URL parser's output.
- `BodyReader` (`body_reader.dfy`): the stream model, the reading loop as a function (`Read`),
  its characterisation, and the imperative reader `ReadBody`. `ReadBody` allocates an
  `array<byte>` of 524288 zeros and copies each chunk into it in place (`Copy` models
  `chunk.copy(buffer, offset)`).
- `FetchHandler` (`fetch_handler.dfy`): responses, the `info` report, the report as a
  function of the fetch outcome (`Report`, `Handle`), and the imperative `Handler`. `Handler`
  builds `info` field by field, as the source does, and is proved equal to `Handle`.

A response body is a `Stream`: the chunks it yields and an optional index `failAt`. Asking
for chunk `k` throws iff `failAt == Some(k)`. An index past the last chunk is never reached,
except `Some(|chunks|)`, which makes the stream fail where it would have ended.

The reader's states are Reading, then exactly one of Complete, TooLarge or ReadError. In
`ReadBody` the Reading state is the loop. Each terminal state is a `break` that records
`info.error` as the source does.

The `info` object is a record of optional fields, one per key the object may have.
`responseType` stands for the `type` key, because `type` is a Dafny keyword. The essence
field is `Option<Option<string>>`: the outer option says whether the key is present, the
inner `None` is the JSON `null`.

An explicit port equal to the scheme's default is not refused: the code only tests
`trafficAdviceURL.port` (fetch.mjs:16), and the WHATWG URL parser stores such a port as the
empty string. So `https://example.com:443` passes the guard and
`https://example.com:8443` does not. The model takes `port` as the parser's output and makes
no claim about how the port was written.

Foreign calls are inputs. `Guard` takes `None` when `new URL(...)` throws, and otherwise the
URL's `protocol` and `port`. `Handler` takes the outcome the network would give for the
guarded URL. It returns `requested`, the URL handed to the fetch: there is one exactly when
the guard passes. The essence is the string the MIME parser would give, or `None` for null.

## Model

| member | source | states |
|---|---|---|
| `UrlGuard.CheckTarget` | netlify/functions/fetch.mjs:14-17 | accepts iff the protocol is `http:` or `https:` and the port is empty, and then returns the URL unchanged; "invalid protocol" iff the protocol is neither; "only default ports permitted" iff the protocol is allowed and the port is not empty; the thrown message is the one the source gives for each |
| `UrlGuard.Guard` | netlify/functions/fetch.mjs:13-17 | a URL that does not parse is refused; otherwise it passes iff protocol in {`http:`, `https:`} and the port is the default (empty), and what passes is the parsed URL |
| `BodyReader.Pull` | netlify/functions/fetch.mjs:49 | one step of `for await`: chunk `k` comes out iff it exists and the stream does not fail there; the end comes iff all chunks are out and no failure is due; otherwise the step throws |
| `BodyReader.ErrorText` | netlify/functions/fetch.mjs:51-63 | the `error` recorded is absent exactly when the reader completed: "body too large" for TooLarge, "error reading body" for ReadError |
| `BodyReader.ReadCharacterized` | netlify/functions/fetch.mjs:46-60 | with d the chunks the stream delivers before failing or ending: TooLarge iff d totals more than 524288 bytes; ReadError iff the stream fails and d fits; Complete iff it does not fail and d fits, and then every chunk was read; on ReadError every delivered chunk was read; the buffer prefix is exactly the chunks accepted, in order, and at most 524288 bytes; on TooLarge the overflowing chunk does not fit in what is left, and it and every later chunk are unread |
| `BodyReader.TooLargeIffOverCapacity` | netlify/functions/fetch.mjs:50-53 | for a stream that does not fail: "body too large" iff the whole body exceeds 524288 bytes; a body of at most 524288 bytes (exactly 524288 included) is read whole and completes |
| `BodyReader.Copy` | netlify/functions/fetch.mjs:54 | `chunk.copy(buffer, offset)`: writes the leading bytes of the chunk that fit from `offset` on, returns how many, and leaves every other byte of the buffer unchanged |
| `BodyReader.ReadBody` | netlify/functions/fetch.mjs:46-61 | allocates a fresh 524288-byte buffer; the final `offset` is at most 524288; `buffer[0..offset)` is exactly the bytes `Read` accepts; every byte from `offset` on is still zero; the error recorded is that of `Read`'s final state |
| `Base64.Encode` | netlify/functions/fetch.mjs:63 | the encoding has 4 characters per started group of 3 bytes, and every character is from the RFC 4648 alphabet or the pad |
| `Base64.DecodeEncode` | netlify/functions/fetch.mjs:63 | decoding the encoding of any bytes gives back exactly those bytes |
| `Base64.EncodeDecode` | netlify/functions/fetch.mjs:63 | a text that decodes is the encoding of the bytes it decodes to: the encoding is canonical |
| `Base64.EncodeInjective` | netlify/functions/fetch.mjs:63 | two byte strings with the same encoding are equal |
| `FetchHandler.Handler` | netlify/functions/fetch.mjs:13-66 | a fetch is issued iff the guard passes, and then for the parsed URL; the result equals `Handle`: the guard's error, or the report of the fetch outcome |
| `FetchHandler.GuardFailureIgnoresNetwork` | netlify/functions/fetch.mjs:13-26 | when the guard fails, the handler throws that error whatever the network would have answered |
| `FetchHandler.UnreachableReport` | netlify/functions/fetch.mjs:27-30 | a fetch that throws gives exactly `{ error: "unreachable" }`: no type, status, headers, essence or body |
| `FetchHandler.MetadataAlwaysReported` | netlify/functions/fetch.mjs:33-42 | for a reached response, type, status, headers (in the order given) and essence are reported as they are, whatever the body phase does |
| `FetchHandler.GateClosedNoBody` | netlify/functions/fetch.mjs:45 | when the response is not ok or the essence is not exactly `application/trafficadvice+json`, the report has neither `body` nor `error` |
| `FetchHandler.BodyPhaseReport` | netlify/functions/fetch.mjs:45-63 | when the body is read, exactly one of `body` and `error` is present; `body` is present iff the stream ends without failing within 524288 bytes, and then it decodes to exactly the bytes of the stream; "body too large" iff the delivered bytes exceed 524288; "error reading body" iff the stream fails within capacity |
| `FetchHandler.BodyLengthBound` | netlify/functions/fetch.mjs:46-63 | a reported body is never longer than the base64 of a full 524288-byte buffer |

`BodyReader.Read` and `BodyReader.ReadFrom` are the reading loop as a function, and
`FetchHandler.Report` and `FetchHandler.Handle` the report as a function. They have no
contract of their own. The lemmas above and the `ensures` of `ReadBody` and `Handler` are
their properties.

## Left out

- The WHATWG URL parsing done by `new URL(...)` (line 13): foreign code. Its outcome is an input. The message of the error it throws is not modelled (`Message(InvalidUrl)` is empty).
- The `MIMEType.parse(...)?.essence ?? null` computation (line 42): foreign code. The essence is an input.
- The `node-fetch` call, its request headers (`Accept`, `User-Agent`) and `redirect: "manual"` (lines 22-26): network I/O. Only success or failure and the response's fields reach the model.
- The order of the headers comes from the fetch library's header iteration, which sorts and combines them. The model takes that sequence as given and copies it unchanged.
- `ok` is an input, as the library reports it. It is not derived from `status`.
- A null `response.body`: the model's stream always exists. A stream that throws at once (`failAt == Some(0)`) covers the same path.
- The asynchronous iteration of `for await` (line 49) and closing the iterator on `break`: the model uses a plain loop over the chunk sequence.
- `console.log` (lines 28, 58), `JSON.stringify` and the `jsonResponse` wrapper (lines 5-9, 66): plumbing. The model returns the `info` record itself.
- How the hosting platform turns a thrown guard error into an HTTP status: not decided by this code.
- BodyReader.Copy: requires `offset` to be at most the buffer length. Node's behaviour for a start past the end is not modelled, and the handler never does that.
