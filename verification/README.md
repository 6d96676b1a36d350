# A model of the http-wasm handler host

The host lets a WebAssembly guest act as HTTP middleware. A request takes a guest
instance out of a pool, runs the guest's `handle_request`, perhaps the next handler and
then `handle_response`, and puts the instance back. In between the guest calls the host:
it reads and writes headers, bodies and the status code through its own memory, and it
may ask the host to buffer the request or the response. This project models that host
and the guests that ship with it, and proves what they promise each other.

A host panic inside a guest call ends the call as a trap. Clocks, sockets, the WebAssembly
runtime and everything the next handler does apart from its response writer are inputs:
a theorem holds whatever they do.

## Parts

**Memory encodings.** `Abi` has the integer widths and the packed 64-bit results,
`FeatureBits` the feature words. `NulStrings` has `writeNULTerminated` on a real array,
with its uint32 length arithmetic, and the theory of its encoding. `HeaderHost` has the
header and text functions over guest memory, `HeaderNames` the listing of response header
and trailer names. `AuthGuest`, `NamesGuest` and `WasiGuest` are the guests' loops,
instruction for instruction where it matters, proved end to end against those host
functions.

**Bodies.** `BodyStream` has a Go `io.Reader` as a contract: it may chunk its data in any
way, return finitely many empty reads, report its end together with data, and use the
rest of the buffer as scratch space. On top of it stand the fill loop, `read_body` and the
guests that read until EOF. `RequestBodies` has the request's bodies as objects, streams
and buffers behind any number of recording wrappers, with the reader and the writer kept of
them; `RequestBuffer` says what a single record replays.

**One request.** `Exchange` says what every host function does to the two request states,
the bodies and the response writer, as functions on values. The other modules prove what
follows for every finite sequence of guest calls and every next handler, each against a
history of the calls rather than against the functions: `Runs`, `Enabling` and `HeadHistory`
for features, request line and headers, `Failures` for traps, error reports and panics,
`Gates` and `RequestGates` for what is no longer allowed after next, `ResponseFlow`,
`Snapshots` and `Transparency` for a buffered response and `DirectFlow` for one that is not,
`RequestFlow`, `OwnBytes` and `Replay` for the request body, and `Resources` for handles.
`Session` carries the same steps out on objects: the buffering writer's Go slice with
`append` in place or into a larger array, the reader that shares that array, the request's
chain of bodies, guest memory, and the lazily filled and cleared fields. Each of its
methods, up to `ServeHTTP`, is proved to do exactly what `Exchange` says, so the theorems
hold of the objects; how a stream chunked its data, which `Exchange` takes as given with
each read, comes out of the run. `Served.Serve` states the main ones for a whole request.

**All requests.** `Lifecycle` is the pool with any number of concurrent requests, one
shared action at a time; hits, misses, discarded instances, finalizers, traps, failing
instantiation and repeated `HandleResponse` are choices of the environment. `GuestLog` is
the discipline each single instance must see, with the counter guest, and `Serving` is the
middleware as an object whose methods are interrupted by all other requests.

## What is true only under a condition

These are places where the code does something other than its intent or documentation
says. The model follows the code; a lemma shows an input that fails, and another the
condition under which the intent is met, as an equivalence.

- *A guest can be lost.* `HandleRequest` keeps the guest if any of the 64 bits of the
  result is set; `ServeHTTP` calls `HandleResponse` only if one of the low 32 is. A result
  with only upper bits set therefore never returns its guest to the pool (`Leaks`,
  `Lifecycle.ALostGuest`); every other result returns it exactly once
  (`Lifecycle.GivenBackExactlyOnce`).
- *A failed instantiation closes every guest.* When a request cannot create its guest, the
  runtime is closed, and with it the guests other requests are running and those in the
  pool (`Lifecycle.AClosedGuestInUse`). A held or pooled guest is closed if and only if that
  has happened (`Lifecycle.ClosedExactlyAfterFailure`).
- *Request buffering does not always replay what was read.* The feature is described as
  letting the next handler see the original body. But a wrapper records a chunk only if it
  comes together with an error, and every later `enable_features` wraps the body once more,
  while only the outermost wrapper is replaced by its record. A guest that does not write
  the body and reads some of it leaves next the whole body if and only if no
  `enable_features` followed the opening of the reader and no read without an error returned
  a byte (`Replay.NextGetsAllIff`, `NextGetsAllOfARequest`). Otherwise next gets it from the
  first byte that error-free reads left, or, if it was wrapped again, from the first unread
  byte (`Replay.NextGetsFrom`). `RequestBuffer.ReplayCanLoseBody` and
  `Replay.WrappingAgainLosesBody` are runs that fail, one for each half of the condition.
- *Only the very first response write resets.* The documentation says the first
  `write_body` in `handle_request` or after the next handler overwrites any response body.
  The writer is cached for the whole request, so a guest that wrote in `handle_request`
  appends in `handle_response` (`ResponseFlow.SecondPhaseAppends`). The released body is the
  documented one if and only if the guest does not write in both phases, or nothing was
  written before its first write of the second (`ResponseFlow.ReleasesDocumentedBodyIff`).
- *An early look hides what next produced.* The documentation describes reading the response
  body the next handler produced. One reader serves the whole request, so a guest that reads
  in `handle_request` keeps reading the body of that moment (`Snapshots.EarlyReadHidesNext`).
  A guest that reads to the end in `handle_response`, before it writes, has read the body
  that export started with, all of it, if and only if no reader was open then or what it had
  left is exactly that body (`Snapshots.ReadsWhatNextProducedIff`).
- *Reading a rewritten request eats the rewrite.* If the guest writes the request body
  before it first reads, its reads consume what it wrote
  (`RequestFlow.ReadingAfterWritingEatsTheWrites`). Its reads and the next handler then
  share the writes, in order, and the next handler gets them all if and only if the guest
  read none (`OwnBytes.ReadsComeOutOfTheWrites`).
- *Buffering shows* for a next handler that sets a status after writing data
  (`Transparency.DataBeforeStatusShowsBuffering`). Under a guest that leaves the response
  alone, the client is sent the same with buffering and without if and only if the status
  and headers in force at next's first final status or first write are those it leaves in
  the end (`Transparency.BufferedOrNotIff`). So it is if next sends statuses and headers
  before data (`Transparency.BufferedOrNot`).
- *Asking late can have an effect.* The documentation says that features asked for after
  `handle_request` have none. If response buffering is first asked for in `handle_response`,
  nothing that export does adds to what the client is sent if and only if the guest had not
  written the response in `handle_request`; if it had, its cached writer goes past the
  buffer (`DirectFlow.LateAskHasNoEffectIff`).
- *A text that is under the limit but outside memory is dropped without a trap*; the
  contract of `HeaderHost.WriteIfUnderLimit` says exactly when it is written.

## Modelling notes

- Strings are sequences of bytes; Go's `uint32(len(x))` and the guests' i32 arithmetic wrap
  at 2^32. `hi<<32|lo` is `hi * 2^32 + lo`.
- Header maps are keyed by canonical names, and trailer names carry their prefix.
- In `Exchange` and `Session` a guest call is a finite sequence of host calls, with the text
  arguments already read from memory, and a result. A region outside memory is `None`. In
  `Lifecycle` it is a result.
- A closed runtime instantiates nothing more; what a call into a closed guest returns is the
  environment's choice.
- `sync.Pool` is a multiset from which any element may be taken or dropped.
- What a client receives from a sequence of `WriteHeader` and `Write` calls
  (`Transparency.Received`) is net/http's rule: the first final status, or the first data,
  fixes status and headers. Informational responses are not compared, nor is whether
  `ServeHTTP` panics after the response: a `get_status_code` in `handle_response` traps
  without buffering only (`Gates.AssertionFailsExactlyWhenUnbuffered`).
- In `Exchange`, feature words are sets of bits; `FeatureBits.WordsAreFlags` and `GroupTest`
  tie the two.

## Model

| member | source | states |
|---|---|---|
| Abi.Unpack | handler/cstring.go:28 | packing a count or flag and a length into 64 bits loses neither |
| FeatureBits.WordsAreFlags | api/handler/features.go:54-61 | on words, enabling is union of flags and testing a flag is membership, for every bit |
| FeatureBits.GroupTest | api/handler/features.go:58-61 | testing a word against a group of flags is true if and only if some flag of the group is enabled, for all pairs of words |
| FeatureBits.EnabledAbsorbs | handler/middleware.go:258-262 | enabling what is already enabled changes nothing, so the layer that is told the union ends with the same flags as the layer that computed it |
| NulStrings.WriteNulTerminated | handler/cstring.go:12-47 | the packed result for every list, limit and memory; nothing is written when the list is empty, over the limit or outside memory; otherwise nothing outside the region of the returned length changes, also where that uint32 wraps, and the region holds the encoding if it is under 2^32 bytes |
| NulStrings.SumLengths | handler/cstring.go:23-26 | the wrapped byte count is the length of the encoding modulo 2^32 |
| NulStrings.BufferWrite | handler/cstring.go:40-45 | a write into the buffer over memory lands after the previous ones, or detaches the buffer and changes no memory |
| NulStrings.SplitEncode | handler/cstring.go:40-45 | splitting the encoding of NUL-free strings gives back the list, empty strings included |
| NulStrings.EncodeSplit | handler/cstring.go:40-45 | the converse: any NUL-terminated text is the encoding of what it splits into |
| NulStrings.CountNulEncode | handler/cstring.go:40-45 | the NULs in an encoding number the strings plus the NULs inside them |
| HeaderHost.GetHeaderNames | handler/middleware.go:372-401 | traps on an unknown kind without touching memory, otherwise writes the names of that kind and nothing else |
| HeaderHost.GetHeaderValues | handler/middleware.go:405-433 | traps on an empty or unreadable name or an unknown kind without touching memory, otherwise writes the values of the name found in memory |
| HeaderHost.WriteIfUnderLimit | handler/middleware.go:774-794 | the length is returned in any case; memory changes exactly in the text's region and exactly when the text fits limit and memory |
| HeaderHost.GetText | handler/middleware.go:786-794 | asking again with the returned length yields the text, whatever the first limit was |
| HeaderNames.GetResponseHeaderNames | handler/nethttp/host.go:215-239 | for any order of map iteration, the sorted duplicate-free list of exactly the keys without the trailer prefix |
| HeaderNames.TrailerNames | handler/nethttp/host.go:321-332 | for any order of map iteration, the sorted duplicate-free list of exactly the names behind the trailer prefix |
| HeaderNames.BelowIsLexicographic | handler/nethttp/host.go:236-237 | the order of the lists is the lexicographic one of bytes |
| HeaderNames.SortedIsUnique | handler/nethttp/host.go:236-237 | a set of names has one sorted list, so the result does not depend on the iteration order |
| HeaderNames.NamesPartitionTheKeys | handler/nethttp/host.go:215-332 | every key is a listed header name or the prefix and a listed trailer name, never both, and the lists together are as long as the map |
| AuthGuest.Instance.HandleRequest | examples/auth.wat:70-111 | for every list of values, any sizes and any stale bytes in the receive buffer: the guest returns 1 if and only if the values are exactly the one expected string, 0 if and only if it has answered 401, and it has sent the challenge if and only if there is not exactly one value |
| AuthGuest.Instance.MemEq | examples/auth.wat:117-135 | returns 1 if and only if the two regions are equal |
| NamesGuest.Instance.HandleRequest | internal/test/testdata/e2e/header_names.wat:10-60 | returns 1 for all NUL-free names whose encoding fits memory, 0 for none, and traps otherwise; an encoding over memory changes no memory |
| NamesGuest.Instance.CountNuls | internal/test/testdata/e2e/header_names.wat:41-53 | the loop counts the NULs of its region |
| NamesGuest.NulCountMatches | internal/test/testdata/e2e/header_names.wat:55-57 | the count agrees with the host's if and only if no name contains a NUL |
| WasiGuest.Instance.PrintHeaders | examples/wasi.wat:256-322 | comes back if and only if the headers are printable, and then has printed one line per value of each name, in the host's order: the loops recover exactly the encoded names and values |
| WasiGuest.Instance.SplitNames | examples/wasi.wat:298-322 | from memory that holds an encoding, each name is handed on once, in order, though printing overwrites the memory behind the names |
| WasiGuest.Instance.PrintHeaderFields | examples/wasi.wat:325-385 | the lines of one name, with all memory below its buffer kept |
| WasiGuest.Instance.SplitValues | examples/wasi.wat:362-385 | each value of a non-empty encoding is printed once, in order; an empty list traps |
| WasiGuest.Instance.PrintHeaderField | examples/wasi.wat:391-430 | prints "name: value" from the two regions and keeps memory below its buffer |
| BodyStream.Reader.Read | handler/middleware.go:641 | what any io.Reader may do with a buffer, data with the final error and empty reads included |
| BodyStream.Fill | handler/middleware.go:635-643 | the loop ends for every chunking; the buffer is full or the stream is at its end with its error, and holds the next bytes of the stream |
| BodyStream.ReadBody | handler/middleware.go:626-652 | the chunk is the next part of the body, a result without EOF fills the limit, memory outside the buffer is kept, and a zero limit or a region outside memory traps with nothing read |
| BodyStream.ReadToEof | handler/middleware.go:523-553 | for every body, chunking and sequence of limits, the chunks up to EOF join to the body, within one call more than the body has bytes; a failing body traps |
| StreamGuest.Instance.HandleRequest | internal/test/testdata/bench/read_body_stream.wat:13-29 | the loop ends with the body read to its end, and how many calls that takes |
| RequestBodies.RequestBody.Read | handler/nethttp/buffer.go:15-21 | one Read of a body behind any number of wrappers: the bytes are the next of the leaf, every wrapper on the way records exactly what came with an error, and a buffer reports its end alone |
| RequestBodies.ConsumeTwice | handler/nethttp/buffer.go:15-21 | two reads through a chain of wrappers, the first without an error, leave it as one read of both does |
| RequestBodies.Fill | handler/middleware.go:635-643 | over any chain of wrappers with a stream or a buffer behind it, the fill loop ends for every chunking, and every record grows by exactly the bytes that came with the error |
| RequestBodies.ReadFrom | handler/middleware.go:626-652 | read_body on any such chain has an outcome that module Exchange has: the state of every body, the chunk, the flag, the errors, and guest memory outside the buffer kept |
| RequestBodies.ReadAndHandOn | handler/nethttp/middleware.go:71-80 | a stream that is wrapped, read any number of times with any buffer sizes and handed on: next gets the original from the number of bytes that reads without an error returned |
| RequestBodies.ReadToEof | handler/middleware.go:523-553 | for a request body behind any wrappers and every sequence of limits, the chunks up to EOF join to the body, within one call more than the body has bytes; a failing stream traps |
| RequestBodies.RequestSide.Wrap | handler/nethttp/middleware.go:50-52 | a new wrapper around the current body, with nothing recorded |
| RequestBodies.RequestSide.OpenReader | handler/middleware.go:532-537 | the reader is the body of the first read, and stays it when the body is replaced |
| RequestBodies.RequestSide.OpenWriter | handler/nethttp/host.go:152-157 | the first write makes one new buffer both the body and the writer |
| RequestBodies.RequestSide.Write | handler/middleware.go:597-606 | the bytes go to the end of the buffer the writer is, and no other body changes |
| RequestBodies.RequestSide.HandOn | handler/nethttp/middleware.go:73-80 | an empty record makes way for the delegate, a non-empty one becomes the body |
| RequestBuffer.ReplayFromSilent | handler/nethttp/buffer.go:14-21 | the exact replay: next gets the body from the first byte not silently consumed, over all logs of reads |
| RequestBuffer.ReplayIsWholeIff | handler/nethttp/buffer.go:15-21 | of one wrapper that was read and is itself handed on: next sees the original if and only if no read without an error returned a byte |
| RequestBuffer.ReplayCanLoseBody | handler/nethttp/buffer.go:17 | the run of a request whose body is one byte and whose stream ends on its own: read through a wrapper, next gets nothing |
| Replay.NextGetsFrom | handler/nethttp/middleware.go:71-81 | over any calls of `handle_request` that do not write the body, from any untouched chain of bodies: next gets the original from an exact byte on, the first that error-free reads left if the wrapper that was read is handed on, and else the first unread one |
| Replay.NextGetsAllIff | api/handler/features.go:13-19 | with request buffering on when `handle_request` returns, next gets the whole body if and only if nothing was read, or no `enable_features` came after the reader was opened and no read without an error returned a byte |
| Replay.NextGetsAllOfARequest | api/handler/features.go:13-19 | the same from the arrival of a request with any stream to the start of next |
| Replay.WrappingAgainLosesBody | handler/nethttp/middleware.go:50-52 | a run in which no error-free read returned a byte and next gets nothing: a later `enable_features` covered the record |
| Gates.StepKeepsAgreement | handler/middleware.go:253-266 | every call keeps the two layers' features equal and the writer buffering exactly when the feature is on |
| Gates.CallsKeepAgreement | handler/nethttp/middleware.go:48-58 | so does every sequence of calls |
| Gates.BeginAgrees | handler/nethttp/middleware.go:42-46 | a new request starts in agreement |
| Gates.InstantiateKeepsAgreement | handler/middleware.go:260-262 | features asked for by a guest's start function, while it is created for a request, reach both layers too, if every instantiation asks for the same |
| Gates.AssertionFailsExactlyWhenUnbuffered | handler/nethttp/host.go:194-201 | the type assertion on the response writer fails exactly for a status, or a first body read before next, without buffering |
| Gates.TrappedChangeIsNone | handler/middleware.go:316-520 | a method, URI or header call that traps changes nothing |
| Gates.StoppedExactlyWhenLate | handler/middleware.go:654-671 | each call fails at a gate if and only if it names no known header kind, or next has run and what that call then needs, by a table of needs, is missing; and it then changes nothing |
| Runs.StopsAtTheTrap | handler/middleware.go:232-240 | a run of calls ends at the first one that traps, and only there, in the state that call leaves |
| Enabling.EnablesWhatIsAsked | handler/middleware.go:253-266 | a feature is on after the call if and only if it was on or is asked for, the answer is exactly what is on, and asking for response buffering leaves a buffering writer |
| Enabling.HostJoinsFlags | handler/nethttp/middleware.go:48-58 | the other layer joins the flags it is told, wraps the body exactly when told that feature, and the writer at most once |
| Enabling.OnExactlyWhenAsked | handler/middleware.go:253-266 | after any calls a feature is on if and only if it was before or some call before the first trap asked for it |
| Enabling.FirstCallBuffers | api/handler/wasm.go:155-157 | with no features configured, a guest whose first call asks for response buffering has its whole request buffered, and exactly its deeds released |
| HeadHistory.Arrives | handler/nethttp/middleware.go:42-46 | a request starts with its own method, URI, headers and body, the middleware's features in both layers, its guest, and an empty response that is buffered exactly when the feature is on |
| HeadHistory.HeadersAreTheirHistory | handler/nethttp/host.go:127-143 | after any calls, every name on either side has the value last set and what was added since; what was added since it was removed; or what it had and was added, and no call touches another name |
| HeadHistory.LineIsTheLastSet | handler/middleware.go:316-353 | after any calls the method and the URI are those last set, an empty URI standing for "/", and the method is never made empty |
| HeadHistory.RequestHeadOfARequest | handler/nethttp/middleware.go:71-83 | the method, URI and request headers that next finds, and that are there in the end, are what the calls of `handle_request` made of them |
| HeadHistory.ResponseHeadersOfARequest | handler/nethttp/host.go:247-265 | every response header in the end is the history of `handle_request`, then what next left, then the history of `handle_response` |
| Failures.TrapsExactlyWhen | handler/middleware.go:654-671 | a call traps if and only if it comes too late, has bad arguments, needs a buffer that is not there, or reads to the end of a failing stream |
| Failures.ReportedExactlyWhenFailed | handler/nethttp/middleware.go:118-120 | status 500 and the message are sent, behind what the guest had sent, if and only if a call of `handle_request` trapped, the guest trapped, or the close failed |
| Failures.FailedRequestEnds | handler/middleware.go:151-167 | after a trap in `handle_request` the report is sent, the guest has gone back, ServeHTTP returns, and neither next nor `handle_response` has any part in the outcome |
| Failures.PanicsExactlyWhenResponseFails | handler/nethttp/middleware.go:137-139 | ServeHTTP panics if and only if `handle_request` came back wanting next and `handle_response` trapped, by itself or in a call |
| Failures.NoFailureNoError | handler/nethttp/middleware.go:117-139 | if nothing fails no error is sent and ServeHTTP returns |
| DirectFlow.SaysAtOnce | handler/nethttp/host.go:277-285 | without buffering, each write and each status reaches the server when it is made, in order, with the headers of that moment |
| DirectFlow.SentIsWhatWasSaid | handler/nethttp/middleware.go:112-140 | so over a whole unbuffered request: what `handle_request` says, the report of a failure if there is one, and what next says if it runs, and nothing from `handle_response` |
| DirectFlow.LateAskHasNoEffectIff | api/handler/wasm.go:147-149 | asking for buffering in `handle_response` never adds to what is sent, whatever that export does, if and only if the guest had not written the response before |
| RequestGates.ResponseStartAgrees | handler/nethttp/middleware.go:117-137 | the layers still agree where `handle_response` starts, whatever the guest and the next handler did |
| RequestGates.ReadsReachABuffer | handler/middleware.go:538-545 | from the arrival of a request, every response body read in `handle_response` fails at the gate if and only if the feature is off, and otherwise reaches a buffering writer |
| RequestGates.FrozenOnceNextRan | handler/middleware.go:654-671 | from the arrival of a request to the end of ServeHTTP: once next has run, method, URI and request headers stay, and unless response buffering is on or asked for, status, headers, trailers and body stay too |
| ResponseFlow.AmountOfAll | handler/nethttp/host.go:277-285 | what the writer accumulates is the join of all writes from the guest's first one on, and the status set last |
| ResponseFlow.CallsTrack | handler/middleware.go:556-606 | a buffering writer holds exactly that after any calls, and nothing is sent |
| ResponseFlow.NextTracks | handler/nethttp/buffer.go:43-51 | so it does after any next handler |
| ResponseFlow.ReleasedIsWhatWasWritten | handler/nethttp/middleware.go:112-140 | over any whole buffered request, the server gets the error report, if any, then the last status and the joined body |
| ResponseFlow.EnabledBeforeFirstWrite | handler/middleware.go:253-266 | enabling the feature before the first write is as good as having it from the start |
| ResponseFlow.NothingSentBeforeRelease | handler/nethttp/middleware.go:122-125 | without a request error nothing reaches the server before `handle_response` returns |
| ResponseFlow.StatusCodeAgrees | handler/nethttp/host.go:194-201 | `get_status_code` is the status the release will send, or 200 if it sends none |
| Snapshots.ReadsAndRest | handler/nethttp/host.go:270-274 | over any calls of one export, whatever is written or reset in between, the chunks read and the unread rest are exactly the body at the first read |
| Snapshots.ReadsOfARequest | handler/middleware.go:538-545 | so over a whole request: the reader outlives `handle_request` and the next handler, and the chunks of both exports with the unread rest are exactly the body at the first read, wherever that is |
| Snapshots.EofMeansAll | handler/middleware.go:538-553 | a chunk of the response is flagged if and only if it does not fill its buffer, and with it the guest has read all of the snapshot, whatever it did in between |
| Snapshots.ReadsToEof | handler/middleware.go:538-553 | for every sequence of limits, reading until the flag yields the whole snapshot, within one call more than it has bytes |
| Snapshots.ReadsWhatNextProducedIff | api/handler/wasm.go:98-102 | every guest that reads to the end in `handle_response`, with no write before, has read the body there is when it starts, all of it, if and only if `handle_request` opened no reader or left exactly that body unread |
| Snapshots.EarlyReadHidesNext | handler/state.go:34-46 | a guest that looks at the response in `handle_request` reads the end of an empty body after next wrote "hi" |
| Transparency.UnbufferedRun | handler/nethttp/host.go:202-211 | without buffering, and with a guest that leaves the response alone, the server is told what the next handler says, call by call |
| Transparency.BufferingIsTransparent | handler/nethttp/buffer.go:37-62 | with buffering the client is sent the status, headers and body of those calls, if statuses and headers come before data |
| Transparency.BufferedOrNotIff | handler/nethttp/buffer.go:37-62 | the two runs of a request side by side, for every next handler with valid status codes: the client is sent the same response if and only if the status and headers in force at the first final status or first write are those there are in the end |
| Transparency.BufferedOrNot | handler/nethttp/buffer.go:37-62 | so it is if statuses and headers come before data |
| Transparency.DataBeforeStatusShowsBuffering | handler/nethttp/buffer.go:54-62 | the two runs of a next handler that writes before it sets 404: the client is sent 404 with buffering and 200 without |
| ResponseFlow.DocumentedResetIff | api/handler/wasm.go:104-107 | the body as documented, overwritten by the first write of each phase, is the body the code holds if and only if the guest does not write in both phases or nothing was written before its first write of the second |
| ResponseFlow.ReleasesDocumentedBodyIff | handler/middleware.go:571-578 | so over every whole buffered request |
| ResponseFlow.SecondPhaseAppends | handler/middleware.go:573-578 | every buffered run of a guest that writes "a" before next and "b" after it sends "ab", where "b" is documented |
| RequestFlow.StepKeepsShape | handler/middleware.go:523-584 | every call keeps the reader on what is left of the original body and the writer on what was written |
| RequestFlow.ReadAndRewrite | handler/middleware.go:523-584 | over any calls that open the reader before they write, the reads are a prefix of the original |
| RequestFlow.NextReadsTheWrites | handler/nethttp/middleware.go:71-81 | next then receives exactly the join of the writes, buffered or not |
| RequestFlow.RewritingIsExact | handler/nethttp/host.go:146-157 | both together, from any fresh chain of request bodies |
| RequestFlow.ReadingAfterWritingEatsTheWrites | handler/nethttp/host.go:152-157 | a write before the first read is eaten by it |
| OwnBytes.Conserves | handler/middleware.go:523-584 | once the body is the guest's own buffer, what it holds and what is written is what is read and what remains, over any calls |
| OwnBytes.ReadsComeOutOfTheWrites | handler/nethttp/host.go:146-157 | if the guest writes before it reads, its reads followed by what next receives are exactly the writes, so next receives all of them if and only if the guest read none |
| Resources.StepKeepsAccounts | handler/middleware.go:528-545 | every reader handle ever acquired is cached in one place or has been closed once |
| Resources.CloseClosesAll | handler/state.go:52-69 | after Close nothing is cached and every handle has been closed exactly once |
| Resources.CloseTwiceIsOnce | handler/state.go:34-69 | a further Close closes nothing and puts nothing back |
| Resources.RepeatedResponseIsHarmless | handler/middleware.go:196-202 | a repeated HandleResponse panics and gives nothing up again |
| Resources.EverythingIsGivenUp | handler/nethttp/middleware.go:112-140 | when ServeHTTP ends, by return or panic, the guest was put back once and every handle closed once, unless the result leaks the guest; then the handles are still accounted for and only the response reader can be open |
| Session.ResponseBuffer.Write | handler/nethttp/buffer.go:43-46 | append on a Go slice: the body grows by the bytes, in place or in a new array, and bytes already there are never overwritten |
| Session.ResponseBuffer.Snapshot | handler/nethttp/host.go:270-274 | a reader of the current bytes that shares their array |
| Session.ResponseBuffer.Reset | handler/nethttp/host.go:279-281 | the body is empty and no longer shares its array with any reader |
| Session.Session.HostEnableFeatures | handler/nethttp/middleware.go:48-58 | the flags join; the request body is wrapped on every call that names its feature, the response writer at most once |
| Session.Session.EnableFeatures | handler/middleware.go:253-266 | both layers hold the union afterwards, and the guest is told it |
| Session.Session.SetStatusCode | handler/middleware.go:618-624 | the status goes to the buffer or to the server, after the gate |
| Session.Session.GetStatusCode | handler/nethttp/host.go:194-201 | the buffered status with its default, or the failing assertion |
| Session.Session.ReadRequestBody | handler/middleware.go:529-537 | reading the objects, through however many wrappers, into guest memory gives the chunk and state of `Exchange.OnReadRequest` for what the stream did, and no other memory changes |
| Session.Session.ReadResponseBody | handler/middleware.go:538-553 | reading through the shared array gives the chunk of the snapshot, and puts it, and nothing else, into guest memory |
| Session.Session.WriteResponseBody | handler/middleware.go:571-584 | the first write resets a buffered body, later ones append, and an open snapshot is not disturbed; without a buffer each write goes to the server behind what it was told before |
| Session.Session.Do | handler/middleware.go:253-624 | every host call on the objects has the effect and the answer module Exchange gives it, over the whole state, and a read puts its chunk, and nothing else, into guest memory |
| Session.Session.Run | handler/middleware.go:233-240 | so does every sequence of calls, up to the first trap |
| Session.Session.Close | handler/state.go:52-69 | the guest goes back, readers are closed, and all fields are cleared, each once |
| Session.Session.Release | handler/nethttp/buffer.go:54-62 | a set status, then a non-empty body, to the server |
| Session.Session.HandleRequest | handler/middleware.go:144-167 | a host panic in any call ends the guest's call as a trap, and the deferred close keeps the guest exactly when the 64-bit result is not zero |
| Session.Session.HandleResponse | handler/middleware.go:196-202 | a missing guest panics, a host panic in any call ends the guest's call as a trap, and everything is closed in each case |
| Session.Session.ServeHTTP | handler/nethttp/middleware.go:112-140 | a whole request on objects, request bodies included, is `Exchange.ServeHttp` of the calls as they were carried out, whatever the aliasing and the chunking |
| Served.Serve | handler/nethttp/middleware.go:112-140 | from the arrival of a request with a stream for a body: what the server was sent with buffering on, and that the guest and all readers were given up once |
| GuestLog.ResponseIsPinned | handler/middleware.go:151-201 | in a disciplined log, `handle_response` follows the same request's `handle_request` on this instance, with the upper half of its result |
| GuestLog.GivenOnlyWhenDone | handler/middleware.go:151-202 | a guest is given back only right after its `handle_response`, or after a `handle_request` that trapped or returned zero |
| GuestLog.TakenOnlyAfterGiven | handler/middleware.go:169-193 | an instance changes hands only through the pool |
| CounterGuest.Instance.HandleRequest | internal/test/testdata/e2e/handle_response.wat:11-24 | the counter steps with wrap-around and the result carries its old value |
| CounterGuest.Instance.HandleResponse | internal/test/testdata/e2e/handle_response.wat:28-33 | traps exactly when the context is not the counter less one |
| CounterGuest.NeverTraps | internal/test/testdata/e2e/handle_response.wat:11-33 | on a disciplined instance whose log holds the counter guest's own results, it never traps, for any number of requests |
| Lifecycle.ReachableInvariant | handler/middleware.go:143-202 | the invariant over pool, requests, instances and logs holds in every reachable state |
| Lifecycle.EveryLogDisciplined | handler/middleware.go:143-202 | in every run of concurrent requests every instance sees a disciplined log |
| Lifecycle.PinnedInEveryRun | handler/nethttp/middleware.go:117-137 | in every run, `handle_response` runs right after its own `handle_request` on that instance, with the upper half of its result |
| Lifecycle.CounterNeverTrapsInAnyRun | internal/test/testdata/e2e/handle_response.wat:11-33 | in every run in which the results in its log are the counter guest's own, which leaves out calls that fail because the runtime was closed, the guest never traps |
| Lifecycle.ExclusiveOwnership | handler/middleware.go:143-202 | a guest a request may use belongs to no other request and is not in the pool; the pool holds no guest twice; and a guest of either kind is closed if and only if the runtime is |
| Lifecycle.NoConcurrentCalls | handler/middleware.go:232-250 | two requests inside guest calls run different instances, which are closed if and only if the runtime is |
| Lifecycle.DownExactlyAfterFailure | handler/middleware.go:216-223 | the runtime is closed in exactly the runs in which some request failed to create a guest |
| Lifecycle.NothingNewWhenDown | handler/middleware.go:216-223 | once the runtime is closed no run creates another instance |
| Lifecycle.ClosedExactlyAfterFailure | handler/middleware.go:175-188 | so a guest that is held or pooled is closed in exactly those runs; finalizers close only what no request can reach |
| Lifecycle.AClosedGuestInUse | handler/middleware.go:219-222 | a run in which one request's failure closes the guest another is running |
| Lifecycle.ExactlyOnePlace | handler/middleware.go:143-202 | every instance ever created is in exactly one place: pooled, held by one request, discarded by the pool, finalized, or lost by one request |
| Lifecycle.PoolMayDiscard | handler/middleware.go:175-188 | in every reachable state the pool may discard any guest it holds, and a finalizer may close it once no request refers to it |
| Lifecycle.GivenBackExactlyOnce | handler/state.go:52-56 | a guest is put back at most once by a request, and once if the request has ended, unless and only unless its result leaks |
| Lifecycle.RepeatChangesNothing | handler/middleware.go:196-202 | in every reachable state a repeated HandleResponse is possible, finds no guest, and changes nothing |
| Lifecycle.ALostGuest | handler/middleware.go:153 | a run after which the only guest is in no place: the exception is real |
| Serving.Middleware.GetOrCreateGuest | handler/middleware.go:169-193 | under interference from all other requests: it succeeds if and only if the pool has the guest or instantiation works on a running runtime; the guest is the pooled one or else a new one, closed if and only if the runtime is; after a failure every instance is closed |
| Serving.Middleware.HandleRequest | handler/middleware.go:144-167 | under interference, the request gets its guest exactly when it should, and its own result survives |
| Serving.Middleware.HandleResponse | handler/middleware.go:196-202 | under interference, the request ends without its guest and reports a trap as an error |
| Serving.Middleware.ServeHTTP | handler/nethttp/middleware.go:112-140 | under interference, the request's guest was given back once, or never if its result leaks it; ServeHTTP panics if and only if the request proceeded and its response trapped; it had no guest if and only if, in the state the run was in when it asked, the pool had none for it and instantiation failed or the runtime was closed |

## Left out

- The WebAssembly runtime, module compilation, signatures, import detection, WASI, options, logging and `Close` of the middleware: library plumbing.
- `GetURI` and `SetURI`: URIs are opaque, and whether one parses is an input.
- Canonical header keys and the lower-casing of listed names: header keys are given canonical, and the names a guest sees are given lower-cased; after lower-casing, the order of the listing need not be kept.
- Request trailers: the code keeps them in the response header map, and adding one overwrites it, so there is no intended property to state.
- `GetRequestHeaderNames`: the special `Host` entry and the empty entries it leaves for skipped keys.
- `examples/redact.wat` and the WASI guest's body printing.
- Several middlewares around one handler: outside the documented use.
- Response buffering asked for between two response writes of one request: the model follows the code there, but the theorems on released bodies assume the feature is on before the first write, and those on unbuffered ones that it is not asked for in `handle_request`.
- What `Close` of a body does to later reads of it, and `Flush` of an unbuffered writer on `Close`: I/O. Handles are only counted.
- The text of an error report: `handleErr` sends some message.
- Errors of a response write: an in-memory write has none, and a failing server connection is I/O.
- Status codes for which net/http panics.
- RequestBodies.RequestSide.HandOn: the record becomes a new buffer with the same bytes, where the code hands on the wrapper's own buffer; nothing reads the wrapper afterwards.
- Session.Session.Do: texts a guest passes, such as names, methods and written bodies, arrive as values; `HeaderHost.ReadString` is how the host reads them.
- Lifecycle.GivenBackExactlyOnce: speaks of `Close` as one put followed by clearing the field, and does not model a second goroutine calling `HandleResponse` for the same request at the same time.
- Serving.Middleware.ServeHTTP: the pool, the request states and the logs are one value in one field, and interference happens between steps, so data races inside the runtime's pool are not modelled.
- HeaderNames.SortStrings: an insertion stands for the library's sort, whose algorithm the code does not choose.
- BodyStream.Reader.Read: one way a reader may behave is written out; only its contract, which allows all others, is used.
