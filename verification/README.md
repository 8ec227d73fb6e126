# A verified model of requests_cpp

`requests_cpp` is an HTTP client. This project models the parts of it that compute something by themselves,
without the sockets, the TLS library and nghttp2, and proves what these parts are there for: that a response
does not depend on how TCP delivered it, that the chunked decoder inverts the chunked coding, that the
connection pool never loses or mixes up a connection, that redirects keep the origin and the method rules, and
that the codecs (MD5, RC4, base64, PEM, NTLM messages, cookie files, Digest challenges) do what their standards say.

Where the source has a loop or an object that changes, the model has a method with a loop or a class with the
same fields, proved against a specification function; the properties are lemmas about these functions. Text is a
sequence of characters with codes 0..255, the codecs work on bytes 0..255, MD5 on 32-bit words. The network, the
clock, the TLS library's answers, the decompressors and random bytes are parameters.

Modules, from the bottom up:

- `Text`, `Numbers`, `HeaderMap`, `Bytes`: `std::string` searching and trimming, the `strto*` family, the
  case-insensitive header map, little-endian fields.
- `Chunked`, `Http1`, `Receive`, `ChunkedResponse`, `ContentCoding`: HTTP/1.1 framing, parsing and reception.
- `Messages`: responses as a server writes them, against what the client receives and parses.
- `Framing`: where a body ends, for the code and by section 6.3 of RFC 9112.
- `Urls`, `References`, `RedirectTargets`, `Redirects`, `Sessions`: URLs, RFC 3986 references, redirect resolution, and
  the request loop.
- `Pools`, `PoolReuse`, `ConnectionPools`, `Exchanges`: the pool as a state machine and as a class, and
  `Http1Adapter::send` over it.
- `Boundaries`: what a read takes from a stream and leaves, and successive exchanges over one kept connection.
- `Md5`, `Md5Hash`, `Md5Answers`, `Rc4`, `Base64`, `Pem`, `Ntlm`: the codecs.
- `Cookies`, `MozillaFormat`, `CookieJars`, `Digest`: the cookie jar, its file format, and the challenge scanner.
- `Counterexamples`: one concrete input for each property that fails.

Properties that do not hold of the code as one would first state them, the exact condition under which they do, and
an input on which they fail:

- A chunked body is seen as complete only if the terminator stands in its chunks, or its end is written plainly: not
  when it is empty, has trailers, or ends with `00` or an extension (`ChunkedResponse.SeenComplete`,
  `Counterexamples.EmptyChunkedBody`, `ChunkedBodyWithTrailer`, `ChunkedBodyWithTwoZeros`). The repository's own example
  program `requests_cpp/examples/http1_chunked_trailers_decode.cpp` shows a body with trailers.
- The text of a chunked response is its payload exactly when the first terminator does not cut into it
  (`ChunkedResponse.ChunkedText`); otherwise payload bytes can also come back as headers
  (`ChunkedResponse.ChunkedHeaders`, `Counterexamples.TerminatorInData`).
- Without a trailer section, the decoder reads the bytes behind a chunked body as trailers (`Chunked.RoundTrip`,
  `Counterexamples.BytesBehindReadAsTrailer`).
- A complete response that its head does not delimit (read until close, or a Content-Length that wraps) reads
  differently under different splits; `Receive.SegmentationExactly` says for which streams this does not happen
  (`Counterexamples.BodyBehindHeadIsLost`).
- The client takes a response for complete when section 6.3 of RFC 9112 does only for some heads
  (`Framing.ResponseStopsExactly`, and `Framing.EndsExactly` for the place of the end). A `Content-Length: 0` without
  "close" is never complete (`Framing.ZeroLengthIsNeverComplete`, `Counterexamples.ZeroLengthIsLost`), and a successful
  CONNECT is not taken for a tunnel.
- An exchange over a kept connection reads the answer to its own request exactly when the exchange before it could not
  stop inside its answer (`Boundaries.TwoExchangesExactly`). A chunked answer with the terminator in its data can be
  left early (`Boundaries.ChunkedStops`), and so can any answer with an interim response in front
  (`Boundaries.InterimIsTheAnswer`, `Counterexamples.EarlyHints`).
- A Location is not always resolved as section 5.2 of RFC 3986 says: not with a scheme other than "http://" or
  "https://" in lower case, with dot segments, or, outside of a directory or with a query to inherit, without a path
  (`RedirectTargets.ResolvesAsRfc`, `Counterexamples.UpperCaseScheme`, `DotSegmentsAreKept`, `QueryOnlyLocation`).
  So a redirect to `HTTP://other.org/x` stays on the host it should leave (`Counterexamples.OtherCaseScheme`).
- A fragment becomes part of the path or query that is sent (`RedirectTargets.BaseIsParsed`,
  `Counterexamples.FragmentIsSent`).
- An NTLM field is readable exactly when its length fits 16 bits (`Ntlm.Type1Readable`, `Ntlm.Type3Readable`,
  `Counterexamples.LongDomain`).
- A cookie survives the Mozilla file exactly when its fields are plain and its domain does not start with "#"
  (`MozillaFormat.SaveLoad`, `Counterexamples.CommentCookie`). Loading a file does not remove duplicates
  (`Counterexamples.LoadedDuplicates`), unlike adding cookies (`CookieJars.AddedAllDistinct`).
- A Digest parameter list is scanned correctly exactly when a comma directly follows each quoted value but the last;
  section 5.6.1 of RFC 9110 allows white space in front of it (`Digest.ScanList`, `Counterexamples.SpaceBeforeComma`).
- Parameter names, which section 11.2 of RFC 9110 reads without regard to case, are understood exactly when the last
  occurrence of each is in lower case (`Digest.StoresAsStandard`, `Counterexamples.CapitalRealm`), and the scheme name
  only as "Digest" or "digest" (`Digest.SchemeSpelling`, `Counterexamples.CapitalScheme`).
- An empty original behind a compression that writes something for it, as gzip does, comes back as these compressed
  bytes (`ContentCoding.UndoInvertsApply`, `Counterexamples.EmptyCompressedText`).

`utf8_to_utf16le` does not decode UTF-8: every byte becomes one code unit. The model follows the code, so a name
read back from an NTLM message is the sender's byte string.

## Model

| member | source | states |
|---|---|---|
| Text.FindStable | requests_cpp/src/http1.cpp:343 | a first occurrence stays the first occurrence when more bytes are appended |
| Text.SpaceCharacters | requests_cpp/src/http1.cpp:54-60 | white space is the six characters of isspace in the C locale |
| Text.LowerLetters | requests_cpp/src/http1.cpp:47-52 | lower-casing changes the 26 capital letters and nothing else |
| HeaderMap.LessTrichotomy | requests_cpp/include/requests_cpp/types.hpp:11-18 | of two names exactly one is less, or they are equal up to letter case |
| HeaderMap.LessTransitive | requests_cpp/include/requests_cpp/types.hpp:11-18 | the comparison is transitive, so the header map is well defined |
| HeaderMap.PutThenGet | requests_cpp/include/requests_cpp/types.hpp:11-20 | a value written under one spelling of a name is found under every spelling, other names are untouched, and the spelling written first stays |
| Chunked.DecodeChunkLoop | requests_cpp/src/http1.cpp:96-122 | the chunk loop collects the payload of the recursive decoder and stops where it stops, on every input |
| Chunked.DecodeTrailerLoop | requests_cpp/src/http1.cpp:130-147 | the trailer loop builds the trailer map of the recursive decoder |
| Chunked.DecodeChunkedWithTrailers | requests_cpp/src/http1.cpp:96-150 | terminates on every input with the decoder's payload and trailers |
| Chunked.RoundTrip | requests_cpp/src/http1.cpp:81-150 | decoding the section 7.1 RFC 9112 encoding of any chunks (data may contain CRLF or the terminator), extensions and trailers gives exactly the payload and the trailers; bytes behind it change nothing, except that without a trailer section they are read as one |
| Chunked.ParseChunkSizeHex | requests_cpp/src/http1.cpp:81-94 | a size written in hexadecimal, in either letter case, is read as that number, for every number below 2^64 |
| Chunked.WrittenRoundTrip | requests_cpp/src/http1.cpp:81-150 | pieces of any lengths, each sent behind its length in hexadecimal, are decoded to exactly these pieces in a row |
| Chunked.TrailerLookup | requests_cpp/src/http1.cpp:130-147 | a trailer is looked up case-insensitively and the last one of a name wins |
| Chunked.DecodedPrefixGrows | requests_cpp/src/http1.cpp:96-122 | on arbitrary input, decoding a prefix yields a prefix of the payload decoded from the whole |
| Http1.ReadHead | requests_cpp/src/http1.cpp:352-382 | the getline loops yield the first line and the map of all lines with a colon |
| Http1.SplitContentEncodings | requests_cpp/src/http1.cpp:267-285 | the splitting loop returns the list that SplitInvertsJoin characterizes |
| Http1.UndoContentEncodings | requests_cpp/src/http1.cpp:411-446 | the reverse loop undoes the codings, or fails where the source gives up |
| Http1.ParseResponse | requests_cpp/src/http1.cpp:339-458 | parse_response returns the response that the theorems below are about, on every input |
| Messages.HeadReads | requests_cpp/src/http1.cpp:343-382 | a status line with any 31-bit status and any field lines without line breaks are read back as that status and these fields, the last of a name winning |
| Messages.BodilessEnds | requests_cpp/src/http1.cpp:307-309 | the statuses whose responses always end with the head are exactly 100 to 199, 204 and 304 |
| Messages.PlainResponse | requests_cpp/src/http1.cpp:339-457 | the whole response for every head without chunked or content coding: no text for those statuses, the first Content-Length bytes where that many are there, and all bytes otherwise |
| Messages.NoHead | requests_cpp/src/http1.cpp:343-357 | bytes without a blank line, or that begin with one, give the status 0, no fields, and the bytes or what follows as the text |
| Messages.LengthRoundTrip | requests_cpp/src/http1_adapter.cpp:185-203 | a response written with its body's length in decimal, followed by anything and split in any way, is received and parsed into the status, the fields and exactly the body that were written |
| Messages.ChunkedRoundTrip | requests_cpp/src/http1_adapter.cpp:185-203 | the same for a body sent in pieces behind their lengths in hexadecimal, unless they hold an end of body themselves |
| Receive.StopTestAgreesWithParser | requests_cpp/src/http1_adapter.cpp:21-62 | for every input and every method but HEAD, stop test and parser place the body end at the same byte, although they strip white space differently |
| Receive.EndStable | requests_cpp/src/http1.cpp:296-336 | a body end fixed by the head does not move when more bytes arrive |
| Receive.ParseStable | requests_cpp/src/http1.cpp:339-458 | a complete, delimited response parses to the same status, headers and text when more bytes follow |
| Receive.ReceiveResponse | requests_cpp/src/http1_adapter.cpp:185-197 | the receive loop stops with the bytes and the end-of-stream flag of the specified reception |
| Receive.ReceivedIsCompletePrefix | requests_cpp/src/http1_adapter.cpp:185-197 | what the loop stops on is a prefix of the stream that the stop test accepts |
| Receive.SegmentationIndependence | requests_cpp/src/http1_adapter.cpp:185-203 | however a delimited message is split into non-empty chunks, the loop stops before the end of the stream and the parsed response is that of the whole stream |
| Receive.AnyTwoSplitsAgree | requests_cpp/src/http1_adapter.cpp:185-203 | two receptions of the same stream give the same status, headers and text |
| Receive.CompleteStays | requests_cpp/src/http1_adapter.cpp:21-62 | more bytes never make a complete response incomplete, for every method but HEAD |
| Receive.SegmentationExactly | requests_cpp/src/http1_adapter.cpp:185-203 | any stream without content coding reads the same under every split if and only if it is never complete, its head delimits the body, or it has no body bytes |
| Counterexamples.BodyBehindHeadIsLost | requests_cpp/src/http1.cpp:331-333 | a body read until close is lost when the head comes in a chunk of its own |
| Counterexamples.DelimitedExample | requests_cpp/src/http1.cpp:323-329 | a concrete message that its head delimits |
| ChunkedResponse.FirstTerminator | requests_cpp/src/http1.cpp:311-321 | the first terminator of a well-formed chunked body stands in its chunks, or at its end if that is written "0" without trailers, or nowhere |
| ChunkedResponse.LocateCut | requests_cpp/src/http1.cpp:315-319 | a cut in the chunks always falls into the data of one chunk, never into a size line or a line break |
| ChunkedResponse.ChunkedParse | requests_cpp/src/http1.cpp:386-457 | the whole response made of every well-formed chunked body, wherever the first terminator stands |
| ChunkedResponse.ChunkedText | requests_cpp/src/http1.cpp:392-457 | when the response has no content coding, its text is the payload if and only if the first terminator does not cut into it and the end is found; cutting two bytes short of the terminator loses nothing |
| ChunkedResponse.ChunkedHeaders | requests_cpp/src/http1.cpp:399-407 | where the first terminator in the chunks makes the parser cut, and: headers not sent in the head appear exactly when the chunk it cuts is cut short and the bytes kept of it, read as trailer lines, name a new one |
| ChunkedResponse.SeenComplete | requests_cpp/src/http1_adapter.cpp:21-85 | a chunked body is seen as complete, at end of stream or not, if and only if the terminator stands in its chunks or its end is plain |
| ChunkedResponse.UnterminatedChunked | requests_cpp/src/http1.cpp:311-321 | a chunked body without the terminator is not complete even at end of stream, and its text stays encoded |
| ChunkedResponse.MissedBodies | requests_cpp/src/http1.cpp:311-321 | all other well-formed chunked bodies (empty, with trailers, with another last chunk) decode correctly but are never found complete by the parser |
| Counterexamples.EmptyChunkedBody | requests_cpp/src/http1.cpp:311-321 | the empty chunked body is not seen as complete and its framing becomes the text |
| Counterexamples.ChunkedBodyWithTrailer | requests_cpp/src/http1.cpp:311-321 | the same for a body with a trailer |
| Counterexamples.ChunkedBodyWithTwoZeros | requests_cpp/src/http1.cpp:311-321 | the same for a last chunk written "00" |
| Counterexamples.TerminatorInData | requests_cpp/src/http1.cpp:392-407 | a payload that is lost and whose first line comes back as a header |
| Counterexamples.BytesBehindReadAsTrailer | requests_cpp/src/http1.cpp:124-147 | bytes behind a body without trailers come back as a trailer |
| ContentCoding.SplitInvertsJoin | requests_cpp/src/http1.cpp:267-285 | splitting a comma-separated list gives its trimmed, lower-case, non-empty elements in order |
| ContentCoding.UndoInvertsApply | requests_cpp/src/http1.cpp:411-438 | undoing supported codings gives the original back, except an empty one behind a compression |
| ContentCoding.UnsupportedFails | requests_cpp/src/http1.cpp:429-436 | one unsupported coding anywhere makes the whole chain fail |
| ContentCoding.CodedBodyText | requests_cpp/src/http1.cpp:411-446 | the text is the original when the codings can be undone, and the coded bytes otherwise |
| Counterexamples.EmptyCompressedText | requests_cpp/src/http1.cpp:433-445 | an empty text under gzip comes back as its compressed bytes, which are not empty |
| Counterexamples.MarkingCompressor | requests_cpp/src/http1.cpp:433-445 | there is an invertible compressor of that kind, with a response text that is not the empty original |
| Framing.StopsExactly | requests_cpp/src/http1.cpp:296-336 | for every head with a numeric Content-Length or none: the code finds a body complete for exactly the bodies that section 6.3 of RFC 9112 does, if and only if the response has no body by method or status; or has a positive length with neither transfer coding nor tunnel, and an end that does not wrap (or, for a tunnel, one that does); or says "close" exactly when its length is 0 or it opens a tunnel; never when it names a chunked coding |
| Framing.ResponseStopsExactly | requests_cpp/src/http1_adapter.cpp:21-62 | the same of the stop test on the received bytes |
| Framing.EndsExactly | requests_cpp/src/http1.cpp:296-336 | the code also puts the end at the standard's byte, for every body, if and only if the response has no body by method or status; or opens no tunnel, names no chunked coding, and has a positive length without transfer coding whose end does not wrap, or is read until close without saying so |
| Framing.ZeroLengthIsNeverComplete | requests_cpp/src/http1.cpp:323-335 | a Content-Length read as 0, without "close" or chunked coding, is never complete, not even at the end of the stream |
| Counterexamples.ZeroLengthIsLost | requests_cpp/src/http1_adapter.cpp:59-84 | for instance "Content-Length: 0", which the standard ends with the head |
| Boundaries.CompleteFrom | requests_cpp/src/http1_adapter.cpp:21-62 | the stop test accepts a prefix of a complete response exactly from a certain number of bytes on |
| Boundaries.ReadOnReceives | requests_cpp/src/http1_adapter.cpp:185-197 | a read takes what Received says, and no byte of the stream is lost or read twice |
| Boundaries.FirstRead | requests_cpp/src/http1_adapter.cpp:185-197 | a message in front of anything is read to its end and no further, however it is split, if and only if no proper prefix of it is accepted |
| Boundaries.TwoReads | requests_cpp/src/http1_adapter.cpp:185-197 | two reads in a row on one stream find two messages, however they are split, if and only if this holds of both |
| Boundaries.StopsWhere | requests_cpp/src/http1.cpp:296-336 | for every head, the bodies for which it holds: none, up to the first terminator, exactly the stated length, or "close" and none |
| Boundaries.ChunkedStops | requests_cpp/src/http1.cpp:311-321 | it holds of a chunked message if and only if no terminator stands in its chunks and its end is plain |
| Boundaries.StandardMessagesStop | requests_cpp/src/http1.cpp:296-336 | and of every message that the standard ends there, under a head on which code and standard agree |
| Boundaries.InterimIsTheAnswer | requests_cpp/src/http1.cpp:307-309 | it fails for an interim response in front of the final one; the next read then finds the final one |
| Counterexamples.EarlyHints | requests_cpp/src/http1.cpp:307-309 | for instance 103 (Early Hints) |
| Numbers.ToDecimal | requests_cpp/src/url.cpp:53-58 | the printed port has no leading zero and reads back as the same number |
| Numbers.ParseUnsignedPrint | requests_cpp/src/http1.cpp:64-75 | which decimal lengths are read: up to 2^64 - 1, a negative one being taken modulo 2^64 |
| Numbers.ParseIntPrint | requests_cpp/src/url.cpp:45-49 | which decimal ports std::stoi reads, and how the extraction of a status clamps: at 2^31 - 1 |
| Numbers.ParseIntMinus | requests_cpp/src/url.cpp:45-49 | the same below zero, at -2^31 |
| Numbers.NoNumber | requests_cpp/src/http1_adapter.cpp:37-41 | text that does not begin with a number gives the status 0, and makes the other functions throw |
| Urls.ParsePrint | requests_cpp/src/url.cpp:53-117 | printing a well-formed URL and parsing it gives it back, an empty path being read as "/" |
| Urls.ParsedIsWellFormed | requests_cpp/src/url.cpp:68-117 | what the parser accepts (no brackets, no query before the path) is well formed and survives printing and parsing |
| Urls.ParseErrors | requests_cpp/src/url.cpp:68-117 | which texts are no URL, and why: no "://", a scheme other than http and https in any letter case, no host, or a port that is no number |
| Urls.ParseBracketed | requests_cpp/src/url.cpp:27-39 | a host in brackets, which may contain colons, is read without them, with or without a port |
| RedirectTargets.DirectoryIsAllButLast | requests_cpp/src/session.cpp:75-77 | the prefix taken from the base path is all of it but the last segment |
| RedirectTargets.ResolvedParts | requests_cpp/src/session.cpp:62-79 | the URL that a Location read as a path leads to, as parsed: same scheme, host and port, with the path and query of the Location |
| RedirectTargets.ResolvesAsRfc | requests_cpp/src/session.cpp:62-79 | for every Location, the result is the target of sections 5.2.2 to 5.2.4 and 5.3 of RFC 3986 if and only if it has a scheme, written http:// or https:// in lower case, and no dot segments; or an authority but no scheme, and no dot segments; or a path only, with no dot segments once merged; or no path, while the current path ends with "/" and no query is inherited |
| RedirectTargets.BaseIsParsed | requests_cpp/src/url.cpp:53-117 | the recorded parts of a URL are those that RFC 3986 sees in it, exactly when it has no fragment |
| Counterexamples.OtherCaseScheme | requests_cpp/src/session.cpp:63-78 | any Location with an http or https scheme not in lower case parses as a URL, but stays on the current host and is not the RFC's target |
| Counterexamples.UpperCaseScheme | requests_cpp/src/session.cpp:63-78 | for instance HTTP://other.org/x |
| Counterexamples.QueryOnlyLocation | requests_cpp/src/session.cpp:75-78 | a Location that is only a query loses the last segment of the path |
| Counterexamples.DotSegmentsAreKept | requests_cpp/src/session.cpp:71-73 | dot segments are not removed |
| Counterexamples.FragmentIsSent | requests_cpp/src/url.cpp:60-117 | a fragment is parsed as path and sent |
| RedirectTargets.ChainKeepsOrigin | requests_cpp/src/session.cpp:62-79 | any chain of Locations read as paths (not starting with lower-case http:// or https://, nor with //) keeps scheme, host and port |
| Redirects.StripRemoves | requests_cpp/src/session.cpp:56-60 | the three body headers are gone and every other header is unchanged |
| Redirects.NoBodyHeaderInAnyCase | requests_cpp/src/session.cpp:56-60 | a header absent for the map is absent under every spelling |
| Redirects.RedirectRules | requests_cpp/src/session.cpp:38-54 | what the loop does with every reply: exactly 301, 302, 303, 307 and 308 with a Location are followed; 303 always, and 301 and 302 for other methods than GET and HEAD, become GET without body and body headers, all other headers being kept; the rest repeats the request at the target |
| Redirects.RedirectStatuses | requests_cpp/src/session.cpp:195-210 | the same status by status for the usual methods |
| Redirects.RetriesExactly | requests_cpp/src/session.cpp:81-94 | a request is sent again exactly as long as the answer has status 0 and attempts are left |
| Redirects.FallsBackExactly | requests_cpp/src/session.cpp:176-183 | a pass goes on over HTTP/1 exactly when HTTP/2 was chosen by the session and the answer has status 0 and an HTTP/2, I/O or TLS error |
| Redirects.StrippedStays | requests_cpp/src/session.cpp:195-210 | a redirect that demands the switch yields GET without body and body headers, and the switch is never undone |
| Redirects.RunIsSafe | requests_cpp/src/session.cpp:154-212 | every request of a run carries the original method and body or GET without a body, and once a status has demanded the switch all later ones are stripped |
| Redirects.RunBounds | requests_cpp/src/session.cpp:170-183 | the passes, the sends and the changes of adapter of a run are bounded, the fallback happening at most once |
| Redirects.RunIsChain | requests_cpp/src/session.cpp:170-212 | the requests of a run follow the redirects one by one; the caller gets the answer to the last send, which is not to be followed or has used up the redirects, and only a failed send or a URL that does not parse ends the run otherwise |
| Redirects.ChainStaysAtOrigin | requests_cpp/src/session.cpp:170-212 | when all its Locations are read as paths, every request of a run goes to the origin of the first |
| Redirects.CallIsSafe | requests_cpp/src/session.cpp:130-212 | one call sends at most (max_redirects + 2) * (max(0, retries) + 1) requests, falls back at most once, and is safe |
| Sessions.Session.SendWithRetries | requests_cpp/src/session.cpp:81-94 | the retry loop sends the same request until a status other than 0 or the last attempt |
| Sessions.Session.PerformPass | requests_cpp/src/session.cpp:170-183 | one pass performs the sends of the specified hop and leaves the adapter it says |
| Sessions.Session.PerformRequest | requests_cpp/src/session.cpp:154-220 | the loop's sends and its response are those of the specified run |
| Sessions.StartRules | requests_cpp/src/session.cpp:161-169 | which adapter a call starts with, and when it may fall back |
| Sessions.AttemptRules | requests_cpp/src/session.cpp:81-82 | one attempt, and one for each retry |
| Pools.KeyInjective | requests_cpp/src/connection_pool.cpp:41-52 | for http and https, equal keys mean equal scheme, host and port |
| Pools.KeepIsSuffix | requests_cpp/src/connection_pool.cpp:265-277 | in a bucket ordered by age, pruning cuts off exactly the prefix of idle entries |
| Pools.PruneKeepsInv | requests_cpp/src/connection_pool.cpp:247-284 | pruning keeps the pool invariant, the leases and the limits |
| Pools.AcquireKeepsInv | requests_cpp/src/connection_pool.cpp:290-316 | acquire keeps the invariant and the limits |
| Pools.ReleaseKeepsInv | requests_cpp/src/connection_pool.cpp:318-343 | release keeps the invariant and the limits |
| Pools.PopOpenTakesLast | requests_cpp/src/connection_pool.cpp:297-309 | under the invariant the loop over a bucket stops at its last entry, which is open |
| Pools.PopKeepsInv | requests_cpp/src/connection_pool.cpp:298-307 | taking an entry keeps the invariant, and the counter is positive then, so its guard never fires |
| Pools.RunKeepsInv | requests_cpp/src/connection_pool.cpp:247-343 | the invariant holds after every run of operations, and the limits as long as the configuration is fixed |
| Pools.Conservation | requests_cpp/src/connection_pool.cpp:247-343 | after every run, each socket ever opened is in exactly one place: one position of the pool, a caller's hands, or closed; no bucket is empty and every pooled connection is open |
| PoolReuse.AcquireMatchesOrigin | requests_cpp/src/connection_pool.cpp:290-316 | an acquired connection is open, in nobody's hands, and was opened to the origin asked for; a new one is opened only when the pool has none |
| PoolReuse.ReuseOverRuns | requests_cpp/src/connection_pool.cpp:290-316 | the same after any run of operations |
| PoolReuse.AcquireTakesNewest | requests_cpp/src/connection_pool.cpp:297-309 | the connection taken is the one used most recently in its bucket |
| PoolReuse.PruneCutsPrefix | requests_cpp/src/connection_pool.cpp:265-283 | when the health-check interval has passed, each bucket loses exactly the entries unused for the idle timeout, which are a prefix, and is dropped when none is left; otherwise the pool stays as it is |
| PoolReuse.TotalIsSum | requests_cpp/src/connection_pool.cpp:247-343 | the counter is the sum of the bucket sizes |
| PoolReuse.LimitsOverRuns | requests_cpp/src/connection_pool.cpp:318-343 | under a fixed configuration neither limit is ever exceeded |
| ConnectionPools.ConnectionPool.PruneBucket | requests_cpp/src/connection_pool.cpp:266-277 | the erase-remove pass closes the idle entries, keeps the others in order and counts down without ever meeting 0 |
| ConnectionPools.ConnectionPool.PruneBuckets | requests_cpp/src/connection_pool.cpp:265-283 | the loop over the buckets, in any order, prunes all of them |
| ConnectionPools.ConnectionPool.PruneIdle | requests_cpp/src/connection_pool.cpp:247-284 | takes the pruning step of the state machine |
| ConnectionPools.ConnectionPool.OpenConnection | requests_cpp/src/connection_pool.cpp:91-159 | a fresh socket for the URL's origin, leased to the caller |
| ConnectionPools.ConnectionPool.CloseConnection | requests_cpp/src/connection_pool.cpp:161-171 | takes the closing step of the state machine |
| ConnectionPools.ConnectionPool.AcquireConnection | requests_cpp/src/connection_pool.cpp:290-316 | takes the acquire step of the state machine |
| ConnectionPools.ConnectionPool.ReleaseConnection | requests_cpp/src/connection_pool.cpp:318-343 | takes the release step of the state machine, ignoring closed handles |
| ConnectionPools.ConnectionPool.SetConfig | requests_cpp/src/connection_pool.cpp:63-65 | takes the configuration step and keeps the invariant |
| Exchanges.TransmitLeases | requests_cpp/src/http1_adapter.cpp:165-183 | whatever fails on the way, the only new lease is that of the connection the request went out on |
| Exchanges.NoLeak | requests_cpp/src/http1_adapter.cpp:165-204 | after an exchange nobody holds a connection, the pool is consistent, and every socket opened is pooled or closed |
| Exchanges.KeptExactly | requests_cpp/src/http1_adapter.cpp:199-202 | after an exchange the connection is in the pool, and still open, if and only if the response was complete before the end of the stream, has a status, neither side asked to close, and the pruned pool has room |
| Exchanges.KeptOnlyAfterCompleteResponse | requests_cpp/src/http1_adapter.cpp:87-111 | so a connection goes back to the pool only after a response the parser finds complete, with a status, when neither side asked to close |
| Exchanges.Http1Adapter.Send | requests_cpp/src/http1_adapter.cpp:165-204 | send performs the specified exchange on the pool object and ends every lease it took |
| Boundaries.ReadsOwnAnswer | requests_cpp/src/http1_adapter.cpp:164-204 | when no open socket has unread bytes, an exchange does what it does alone: it reads the answer to its own request |
| Boundaries.SplitsKeepAlike | requests_cpp/src/http1_adapter.cpp:199-202 | the pool after a complete answer does not depend on how the answer was split |
| Boundaries.StaysCleanExactly | requests_cpp/src/http1_adapter.cpp:164-204 | no split of an answer leaves an open socket with unread bytes, if and only if the answer is incomplete, or read to its end, or its connection is not kept |
| Boundaries.TwoExchangesExactly | requests_cpp/src/http1_adapter.cpp:164-204 | two successive exchanges over one kept connection read the first answer and the second, however these are split, if and only if no proper prefix of the first is accepted |
| Boundaries.NextReadsRest | requests_cpp/src/http1_adapter.cpp:164-204 | otherwise there is a split after which the second exchange starts with the rest of the first answer |
| Boundaries.SecondCallReuses | requests_cpp/src/http1_adapter.cpp:164-204 | there are such pairs of exchanges: from an empty pool without limits, a second call for the same URL uses the connection of the first |
| Boundaries.RunsKeepBounds | requests_cpp/src/http1_adapter.cpp:164-204 | over every run in which each answer is read to its end or not followed by reuse, every exchange reads the answer to its own request |
| Md5.LoopRefinesRfc | requests_cpp/src/md5.cpp:105-128 | the register-rotating loop agrees after every step with the named-register operations of section 3.4 of RFC 1321 |
| Md5.WordOrder | requests_cpp/src/md5.cpp:109-121 | the word indices are those of the four rounds |
| Md5.ShiftsAreRfc | requests_cpp/src/md5.cpp:27-32 | the shift table is that of the four rounds |
| Md5.StepInverse | requests_cpp/src/md5.cpp:123-127 | one step can be undone, for any block |
| Md5.StepsBijective | requests_cpp/src/md5.cpp:105-128 | for a fixed block the 64 steps before the feed-forward addition are a bijection, with its inverse |
| Md5Hash.PadLength | requests_cpp/src/md5.cpp:62-80 | the padded length is the least multiple of 64 that is at least n + 9 |
| Md5Hash.UnpadPad | requests_cpp/src/md5.cpp:62-80 | the message can be read back from the padded bytes, below 2^61 bytes |
| Md5Hash.PadInjective | requests_cpp/src/md5.cpp:62-80 | different messages below 2^61 bytes are padded differently |
| Md5Hash.PadMessage | requests_cpp/src/md5.cpp:62-80 | the padding loops terminate and build the padded message |
| Md5Hash.Rounds | requests_cpp/src/md5.cpp:100-128 | the inner loop performs the 64 steps on the working registers |
| Md5Hash.Hash | requests_cpp/src/md5.cpp:61-156 | md5_hash computes the digest that RFC 1321 defines, for every message |
| Md5Answers.EmptyAnswer | requests_cpp/src/md5.cpp:61-156 | the known answer of section A.5 of RFC 1321 for the empty message |
| Md5Answers.AbcAnswer | requests_cpp/src/md5.cpp:61-156 | the same for "abc" |
| Md5Answers.DigitsAnswer | requests_cpp/src/md5.cpp:61-156 | the same for the 80 digits, a message of two blocks |
| Md5Answers.FSelects | requests_cpp/src/md5.cpp:39-41 | F has the bit of y where x has a one and that of z elsewhere |
| Md5Answers.GSelects | requests_cpp/src/md5.cpp:43-45 | G has the bit of x where z has a one and that of y elsewhere |
| Md5Answers.HIsParity | requests_cpp/src/md5.cpp:47-49 | H has a one where an odd number of its arguments do |
| Md5Answers.IInverts | requests_cpp/src/md5.cpp:51-53 | I keeps the bit of y where z has a one and x has none, and inverts it elsewhere |
| Rc4.ScheduleIsPermutation | requests_cpp/src/ntlm.cpp:30-45 | key scheduling keeps the box a permutation of 0..255 |
| Rc4.EncryptKeepsGood | requests_cpp/src/ntlm.cpp:47-56 | every encryption keeps the box a permutation and the indices in range |
| Rc4.EncryptTwice | requests_cpp/src/ntlm.cpp:47-56 | encrypting twice from the same state is the identity |
| Rc4.EncryptConcat | requests_cpp/src/ntlm.cpp:47-56 | encrypting a then b is encrypting a followed by b |
| Rc4.Rc4.constructor | requests_cpp/src/ntlm.cpp:30-45 | the constructor leaves the state of key scheduling, a permutation |
| Rc4.Rc4.EncryptInPlace | requests_cpp/src/ntlm.cpp:47-56 | encrypt replaces the buffer by its encryption and advances the state |
| Rc4.RoundTrip | requests_cpp/src/ntlm.cpp:28-61 | two fresh ciphers with the same key: the second restores what the first encrypted |
| Rc4.KnownAnswer | requests_cpp/src/ntlm.cpp:28-61 | the key stream of the key 01 starts with 06, 08, 0E |
| Rc4.ScheduledOne | requests_cpp/src/ntlm.cpp:30-45 | the whole box that the key 01 leaves |
| Rc4.ScheduleOfThree | requests_cpp/src/ntlm.cpp:37-41 | the first turns with a key of three bytes, used over and over |
| Base64.ValueOfChar | requests_cpp/src/tls_linux.cpp:74-91 | base64_value inverts the encoder's alphabet, none of whose characters is skipped |
| Base64.WrappingIsHarmless | requests_cpp/src/tls_linux.cpp:93-113 | the 32-bit accumulator gives the bytes of an unbounded one on every input, because only its low 12 bits are read |
| Base64.InsertedSpaceIsInvisible | requests_cpp/src/tls_linux.cpp:98-100 | white space inserted anywhere does not change what is decoded |
| Base64.RoundTrip | requests_cpp/src/tls_linux.cpp:93-113 | decoding the encoding of any bytes, with white space inserted anywhere, gives them back; only the empty string is reported as a failure |
| Base64.EncodeShape | requests_cpp/src/ntlm.cpp:350-388 | four characters for every three bytes begun, with two "=" behind one byte left over, one behind two, and none elsewhere |
| Base64.TestVectors | requests_cpp/src/ntlm.cpp:350-388 | test vectors of section 10 of RFC 4648 |
| Base64.EncodeBytes | requests_cpp/src/ntlm.cpp:350-388 | the encoder's loops (the same code as base64_encode in auth.cpp) produce that encoding for every length |
| Base64.DecodeText | requests_cpp/src/tls_linux.cpp:93-113 | the decoder's loop, with its early exit, computes the specified decoding |
| Pem.BundleExtraction | requests_cpp/src/tls_linux.cpp:115-149 | for every list of non-empty certificates rendered as base64 between markers, with marker-free text around them, the loader hands over exactly these in order, up to the first one refused, and succeeds when there is one and none is refused |
| Pem.LoadRootCertPemBundle | requests_cpp/src/tls_linux.cpp:115-149 | the position loop terminates on every text with that result |
| Ntlm.WidenInverse | requests_cpp/src/ntlm.cpp:10-17 | the widened string determines the original |
| Ntlm.Type1Readable | requests_cpp/src/ntlm.cpp:140-206 | a peer that base64-decodes the message and follows [MS-NLMP] section 2.2.1.1 reads both names, which are contiguous, disjoint and fill it from byte 40 on, if and only if both have less than 32768 bytes |
| Ntlm.Type3Readable | requests_cpp/src/ntlm.cpp:209-344 | the same for the five fields of section 2.2.1.3, from byte 64 on |
| Ntlm.Type1Layout | requests_cpp/src/ntlm.cpp:140-206 | what stands at each offset of section 2.2.1.1: signature, type, flags, domain at 16, workstation at 24, version |
| Ntlm.Type3Layout | requests_cpp/src/ntlm.cpp:209-344 | the same for section 2.2.1.3: the responses at 12 and 20, domain at 28, user at 36, workstation at 44, no session key, flags |
| Ntlm.FirstDescriptor | requests_cpp/src/ntlm.cpp:164-175 | the bytes of the domain's descriptor, whose length is cut to 16 bits |
| Ntlm.WidenAt | requests_cpp/src/ntlm.cpp:10-17 | where each byte of the widened string stands |
| Ntlm.MessageLayout | requests_cpp/src/ntlm.cpp:140-206 | for fields that fit 16 bits, each descriptor selects its own field and the fields tile the rest of the message |
| Counterexamples.LongDomain | requests_cpp/src/ntlm.cpp:162-165 | a domain of 32768 bytes is not recovered, its length being sent as 0 |
| Ntlm.Utf8ToUtf16le | requests_cpp/src/ntlm.cpp:10-17 | the loop widens every byte |
| Ntlm.CreateNtlmType1 | requests_cpp/src/ntlm.cpp:140-206 | the appends build the base64 text of the specified Type 1 message |
| Ntlm.CreateNtlmType3 | requests_cpp/src/ntlm.cpp:209-344 | the appends, with their running offset sums, build that of the Type 3 message |
| CookieJars.SameDomain | requests_cpp/src/cookie.cpp:229-243 | two non-empty domains normalize to the same one if and only if they differ at most in letter case and in a leading dot |
| CookieJars.SameKey | requests_cpp/src/cookie.cpp:46-48 | two cookies replace one another if and only if name and path are equal and the domains differ at most in letter case and a leading dot |
| CookieJars.IsForExactly | requests_cpp/src/cookie.cpp:14-41 | a cookie is sent if and only if it has not expired, its domain ends the one asked for and its path begins it |
| CookieJars.SelectedIsWanted | requests_cpp/src/cookie.cpp:59-70 | the cookies read are exactly these |
| CookieJars.AddedAllIsLastWrites | requests_cpp/src/cookie.cpp:43-57 | after any sequence of add_cookie calls on any jar: the cookies not replaced in place, then the last write of each cookie in order of writing |
| CookieJars.AddedAllIsMap | requests_cpp/src/cookie.cpp:43-57 | adding to the jar is writing to a map keyed by name, normalized domain and path |
| CookieJars.AddedAllDistinct | requests_cpp/src/cookie.cpp:43-57 | a jar without two cookies of the same key, such as an empty one, never gets any by adding |
| Counterexamples.LoadedDuplicates | requests_cpp/src/cookie.cpp:346-390 | a loaded file can bring duplicates |
| CookieJars.ReadAfterAdd | requests_cpp/src/cookie.cpp:59-70 | an added cookie is the last one read back, and the ones it replaced are not read |
| CookieJars.CookieJar.AddCookie | requests_cpp/src/cookie.cpp:43-57 | the erase loop removes exactly the cookies with the same key, and the new one is appended |
| CookieJars.CookieJar.GetCookies | requests_cpp/src/cookie.cpp:59-70 | the unexpired matching cookies, in order |
| CookieJars.CookieJar.SaveAsMozillaFormat | requests_cpp/src/cookie.cpp:312-344 | the loop writes the file that SaveLoad is about |
| CookieJars.CookieJar.LoadFromMozillaFormat | requests_cpp/src/cookie.cpp:346-390 | the jar becomes what the file holds, or stays as it is when the file cannot be opened |
| MozillaFormat.WholeSeconds | requests_cpp/src/cookie.cpp:327-329 | writing an expiry in seconds and reading it back loses less than a second and never overflows |
| MozillaFormat.LineRoundTrip | requests_cpp/src/cookie.cpp:322-338 | one line of a cookie with plain fields is read back as that cookie, unless it looks like a comment |
| MozillaFormat.FileOfOne | requests_cpp/src/cookie.cpp:312-344 | the file of one cookie: the two comment lines, an empty one, and its seven fields, with the expiry in whole seconds |
| MozillaFormat.TabbedSeven | requests_cpp/src/cookie.cpp:332-338 | the fields of a line are separated by tabs |
| MozillaFormat.UnreadableExpiry | requests_cpp/src/cookie.cpp:375-382 | an expiry that is no 64-bit number becomes one 30 days after loading |
| MozillaFormat.LoadedFieldsArePlain | requests_cpp/src/cookie.cpp:355-386 | whatever is loaded from any file has non-empty fields without white space |
| MozillaFormat.SaveLoad | requests_cpp/src/cookie.cpp:312-390 | loading a saved jar gives its unexpired cookies in order, up to httponly, samesite and the fraction of a second, if and only if each has plain fields and a domain that does not start with "#" |
| Counterexamples.CommentCookie | requests_cpp/src/cookie.cpp:357-360 | a cookie whose domain starts with "#" is not read back |
| Numbers.ParseLongLongPrint | requests_cpp/src/cookie.cpp:375-382 | a printed number, negative or not, reads back if and only if it fits 64 bits with a sign |
| Digest.ScanList | requests_cpp/src/auth.cpp:119-200 | for every parameter list, whose quoted values may contain commas and "=", the scanner finds exactly these parameters in order, if and only if a comma directly follows each quoted value but the last |
| Digest.ScanFrom | requests_cpp/src/auth.cpp:119-200 | what it finds on every list: a comma that does not directly follow a quoted value goes into the next key |
| Counterexamples.SpaceBeforeComma | requests_cpp/src/auth.cpp:154-161 | a space in front of the comma behind a quoted value hides the next parameter |
| Digest.LastOccurrenceWins | requests_cpp/src/auth.cpp:184-199 | each field gets the last value of its key and keeps its old one without an occurrence |
| Digest.ChallengeSetsFields | requests_cpp/src/auth.cpp:109-201 | a Digest challenge with such a list sets realm, nonce, algorithm and qop to their last occurrence |
| Digest.StoresAsStandard | requests_cpp/src/auth.cpp:184-199 | for every list of parameter names: all values are stored as section 11.2 of RFC 9110 reads them, names being compared without regard to case, if and only if of realm, nonce, algorithm and qop each last occurrence is in lower case |
| Digest.ChallengeAsStandard | requests_cpp/src/auth.cpp:109-201 | so a Digest challenge with direct commas and such names is understood as the standard says |
| Counterexamples.CapitalRealm | requests_cpp/src/auth.cpp:185-186 | a parameter named "Realm" is passed over |
| Digest.SchemeSpelling | requests_cpp/src/auth.cpp:109-117 | of the spellings of the scheme name, exactly "Digest" and "digest" are accepted |
| Counterexamples.CapitalScheme | requests_cpp/src/auth.cpp:109-117 | a challenge with "DIGEST" changes nothing |
| Digest.NextPair | requests_cpp/src/auth.cpp:120-182 | one round of the loop finds the first parameter and strictly advances, or breaks where nothing more is found |
| Digest.DigestAuth.ProcessChallenge | requests_cpp/src/auth.cpp:109-205 | terminates on every input with the fields of the specified scan and the fresh client nonce |

## Left out

- Sizes are unbounded where the source uses size_t sums of positions; the wrap of `pos + chunk_size` (requests_cpp/src/http1.cpp:113) is not modelled. The wraps of Content-Length, of the path length and of substring lengths are.
- HEAD responses in the agreement and segmentation theorems: the parser is not told the method.
- Framing.StopsExactly: heads with a repeated framing field, of which the header map keeps the last, and with a Content-Length that is not a number, which the standard rejects and the code reads as far as `strtoull` does; methods are compared without regard to case, as the code does. The head leaves room for 16 more bytes below 2^64.
- Boundaries.StaysCleanExactly: HEAD, whose answers the parser reads as if they had a body; TwoReads, TwoExchangesExactly and RunsKeepBounds hold of every method.
- Boundaries.TwoExchangesExactly: the server sends the second answer only after the second request, so no chunk holds bytes of both; bytes that arrive with the end of the first answer are dropped by the source with its buffer.
- ChunkedResponse.ChunkedParse: the body is the last thing received; with a plain end, Receive.ParseStable covers what follows it.
- RedirectTargets.ChainKeepsOrigin: base URLs whose host is bracketed are excluded, since the authority is printed without brackets, and so are URLs with a "?" before the first "/".
- RedirectTargets.ResolvesAsRfc: the base is taken as Url::parse records it, which does not tell an empty query from none.
- Receive.SegmentationExactly: responses with a content coding, whose text depends on the decompressors.
- The Authorization and Cookie headers that Session::request adds before its loop, and Set-Cookie processing inside it; only the exceptions of its URL parsing are modelled.
- Sessions.Session.PerformRequest: an exception that ends the loop is one outcome, whether the source turns it into an error response (a RequestException inside the try block) or lets it leave the call.
- The 50 ms pause between attempts, timeouts, and the exception texts.
- The https branch of Http1Adapter::send, the HTTP/2 adapter and the TLS client classes: foreign libraries.
- Request serialization (http1.cpp), proxies, streaming, hooks and logging.
- Address lookup and socket calls of Connection::open and send_all: their outcome is a parameter. Clock readings are parameters that never run backwards; the pool's times are unbounded nanoseconds.
- The order in which the pool's unordered_map is walked: the loop takes the buckets in any order.
- Move semantics: a released or moved-from handle is not modelled as an object; leases are tracked by socket.
- The decompressors: any function of the coding name and the data; only the coding theorems take them to invert the compressors.
- Rc4.Rc4.EncryptInPlace: the buffer is not the cipher's own box, which C++ cannot alias either; the empty key, which divides by zero in the source, is excluded.
- The signed shift in decode_base64: its accumulator is modelled by its 32-bit two's complement value, which is all that the bytes read depend on.
- The flags of the NTLM messages, which do not announce the names that follow, and the Version and MIC fields that a Type 3 message may also have.
- The password hashes of NTLM, which are placeholders in the source: the response is a parameter of 16 bytes and the client challenge one of 8.
- The clock is read once per cookie operation; std::tm and file errors other than a file that cannot be opened are not modelled.
- Set-Cookie attribute parsing, domain matching and the JSON-like cookie file, whose loader reads nothing.
- Digest.ScanList: quoted pairs (a backslash before a quote), which the scanner does not know; names and values are those the scanner can delimit.
- Response computation and the `nc` counter of Digest, Basic and Bearer authentication.
