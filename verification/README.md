# cppevent: a verified model

cppevent is a single-threaded C++ library of coroutines over an event loop: a buffered
socket, an HTTP/1.1 server with a router, a client for the PostgreSQL protocol, version 3,
with SCRAM authentication, and a connection pool.  This project models its stateful byte,
protocol and event code in Dafny, and proves what each layer promises to the one above it.

The classes of the source are classes here, and their loops are loops.  Every method is
proved against a function or relation on values, and the main theorems are about those.

- **HTTP.** `byte_buffer.dfy`, `socket.dfy`, `http_line.dfy`, `http_util.dfy`,
  `http_request.dfy`, `http_body.dfy`, `http_output.dfy`, `http_router.dfy` over
  `router_trie.dfy`, and `http_server.dfy`.  The kernel is an adversary: each receive
  delivers any non-empty part of what is still to arrive, each send takes any non-empty
  part of what it is given, and either may fail; where each receive ended is recorded in a
  ghost `Schedule`.  Each layer consumes a prefix of one octet
  sequence, `Incoming()`, and appends to another, `Outgoing()`.  On top stand
  `HttpOutputs.ChunkedRoundTrip`, `HttpServers.PipelineFraming` and `RouterTries.MatchIsWalk`.
- **Base64 and SCRAM.** `base64.dfy` and `scram.dfy`.  The accumulators are 64 bits wide,
  never cleared, and wrap.  Hash, keyed hash and key derivation are any functions.
- **PostgreSQL.** `pg_wire.dfy` (framing), `pg_values.dfy` and `pg_result.dfy` (values,
  parameters, rows), `pg_protocol.dfy` (what the message loops make of a backend stream),
  `pg_connection.dfy` (the connection) and `pg_startup.dfy` (startup and authentication);
  `pg_reader.dfy` is a server that reads what the client sends.
- **Events.** `event_bus.dfy`, `event_loop.dfy`, `async_queue.dfy` and `pg_database.dfy`.
  A run is any sequence of the atomic steps between suspension points; the objects refine
  the steps, and the theorems hold of every run.

`bytes.dfy` holds what all of them share.  C++ exceptions are `Throw` outcomes; `IoError`
can occur at any receive or send.  `OutOfBounds` stands for behaviour that C++ leaves
undefined (a read outside an object, `front()` of an empty queue, `pop_back()` of an empty
string, a negative string length, the overflow of a `long`).

## Where the code falls short

Each of these is stated exactly, with the condition under which the code does do what is
wanted.

- `http_body::read(void*)` passes the destination unadvanced on every turn
  (src/cppevent_http/http_body.cpp:53), so a read across chunks overwrites its own
  beginning: `HttpBodies.RawReadCorrectIff`.
- A route with a bare colon is rejected only after the nodes before the colon have been made
  (src/cppevent_http/http_router.cpp:57-66), and those can hide a parameter route:
  `RouterTries.InvalidNameLeavesTrieIff`, `RouterTries.InvalidNameCanShadow`.
- The pool tests its limit before it connects and counts afterwards
  (src/cppevent_postgres/pg_database.cpp:21-22): `PgDatabases.BoundedIffCareful`.
- A fresh caller can take the connection that woke a waiter
  (src/cppevent_postgres/pg_database.cpp:27-33): `PgDatabases.PromisedIffNoBarging`,
  `PgDatabases.WakingFailsIff`.
- A connection that is destroyed instead of released wakes nobody: `PgDatabases.StrandedIff`,
  `PgDatabases.NeverStrandedIff`, `PgDatabases.DiscardStrandsWaiter`.
- Move assignment over a lent connection closes it without uncounting it
  (src/cppevent_postgres/pg_connection.cpp:61-66): `PgDatabases.CountExactIff`,
  `PgDatabases.OverwritingLeaks`.
- A second awaiter of one callback is refused, and its destructor makes the callback forget
  the first (src/cppevent_base/status_awaiter.cpp:10-14): `EventLoops.StillWaitsIff`,
  `EventLoops.SecondAwaiterForgetsFirst`.
- AuthenticationOk is believed whenever it comes, so that a login with SCRAM checks the server
  only if the server sends its signature: `PgStartup.ServerIsChecked`,
  `PgStartup.FinalMayBeLeftOut`.
- The parameter count of a Bind message has 16 bits: `PgValues.RowRoundTripIff`.
- `populate_result` is called without `co_await` (src/cppevent_postgres/pg_connection.cpp:285
  and 366), so that it is destroyed at its first suspension: a DataRow or RowDescription that
  is not whole in the buffer when its body is read is lost, and what is left of it is taken
  for messages.  For one message `PgProtocol.DetachedDeliversIff` has the exact condition,
  that its body is buffered; `PgProtocol.SplitRowIsLost` and `PgProtocol.LongRowIsLost` have
  inputs.  For a whole answer the condition is one on the segmentation: no receive ends just
  before or inside the body of a data message (`PgProtocol.AllUndivided`).  Under it the
  answer is delivered (`PgConnections.QueryDelivers`, `PgConnections.WindowsDelivered`), and
  an answer read to its end had all its data messages whole exactly under it
  (`PgProtocol.WholeIffUndivided`).
- Whether a connection persists is a substring test of the Connection header, which is that of
  section 9.3 of RFC 9112 exactly under the condition of `HttpServers.KeepAliveExactIff`;
  `HttpServers.KeepAliveDiffers` has inputs.

## Model

| member | source | states |
|---|---|---|
| Bytes.ToCharsFromChars | src/cppevent_postgres/pg_conv.hpp:65-80 | A number printed in base 10 or 16 is read back by `from_chars` into any integer type that holds it, whatever non-digit follows |
| Bytes.SpelledIsRead | src/cppevent_postgres/pg_conv.hpp:19-34 | Digits of base 10 or 16, letters in either case, with or without a minus sign, are read as the number that they spell up to the first other character, and refused exactly if a `long` does not hold it |
| Bytes.PrintedDigits | src/cppevent_postgres/pg_conv.hpp:65-80 | Numbers are printed in the usual digits, the most significant first, without leading zeros |
| Bytes.U16RoundTrip | src/cppevent_base/util.cpp:21-35 | What `write_u16_be` writes, `read_u16_be` reads back, modulo 2^16 |
| Bytes.U32RoundTrip | src/cppevent_base/util.cpp:26-41 | The same for 32 bits |
| ByteBuffers.ByteBuffer.IncrementReadP | src/cppevent_base/byte_buffer.hpp:37-44 | Consuming drops exactly a prefix of the contents; a buffer that becomes empty has both cursors back at zero (part of `Valid`) |
| ByteBuffers.ByteBuffer.IncrementWriteP | src/cppevent_base/byte_buffer.hpp:46-48 | The octets at the write pointer are appended to the contents |
| ByteBuffers.ByteBuffer.Capacity | src/cppevent_base/byte_buffer.hpp:33-35 | An empty buffer offers its whole array |
| ByteBuffers.ByteBuffer.Read | src/cppevent_base/byte_buffer.hpp:58-70 | Takes the longest prefix of the contents that fits the size |
| ByteBuffers.ByteBuffer.ReadC | src/cppevent_base/byte_buffer.hpp:72-79 | Takes the first octet, or gives -1 and changes nothing when empty |
| ByteBuffers.ByteBuffer.Write | src/cppevent_base/byte_buffer.hpp:81-86 | Appends as much of the source as the capacity allows |
| Sockets.Socket.RecvIncoming | src/cppevent_net/socket.cpp:31-36 | Called only on an empty buffer, so with full room: a zero status means that the stream has ended; the stream still to be read is unchanged |
| Sockets.Socket.Peek | src/cppevent_net/socket.cpp:38-48 | The chunk is the buffered front of the stream, and empty only at its end; nothing is consumed |
| Sockets.Socket.Seek | src/cppevent_net/socket.cpp:50-52 | Consumes exactly the given prefix of the stream |
| Sockets.Socket.Read | src/cppevent_net/socket.cpp:54-96 | Value, rest of the stream and error depend on the stream alone, not on the segment lengths: exactly a prefix is taken.  When it has taken octets, every receive but the last ended before the end of what it has taken |
| Sockets.Socket.ReadC | src/cppevent_net/socket.cpp:98-108 | The next octet of the stream, or its end, whatever the segmentation |
| Sockets.Socket.Skip | src/cppevent_net/socket.cpp:110-136 | Drops the same prefix that `read` would take |
| Sockets.Socket.Write | src/cppevent_net/socket.cpp:138-147 | Terminates for any size and any partial sends; sent ++ buffered grows by exactly the source, and by a prefix of it on failure |
| Sockets.Socket.Flush | src/cppevent_net/socket.cpp:149-160 | Terminates; sent ++ buffered is unchanged, and on success nothing stays buffered |
| HttpLines.ReadHttpLine | src/cppevent_http/http_line.cpp:13-34 | The line that the stream determines, stopping exactly after its first LF; the whole stream and no value when there is none |
| HttpLines.LineRoundTrip | src/cppevent_http/http_line.cpp:13-34 | A line without LF, followed by CRLF, is read back without its terminator, and what follows stays unread |
| HttpLines.BareLineRoundTrip | src/cppevent_http/http_line.cpp:28-31 | The same for a line that does not end in CR and is followed by LF alone |
| HttpLines.NoLineRoundTrip | src/cppevent_http/http_line.cpp:13-34 | Without a line feed no line is received |
| HttpUtil.SplitString | src/cppevent_http/util.cpp:5-17 | The loop computes the non-empty pieces between separators |
| HttpUtil.SplitJoin | src/cppevent_http/util.cpp:5-17 | Splitting what joining non-empty, separator-free pieces gives returns the pieces |
| HttpUtil.RetrieveParams | src/cppevent_http/util.cpp:19-37 | The loop computes the bindings of the query, with the carried-over key of the source |
| HttpUtil.ParamsRoundTrip | src/cppevent_http/util.cpp:19-37 | Printed `key=value` pairs joined by `&` are read back in order, duplicates included |
| HttpUtil.ParamsOfFields | src/cppevent_http/util.cpp:19-37 | Any query, as fields of keys and a value, any of them empty: each value that is not empty is bound to the last key before it that is not empty, which stays in force for the fields after its own |
| HttpUtil.EveryQueryHasFields | src/cppevent_http/util.cpp:19-37 | Every string is such a query, so that all bindings are determined |
| HttpUtil.TrimString | src/cppevent_http/util.cpp:39-49 | The loops compute the string without its outer spaces |
| HttpUtil.TrimUndoesPadding | src/cppevent_http/util.cpp:39-49 | Trimming a padded string without outer spaces of its own gives it back, whatever the padding |
| HttpUtil.FindCaseInsensitive | src/cppevent_http/util.cpp:51-63 | The first position where the text matches up to case, or -1 exactly if there is none |
| HttpUtil.LastValueStays | src/cppevent_http/http_request.cpp:56-68 | Of several headers whose names differ in case at most, the last value is found under the name in any case |
| HttpUtil.FirstSpellingStays | src/cppevent_http/http_request.cpp:56-68 | Of several such headers the map keeps the first spelling of the name |
| HttpRequests.HttpRequest.ProcessUri | src/cppevent_http/http_request.cpp:9-21 | The target is the path, then a question mark and the query if it has one, and the path has none; the parameters are those of the query, and stay as they were without one |
| HttpRequests.TargetIsRead | src/cppevent_http/http_request.cpp:9-21 | A path without a question mark, and a query of any fields after one: they are read back as that path, that query, and the bindings of those fields |
| HttpRequests.PairsAreRead | src/cppevent_http/http_request.cpp:9-21 | With a query printed from `key=value` pairs, the parameters are those pairs, in order |
| HttpRequests.EveryTargetIsMeant | src/cppevent_http/http_request.cpp:9-21 | Every target is of that form |
| HttpRequests.HttpRequest.ProcessReqLine | src/cppevent_http/http_request.cpp:39-54 | Accepts exactly three pieces with a known method and version, and sets the fields from them |
| HttpRequests.HttpRequest.ProcessHeaderLine | src/cppevent_http/http_request.cpp:56-68 | Stores the trimmed value under the case-folded trimmed name, or refuses the line |
| HttpRequests.RequestLineRoundTrip | src/cppevent_http/http_request.cpp:39-54 | A printed request line is parsed back into its method, the path and query that were meant, and its version |
| HttpRequests.RequestLineIff | src/cppevent_http/http_request.cpp:25-54 | Exactly the lines of three pieces are accepted whose first is GET, POST, HEAD or OPTIONS and whose last is HTTP/1.0 or HTTP/1.1 |
| HttpRequests.HeaderLineRoundTrip | src/cppevent_http/http_request.cpp:56-68 | A printed header line is parsed back into its name and value |
| HttpRequests.HeaderPaddingDropped | src/cppevent_http/http_request.cpp:56-68 | A header line is parsed back whatever spaces are around its name and its value |
| HttpRequests.HeaderLineIff | src/cppevent_http/http_request.cpp:56-68 | A line is refused exactly if it has no colon, or only spaces before the first one or after it |
| HttpRequests.HeadersRoundTrip | src/cppevent_http/http_server.cpp:53-61 | The header loop rebuilds the map that the printed headers build, and stops exactly at the blank line |
| HttpRequests.HeadersBroken | src/cppevent_http/http_server.cpp:53-61 | A line that is no header, or a stream that ends before the blank line, leaves the section incomplete |
| HttpBodies.HttpBody.HasIncoming | src/cppevent_http/http_body.cpp:17-45 | Refines the decoder step on the stream, error cases included, whatever the segmentation |
| HttpBodies.ChunkSizeIsRead | src/cppevent_http/http_body.cpp:17-45 | A chunk size in hexadecimal, letters in either case, with any extension after it, is read as that size; it is refused exactly if a `long` does not hold it |
| HttpBodies.ChunkSizeIsRefused | src/cppevent_http/http_body.cpp:17-45 | A line that begins with no digit, or a negative number, throws |
| HttpBodies.ChunkIsMissing | src/cppevent_http/http_body.cpp:17-45 | A stream without a further line, or with two blank lines, throws for the missing chunk |
| HttpBodies.HttpBody.Read | src/cppevent_http/http_body.cpp:61-73 | The string overload refines the decoder on the stream |
| HttpBodies.HttpBody.ReadRaw | src/cppevent_http/http_body.cpp:47-59 | The pointer overload as written, with the destination never advanced: the count, the destination and the state |
| HttpBodies.HttpBody.Skip | src/cppevent_http/http_body.cpp:75-87 | Skips what `read` would deliver |
| HttpBodies.ReadDelivers | src/cppevent_http/http_body.cpp:61-73 | One read of any size delivers exactly the next octets of a well-formed body, whatever its chunk boundaries |
| HttpBodies.RunDelivers | src/cppevent_http/http_body.cpp:17-87 | Every sequence of `has_incoming`, `skip` and `read` calls, of either overload, is answered as the body says, and what is left still ends where the next message begins |
| HttpBodies.ChunksDoNotMatter | src/cppevent_http/http_body.cpp:17-87 | The answers depend on the content alone and not on how it was cut into chunks, except for the octets in the destination of the pointer overload |
| HttpBodies.RawReadIsRead | src/cppevent_http/http_body.cpp:47-73 | The pointer overload reports as many octets as the string overload delivers, leaves the decoder in the same state, and fails alike |
| HttpBodies.RunEnds | src/cppevent_http/http_body.cpp:17-45 | `has_incoming` is false exactly when all content is taken, and then the stream is just past the body (section 7.1 of RFC 9112) |
| HttpBodies.RawReadLeaves | src/cppevent_http/http_body.cpp:47-59 | On a well-formed body the pointer overload reports as many octets as are next, leaves the decoder past them, and overlays the pieces at the start of the destination |
| HttpBodies.RawReadCorrectIff | src/cppevent_http/http_body.cpp:53 | The destination of the pointer overload holds the octets that the call reports, whatever it held before, exactly when the read stays within one chunk |
| HttpOutputs.HttpOutput.SetHeader | src/cppevent_http/http_output.cpp:27-36 | Adds or replaces under the case-folded name; empty names or values change nothing |
| HttpOutputs.HttpOutput.SetContentLength | src/cppevent_http/http_output.cpp:40-52 | Files the decimal length; a negative one throws and changes nothing |
| HttpOutputs.HttpOutput.WriteHeaders | src/cppevent_http/http_output.cpp:61-83 | Prints the head once: status line, every header in some order of the map, a blank line; chunked exactly if the header says so |
| HttpOutputs.HttpOutput.Write | src/cppevent_http/http_output.cpp:85-105 | Appends the data, framed as a chunk when chunked, after the head |
| HttpOutputs.HttpOutput.End | src/cppevent_http/http_output.cpp:113-120 | Appends the last chunk when chunked, and flushes everything |
| HttpOutputs.OrderRebuilds | src/cppevent_http/http_output.cpp:74-79 | In whatever order the hash map is iterated, putting the printed headers back rebuilds it |
| HttpOutputs.HeaderSectionRoundTrip | src/cppevent_http/http_output.cpp:74-80 | The printed header section, in any order, is read back as the same case-insensitive map, stopping exactly at its blank line |
| HttpOutputs.OutputIsBody | src/cppevent_http/http_output.cpp:85-120 | What any writes and an `end` put on the wire is a well-formed chunked body whose content is the concatenated writes |
| HttpOutputs.ChunkedRoundTrip | src/cppevent_http/http_output.cpp:85-120 | Any non-empty writes and an `end`, read back by any sequence of calls, are answered as the written octets in one piece would be, ending just past the last chunk (section 7.1 of RFC 9112) |
| HttpOutputs.ResponseHeadIsRead | src/cppevent_http/http_output.cpp:61-83 | The head of a complete response is read back as its status and headers at the first write, stopping exactly at the body |
| HttpOutputs.ResponseIsRead | src/cppevent_http/http_output.cpp:61-120 | The complete response as its client reads it, whatever was said, in whatever order the headers are printed: where the Transfer-Encoding that was read contains `chunked` in any case, the decoder of chunks delivers exactly the writes and ends at what follows; where it does not, exactly the writes come next |
| HttpServers.ReadHead | src/cppevent_http/http_server.cpp:43-76 | Request line, headers and framing are parsed as a function of the stream; the body decoder starts where the head ends |
| HttpServers.HeadRoundTrip | src/cppevent_http/http_server.cpp:49-76 | A well-formed request is parsed back into its method, path, query, version and headers, and its body starts where the decoder does |
| HttpServers.FramingIsRead | src/cppevent_http/http_server.cpp:63-76 | No framing header and no body, a printed Content-Length and as many octets, or a chunked Transfer-Encoding and chunks, in a request without the other header, are read as the framing of exactly that body (section 6.3 of RFC 9112) |
| HttpServers.LengthComesFirst | src/cppevent_http/http_server.cpp:63-76 | The last Content-Length, in any case, decides the framing before any Transfer-Encoding |
| HttpServers.LengthIsRefused | src/cppevent_http/http_server.cpp:63-76 | If it does not begin with a digit, or is negative, there is no request |
| HttpServers.Serve | src/cppevent_http/http_server.cpp:85-86 | An endpoint may make any finite, adaptive sequence of calls on the body, both overloads of `read` included, and on the response; all of them are recorded |
| HttpServers.OnConnection | src/cppevent_http/http_server.cpp:43-101 | Terminates on every finite stream, for any segmentation and any endpoints; the log is a conversation over the stream, and the output is, in the order of the log, the complete responses to exactly what each endpoint said; after an exception they are followed by what the failing turn had written |
| HttpServers.NotFoundResponse | src/cppevent_http/http_server.cpp:85-92 | Where there is no endpoint the response is the 404 status line, a content length of 0, and no body, octet by octet |
| HttpServers.KeepAliveAgrees | src/cppevent_http/http_server.cpp:94-98 | The persistence test is that of section 9.3 of RFC 9112 without a Connection header, and for the single options `close` and `keep-alive` |
| HttpServers.KeepAliveExactIff | src/cppevent_http/http_server.cpp:94-98 | For every request, the test is that of section 9.3 of RFC 9112 exactly if there is no Connection header, or `close` is an option and `keep-alive` occurs nowhere, or `close` is not an option and `keep-alive` occurs (HTTP/1.1) or is an option where it occurs (HTTP/1.0) |
| HttpServers.OptionIsFound | src/cppevent_http/util.cpp:51-63 | Every option of a comma-separated list, whatever its case and the whitespace around it, is found by the substring search |
| HttpServers.KeepAliveDiffers | src/cppevent_http/http_server.cpp:94-98 | Inputs for both ways to differ: `close, keep-alive` goes on though it should close, and `upgrade` closes in HTTP/1.1 though it should go on |
| HttpServers.ExchangeFraming | src/cppevent_http/http_server.cpp:78-98 | An endpoint sees only its own body; the connection goes on exactly if the body was taken whole and the client asked for it, and then exactly past that body |
| HttpServers.PipelineFraming | src/cppevent_http/http_server.cpp:43-101 | Whole-connection framing: request i served is request i sent; its endpoint is the one the router has for its path, it is answered from its own octets, and request i+1 starts at the octet after body i (sections 6.3 and 9.3 of RFC 9112) |
| HttpServers.PipelineRouting | src/cppevent_http/http_server.cpp:78-92 | With the router of any registrations, that endpoint and its bindings are what the walk over the flat tables finds for the segments of the path that was sent |
| HttpServers.UnfinishedLineIsNoRequest | src/cppevent_http/http_server.cpp:48-51 | A pipeline may end in nothing or in an unfinished line: no request is made of it |
| HttpRouters.SplitFirst | src/cppevent_http/http_router.cpp:26-32 | The loops find the first segment and what remains; the segments of the remainder are the other segments |
| HttpRouters.HttpRouter.SetEndpoint | src/cppevent_http/http_router.cpp:35-67 | The node tree, updated in place, becomes the trie after the insertion, for every outcome |
| HttpRouters.HttpRouter.Match | src/cppevent_http/http_router.cpp:77-94 | The search over the nodes is the search over the trie, bindings included |
| RouterTries.InsertEffect | src/cppevent_http/http_router.cpp:35-67 | A registration adds the nodes along its steps and, when it succeeds, its endpoint at the last of them; all other nodes and endpoints are kept, and a node has a parameter name exactly if it has a parameter child |
| RouterTries.RegistrationIff | src/cppevent_http/http_router.cpp:35-67 | After any run of registrations, for the next one: accepted exactly if no name of its parameters clashes with a route that has nodes, none of its segments is a bare colon, and no accepted route of the same verb has the same steps; each of the three errors has its own exact condition, too |
| RouterTries.StepsRoundTrip | src/cppevent_http/http_router.cpp:53-66 | A segment that begins with a colon is a parameter named by the rest of it; any other is static |
| RouterTries.RejectedLeavesTrie | src/cppevent_http/http_router.cpp:40-54 | A duplicate endpoint or a clash of parameter names leaves the trie unchanged |
| RouterTries.InvalidNameLeavesTrieIff | src/cppevent_http/http_router.cpp:57-66 | A route with a bare colon leaves the trie unchanged exactly when the nodes before the colon were all there |
| RouterTries.InvalidNameCanShadow | src/cppevent_http/http_router.cpp:57-66 | A concrete rejected route that hides one that used to match |
| RouterTries.TrieRepresentsTable | src/cppevent_http/http_router.cpp:35-67 | Over every run of GET and POST registrations the trie holds the nodes of the accepted and of the rejected bare-colon routes, and the endpoints of the accepted ones; which these are is defined by the conditions of `RegistrationIff` alone |
| RouterTries.PlainMarksAccepted | src/cppevent_http/http_router.cpp:50-61 | Without a bare colon in any of them, the nodes are those of the accepted routes alone |
| RouterTries.AcceptedAloneIff | src/cppevent_http/http_router.cpp:57-66 | The trie represents the accepted routes alone exactly if the nodes of every rejected bare-colon route lie on accepted ones |
| RouterTries.MatchIsWalk | src/cppevent_http/http_router.cpp:77-94 | After any such run `match` is the static-child-first walk, without backtracking, over these flat tables |
| Base64.Base64Encode | src/cppevent_crypto/encoding.cpp:61-95 | The loops over a 64-bit accumulator that is never cleared and wraps compute the encoding of section 4 of RFC 4648, stated on groups of octets |
| Base64.EncodingOfRfc4648 | src/cppevent_crypto/encoding.cpp:61-95 | Three octets are four digits of six bits each, the most significant first; one or two at the end are filled up with zero bits and padded |
| Base64.AlphabetOfRfc4648 | src/cppevent_crypto/encoding.cpp:11-44 | The digits are those of table 1 of RFC 4648, in both directions, and no other character is one |
| Base64.Base64Decode | src/cppevent_crypto/encoding.cpp:97-117 | The loop computes the decoder that carries its accumulator from character to character, error case included |
| Base64.OnlyPendingBitsMatter | src/cppevent_crypto/encoding.cpp:97-117 | For every string, from every point of the loop, what is decoded depends on the pending low bits of the accumulator alone: neither what is left above them nor the wrap-around has an effect |
| Base64.DecodesIff | src/cppevent_crypto/encoding.cpp:97-117 | A string is refused exactly if one of its characters is neither a digit nor padding |
| Base64.IncompleteGroupIsDropped | src/cppevent_crypto/encoding.cpp:97-117 | One to three digits at the end, without padding, yield nothing |
| Base64.GetMsbOfLowBits | src/cppevent_crypto/encoding.cpp:55-59 | The bits taken depend only on the pending low bits of the accumulator |
| Base64.Base64RoundTrip | src/cppevent_crypto/encoding.cpp:61-117 | Decoding an encoding gives the octets back, for every octet sequence |
| Base64.EncodingHasNoComma | src/cppevent_crypto/encoding.cpp:11-26 | An encoding has no comma, so it can stand in a comma-separated message |
| Scram.ScramClient.GenerateClientFirstMsg | src/cppevent_postgres/scram.cpp:15-20 | Prints the message and keeps the nonce and the bare message |
| Scram.ScramClient.ResolveServerFirstMsg | src/cppevent_postgres/scram.cpp:32-58 | Refines the parser, with its error cases and the overflow of the iteration count |
| Scram.SplitValues | src/cppevent_postgres/scram.cpp:35-46 | The loop computes the values between commas without their labels |
| Scram.ConvertNum | src/cppevent_postgres/scram.cpp:24-30 | The loop computes the number of the signed characters, and fails exactly when a `long` overflows on the way |
| Scram.ScramClient.GenerateClientFinalMsg | src/cppevent_postgres/scram.cpp:96-125 | Prints nonce and proof, and keeps the verifier expected from the server |
| Scram.XorUndoes | src/cppevent_postgres/scram.cpp:110-113 | Exclusive or with the signature is undone by itself, octet by octet |
| Scram.XorIsBitwise | src/cppevent_postgres/scram.cpp:110-113 | A bit of the result is set exactly if it is set in one of the two |
| Scram.ServerFirstRoundTrip | src/cppevent_postgres/scram.cpp:32-58 | A printed server-first message gives back its nonce, its salt (by the Base64 theorem) and its count, for comma-free nonces, exactly if a `long` holds the count |
| Scram.ForeignNonceIsRefused | src/cppevent_postgres/scram.cpp:48-58 | A server nonce that does not extend the one of the client is refused |
| Scram.MessagesOfRfc5802 | src/cppevent_postgres/scram.cpp:15-125 | The messages of the client, letter by letter, and what its proof is computed from (section 3 of RFC 5802) |
| Scram.ServerAcceptsClient | src/cppevent_postgres/scram.cpp:96-125 | The proof satisfies the server check H(proof XOR HMAC(StoredKey, AuthMessage)) = StoredKey of section 3 of RFC 5802, for any functions H and HMAC |
| Scram.HonestRun | src/cppevent_postgres/scram.cpp:15-129 | The honest run: the server accepts the final message, and the client accepts exactly the matching verifier |
| PgWire.HeaderRoundTrip | src/cppevent_postgres/pg_connection.cpp:22-28 | A header that fits gives back its kind and the size of its body (section 55.7 of the PostgreSQL 16 documentation) |
| PgWire.LengthFieldExactIff | src/cppevent_postgres/pg_connection.cpp:26-28 | The length field is 4 plus the body exactly when that needs no more than 32 bits |
| PgWire.NextMessage | src/cppevent_postgres/pg_connection.cpp:68-83 | A notice is skipped whole; any other message is the next one |
| PgWire.DeframeRoundTrip | src/cppevent_postgres/pg_connection.cpp:22-32 | Messages that fit are recovered from their octets, so those octets determine them |
| PgReaders.SessionIsRead | src/cppevent_postgres/pg_connection.cpp:22-32 | The octets of messages that fit are read by a server, written from the documentation alone, message by message |
| PgValues.ReadRow | src/cppevent_postgres/pg_connection.cpp:233-249 | The loop over a DataRow body computes the row |
| PgValues.ReadColumns | src/cppevent_postgres/pg_connection.cpp:211-231 | The loop over a RowDescription body computes the columns |
| PgValues.RowRoundTripIff | src/cppevent_postgres/pg_connection.cpp:233-249 | A printed row is read back whole exactly when its count fits into 16 bits; otherwise its first count-modulo-2^16 cells are |
| PgValues.LengthDecides | src/cppevent_postgres/pg_connection.cpp:239-246 | Any negative length is NULL, and one beyond the message leaves it |
| PgValues.ColumnsRoundTrip | src/cppevent_postgres/pg_connection.cpp:217-230 | Printed columns are read back with their names and format codes |
| PgValues.ColumnIsRead | src/cppevent_postgres/pg_connection.cpp:217-230 | Of the seven fields of a column, in the sizes of the documentation, name and format are kept |
| PgValues.ValueRoundTrip | src/cppevent_postgres/pg_conv.hpp:19-106 | An integer, string or bool printed by the serializer is parsed back at its own type |
| PgValues.PgParams.Store | src/cppevent_postgres/pg_params.hpp:25-42 | The buffer stays the 16-bit count and the stored values as length-prefixed cells, NULL as -1 |
| PgValues.GetRowRoundTrip | src/cppevent_postgres/pg_result.hpp:69-91 | `get_row` gives back the values of a row that was printed from them, NULLs into empty optionals |
| PgValues.ParamsRoundTrip | src/cppevent_postgres/pg_params.hpp:25-48 | Whatever was stored, up to 65535 values, is what the DataRow branch and `get_row` give back |
| PgResults.PgResult.GetRow | src/cppevent_postgres/pg_result.hpp:69-91 | Writes the values of the row into the arguments; on an exception exactly the arguments before the offending column have been written |
| PgProtocol.QueryDemultiplexes | src/cppevent_postgres/pg_connection.cpp:208-301 | What the loop of `query` makes of a stream whose data bodies are read whole (for when they are, see `QueryDelivers`): handled messages up to ReadyForQuery, notices anywhere, are consumed exactly, and give one result for each completion, holding exactly the rows and columns since the one before, in order |
| PgProtocol.DemuxIgnoresNotices | src/cppevent_postgres/pg_connection.cpp:74-80 | Removing the notices gives the same results; there are as many as completions |
| PgProtocol.ExecuteReadsWindows | src/cppevent_postgres/pg_connection.cpp:334-403 | What the loops of `execute` make of a stream whose data bodies are read whole (for when they are, see `WindowsDelivered`): whatever the split by PortalSuspended, successive calls read one window each, and the last ends exactly after ReadyForQuery |
| PgProtocol.WindowRowsJoin | src/cppevent_postgres/pg_connection.cpp:352-379 | Of windows whose data bodies are read whole: their rows together are the whole row sequence, and every result but the last is suspended |
| PgProtocol.SyncFrom | src/cppevent_postgres/pg_connection.cpp:386-403 | `close_sync` skips everything up to and with ReadyForQuery |
| PgProtocol.UnknownKindIsNotSkipped | src/cppevent_postgres/pg_connection.cpp:272-297 | A message of a kind that a loop does not know is not skipped: its body is read as messages |
| PgProtocol.DetachedDeliversIff | src/cppevent_postgres/pg_connection.cpp:283-286 | `populate_result` as it is called, without `co_await`: for every DataRow and RowDescription message it adds the row or the columns and leaves the stream at the next message exactly if the whole body is buffered |
| PgProtocol.LongRowIsLost | src/cppevent_postgres/pg_connection.cpp:283-286 | A row longer than the input buffer is lost under every segmentation |
| PgProtocol.SplitRowIsLost | src/cppevent_postgres/pg_connection.cpp:283-286 | A concrete row, cut after three octets of its body: it is lost, and its value is taken for a header |
| PgProtocol.WholeIffUndivided | src/cppevent_postgres/pg_connection.cpp:262-289 | Once a loop has seen all data messages ahead of it: each was whole in the buffer when its body was read, exactly if no receive ended just before or inside one of their bodies |
| PgProtocol.QueryBodiesAre | src/cppevent_postgres/pg_connection.cpp:272-301 | The bodies ahead of the loop of `query` are those of the data messages of the answer, where they lie on the wire |
| PgProtocol.PortalBodiesAre | src/cppevent_postgres/pg_connection.cpp:352-384 | The bodies ahead of repeated calls of `execute` are those of the data messages of all the windows |
| PgProtocol.AtOnceIsUndivided | src/cppevent_postgres/pg_connection.cpp:283-286 | Messages that arrive in one receive, which the buffer limits to 8192 octets, meet the condition |
| PgProtocol.LongMessageIsLost | src/cppevent_postgres/pg_connection.cpp:283-286 | An answer with a data message that the buffer cannot hold, read to its end, never met it |
| PgConnections.PgConnection.GetResponseInfo | src/cppevent_postgres/pg_connection.cpp:68-83 | Refines the header reader on the stream, past any notices, whatever the segmentation |
| PgConnections.PgConnection.PopulateResult | src/cppevent_postgres/pg_connection.cpp:208-251 | Run to its end it reads the body of a RowDescription or DataRow message whole and adds its columns or its row; with the body buffered it receives nothing |
| PgConnections.PgConnection.PopulateDetached | src/cppevent_postgres/pg_connection.cpp:283-286 | The call of both loops up to its first suspension, where its task is destroyed: what is added, and where the stream is left, for every amount of the body that is buffered |
| PgConnections.PgConnection.Query | src/cppevent_postgres/pg_connection.cpp:253-301 | Refused unless ready; otherwise exactly one Query message is sent before the first read.  The data messages seen are those ahead in the stream, one by one up to the first that is not whole; all are whole if no receive ends just before or inside a body, and then results, rest of the stream and error are those of the loop |
| PgConnections.PgConnection.PrepareQuery | src/cppevent_postgres/pg_connection.cpp:305-332 | Refused unless ready; otherwise exactly a Parse and a Bind message are written, which `Session` has a server read, and the connection is not ready |
| PgConnections.PgConnection.Execute | src/cppevent_postgres/pg_connection.cpp:334-384 | Sends Execute and Flush, and reads one window, that of the loop under the condition of `Query`; a suspended result leaves the readiness as it was, any other sends Close and Sync and makes the connection ready |
| PgConnections.PgConnection.CloseSync | src/cppevent_postgres/pg_connection.cpp:386-403 | Sends Close and Sync and reads up to ReadyForQuery |
| PgConnections.CloseSyncBytes | src/cppevent_postgres/pg_connection.cpp:387-391 | The twelve octets of the constant are the Close and Sync messages |
| PgConnections.Session | src/cppevent_postgres/pg_connection.cpp:253-403 | Frontend framing: whatever the calls of `query`, `prepare_query`, `execute` and `close_sync`, in whatever order, the output is their messages one after the other; from its octets a server reads, in order, for each call that is not refused: the text of the query, the unnamed statement and portal, the stored parameters, the row limit as signed 32 bits, the closing of the portal.  Exactly the queries and preparations that find the connection not ready are refused, as the readiness at the start and the calls before decide |
| PgConnections.ReadySince | src/cppevent_postgres/pg_connection.cpp:253-403 | After any calls the connection is ready exactly if the last call that completed was not a preparation: refused calls and suspended windows change nothing |
| PgConnections.FetchAll | src/cppevent_postgres/pg_connection.cpp:334-384 | Over repeated `execute` calls the connection is not ready before the last window, and ready after it; the windows are those of the stream, on a message boundary each time, under the condition of `Query` for the bodies of all windows |
| PgConnections.QueryDelivers | src/cppevent_postgres/pg_connection.cpp:253-301 | The code as written on a stream of handled messages: if no receive ends just before or inside the body of a data message, the results are one for each completion and exactly the answer is consumed.  So it is without data messages, and for an answer that arrives in one receive.  An answer read to its end had all its data messages whole exactly under that condition, and not with a body longer than 8192 octets |
| PgConnections.WindowsDelivered | src/cppevent_postgres/pg_connection.cpp:334-403 | The same for a result set in windows: their rows together are the whole row sequence; it is enough that each window arrives in one receive |
| PgStartup.Init | src/cppevent_postgres/pg_connection.cpp:159-206 | Sends the startup packet, answers the authentication requests with the messages that the stream determines, and ends ready just after ReadyForQuery |
| PgStartup.HandleAuth | src/cppevent_postgres/pg_connection.cpp:87-157 | Reads exactly the octets of its request, and sends at most one message |
| PgStartup.StartupPacketFramed | src/cppevent_postgres/pg_connection.cpp:172-178 | The length of the startup packet counts the packet exactly when it has 32 bits, and what follows it can be cut off |
| PgStartup.StartupIsRead | src/cppevent_postgres/pg_connection.cpp:159-178 | A server reads from the packet protocol 3.0, the user and, if there is one, the database, and what follows it |
| PgStartup.InitialResponseIsRead | src/cppevent_postgres/pg_connection.cpp:110-130 | A server reads the mechanism and the first message of the client |
| PgStartup.LoginSucceeds | src/cppevent_postgres/pg_connection.cpp:87-206 | The honest login over the wire, for any cryptography: two messages are sent, the server accepts the second, and the connection ends ready exactly after ReadyForQuery |
| PgStartup.ServerIsChecked | src/cppevent_postgres/pg_connection.cpp:146-153 | For a server that is honest up to an arbitrary final payload, the login succeeds exactly if the payload is its signature, with the salted password, of the messages exchanged; otherwise it throws |
| PgStartup.FinalMayBeLeftOut | src/cppevent_postgres/pg_connection.cpp:99-101 | A server that leaves that payload out and goes on with AuthenticationOk is believed |
| PgStartup.OtherLogins | src/cppevent_postgres/pg_connection.cpp:99-109 | A request for the password in clear is answered with it; AuthenticationOk alone with nothing |
| PgStartup.LoginRefused | src/cppevent_postgres/pg_connection.cpp:87-205 | Any other request, an offer without SCRAM-SHA-256, a challenge that is malformed or whose nonce does not extend that of the client, and any other message end the login with an error |
| PgStartup.ConnectAndCall | src/cppevent_postgres/pg_connection.cpp:159-403 | From its first octet on, a connection emits the startup packet and then messages only, which are recovered from the octets, and are read by a server as the answers to its authentication requests and then what the calls ask for; which calls are refused follows from the connection being ready after the login |
| Events.EventCallback.constructor | src/cppevent_base/event_callback.cpp:7-9 | A callback registers itself under the next id, and stores nothing |
| Events.EventCallback.SetHandle | src/cppevent_base/event_callback.cpp:19-24 | At most one coroutine is stored; a second one is refused |
| Events.EventCallback.Notify | src/cppevent_base/event_callback.cpp:26-29 | The status is stored and the handle taken out, to be resumed once |
| Events.EventBus.RegisterEventCallback | src/cppevent_base/event_bus.cpp:7-11 | The 64-bit counter is incremented, and the id is the new counter |
| Events.EventBus.Notify | src/cppevent_base/event_bus.cpp:17-22 | Only the callback under the id is notified; without one the event is dropped |
| Events.StatusAwaiter.AwaitResume | src/cppevent_base/status_awaiter.cpp:38-46 | The status is taken once: callback and awaiter are reset |
| EventLoops.EventLoop.GetEventCallback | src/cppevent_base/event_loop.cpp:17-19 | Refines the registration step of the runs |
| EventLoops.EventLoop.AddEvent | src/cppevent_base/event_loop.cpp:21-23 | Refines the posting step, for any id whether or not it is registered |
| EventLoops.EventLoop.AwaitStatus | src/cppevent_base/status_awaiter.cpp:27-46 | Refines the awaiting step: a stored status is received, otherwise the coroutine waits, and a second one is refused and resets the callback |
| EventLoops.EventLoop.DestroyCallback | src/cppevent_base/event_callback.cpp:11-13 | Refines the destruction step |
| EventLoops.EventLoop.RunTurn | src/cppevent_base/event_loop.cpp:25-35 | One turn refines the dispatch step, handing the status to whoever waits, or fetches an event |
| EventLoops.EventLoop.Run | src/cppevent_base/event_loop.cpp:25-35 | The loop, observed for any number of turns, with any sequence of operations by each resumed coroutine, is a run of the system from the state it begins in; it ends exactly when it has been stopped |
| EventLoops.EventLoop.Stop | src/cppevent_base/event_loop.cpp:37-39 | Stops the loop and changes nothing else |
| EventLoops.DispatchIsFifo | src/cppevent_base/event_loop.cpp:21-35 | In every run the events are dispatched in the order they were added, each at most once |
| EventLoops.NeverBoth | src/cppevent_base/event_callback.cpp:19-42 | In every run, between steps no callback holds both a status and a handle |
| EventLoops.IdsDistinctIff | src/cppevent_base/event_bus.cpp:7-11 | Ids are never reused exactly as long as at most 2^64 callbacks are registered |
| EventLoops.EventLoop.AbandonStatus | src/cppevent_base/status_awaiter.cpp:10-14 | Refines the step in which a waiting awaiter is destroyed: its callback forgets it |
| EventLoops.DispatchReaches | src/cppevent_base/event_bus.cpp:17-22 | An event reaches the callback whose id it was made with while that one lives, and otherwise is dropped and changes no callback |
| EventLoops.DeliveriesExactIff | src/cppevent_base/event_bus.cpp:7-22 | All runs with at most a given number of registrations deliver to the right callback exactly if that number is at most 2^64 |
| EventLoops.WrappedIdMisdelivers | src/cppevent_base/event_bus.cpp:7-11 | A run with 2^64 + 1 registrations in which an event reaches the wrong callback |
| EventLoops.StillWaitsIff | src/cppevent_base/event_callback.cpp:19-42 | From any reachable state on, a waiting coroutine waits throughout a run exactly if no step of it is its own event, or awaits, abandons or destroys its callback |
| EventLoops.SecondAwaiterForgetsFirst | src/cppevent_base/status_awaiter.cpp:10-14 | A run in which a second awaiter is refused, the first is forgotten, and the event resumes nobody |
| AsyncQueues.AsyncQueue.Push | src/cppevent_base/async_queue.hpp:37-43 | Refines the push step: the first item posts a wakeup |
| AsyncQueues.AsyncQueue.AwaitItems | src/cppevent_base/async_queue.hpp:22-27 | The loop gives the number of items, never zero, or leaves the coroutine suspended with no stale status |
| AsyncQueues.AsyncQueue.RunTurn | src/cppevent_base/async_queue.hpp:22-27 | A turn of the loop that wakes the consumer carries on in `await_items`, as the steps say; the number of items is handed over exactly if the consumer was suspended and no longer is |
| AsyncQueues.NoWakeupIsLost | src/cppevent_base/async_queue.hpp:22-43 | In every run with one consumer: while it is suspended and there are items, an event with the id of the queue is pending |
| AsyncQueues.WakeupComes | src/cppevent_base/async_queue.hpp:22-43 | Dispatching wakes the suspended consumer at the first pending event of the queue, and not before |
| AsyncQueues.ItemsAreConserved | src/cppevent_base/async_queue.hpp:29-43 | Items leave in the order in which they came, each once |
| PgDatabases.PgDatabase.GetConnection | src/cppevent_postgres/pg_database.cpp:20-30 | Up to its first suspension: opens, waits or takes, as the state decides; keeps every invariant |
| PgDatabases.PgDatabase.OnConnected | src/cppevent_postgres/pg_connection.cpp:43-47 | The constructor of the connection counts it |
| PgDatabases.PgDatabase.DestroyConnection | src/cppevent_postgres/pg_connection.cpp:49-53 | The destructor uncounts a connection that still has its socket |
| PgDatabases.PgDatabase.OverwriteConnection | src/cppevent_postgres/pg_connection.cpp:61-66 | Move assignment over a lent connection closes it and leaves it counted |
| PgDatabases.PgDatabase.OnWoken | src/cppevent_postgres/pg_database.cpp:32-34 | A woken waiter takes the front idle connection, or finds none |
| PgDatabases.PgDatabase.Release | src/cppevent_postgres/pg_database.cpp:37-44 | The connection becomes idle and the first waiter is woken |
| PgDatabases.PoolKeepsAccounts | src/cppevent_postgres/pg_database.cpp:20-44 | In every interleaving: the count is idle + lent + initialising + leaked connections, none of which is held twice; waiters are woken in order; while anyone is queued, idle connections number at most the pending wakeups |
| PgDatabases.CountExactIff | src/cppevent_postgres/pg_connection.cpp:61-66 | The count is idle + lent + initialising exactly in the runs in which no connection is moved over a lent one |
| PgDatabases.OverwritingLeaks | src/cppevent_postgres/pg_connection.cpp:61-66 | A run in which one connection is left and two are counted |
| PgDatabases.BoundedIffCareful | src/cppevent_postgres/pg_database.cpp:21-22 | Existing and connecting connections stay within the maximum throughout a run exactly if every call that connects finds count + connecting below it |
| PgDatabases.NoOverlapIsCareful | src/cppevent_postgres/pg_database.cpp:21-23 | That is so when no two calls overlap during connect |
| PgDatabases.OverlapExceedsLimit | src/cppevent_postgres/pg_database.cpp:21-22 | Two overlapping calls open two connections where one is allowed |
| PgDatabases.PromisedIffNoBarging | src/cppevent_postgres/pg_database.cpp:27-33 | Throughout a run every woken waiter has an idle connection exactly if no fresh caller takes one while idle <= pending wakeups |
| PgDatabases.WakingFailsIff | src/cppevent_postgres/pg_database.cpp:32-33 | Dispatching the pending wakeups reaches an empty queue exactly if they outnumber the idle connections |
| PgDatabases.BargingStrandsWaiter | src/cppevent_postgres/pg_database.cpp:27-33 | A run in which a fresh caller takes the connection that woke a waiter, and the waiter finds none |
| PgDatabases.StrandedIff | src/cppevent_postgres/pg_database.cpp:27-44 | The first of the queue can be woken by some continuation without a new caller exactly if a connection is idle, lent, initialising or being opened |
| PgDatabases.NeverStrandedIff | src/cppevent_postgres/pg_database.cpp:27-44 | Throughout a run no waiter is stranded exactly if the last connection is never lost while somebody is queued, and nobody queues when there is none |
| PgDatabases.NoLossStrandsNobody | src/cppevent_postgres/pg_database.cpp:20-44 | With a positive maximum nobody is stranded throughout any run in which every connection that is opened is initialised and released |
| PgDatabases.ReuseIsFifo | src/cppevent_postgres/pg_database.cpp:27-38 | In every run the connections are handed out, to fresh and to woken callers, in the order of their release; those not yet handed out are idle |
| PgDatabases.DiscardStrandsWaiter | src/cppevent_postgres/pg_connection.cpp:49-53 | A run in which the only connection is destroyed instead of released, and its waiter is stranded |

## Left out

- io_uring, listeners, timers, address lookup, file descriptors, `shutdown`: replaced by the adversarial kernel.
- A receive that is left in flight by an incomplete `populate_result` writes into the buffer beside the next one: what is read from then on is any octets, no more than the stream had (`Sockets.Socket.StrayReceive`), and no result is promised.
- OpenSSL: hash, keyed hash and key derivation are arbitrary functions, the random nonce is a parameter, and one login draws it once even if the server asks twice.
- Coroutine frames and their ownership (`task.hpp`): `co_await` is a call in the stream models and a step boundary in the event models; a coroutine is not destroyed while it waits for a pooled connection.
- Lifetimes of `string_view`s: router keys, result columns and request fields are values.
- Floating-point parameters and columns: integers, strings and bools only.
- Status reason phrases: the text after the status code is a parameter of the response.
- HEAD and OPTIONS: they parse, and the router refuses them, but no framing theorem is about them.
- Chunk trailers, and requests with both Content-Length and Transfer-Encoding: excluded from the well-formed requests of the framing theorem (`HttpServers.Frames`).
- An endpoint that calls `end()` itself: the endpoints of `HttpServers.Serve` make every other call, any number of times.
- Kinds of backend messages that no loop handles: modelled as the code treats them, but excluded from the demultiplexing and windowing theorems.
- PgConnections.PgConnection.PrepareQuery: takes the parameters as the octets of their buffer, because only those are read.
- EventLoops.EventLoop.Run: is observed for a finite number of turns, as a loop that is never stopped does not end; awaited, abandoned and destroyed by resumed coroutines are callbacks that the bus knows.
- PgDatabases.PgDatabase.OnWoken: takes the pending wakeups as a queue of its own; that the loop dispatches them in order and to the right waiter is `EventLoops.DispatchIsFifo` and `EventLoops.DispatchReaches`.
- `async_signal`: the same callback protocol as `async_queue`, without items.
- Getters, examples and build files.
