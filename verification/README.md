# Hive SDK: verified models of its hard parts

A Dafny 4.11 project that models two components of the Hive native SDK and four smaller ones beside them, and proves what
they are for. `dafny verify dfyconfig.toml` checks everything.

* **The embedded HTTP/1.1 server** (`src/sandbird/sandbird.c`): the doubling byte buffer (`Buffer`), the header, query and
  multipart parsers (`Headers`, `Query`, `Multipart`), the response writers and what their calls mean (`Response`), the
  incremental request framer (`Framing`), a connection with its receive and partial-send loops (`Stream`), what it makes of
  the bytes a client prints (`Requests`), and the server with its linked list of connections, the `**st_next` sweep, accepting
  and closing (`Server`).
* **The key/value log in OneDrive** (`src/vendors/onedrive/onedrive.c`, `src/hive_key.c`): the record format and the in-place
  reader (`Records`), what the operations meet and what that comes to (`Remote`), the operations on one remote file per key
  under an OAuth token (`OneDrive`), listing (`Listing`), and runs of all of these (`Session`).
* **Smaller cores**: OAuth tokens and the file they are kept in (`Token`), the growing body of an HTTP response
  (`ResponseBody`), IPFS node selection and the reply buffer (`Ipfs`), error numbers as C sees them (`HiveError`, `Http`).

## How the model is built

Objects the C code updates in place are classes with the same fields; buffers are arrays that are reallocated, shifted and
rewritten; the list of connections is linked by `next` fields. Loops of the C code are loops. Each method is proved against
a specification function or relation, and what the code is for is proved about that.

What the code cannot control is an input, so that contracts say exactly what an operation does with it: when it succeeds, what
it changes, when it is misled. Inputs are the clock, the sockets and the event handler of a poll (`Stream.Input`) and what
`accept` yields in it (`Server.Newcomer`); the clock, the token endpoint, the memory and the service behind each key operation
(`Remote.World`); the nodes that answer, the code of curl, the status and the memory of an IPFS request (`Ipfs.Asking`); the
memory for a token or for a chunk of a body. Only the buffers of a connection differ: they may run out of memory at any
reallocation unless they are `ample`. The remote store is honest about the files it has,
stores an upload completely or not at all, and has one writer; a request may go unanswered, carried out or not, be refused,
or be answered.

Bytes are characters with their code, so that literals stay readable; `Records` uses octets. Sizes are unbounded except
where C's arithmetic shows: `size_t` wrap-around in `ResponseBody` and `Multipart`, `%u` and 32-bit lengths in `Framing` and
`Response`, and the conversions between `unsigned`, `int` and `ssize_t` on LP64 in `HiveError`, `OneDrive` and `Ipfs`.
`hide` statements keep definitions that a proof does not need out of it.

## What the proofs showed about the code

Where the code does not do what its callers expect, the model follows the code, and a lemma or contract says exactly when.

* `find_header_value` loops for ever exactly when a CR without LF comes before the line that ends its search
  (`Headers.TerminatesExactly`); `Headers.NeverEnds` has such a text. `sb_stream_recv` and `sb_get_multipart` inherit this; they
  are modelled on input on which the search ends.
* `url_decode` reports `SB_ETRUNCATED` for a value that fits exactly (`Query.UrlDecode`).
* The search macro of `sb_get_multipart` tests `p == end - len` only, so that it leaves the buffer exactly when it is started
  behind that point (`Multipart.OverrunExactly`). A body cut off one byte behind its first boundary does it, with any boundary
  (`Multipart.CutShort`, `Multipart.ShortRequestLeavesBuffer`). A request with an announced boundary whose body ends in the
  closing boundary line never does, whatever stands in between (`Multipart.ClosedStaysInside`). That this test of the last bytes
  cannot be made exact shows `Multipart.TailDoesNotDecide`: two requests that differ in one byte of the header, with different
  outcomes. Without an announced boundary the condition is exact (`Multipart.NoBoundaryInside`). The length of the data is
  computed modulo 2^64 and right exactly when the next boundary comes four bytes or more behind the blank line
  (`Multipart.DataInside`).
* `sb_send_file` announces the file size modulo 2^32: the right number exactly below 4 GiB (`Response.FileAnnounced`), and 0 for
  a file of 4 GiB (`Response.FourGiBAnnouncedAsNone`).
* `select`'s bound is compared with `>`, so a descriptor equal to `FD_SETSIZE` is accepted (`Server.Server.Accept`).
* A token refresh that is answered with status 404 makes `oauth_token_check_expire` return the very number that stands for a
  missing file (`Token.Misleads`: the clock is past the expiry time, and the refresh is answered so). The key/value operations
  then take a stored key for an absent one: `put_value` replaces the log by its one record, `get_values` succeeds without a
  value, `delete_key` succeeds and deletes nothing. A successful put appends, a get delivers and a delete deletes if and only if
  the token has not expired at the call, or its refresh is not answered with 404, or there is nothing to lose
  (`Session.PutAppendsExactly`, `Session.GetDeliversExactly`, `Session.DeleteDeletesExactly`); `Session.StoredListLost` is an
  input on which a stored list is lost.
* `HIVE_GENERAL_ERROR` returned from a function of type `ssize_t` is positive. `put_value` survives this; when memory for a
  client runs out twice but suffices for two gigabytes, `get_values` reads a block of zeros and delivers empty values
  (`Remote.Fooled`, `OneDrive.FooledReader`). With a buffer under 2 GiB a caller of the IPFS `get_file_to_buffer` can still tell
  success from the result alone (`Ipfs.GetFileToBuffer`).
* A key whose file has grown to 2^31 bytes can still be read, but unless it is misled a put fails and changes nothing
  (`OneDrive.OneDrive.PutValue`); without a fault a put fails exactly then (`Remote.FaultlessGoes`).
* `http_client_move_response_body` needs a place for the length when the body is empty; most callers pass none, so that an
  empty body with status 200 is fatal to them. The model treats it as an error.

## Model

| member | source | states |
|---|---|---|
| Prelude.MemEqual | src/sandbird/sandbird.c:185-192 | compares exactly, and does not read past the NUL of the text even when the pattern is longer than what is left |
| Buffer.Buffer.Reserve | src/sandbird/sandbird.c:269-277 | contents kept; fails only for want of memory, changing nothing |
| Buffer.Buffer.PushChar | src/sandbird/sandbird.c:280-287 | appends one byte, keeps the capacity 0 or a power of two, and counts exactly what a reallocation copies |
| Buffer.RunOps | src/sandbird/sandbird.c:263-287 | over any run of pushes and shifts on a new buffer the contents are what was pushed and not dropped; a push fails only for want of memory, at a length that is 0 or a power of two; all reallocations together copy less than twice the largest length reached |
| Buffer.Buffer.PushStr | src/sandbird/sandbird.c:290-302 | appends the whole string, or on failure restores the contents exactly |
| Buffer.Buffer.Shift | src/sandbird/sandbird.c:263-266 | drops exactly the first bytes, in place |
| Buffer.Buffer.NullTerminate | src/sandbird/sandbird.c:368-373 | a NUL behind contents that stay the same |
| Buffer.Buffer.Writef | src/sandbird/sandbird.c:305-365 | appends the complete expansion of the format or nothing |
| Buffer.ExpandText | src/sandbird/sandbird.c:305-355 | text without `%` expands to itself in front of any format |
| Headers.FindHeaderValue | src/sandbird/sandbird.c:205-216 | terminates inside the text whenever no bare CR comes before the end of the search, and computes the lookup function |
| Headers.MemCaseEqual | src/sandbird/sandbird.c:195-202 | case-insensitive comparison, never past the NUL |
| Headers.LookupFindsFirst | src/sandbird/sandbird.c:205-216 | the lookup yields the whitespace-skipped value of the first line before the blank line with that name, and nothing exactly when there is none |
| Headers.ToLowerSame | src/sandbird/sandbird.c:195-202 | two bytes are equal for the comparison if and only if they are the same byte, or one letter from A to Z in its two cases |
| Headers.HeaderAtMeans | src/sandbird/sandbird.c:205-216 | a line names a header if and only if it begins with that name, in whatever case, and a colon |
| Headers.LookupIgnoresCase | src/sandbird/sandbird.c:195-216 | the result of a lookup is the same for a name and a text spelled in other cases, header names in the text included |
| Headers.TerminatesExactly | src/sandbird/sandbird.c:205-216 | the loop ends if and only if no bare CR comes before the line that ends the search |
| Headers.NeverEnds | src/sandbird/sandbird.c:205-216 | on a text with a bare CR in its first line the loop never ends, whatever header is looked for |
| Query.UrlDecode | src/sandbird/sandbird.c:162-182 | writes the first `len - 1` decoded bytes and a NUL, nothing beyond, and succeeds exactly when the value is shorter than that |
| Query.DeliveredMeans | src/sandbird/sandbird.c:167-182 | success exactly when the value leaves room to spare; a value that just fits is there and called truncated; nothing is touched behind the buffer |
| Query.SpellingDecodes | src/sandbird/sandbird.c:162-182 | however each byte of a value is spelled, as itself, as `+` or as `%` and two hexadecimal digits in either case, decoding gives the value and stops at the delimiter |
| Query.EscapedMeans | src/sandbird/sandbird.c:162-182 | what a printer writes for any value, `% + ? &`, white space and NUL escaped, can be read and decodes to that value |
| Query.UnitsOfText | src/sandbird/sandbird.c:167-182 | decoding undoes every percent-encoding of a value, hex digits in either case, `+` or `%20` for a space |
| Query.FindVarValue | src/sandbird/sandbird.c:219-230 | the scan terminates inside the text and computes the lookup function |
| Query.VarValueInvertsForm | src/sandbird/sandbird.c:219-230 | on a printed form the scan finds the value of the first pair of that name, nothing when no pair has it |
| Query.FormReads | src/sandbird/sandbird.c:219-230 | the same with the delimiters of names, pairs and forms written out |
| Query.LocateInvertsRequest | src/sandbird/sandbird.c:677-694 | the variable found is the first of that name in the query string, else the first in the body |
| Query.GetVar | src/sandbird/sandbird.c:677-694 | delivers the located value as decoded, or not-found with an empty string; the rest of the buffer is untouched |
| Multipart.After | src/sandbird/sandbird.c:734-743 | the search macro: behind the first match, a miss only at `end - len`, an overrun when started behind that |
| Multipart.OverrunExactly | src/sandbird/sandbird.c:734-743 | the search leaves the buffer if and only if it is started fewer bytes before the end than it looks for |
| Multipart.SearchFinds | src/sandbird/sandbird.c:734-743 | a pattern that ends before the end is found at its first occurrence |
| Multipart.FindInHeader | src/sandbird/sandbird.c:751-752 | a parameter in the value of a header found by name |
| Multipart.FindNextName | src/sandbird/sandbird.c:757-762 | from any point behind the next boundary to the quoted name in its header lines |
| Multipart.TakeData | src/sandbird/sandbird.c:767-773 | the data behind the blank line and its length up to the next boundary, as a `size_t` |
| Multipart.FindPart | src/sandbird/sandbird.c:757-777 | the loop over the parts terminates and computes its specification |
| Multipart.GetMultipart | src/sandbird/sandbird.c:745-784 | computes the lookup, leaving the buffer only where `Multipart.PartOf` is `OutOfBounds` |
| Multipart.NoBoundaryInside | src/sandbird/sandbird.c:751-755 | without an announced boundary the buffer is left if and only if the Content-Type value, or the boundary parameter, starts too close to the end |
| Multipart.CutShort | src/sandbird/sandbird.c:757-759 | a body that ends one byte behind its first boundary makes the code leave the buffer |
| Multipart.ShortRequestLeavesBuffer | src/sandbird/sandbird.c:745-759 | such a request for every boundary |
| Multipart.ClosedStaysInside | src/sandbird/sandbird.c:745-784 | on any request with an announced boundary whose body ends in the closing boundary line the buffer is never left |
| Multipart.TailDoesNotDecide | src/sandbird/sandbird.c:745-784 | no test of the length and the last bytes alone is exact |
| Multipart.DataInside | src/sandbird/sandbird.c:767-773 | the data found lies in the buffer if and only if the next boundary comes at least four bytes behind its start, and then ends there |
| Multipart.LookupInHeader | src/sandbird/sandbird.c:751-762 | header lines that begin with a given opening have their value where the opening has it |
| Multipart.StandardOpening | src/sandbird/sandbird.c:759-762 | the `: form-data; name="` header that browsers print is such an opening |
| Multipart.LaidIsSeen | src/sandbird/sandbird.c:757-777 | the scan goes through the parts of a laid-out body in order, knowing the name and the data of each |
| Multipart.RunFindsFirst | src/sandbird/sandbird.c:757-784 | such a scan ends with the data of the first part of the wanted name, and with not-found when no part has it |
| Multipart.PartOfInvertsPrinter | src/sandbird/sandbird.c:745-784 | on any printed form with the boundary announced and first occurring at its own places, the result is exactly the data of the first part of that name, and not-found when no part has it |
| Multipart.PrintedFormReads | src/sandbird/sandbird.c:745-784 | the same from the header lines a client prints: any lines whose Content-Type names the boundary, anything before the first boundary, any parts |
| Multipart.SmallFormReads | src/sandbird/sandbird.c:745-784 | such a form with one field: found with its data, another name reported not found |
| Multipart.SmallFormText | src/sandbird/sandbird.c:745-784 | the bytes of that form |
| Response.EffectContinues | src/sandbird/sandbird.c:554-634 | no call, failing or not, takes back a byte already produced or a state already left |
| Response.RunContinues | src/sandbird/sandbird.c:554-634 | over any run of handler calls the state never decreases and the bytes only grow |
| Response.OneStatusLine | src/sandbird/sandbird.c:567-576 | after any successful call every further status line is refused without effect |
| Response.RefusedExactly | src/sandbird/sandbird.c:554-634 | in which states each call is refused, without effect |
| Response.RunReads | src/sandbird/sandbird.c:554-634 | a handler that sends a status line or none, headers and writes succeeds with every call unless memory runs out, and a client reads exactly that: its status or 200 OK, its headers, its bytes |
| Response.WriteAloneSends | src/sandbird/sandbird.c:554-634 | the bytes on the wire of a handler that only writes |
| Response.HeaderAloneReads | src/sandbird/sandbird.c:579-591 | a handler that only sends a header: 200 OK with that header |
| Response.FileReads | src/sandbird/sandbird.c:594-624 | a sent file is the whole body, behind what was sent before and a header with its length |
| Response.DecimalReads | src/sandbird/sandbird.c:305-355 | the decimal text of a number reads back as that number |
| Response.ParseInvertsRender | src/sandbird/sandbird.c:554-634 | a client reading the bytes line by line gets exactly the status, the headers in order and the body that were sent (section 3 of RFC 7230) |
| Response.FileAnnounced | src/sandbird/sandbird.c:594-624 | the Content-Length of a sent file is the number of its bytes if and only if that is below 2^32 |
| Response.FourGiBAnnouncedAsNone | src/sandbird/sandbird.c:594-624 | a file of 4 GiB is announced as empty |
| Framing.StrToUintReads | src/sandbird/sandbird.c:155-159 | the number read behind white space and a sign is that of the digits, cut to 32 bits, and 2^32 - 1 from 2^64 on |
| Framing.FeedConcat | src/sandbird/sandbird.c:431-510 | framing two pieces in turn is framing their concatenation |
| Framing.FeedStops | src/sandbird/sandbird.c:477-505 | nothing is taken behind a complete request |
| Framing.FeedKeeps | src/sandbird/sandbird.c:451-453 | until then every byte is kept |
| Framing.ChunksDoNotMatter | src/sandbird/sandbird.c:431-510 | the way the bytes are cut into `recv` results makes no difference |
| Framing.RequestEndUnique | src/sandbird/sandbird.c:455-480 | a text has at most one request end |
| Framing.FramesExactly | src/sandbird/sandbird.c:431-510 | the request is complete exactly at the shortest prefix ending in a blank line plus as many bytes as its Content-Length says, for every way of cutting the input (section 3.3.3 of RFC 7230) |
| Framing.RequestEndWithin | src/sandbird/sandbird.c:455-480 | where a request ends in a text does not depend on what follows it |
| Stream.ReadContentLength | src/sandbird/sandbird.c:470-475 | the method that looks the number up agrees with the function the framer is specified by |
| Stream.DecodePath | src/sandbird/sandbird.c:498 | the path of the event is the decoded target, cut to 511 bytes, as a C string |
| Stream.ArrivalsMean | src/sandbird/sandbird.c:436-448 | what arrives are the chunks `recv` returns up to the first result that is none, in order, and that result says whether the peer is gone |
| Stream.HandlerDecides | src/sandbird/sandbird.c:401-414 | a negative result of the handler is passed on, 0 goes on, 1 closes the stream, anything else is an error |
| Stream.Stream.constructor | src/sandbird/sandbird.c:380-393 | a connection starts with nothing received, sent or asked for, and its times set to now |
| Stream.Stream.SendStatus | src/sandbird/sandbird.c:567-576 | queues the status line and advances, is refused in any other state, or runs out of memory without effect |
| Stream.Stream.SendHeader | src/sandbird/sandbird.c:579-591 | queues one header line, behind a default status line when there is none; refused once the header is finished |
| Stream.Stream.FinalizeHeader | src/sandbird/sandbird.c:554-564 | ends the header with one blank line |
| Stream.Stream.Write | src/sandbird/sandbird.c:627-634 | body bytes behind a finished header; refused behind a file |
| Stream.Stream.SendFile | src/sandbird/sandbird.c:594-624 | a length header, the end of the header and the whole file as body, or an intermediate stage on failure |
| Stream.Stream.Send | src/sandbird/sandbird.c:513-551 | exactly what the socket takes goes out, from the front, behind a file read if need be; sent, pending and unread bytes stay the response in order; the stream is closed exactly when everything has been sent or the peer is gone |
| Stream.Stream.SendPending | src/sandbird/sandbird.c:518-532 | the bytes the socket takes leave the buffer from the front and go on the wire, nothing else does |
| Stream.Stream.ReadFile | src/sandbird/sandbird.c:535-544 | the next piece of the file moves into the empty buffer; at its end everything has been sent |
| Stream.Stream.OnTheWire | src/sandbird/sandbird.c:513-634 | what a client has read is a prefix of the response, and when complete parses back to it |
| Stream.Stream.RunCalls | src/sandbird/sandbird.c:401-407 | a handler's calls form a run in the sense of `Response`, from any state |
| Stream.Stream.Emit | src/sandbird/sandbird.c:401-414 | one event is emitted and the handler makes its calls with their effect; its result decides between error, closing and success |
| Stream.Stream.HeaderReceived | src/sandbird/sandbird.c:460-475 | a complete header sets the expected length and the offset of the body, or is a complete request |
| Stream.Stream.TakeByte | src/sandbird/sandbird.c:451-487 | one received byte is one step of the framer |
| Stream.Stream.TakeAll | src/sandbird/sandbird.c:431-487 | the receive loop leaves the framer where the bytes that arrived put it, and knows whether the connection ended |
| Stream.Stream.HandleRequest | src/sandbird/sandbird.c:485-505 | exactly the request event that the request line stands for, answered by the handler, or closing without one |
| Stream.Stream.Recv | src/sandbird/sandbird.c:431-510 | one receive step is a step of the framer in state, buffer, expected length and body offset, for the bytes that arrive; it emits a request event only in completing the request, and lets the handler answer it; running out of memory stops it behind a byte or in the middle of one; nothing goes back |
| Stream.Stream.ReceiveRequest | src/sandbird/sandbird.c:431-510 | over any row of polls and any cutting of the input: when a request ends in what they bring before one hangs up, then, unless memory runs out, exactly that request is in the buffer and has been handed to the handler; a connection that is still receiving has heard everything, keeps it and has emitted nothing |
| Requests.RequestLineReads | src/sandbird/sandbird.c:490-501 | the round trip of a request line: method and path, decoded and without its query, come out as they were printed, and only if the version begins with HTTP |
| Requests.PrintedHeaderFound | src/sandbird/sandbird.c:205-216 | in a printed header the search finds the value of the first line of that name in any case, and nothing exactly when there is none |
| Requests.PrintedRequestReads | src/sandbird/sandbird.c:431-510 | the round trip of a request with headers, body and anything behind it: its end is found exactly, every search in it ends, and the event is its method and path (section 3 of RFC 7230) |
| Requests.PrintedRequestHandled | src/sandbird/sandbird.c:485-505 | a stream that has handled such a request has emitted just this event, or is closing without one |
| Requests.PrintedVariablesRead | src/sandbird/sandbird.c:677-694 | a variable of a printed request is the first of that name in its query, else in its body, and none exactly when neither has it |
| Server.StaysOpened | src/sandbird/sandbird.c:431-551 | receive and send steps keep an event history that is CONNECT and at most one REQUEST |
| Server.Server.Visit | src/sandbird/sandbird.c:905-926 | one stream of a poll: exactly the receive or send step its socket allows, then closed if overdue and else as the step left it |
| Server.Server.CloseIfOverdue | src/sandbird/sandbird.c:918-926 | closes exactly when idle, too old or too large |
| Server.Server.VisitInList | src/sandbird/sandbird.c:902-926 | one stream of the list takes that step, every other stays as it is, and the list stays sound |
| Server.Server.Unlink | src/sandbird/sandbird.c:930 | the assignment through `st_next` takes exactly one stream out of the linked list |
| Server.Server.TakeOut | src/sandbird/sandbird.c:928-932 | the list stays acyclic, unshared and sound without the stream |
| Server.Server.Destroy | src/sandbird/sandbird.c:417-428 | emits CLOSE as the last event, and the socket is accounted for as closed with just these events |
| Server.Server.Remove | src/sandbird/sandbird.c:928-933 | a closing stream leaves the list, emits CLOSE and closes its socket; every other stream stays as it is |
| Server.Server.Sweep | src/sandbird/sandbird.c:901-937 | visits the streams from the head, each once as it was before, leaves the list without those found closing in the same order, each with its CLOSE in the history of ends, and stops at an error with the rest untouched |
| Server.Server.Accept | src/sandbird/sandbird.c:944-972 | a connection is refused and closed at once exactly when its descriptor is too large or memory is lacking, and otherwise put in front of the list, blank, with CONNECT as its only event and the calls of its handler made |
| Server.Server.AcceptAll | src/sandbird/sandbird.c:944-974 | all sockets that `accept` yields are taken in order up to the first that is refused or whose handler fails, which decides the result |
| Server.NewcomerMeans | src/sandbird/sandbird.c:946-972 | a connection is let in exactly with a descriptor of at most 1024 and memory; that is a success exactly when the handler returns 0 or 1 |
| Server.Server.Poll | src/sandbird/sandbird.c:867-977 | each old stream in order has taken the step of its input from where it was, on success all of them, and then the new sockets are accepted; the list is the new connections, latest first, and the old ones without those found closing; exactly these have ended, in order, and at most one refused socket; what stays continues its state, log, response and bytes sent, and is neither closing nor overdue |
| Server.VisitMeans | src/sandbird/sandbird.c:901-926 | what a poll does at a stream, from what the world offers it: nothing, a receive step while the request is incomplete, or a send step; then it is closed exactly if it has been idle or alive for more milliseconds, or holds more bytes, than allowed |
| Server.PollLeaves | src/sandbird/sandbird.c:928-937 | a poll leaves every stream in the list, as it was or as its visit left it, but those a successful visit left closing, which have ended with CLOSE behind their events |
| Server.EndedNotListed | src/sandbird/sandbird.c:928-933 | what has ended is in the list no more |
| Server.Server.CloseServer | src/sandbird/sandbird.c:851-864 | every stream of the list emits CLOSE and ends, in list order, behind the history so far; then every accepted socket has been closed exactly once and every history is CONNECT, at most one REQUEST, CLOSE |
| Server.Server.DestroyHead | src/sandbird/sandbird.c:853-857 | the first stream of the list emits CLOSE and ends, every other stays as it is |
| Server.Server.CallOn | src/sandbird/sandbird.c:554-634 | a response call between polls has its effect on its stream, touching nothing else of it, and none on the others |
| Server.CallReaches | src/sandbird/sandbird.c:554-634 | a call between polls has its effect on the stream at its place; its events and what it has sent and received, and all other streams, stay as they are |
| Server.Server.Act | src/sandbird/sandbird.c:554-977 | every poll or call takes the server from what it was to exactly what its input makes of it; the history only grows, what stays in the list continues, what leaves it has ended behind what it was |
| Server.Server.ValidProper | src/sandbird/sandbird.c:851-977 | in every reachable state each accepted socket is in the list or has been closed, once, what was served has a complete history, and what each stream has sent and has yet to send is its response |
| Server.DidGrows | src/sandbird/sandbird.c:902-926 | no visit takes back a state, an event, a byte of the response or a byte sent |
| Server.ActGoesOn | src/sandbird/sandbird.c:554-977 | no poll and no call takes anything back: every stream goes on where it was, or has ended with more events than it had |
| Server.RunGoesOn | src/sandbird/sandbird.c:554-977 | nor does any part of a run |
| Server.EveryStreamEnds | src/sandbird/sandbird.c:851-977 | when the server is closed at the end of a run, every stream that was in its list at any moment has ended, behind what it was at that moment |
| Server.StaysInTime | src/sandbird/sandbird.c:918-932 | a stream that a successful visit leaves in the list is neither closing nor overdue |
| Server.Server.EveryStream | src/sandbird/sandbird.c:867-977 | in every reachable state a client has received a prefix of the response of its stream, which reads back as it was built |
| Server.Run | src/sandbird/sandbird.c:851-977 | in every run of polls and calls that ends in closing the server each action takes the step its input determines, in a trace of sound states from the empty server on; closing ends exactly the streams still listed; then each accepted socket has been closed once, with a complete history each |
| HiveError.AsInt | src/ela_hive.h:936-937 | what an `int` makes of a wider value: itself in range, an error number when it was an unsigned error |
| HiveError.ErrorsDiffer | src/ela_hive.h:936-943 | different facilities or codes make different error numbers |
| Http.ReplyError | src/vendors/onedrive/onedrive.c:434-440 | TRY_AGAIN exactly for a 401, not-found exactly for a 404 |
| Records.HtonlUnique | src/vendors/onedrive/onedrive.c:894-895 | four bytes are the big-endian form of exactly one length |
| Records.HtonlBytes | src/vendors/onedrive/onedrive.c:894-895 | the four bytes of a length are its quotients by 2^24, 2^16, 2^8 and 1, in this order |
| Records.RecordBytes | src/vendors/onedrive/onedrive.c:877-896 | a record is stored as its length in four bytes, most significant first, and the value |
| Records.NtohlAt | src/vendors/onedrive/onedrive.c:972 | the length is rewritten in place and read back; nothing behind it changes |
| Records.WalkEntries | src/vendors/onedrive/onedrive.c:967-995 | the in-place loop terminates inside the buffer on any bytes and any callback, and delivers the values of its specification unharmed |
| Records.UpToIsPrefix | src/vendors/onedrive/onedrive.c:988-990 | a callback that stops gets the prefix up to its first refusal, otherwise all |
| Records.EntriesOfLog | src/vendors/onedrive/onedrive.c:967-995 | on a well-formed log the loop delivers the values in order up to the first refusal |
| Records.AcceptedIsLog | src/vendors/onedrive/onedrive.c:967-995 | a file read to its end is the log of what was delivered |
| Records.AcceptsExactlyLogs | src/vendors/onedrive/onedrive.c:967-995 | the loop accepts exactly the logs of values of storable length whose last is not empty |
| Records.LogAppend | src/vendors/onedrive/onedrive.c:877-896 | appending a record to the file appends the value to the list |
| Records.LogInjective | src/vendors/onedrive/onedrive.c:857-860 | a file is the log of one list of values only |
| Records.ZerosAreEmptyValues | src/vendors/onedrive/onedrive.c:967-995 | a block of zeros reads as empty values and ends in an error unless the callback stops |
| OneDrive.PathsDiffer | src/vendors/onedrive/onedrive.c:873 | keys short enough for their URL have files of their own |
| OneDrive.OneDrive.CheckExpire | src/oauth/oauth_token.c:845-858 | past the check the token is not marked expired: it has not expired, or exactly one refresh has been granted; what the check returns when |
| OneDrive.OneDrive.Bear | src/vendors/onedrive/onedrive.c:194-213 | the history gains one use of the token, and a mark exactly if the answer is 401 |
| OneDrive.OneDrive.RefreshBetween | src/oauth/oauth_token.c:830-858 | in every reachable state there is a refresh between the token being marked expired and its next use, in a history that every operation only extends |
| OneDrive.OneDrive.GetFileInfo | src/vendors/onedrive/onedrive.c:411-478 | the size of a file that is there, not-found exactly for one that is not, an error otherwise, and which of them when; TRY_AGAIN exactly for a 401, which marks the token expired |
| OneDrive.OneDrive.GetFileLength | src/vendors/onedrive/onedrive.c:480-506 | a size, a negative error or an error that looks like a size, and exactly when; not-found exactly for an absent file or a misled check; TRY_AGAIN exactly when its last request had the token marked expired |
| OneDrive.OneDrive.GetFileToBuffer | src/vendors/onedrive/onedrive.c:557-606 | the whole file at the front of the buffer exactly when everything goes well; too small, no client and other errors exactly when; TRY_AGAIN exactly when its last request had the token marked expired |
| OneDrive.OneDrive.UploadFile | src/vendors/onedrive/onedrive.c:221-252 | succeeds exactly when the service says so; the file is replaced exactly when the request is carried out; TRY_AGAIN exactly for a 401, which marks the token expired |
| OneDrive.OneDrive.PutFileFromBuffer | src/vendors/onedrive/onedrive.c:348-398 | the same for small files and for upload sessions, with every check on the way; TRY_AGAIN exactly when its last request had the token marked expired |
| OneDrive.OneDrive.Gather | src/vendors/onedrive/onedrive.c:881-896 | the upload is the file as it is and one record; a size that was an error never gets through |
| OneDrive.OneDrive.PutValue | src/vendors/onedrive/onedrive.c:862-907 | succeeds exactly when `Remote.Puts` says so; a put that takes effect appends one value, or is misled and leaves only that; all else is unchanged; on a file of 2^31 bytes it fails without effect unless misled; TRY_AGAIN exactly when its last request had the token marked expired |
| OneDrive.OneDrive.SetValue | src/vendors/onedrive/onedrive.c:909-931 | leaves exactly one value; when it succeeds and when it takes effect; TRY_AGAIN exactly when its last request had the token marked expired |
| OneDrive.OneDrive.GetValues | src/vendors/onedrive/onedrive.c:933-999 | whatever the file holds: delivers exactly what reading it yields when everything goes well, nothing when misled or failing, zeros when fooled; TRY_AGAIN exactly when its last request had the token marked expired |
| OneDrive.OneDrive.DeleteKey | src/vendors/onedrive/onedrive.c:1001-1014 | removes the key exactly when the request is carried out; succeeds exactly when the service answers or the check is misled; TRY_AGAIN exactly when its last request had the token marked expired |
| OneDrive.OneDrive.ExpireToken | src/vendors/onedrive/onedrive.c:143-149 | marks the token expired |
| OneDrive.OneDrive.HivePutValue | src/hive_key.c:30-53 | improper arguments are refused without effect, the rest as `put_value` |
| OneDrive.OneDrive.HiveSetValue | src/hive_key.c:55-78 | improper arguments are refused without effect, the rest as `set_value` |
| OneDrive.OneDrive.HiveGetValues | src/hive_key.c:80-102 | the stored values in insertion order up to the first refusal, and none on failure |
| OneDrive.OneDrive.HiveDeleteKey | src/hive_key.c:104-125 | an empty key is refused without effect, the rest as `delete_key` |
| OneDrive.ReadsExactlyLogs | src/vendors/onedrive/onedrive.c:933-999 | for arbitrary contents reading succeeds exactly on logs, the empty file included, and yields exactly their values |
| OneDrive.LogDelivers | src/vendors/onedrive/onedrive.c:964-995 | of a stored log a reader gets the values up to its first refusal |
| OneDrive.FooledReader | src/vendors/onedrive/onedrive.c:942-965 | what a reader gets from a two-gigabyte block of zeros |
| OneDrive.TooLongBySize | src/vendors/onedrive/onedrive.c:889-892 | the values that cannot be extended are those whose file has 2^31 bytes or more |
| Remote.FaultlessGoes | src/vendors/onedrive/onedrive.c:348-1014 | without a fault every operation succeeds, except exactly a put to a file of 2^31 bytes or more |
| Remote.SuccessNeeds | src/vendors/onedrive/onedrive.c:348-1014 | while the token does not expire each operation succeeds if and only if every request on its way is served, its report is complete and memory suffices |
| Remote.NothingWithoutToken | src/oauth/oauth_token.c:836-858 | with an expired token that is not refreshed no operation succeeds, except a put that takes a 404 for a missing file |
| Listing.MergeArray | src/vendors/onedrive/onedrive.c:682-718 | items move from front to back one by one, none lost, doubled or reordered; it stops exactly at the first bad item |
| Listing.GoodMeans | src/vendors/onedrive/onedrive.c:690-711 | an item is good exactly if it is a file or a folder, not both, with a name that is not empty |
| Listing.GoodPageMeans | src/vendors/onedrive/onedrive.c:786-838 | a page is good exactly if its items are and its link, if it has one, is a string |
| Listing.ListedMeans | src/vendors/onedrive/onedrive.c:739-855 | the names come from the pages that lead on and the first that does not, if that is good; otherwise there are none |
| Listing.CallsMean | src/vendors/onedrive/onedrive.c:720-737 | one call a name in order up to the first refusal, and a last one with NULL exactly when there is none |
| Listing.NotifyUserFiles | src/vendors/onedrive/onedrive.c:720-737 | makes exactly these calls |
| Listing.TakePage | src/vendors/onedrive/onedrive.c:786-838 | a page is accepted exactly when reply, items and link are good, and adds its items in order |
| Listing.ListFiles | src/vendors/onedrive/onedrive.c:739-855 | over any finite chain of pages: success exactly when the token passes, memory suffices and all pages are good, then the calls for all names in page order; any error: no call at all; TRY_AGAIN exactly when a page was answered with 401 |
| Session.Do | src/vendors/onedrive/onedrive.c:739-1014 | each operation takes exactly the step its input determines: outcome, deliveries, calls, contents; the history of the token grows |
| Session.Run | src/vendors/onedrive/onedrive.c:739-1014 | so does every run of puts, sets, gets, deletes, listings and expiry marks on any keys, and no use of the token comes before a refresh that is due |
| Session.ExpireGates | src/oauth/oauth_token.c:830-858 | in any run, after the caller has the token expire no request carries it before a refresh |
| Session.RunRefinesModel | src/vendors/onedrive/onedrive.c:857-1014 | a run without a fault is a run of the multi-map: everything succeeds, and every get delivers the values put or set since the last delete, in order up to its refusal |
| Session.PutAppendsExactly | src/vendors/onedrive/onedrive.c:875-879 | a successful put appends if and only if the token has not expired at the call, its refresh is not answered with 404, or nothing is stored |
| Session.GetDeliversExactly | src/vendors/onedrive/onedrive.c:948-961 | a successful get delivers what is stored exactly likewise, unless fooled |
| Session.DeleteDeletesExactly | src/vendors/onedrive/onedrive.c:1001-1014 | a successful delete deletes exactly likewise |
| Session.StoredListLost | src/vendors/onedrive/onedrive.c:862-907 | an input on which a put succeeds and a stored list is lost |
| Token.GatedMeans | src/oauth/oauth_token.c:830-858 | a use of the token after it was marked expired comes after a refresh |
| Token.Token.constructor | src/oauth/oauth_token.c:193-263 | starts with the stored tokens exactly when they can be restored and memory suffices, and with none otherwise, nor from the store of another client |
| Token.Token.Restore | src/oauth/oauth_token.c:130-191 | all three tokens and the expiry time, or none of them; another client's file is refused; which of these when |
| Token.ForeignStoreRefused | src/oauth/oauth_token.c:147-152 | what another client has written is never restored |
| Token.Token.Decode | src/oauth/oauth_token.c:476-593 | a failure changes nothing; success replaces all three tokens and sets the expiry time from now |
| Token.ReplyDecodes | src/oauth/oauth_token.c:476-593 | a reply with the five fields grants exactly what they say, unless a string is empty or the life negative |
| Token.ReplyNeedsAll | src/oauth/oauth_token.c:476-593 | a reply without one of them grants nothing |
| Token.Token.WriteBack | src/oauth/oauth_token.c:91-119 | hands on the current tokens, exactly when there is memory for the object |
| Token.Token.Reset | src/oauth/oauth_token.c:272-284 | drops all three tokens and writes that back |
| Token.Token.SetExpired | src/oauth/oauth_token.c:830-834 | the token counts as expired until refreshed |
| Token.Token.Refresh | src/oauth/oauth_token.c:728-828 | exactly the tokens and the life of the reply, written back, or everything as it was; which error when |
| Token.GrantedMeans | src/oauth/oauth_token.c:728-828 | a refresh with such a reply grants its tokens exactly on status 200 with memory for the body and the three strings |
| Token.Token.CheckExpire | src/oauth/oauth_token.c:836-858 | an unexpired token passes without a refresh and nothing changes; an expired one passes exactly when its refresh is granted, and is then written back; not-found exactly when that is answered with 404 |
| Token.RestoredFromWritten | src/oauth/oauth_token.c:91-191 | restoring what was written gives the same tokens and the second of their expiry, or none for none |
| Token.Writeback | src/vendors/onedrive/onedrive.c:105-133 | succeeds exactly when the file can be printed, opened and written, and then holds the complete text with its NUL |
| Token.KeystoreRoundTrip | src/vendors/onedrive/onedrive.c:67-133 | what was last written back is restored exactly when text and NUL fit 4096 bytes |
| ResponseBody.NewSize | src/http/http_client.c:646-652 | in wrap-around arithmetic the loop ends with room for what is needed: at most twice that or 512, or just that when doubling overflows |
| ResponseBody.ResponseBody.Write | src/http/http_client.c:632-669 | takes the whole chunk exactly when it fits, or the larger size does not wrap around and there is memory for it; otherwise returns 0 and leaves an empty body |
| ResponseBody.ResponseBody.Realloc | src/http/http_client.c:654-661 | a larger block with the same body |
| ResponseBody.ResponseBody.Reset | src/http/http_client.c:330 | an empty body |
| ResponseBody.ResponseBody.Move | src/http/http_client.c:686-704 | hands over exactly the body and its length and starts afresh |
| ResponseBody.HeldIsCollected | src/http/http_client.c:632-709 | over any sequence of chunks, resets and moves the body is the concatenation of the chunks taken since the last reset, move or refused chunk, and a move hands over just that |
| ResponseBody.ResponseBody.Run | src/http/http_client.c:632-709 | any such sequence takes and shows at each operation exactly what that and the body before determine |
| Ipfs.FirstUpMeans | src/vendors/ipfs/ipfs_rpc.c:109-131 | the address chosen answers and none tried before it does; none is chosen exactly when none answers |
| Ipfs.CycleComplete | src/vendors/ipfs/ipfs_rpc.c:106-131 | going once around from any node tries the same addresses |
| Ipfs.SelectBootstrap | src/vendors/ipfs/ipfs_rpc.c:99-136 | terminates after each node at most once, and chooses the first answering address in cyclic order, IPv4 before IPv6 |
| Ipfs.ChosenMeans | src/vendors/ipfs/ipfs_rpc.c:99-151 | a selection chooses the first node around that answers, by its IPv4 address unless only the other answers, and none exactly when no node does |
| Ipfs.ConsistentMeans | src/vendors/ipfs/ipfs_rpc.c:138-156 | after a node was marked unreachable the next request comes after a selection and goes where that says |
| Ipfs.Rpc.Select | src/vendors/ipfs/ipfs_rpc.c:143-151 | succeeds exactly when some configured address answers; then one that does is in use with its own port |
| Ipfs.Rpc.CheckReachable | src/vendors/ipfs/ipfs_rpc.c:138-151 | keeps a node in use, selects one that answers when there is none |
| Ipfs.Rpc.MarkUnreachable | src/vendors/ipfs/ipfs_rpc.c:153-156 | no node is in use |
| Ipfs.Rpc.Request | src/vendors/ipfs/ipfs.c:88-96 | goes to the node in use, which is given up, with TRY_AGAIN, exactly on the three codes of curl for an unreachable node; any other code is passed on |
| Ipfs.AnsweredMeans | src/vendors/ipfs/ipfs.c:59-110 | a request is answered exactly when a node is in use or answers, and client, request and status are good |
| Ipfs.NewRpc | src/vendors/ipfs/ipfs_rpc.c:168-194 | a connection exactly when memory suffices and some node answers; then one is in use |
| Ipfs.PutFile | src/vendors/ipfs/ipfs.c:59-135 | succeeds exactly when a node is in use or answers, the request gets through, and status and body are good; which error otherwise; the node it leaves in use and the events it adds are exact |
| Ipfs.GetFileLength | src/vendors/ipfs/ipfs.c:137-226 | the size of the reply exactly under the same condition, otherwise a negative error or one that looks like a size of at least 2^31; node and events exact |
| Ipfs.Sink.Receive | src/vendors/ipfs/ipfs.c:228-242 | a chunk is copied whole behind the others, or refused whole when it does not fit |
| Ipfs.Sink.Transfer | src/vendors/ipfs/ipfs.c:228-242 | the transfer goes through exactly when the whole body fits, and then it is in the buffer |
| Ipfs.GetFileToBuffer | src/vendors/ipfs/ipfs.c:244-306 | the whole body in the buffer and its length as result exactly when both requests go through, the size fits and is the number of bytes that come; under 2 GiB the result alone tells; node and events exact |
| Ipfs.Run | src/vendors/ipfs/ipfs.c:59-306 | so it goes in every run of these operations, and every request goes to the node in use then |
| Ipfs.TryAgainGivesUp | src/vendors/ipfs/ipfs.c:88-96 | an operation that fails with TRY_AGAIN has given its node up last of all |
| Ipfs.SelectionBeforeRetry | src/vendors/ipfs/ipfs_rpc.c:138-156 | in any run the first request behind such an operation comes after a new selection and goes where that says |

## Left out

- Sockets, `select`, `accept`, `getaddrinfo`, curl, cJSON's text, `gettimeofday`, `time` and `rand`: parameters; JSON values appear as the fields the code looks at.
- `sb_new_server`, `sb_get_header`, `sb_get_cookie`, `sb_vwritef`, `sb_error_str`: would add only easier members, or set up the operating system.
- Buffer.Buffer.Writef: models the formats `%s` and `%d` that the response writers use, not the other conversions of `sb_buffer_vwritef`.
- Buffer.Buffer.Reserve: which reallocations of a connection's buffers fail is left open; those of an `ample` buffer never do.
- Stream.Stream.Recv: bytes are taken until the socket would block or ends; the 4095-byte pieces of `recv` are any pieces.
- Stream.ScanRequestLine: the request line is scanned as glibc's `sscanf` does it; other C libraries differ in white space and overflow.
- Stream.Stream.ReadFile: a short read of a regular file counts as its end, and `fread` errors are not told apart from it.
- Server.Server.Poll: the handler of one stream does not call functions on another or poll again; between polls the application may call the response functions of any stream.
- Server.Server.Destroy: what the handler calls at CLOSE is left open; its stream is gone afterwards.
- Server.Server.CloseServer: the listening socket is closed too; it is not counted.
- Multipart.PartOfInvertsPrinter: boundary parameters in quotes are not covered; the code takes the quotes for part of the boundary.
- OneDrive.OneDrive.PutValue: one writer at a time; two concurrent writers of one key can lose a value.
- OneDrive.OneDrive.HivePutValue: keys whose URL does not fit `char url[1024]` are not covered; the code overruns that buffer.
- OneDrive.OneDrive.GetFileInfo: sizes are exact; the code goes through a `double`, which is exact up to 2^53.
- Token.Token.Refresh: the escaping and printing of the request body are one possible failure; `redeem_access_token` differs from it in the body only, and the authorization dialogue is not modelled.
- Token.Token.WriteBack: an allocation failure while a field is added loses that field in the code.
- Token.LoadKeystore: a keystore file without a NUL is read past its end by the code when it is exactly 4096 bytes long.
- ResponseBody.ResponseBody.Write: `size * nmemb` is the length of the chunk; curl keeps it in range.
- Ipfs.SelectBootstrap: an address answers or does not during one selection; the configuration has at least one node, as `ipfs_client_connect` makes sure.
- Memory leaks and the aliasing of token strings: strings are values.
- Encryption flags, file upload and download by name in OneDrive, CID parsing, configuration, the command line: argument handling and dispatch.
