# sehttpd request handling in Dafny

This project models the request-handling core of sehttpd, a small epoll-based
HTTP/1.x server written in C, and proves properties of the model.

- **Resumable request parser.** Two byte-at-a-time state machines run over a
  per-connection ring buffer of `MAX_BUF = 8124` bytes:
  `http_parse_request_line` and `http_parse_request_body`.
  - Each machine is a pure step function plus a run function over the bytes
    held so far (`LineParser.RunLine`, `HeaderParser.RunHeaders`).
  - The C loops are methods on the request record, proved equal to those
    functions (`HttpParser.ParseRequestLine`, `HttpParser.ParseRequestBody`).
  - Positions (`pos`, `last`, `request_start`, `uri_start`, `uri_end`, the
    header spans) are logical indices that only grow. The ring is read at
    `index % MAX_BUF` (`HttpDefs.RingView`). A ghost `stream` records every
    byte ever received, so the proofs can show that the ring still holds
    every byte the parsers look at.
- **The loop of `do_request`.**
  - Reading into the ring's free window (`Http.Receive`).
  - One parsing round: `Driver.ParseRound`, equal to the function
    `Driver.AsWrittenRound`.
  - Answering: `Driver.Answer`, covering filename resolution, the `stat`
    outcome, the header handlers, the default status and the keep-alive
    decision.
- **Helpers.** `parse_uri`, `get_file_type` with its MIME table,
  `get_msg_from_status` and `init_http_out`.
- **Header dispatch.** The `http_headers_in` table and its `strncmp` match,
  the `Connection` handler's `strncasecmp` test, and `http_handle_header`.
- **The intrusive circular list of `src/list.h`.** It is a class of nodes
  with `prev`/`next` fields, described by a ghost sequence of the ring's
  nodes.
- **The request record and its initialiser, from `src/http.h`.**

Modules, one per file:

| module | file | what it holds |
|---|---|---|
| `Bytes` | bytes.dfy | bytes, character classes, decimal values |
| `HttpDefs` | http_defs.dfy | return codes, methods, statuses, `MAX_BUF`, `Request`, `Response`, `Header` |
| `LineParser` | line_parser.dfy | the request-line state machine; resumption and chunk-split lemmas |
| `LineFacts` | line_facts.dfy | what each part of a request line does; well-formed lines parse; rejected lines |
| `HeaderParser` | header_parser.dfy | the header state machine; resumption and chunk-split lemmas |
| `HeaderFacts` | header_facts.dfy | well-formed header blocks parse; error paths; soundness of every recorded span |
| `HttpParser` | http_parser.dfy | the two parser loops on the request record; the ring holds what they read |
| `Http` | http.dfy | read window, `parse_uri`, MIME, status messages, `init_http_out`, default status |
| `HttpRequest` | http_request.dfy | `strncmp`/`strncasecmp`, the dispatch table, the handlers, `http_handle_header` |
| `List` | list.dfy | `list.h` |
| `Driver` | driver.dfy | the parsing round and the answer of `do_request`, as written and as intended |

Where the model's behaviour differs from a plain reading of the design, it
follows the code:

- **Unrecognised 3- or 4-letter methods.** A 3- or 4-letter token other than
  `GET`, `HEAD` or `POST` leaves the previously stored method unchanged.
  Tokens of any other length set `HTTP_UNKNOWN`.
- **Header order.** Recorded headers are pushed on the front of the list, so
  the list holds them newest first.
- **Dropped headers.** A header whose value ends in a bare LF is not
  recorded. Neither is a header with an empty value, because the value then
  starts at its CR.
- **Empty header block.** A request with no header lines never completes.
- **Header name matching.** Names are matched case-sensitively and by
  prefix: `Con` selects the `Connection` handler.
- **`HTTP_PARSER_INVALID_REQUEST`.** Its code, 11, is also the code of
  `EAGAIN`, so a refused request line does not close the connection (see
  Findings).
- **Error pages.** After the 404 and 403 pages, the header list is not
  drained, the `http_out_t` is not freed, and the connection stays open
  whatever the keep-alive request said. `Driver.Answer` states that the
  header list is left unchanged on these paths.

## Model

| member | source | states |
|---|---|---|
| `HttpDefs.RingView` | src/http_parser.c:74-76 | the parser's view has one byte per logical index below `last`, the one at `buf[index % MAX_BUF]` |
| `HttpDefs.Request.InitHttpRequest` | src/http.h:126-136 | position, end and state are 0, the header list and the byte stream are empty, `fd`, `epfd` and `root` are stored as given, the record satisfies the ring invariant, and the request-line results and current header spans keep their values |
| `LineParser.LineStateOf` | src/http_parser.c:52-71 | the integer saved in `r->state` decodes to the state whose code it is, so a saved state is resumed exactly |
| `LineParser.LineCodeRoundTrip` | src/http_parser.c:52-71 | encoding a state and decoding it gives the same state back |
| `LineParser.RunLine` | src/http_parser.c:74-303 | the loop over `[pos, last)`: a completed line ends just after a line feed inside the bytes read, and every error is `INVALID_METHOD` or `INVALID_REQUEST` |
| `LineParser.RunLineSplit` | src/http_parser.c:288-292 | one run over `[a, c)` equals a run over `[a, b)` resumed from its saved state over `[b, c)` |
| `LineParser.RunLineLocal` | src/http_parser.c:95-121 | the parser reads only bytes before `last` and not before the current method token, which it rereads to classify the method (when the views agree from `lo > 0`, a token already begun must have started at or before the current index) |
| `LineParser.TokenDistance` | src/http_parser.c:95-98 | `p - m` is the distance between the array slots of the space and of the token's first byte: at most the space's slot, and equal to the token's length exactly when the token does not cross the end of the array |
| `LineParser.LineChunkSplit` | src/http_parser.c:12-14 | chunk-split equivalence: feeding the bytes in any sequence of reads, each call resuming from the saved state and position, gives the same outcome, method, URI span and version as one read |
| `LineFacts.LeadingBlankLinesRun` | src/http_parser.c:81-85 | CR and LF bytes before the method are skipped, and `request_start` follows them |
| `LineFacts.MethodTokenRun` | src/http_parser.c:124-128 | `A`-`Z` and `_` bytes keep the parser inside the method token |
| `LineFacts.MethodPart` | src/http_parser.c:93-123 | the space after a method token starting at slot 0 classifies it by `MethodOf`: by its length modulo `MAX_BUF` and the bytes `cst_strcmp` loads |
| `LineFacts.MethodSpaceStep` | src/http_parser.c:94-122 | the space after a method token that started at slot 0 moves to the spaces before the URI with the method `MethodOf` gives |
| `LineFacts.ShortTokenMethod` | src/http_parser.c:98-121 | a token shorter than the ring is classified by itself: exactly `GET`, `HEAD` or `POST` select that method, other 3- or 4-byte tokens keep the prior method, other lengths give `HTTP_UNKNOWN` |
| `LineFacts.WrappedTokenUnknown` | src/http_parser.c:98-120 | a method token whose first byte sits in a later slot than the space after it (it crosses the end of the array) gives `HTTP_UNKNOWN`, whatever its bytes |
| `LineFacts.LowerCaseMethodRejected` | src/http_parser.c:87-88 | `get / HTTP/1.1` is refused with `INVALID_METHOD` at its first byte, having recorded only `request_start` |
| `LineFacts.UriRun` | src/http_parser.c:146-155 | every byte but a space, CR and LF included, stays inside the URI |
| `LineFacts.UriPart` | src/http_parser.c:131-155 | the URI span runs from the first `/` to the next space |
| `LineFacts.RelativeUriRejected` | src/http_parser.c:138-143 | `GET x HTTP/1.1`, whose target does not start with `/`, is refused with `INVALID_REQUEST` after the method is classified as `GET` |
| `LineFacts.HttpPart` | src/http_parser.c:158-208 | after the URI, the bytes `HTTP/` lead to the first major digit |
| `LineFacts.MajorDigitsRun` | src/http_parser.c:220-230 | further major digits accumulate as `v*10+digit` |
| `LineFacts.MajorPart` | src/http_parser.c:211-230 | a major version starting with 1-9, up to the dot, is recorded as its decimal value |
| `LineFacts.MinorDigitsRun` | src/http_parser.c:242-260 | further minor digits accumulate as `v*10+digit` |
| `LineFacts.MinorPart` | src/http_parser.c:233-302 | the minor version is recorded as its decimal value; optional spaces and then a CR LF or bare LF after it complete the line just after the LF |
| `LineFacts.LineEndRun` | src/http_parser.c:242-285 | after the minor digits, optional spaces and then a CR LF or bare LF complete the line just after the LF, leaving the fields as they are |
| `LineFacts.WellFormedLineParses` | src/http_parser.c:47-303 | a well-formed request line `METHOD SP+ /uri SP+ HTTP/major.minor SP* [CR] LF` parses in one call, with the method classified from its token, the exact URI span, the decimal version numbers and the position just after the line feed |
| `LineFacts.TargetAt` | src/http_parser.c:81-168 | method token, one or more spaces, the URI and one or more spaces lead to `HTTP` with the method and URI span recorded |
| `LineFacts.VersionAt` | src/http_parser.c:158-302 | `HTTP/`, major, dot, minor, optional spaces and terminator complete the line with both version numbers |
| `LineFacts.LineStayRun` | src/http_parser.c:74-79 | bytes on which a state steps back to itself with its fields unchanged are skipped by the loop |
| `LineFacts.SpacesRun` | src/http_parser.c:131-168 | runs of spaces before the URI, after it and after the minor version are skipped (also lines 262-265) |
| `LineFacts.StepRefusesExactly` | src/http_parser.c:81-285 | in every state a byte is refused exactly when the request-line grammar does not allow it there; a refusal is `INVALID_METHOD` in the method states and `INVALID_REQUEST` elsewhere, moving only `request_start`, and only in the start state |
| `LineFacts.BadMethodByteRejected` | src/http_parser.c:81-128 | any byte outside `A`-`Z` and `_` in the method token (other than leading CR/LF or the ending space) makes the whole line `INVALID_METHOD` with only `request_start` recorded |
| `LineFacts.BadTargetRejected` | src/http_parser.c:131-143 | after the method and its spaces, any byte other than a space or `/` makes the whole line `INVALID_REQUEST`, the method already classified |
| `HttpParser.ParseRequestLine` | src/http_parser.c:47-303 | the method ends as `RunLine` on the bytes the ring holds, classifying a method token by the distance between array slots as `p - m` does: on `EAGAIN` the state is saved and `pos == last`; on success `pos` is just after the LF and the state is 0; on an error `pos` and `state` are unchanged; nothing else changes |
| `HttpParser.LineByte` | src/http_parser.c:79-285 | one turn of the `switch` on the byte at `pi` is the step function |
| `HttpParser.TargetByte` | src/http_parser.c:81-155 | the method and URI states of that turn are the step function; the method is switched on the slot distance `p - m` and the 4 bytes loaded from the token's slot |
| `HttpParser.ClassifyAtSpace` | src/http_parser.c:94-122 | the method written at the space is the step function's: switched on the slot distance `p - m`, compared on the 4 bytes loaded from the token's slot |
| `HttpParser.SlotOf` | src/http_parser.c:98-115 | when the slot distance is 3 or 4, the 4-byte load from the token's slot stays inside the array and reads the bytes the ring holds for the logical indices just before the space |
| `HttpParser.RingWindow` | src/http_parser.c:98-115 | the 4 array slots `cst_strcmp` loads are the ring view's bytes at the logical indices just before the space |
| `HttpParser.VersionByte` | src/http_parser.c:158-284 | the version and line-end states of that turn are the step function |
| `HttpParser.Expect` | src/http_parser.c:158-208 | a literal-byte state moves on exactly on its byte, or on a space where spaces are allowed, and records nothing |
| `HeaderParser.HeaderStateOf` | src/http_parser.c:316-327 | the integer saved in `r->state` decodes to the header state whose code it is |
| `HeaderParser.HeaderCodeRoundTrip` | src/http_parser.c:316-327 | encoding a header state and decoding it gives the same state back |
| `HeaderParser.RunHeaders` | src/http_parser.c:331-432 | a completed header block ends just after a line feed inside the bytes read |
| `HeaderParser.RunHeadersSplit` | src/http_parser.c:422-425 | one run of the header machine over `[a, c)` equals a run over `[a, b)` resumed over `[b, c)` |
| `HeaderParser.RunHeadersLocal` | src/http_parser.c:331-333 | the header parser reads only the bytes in `[pos, last)` |
| `HeaderParser.HeaderChunkSplit` | src/http_parser.c:422-425 | feeding the header machine in any sequence of reads, each resuming from the saved state, gives the same outcome as one read |
| `HeaderParser.EmptyHeaderBlockNeverCompletes` | src/http_parser.c:336-338 | from the start state, CR and LF bytes alone leave the parser waiting, so a request with no header lines (`GET / HTTP/1.0` followed by an empty line) is never complete and the connection is never answered; this is the code as written, which the model keeps |
| `HeaderFacts.KeyPart` | src/http_parser.c:336-365 | a header key runs from its first byte to the first space or colon, spaces before the colon are skipped, and the key span is recorded |
| `HeaderFacts.ColonPart` | src/http_parser.c:344-365 | the key ends at its first space or colon; spaces before the colon are skipped, and the scan continues in the spaces after the colon with the key end recorded |
| `HeaderFacts.ValuePart` | src/http_parser.c:367-385 | the spaces after the colon are skipped, and the value starts at the first other byte |
| `HeaderFacts.LineEndPart` | src/http_parser.c:381-399 | a CR LF after the value pushes the header on the front of the list |
| `HeaderFacts.HeaderLinePart` | src/http_parser.c:336-399 | one header line, from the start or after the previous line, records exactly that header at the front of the list |
| `HeaderFacts.BareLfFieldDropped` | src/http_parser.c:381-385 | a value ended by a bare LF records nothing on the list |
| `HeaderFacts.StrayByteBeforeColonRejected` | src/http_parser.c:344-365 | only spaces may stand between a key and its colon; any other byte is `INVALID_HEADER` |
| `HeaderFacts.CrWithoutLfRejected` | src/http_parser.c:387-400 | a CR after a value that is not followed by LF is `INVALID_HEADER`, with nothing recorded |
| `HeaderFacts.BlockPart` | src/http_parser.c:331-409 | a block of header lines pushes every line, so the list holds them newest first |
| `HeaderFacts.WellFormedHeadersParse` | src/http_parser.c:311-432 | header lines `key SP* : SP* value CR LF` followed by an empty line parse in one call, recording every header in reverse arrival order and stopping just after the final LF |
| `HeaderFacts.HeadersSound` | src/http_parser.c:331-399 | whatever the bytes, every header a call pushes lies inside the bytes that call read, has its key before its value, ends its key at a space or colon and its value at CR LF, and the pushed headers are newest first without overlap |
| `HttpParser.ParseRequestBody` | src/http_parser.c:311-432 | the method ends as `RunHeaders` on the bytes the ring holds: `EAGAIN` saves the state with `pos == last`; success sets `pos` past the blank line and state 0; an error leaves `pos` and state 0; the request-line fields are unchanged |
| `HttpParser.HeaderByte` | src/http_parser.c:335-419 | one turn of the header `switch` is the step function |
| `HttpParser.HeldIsRecent` | src/http.c:281-303 | the ring agrees with the byte stream from `pos` on, and indeed with the last `MAX_BUF` bytes received |
| `HttpParser.LineSeesStream` | src/http_parser.c:74-76 | the request-line parser computes on the ring the same outcome as on the stream of received bytes, provided a method token already begun started at or before `pos` and within the last `MAX_BUF` bytes |
| `HttpParser.HeadersSeeStream` | src/http_parser.c:331-333 | the header parser computes on the ring the same outcome as on the stream |
| `Http.ReadStaysInArray` | src/http.c:281-286 | a read of at most `remain_size` bytes into `&buf[last % MAX_BUF]` stays inside the array |
| `Http.ReadKeepsBound` | src/http.c:302-303 | after such a read, `last - pos < MAX_BUF` still holds, as the assertion demands |
| `Http.RemainEmptyIff` | src/http.c:282-283 | the window is never negative, and it is empty exactly when `last - pos == MAX_BUF - 1` |
| `Http.Receive` | src/http.c:281-303 | a read appends its bytes to the stream, advances `last` by their count, keeps the ring invariant, and changes no other field |
| `Http.PathLength` | src/http.c:89-97 | the path is the URI before its first `?`, or before the terminator the C code writes; none of its bytes is `?` or NUL |
| `Http.ParseUri` | src/http.c:80-119 | a URI over 256 bytes leaves the filename as it was; otherwise the filename starts with the web root and the path, never ends in `/`, and gets `index.html` (after a `/` if needed) exactly when its last component has no `.` |
| `Http.AddIndex` | src/http.c:110-116 | the three cases of the `index.html` suffix: none with a dot in the last component, `index.html` after a final `/`, and `/index.html` otherwise |
| `Http.LastIndexOf` | src/http.c:110-111 | `strrchr`: the index returned holds the byte and no later index does; no result means the byte does not occur |
| `Http.PathLengthIsFirstStop` | src/http.c:89-97 | the path length is the first `?` or NUL, whichever comes first |
| `Http.GetFileType` | src/http.c:156-167 | no extension gives `text/plain`; an extension equal to a table entry gives that entry's type; any other gives the sentinel's `text/plain` |
| `Http.MimeExtensionsDistinct` | src/http.c:59-68 | no extension appears twice in the MIME table, so the first match is the only one |
| `Http.GetMsgFromStatus` | src/http.c:169-181 | "OK" exactly for 200, "Not Modified" exactly for 304, "Not Found" exactly for 404, "Unknown" exactly for the rest |
| `Http.InitHttpOut` | src/http.c:252-259 | the descriptor is stored; the response is not keep-alive, modified, with status 0; the result is 0 |
| `Http.DefaultStatus` | src/http.c:353-354 | the status becomes `FinalStatus` of the old one, and the other fields are kept |
| `Http.FinalStatus` | src/http.c:353-354 | the status sent is never 0: a set status is kept, and 0 becomes 200 |
| `HttpRequest.StrNEqualMeans` | src/http_request.c:109-110 | `strncmp` over the key's length is 0 exactly when the key agrees with `name` byte by byte up to the first NUL they share |
| `HttpRequest.NulFreeMatch` | src/http_request.c:109-110 | a NUL-free key matches a name exactly when it is at most as long and equal to the name's first bytes |
| `HttpRequest.FirstByteMismatches` | src/http_request.c:109-110 | a key differing from a name in its first byte does not match it |
| `HttpRequest.LongerKeyMismatches` | src/http_request.c:109-110 | a NUL-free key longer than a name does not match it |
| `HttpRequest.NulFreeNames` | src/http_request.c:84-88 | the table's names hold no NUL |
| `HttpRequest.DispatchFirstMatch` | src/http_request.c:107-115 | a handler is chosen exactly when some named row matches, and it is the handler of the first matching row |
| `HttpRequest.FindHandler` | src/http_request.c:107-115 | the search loop over the table up to the `""` sentinel finds the handler `Dispatch` chooses |
| `HttpRequest.LowerCaseKeySelectsNothing` | src/http_request.c:84-88 | a key starting with a lower-case letter selects no handler, since matching is case-sensitive |
| `HttpRequest.PrefixOfNameSelects` | src/http_request.c:107-113 | a non-empty prefix of a name, such as `Con`, selects that name's handler |
| `HttpRequest.KeepAliveValueMeans` | src/http_request.c:50-51 | a NUL-free value asks for keep-alive exactly when it is, ignoring case, a prefix of `keep-alive` |
| `HttpRequest.CallHandler` | src/http_request.c:32-81 | every handler returns 0; `Connection` only ever sets `keep_alive`, and sets it exactly on a keep-alive value; `If-Modified-Since` on a matching time clears `modified` and sets 304; nothing else changes |
| `HttpRequest.HandleOne` | src/http_request.c:104-115 | one header: a header matching no name leaves the response unchanged; otherwise the effect is its handler's |
| `HttpRequest.HandleHeader` | src/http_request.c:99-121 | after the loop the header list is empty and no other field of the request changes; `keep_alive` is set exactly when some header asks for it; 304 and not modified exactly when some header names the file's time |
| `HttpRequest.ExtendRequested` | src/http_request.c:103-120 | looking at one more header, keep-alive or not-modified is requested by the headers so far or by this one |
| `HttpRequest.Span` | src/http_request.c:109-112 | the bytes a handler reads in place are the held bytes of that span |
| `List.InitListHead` | src/list.h:25-30 | the head points to itself in both directions, a ring of one node |
| `List.ListEmptyIff` | src/list.h:87-90 | `list_empty` holds exactly when the head is the only node of its ring |
| `List.ListInsert` | src/list.h:33-41 | the node is linked between the two neighbours, and the ring remains a well-linked ring of distinct nodes |
| `List.ListAdd` | src/list.h:49-52 | the node becomes the first after the head |
| `List.ListAddTail` | src/list.h:60-63 | the node becomes the last before the head |
| `List.ListDel` | src/list.h:66-80 | the entry leaves the ring, its neighbours are linked, the rest stays a ring, and its own links are untouched |
| `List.RingNeighbours` | src/list.h:125-127 | in a ring of two or more, the node after the head links back to the head and forward to the next |
| `List.DrainList` | src/list.h:125-127 | `list_for_each_safe` with `list_del` visits every node after the head once, front to back, and the list is empty afterwards |
| `Driver.ActionOf` | src/http.c:306-324 | what the loop should do with a result: read again exactly on "need more", go on exactly on success, close exactly on an error |
| `Driver.CodeTestsAgreeExceptInvalidRequest` | src/http.c:307-312 | the C tests on the integer code agree with that decision for every result except `INVALID_REQUEST`, whose code is `EAGAIN`'s |
| `Driver.AsWrittenRound` | src/http.c:305-324 | a round that waits leaves the position between the old one and `last`, and a valid request-line state |
| `Driver.ParseRound` | src/http.c:305-324 | the two parser calls and the integer tests end as `AsWrittenRound` on the held bytes, and save the record it describes |
| `Driver.LineEndIgnoresFields` | src/http_parser.c:74-286 | whether and how the request-line parser fails does not depend on the fields it has already recorded |
| `Driver.StepIgnoresFields` | src/http_parser.c:79-285 | the same for one byte |
| `Driver.InvalidRequestStalls` | src/http.c:305-312 | as written, once a request line is refused with `INVALID_REQUEST`, every later round waits with position and state unchanged |
| `Driver.RelativeTargetLeftWaiting` | src/http.c:305-312 | `GET x HTTP/1.1` leaves the as-written loop waiting at position 0, where the intended round closes with code 11 |
| `Driver.ResumeRound` | src/http.c:305-324 | the intended round, where each phase resumes its own parser: a waiting round saves all the bytes read and a state of that phase's parser |
| `Driver.HeaderRound` | src/http.c:317-324 | the header half of that round, with the same guarantee |
| `Driver.RoundSplit` | src/http.c:305-324 | a round over `[pos, c)` equals a round over `[pos, b)` continued over `[b, c)` |
| `Driver.RoundLocal` | src/http.c:305-324 | a round reads only the bytes before `last` |
| `Driver.HeaderRoundSplit` | src/http.c:317-324 | the header half splits the same way |
| `Driver.RoundChunkSplit` | src/http.c:305-324 | with each phase resuming its own parser, a request split over any number of reads is answered or refused exactly as in one read, with the same fields and header list |
| `Driver.HeadersInLaterReadRefused` | src/http.c:305-324 | as written, `GET / HTTP/1.1\r\n` followed in a later read by `Host: a\r\n\r\n` is closed with `INVALID_METHOD`, though the same bytes in one read are answered |
| `Driver.HeadersInLaterReadAnswered` | src/http.c:305-324 | with each phase resuming its own parser, the same two reads are answered |
| `Driver.Answer` | src/http.c:326-362 | the filename is `parse_uri`'s for the parsed URI; a missing file is 404 and an unreadable one 403, both keeping the connection and the header list; a readable file is 304 when a header names its time and 200 otherwise, the list is drained, and the connection closes exactly when no header asked for keep-alive; only the header list of the request may change |

## Left out

- The I/O of `do_request` is not modelled: `read` (its bytes are `Http.Receive`'s argument), `errno`, the `epoll_ctl` re-arm, `add_timer`/`del_timer`.
- `do_error`, `serve_static` and `writen` are left out: they format and write with `sprintf`, `mmap`, `open`, `localtime_r` and `strftime`. `Driver.Answer` returns the reply it would send instead.
- `stat` is a parameter of `Driver.Answer`, telling whether the file is missing, unreadable or readable with a modification time.
- `http_process_if_modified_since` is not modelled: its date parsing (`strptime`, `mktime`) and floating-point comparison (`difftime`, `fabs`) are a parameter, `sameTime`, deciding whether a value names the file's time.
- `http_close_conn`, `free` of the header nodes and of `http_out_t`, and the leak of `http_out_t` on the 404 and 403 paths are not modelled.
- The `request_end` marker is not modelled: `init_http_request` never sets it, so the test `if (!r->request_end)` reads an indeterminate value, and nothing in the core reads it afterwards.
- `int` overflow of the version accumulators is not modelled: versions are unbounded integers. The 4-byte load of `cst_strcmp` is modelled as 4 byte comparisons; it is reached only when the slot distance `p - m` is 3 or 4, so it never reads past the end of the array (`HttpParser.SlotOf`). Its alignment is not modelled.
- Spans that cross the wrap of the ring: the model reads them byte by byte at `index % MAX_BUF` (`HttpRequest.Span`, `Driver.Answer`). In the C the subtraction of addresses for such a span is negative: `key_end - key_start` and `len` at src/http_request.c:109-111, and `uri_length` at src/http.c:335. `strncmp` then receives a huge count, the handlers read past the span, `uri[uri_length] = '\0'` (src/http.c:83) writes before the URI, and `strchr` and `strncat` (src/http.c:89-108) read past it. None of this is modelled.
- `parse_uri` writes a NUL over the byte after the URI in the ring; the model reads the URI up to that byte instead. The model does not bound the filename by the capacity of the `SHORTLINE` buffer.
- `HeaderParser.RunHeadersSplit`: the C entry asserts a header state of 0, so resuming the header machine is proved of the state machine and used only by the intended round `Driver.ResumeRound`. `HttpParser.ParseRequestBody` requires state 0.
- `List`: the `container_of`/`list_entry` mapping from list nodes to `http_header_t` records is not modelled. The request's header list is a sequence of spans, newest first, while `List` proves the `list.h` operations on a ring of nodes.
- src/mainloop.c, src/timer.h and src/logger.h are not part of this model: they hold the reactor, the timers and logging.

## Findings

| source | as written | input that shows it | evidently intended | confidence | as-written member | corrected member |
|---|---|---|---|---|---|---|
| src/http.c:307-312 | `rc == EAGAIN` continues reading, but `HTTP_PARSER_INVALID_REQUEST` is also 11 (src/http.h:14-15), so a refused request line is read as "need more", and the same bytes are refused again after every read | `GET x HTTP/1.1\r\n` | close the connection on every parser error | not executed | `Driver.InvalidRequestStalls` | `Driver.ResumeRound` |
| src/http.c:306-324 | after the header parser returns `EAGAIN`, the next round calls the request-line parser again, now from the header parser's position and state | `GET / HTTP/1.1\r\n` in one read, then `Host: a\r\n\r\n` in the next | resume the header parser after a header `EAGAIN`, so that the split does not matter | not executed | `Driver.HeadersInLaterReadRefused` | `Driver.RoundChunkSplit` |
