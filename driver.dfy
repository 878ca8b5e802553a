/**
 * The parsing half of the loop of `do_request` (`src/http.c`): after every
 * read the request-line parser is called again from the state the request
 * record saved, then, once the line is complete, the header parser; each
 * return code decides whether the loop reads again, closes the connection or
 * goes on to answer. `AsWrittenRound` is that round as the C code performs
 * it; `ParseRound` is the same round on the request record. `ResumeRound` is
 * the round the two resumable state machines were designed for, proved
 * insensitive to how the bytes are split into reads.
 */
module Driver {
  import opened Bytes
  import opened HttpDefs
  import opened LineParser
  import opened HeaderParser
  import opened HttpParser
  import opened LineFacts
  import opened HeaderFacts
  import Http
  import HttpRequest

  /** What the loop does after a parser call. */
  datatype Action = KeepReading | Proceed | Close

  /**
   * The tests of `do_request` on the integer a parser returns: `rc == EAGAIN`
   * reads again, any other nonzero code closes, and `0` goes on.
   */
  function ActionOfCode(rc: int): Action {
    if rc == EAGAIN then KeepReading else if rc != 0 then Close else Proceed
  }

  /** The same decision on the result kept as a value: "need more" reads again and every error closes. */
  function ActionOf(rc: ParseResult): (a: Action)
    ensures a == KeepReading <==> rc == Again
    ensures a == Proceed <==> rc == Ok
    ensures a == Close <==> rc.IsError()
  {
    if rc == Again then KeepReading else if rc == Ok then Proceed else Close
  }

  /**
   * The integer tests take the intended decision for every result except
   * `InvalidRequest`, whose code is the code of `Again`.
   */
  lemma CodeTestsAgreeExceptInvalidRequest(rc: ParseResult)
    ensures ActionOfCode(rc.Code()) == ActionOf(rc) <==> rc != InvalidRequest
  {
  }

  /** What a request-line call reports, from the outcome of its loop. */
  function LineResult(o: LineOutcome): (rc: ParseResult)
    ensures o.Suspended? ==> rc == Again
    ensures o.Finished? ==> rc == Ok
    ensures o.Failed? ==> rc == o.error
  {
    match o
    case Suspended(_, _) => Again
    case Finished(_, _) => Ok
    case Failed(e, _) => e
  }

  /** What a header call reports, from the outcome of its loop. */
  function HeaderResult(o: HeaderOutcome): (rc: ParseResult)
    ensures rc == Again <==> o.HSuspended?
    ensures rc == Ok <==> o.HFinished?
    ensures rc == InvalidHeader <==> o.HFailed?
  {
    match o
    case HSuspended(_, _) => Again
    case HFinished(_, _) => Ok
    case HFailed(_) => InvalidHeader
  }

  /** The fields of the request record one round reads and writes. */
  datatype Saved = Saved(pos: nat, state: nat, fields: LineFields, scan: Scan)

  /** The record as a request-line call leaves it: `pos` and `state` as in `ParseRequestLine`. */
  function AfterLine(c: Saved, last: nat, o: LineOutcome): Saved {
    match o
    case Suspended(s, f) => c.(pos := last, state := LineCode(s), fields := f)
    case Finished(f, next) => c.(pos := next, state := 0, fields := f)
    case Failed(_, f) => c.(fields := f)
  }

  /** The record as a header call leaves it: `pos` and `state` as in `ParseRequestBody`. */
  function AfterHeaders(c: Saved, last: nat, o: HeaderOutcome): Saved {
    match o
    case HSuspended(s, sc) => c.(pos := last, state := HeaderCode(s), scan := sc)
    case HFinished(sc, next) => c.(pos := next, state := 0, scan := sc)
    case HFailed(sc) => c.(state := 0, scan := sc)
  }

  /** How a round ends: read again from a saved record, answer the request, or close with the code that sent the loop to `err`. */
  datatype Round<C> = Wait(at: C) | Respond(at: C) | Closed(code: int)

  /**
   * One pass of the loop of `do_request` after a read has raised `last`, as
   * written: the request-line parser always runs first, from whatever state
   * the record holds, and each return code is compared as an integer.
   */
  function AsWrittenRound(v: seq<Byte>, last: nat, c: Saved): (rd: Round<Saved>)
    requires c.pos <= last <= |v| && c.state < 15
    ensures rd.Wait? ==> c.pos <= rd.at.pos <= last && rd.at.state < 15
  {
    var o := RunLine(v, c.pos, last, LineStateOf(c.state), c.fields);
    var c' := AfterLine(c, last, o);
    match ActionOfCode(LineResult(o).Code())
    case KeepReading => Wait(c')
    case Close => Closed(LineResult(o).Code())
    case Proceed =>
      var ho := RunHeaders(v, c'.pos, last, HStart, c'.scan);
      var c'' := AfterHeaders(c', last, ho);
      match ActionOfCode(HeaderResult(ho).Code())
      case KeepReading => Wait(c'')
      case Close => Closed(HeaderResult(ho).Code())
      case Proceed => Respond(c'')
  }

  /** The record of `r` a round reads. */
  function SavedOf(r: Request): Saved
    reads r
  {
    Saved(r.pos, r.state, LineFieldsOf(r), ScanOf(r))
  }

  /**
   * The parser calls of one pass of the loop (lines 306-324): the request
   * line, then, on `0`, the headers, with the C tests on the integer codes.
   * It ends as `AsWrittenRound` on the bytes the ring holds, and leaves the
   * record it saves.
   */
  method ParseRound(r: Request) returns (rd: Round<Saved>)
    requires r.Valid()
    modifies r
    ensures r.Valid()
    ensures rd == AsWrittenRound(old(Held(r)), old(r.last), old(SavedOf(r)))
    ensures !rd.Closed? ==> SavedOf(r) == rd.at
    ensures r.last == old(r.last) && r.stream == old(r.stream)
    ensures r.root == old(r.root) && r.fd == old(r.fd) && r.epfd == old(r.epfd)
  {
    var rc := ParseRequestLine(r);
    if rc.Code() == EAGAIN {
      return Wait(SavedOf(r));
    }
    if rc.Code() != 0 {
      return Closed(rc.Code());
    }
    rc := ParseRequestBody(r);
    if rc.Code() == EAGAIN {
      return Wait(SavedOf(r));
    }
    if rc.Code() != 0 {
      return Closed(rc.Code());
    }
    return Respond(SavedOf(r));
  }

  /**
   * Rounds after successive reads: the k-th round sees the bytes up to
   * `cuts[k]` and starts from the record the previous one saved, until a
   * round answers or closes.
   */
  function FeedAsWritten(v: seq<Byte>, cuts: seq<nat>, c: Saved): Round<Saved>
    requires Chunked(v, cuts, c.pos) && c.state < 15
    decreases |cuts|
  {
    if cuts == [] then Wait(c)
    else
      match AsWrittenRound(v[..cuts[0]], cuts[0], c)
      case Wait(c') => FeedAsWritten(v, cuts[1..], c')
      case rd => rd
  }

  /**
   * Which way a request-line run ends does not depend on the fields it starts
   * with: they are only written, or read to classify the method.
   */
  lemma {:induction false} LineEndIgnoresFields(v: seq<Byte>, i: nat, last: nat, s: LineState, f: LineFields, g: LineFields)
    requires i <= last <= |v|
    ensures RunLine(v, i, last, s, f).Failed? <==> RunLine(v, i, last, s, g).Failed?
    ensures RunLine(v, i, last, s, f).Failed? ==> RunLine(v, i, last, s, f).error == RunLine(v, i, last, s, g).error
    decreases last - i
  {
    if i < last {
      StepIgnoresFields(v, i, s, f, g);
      match LineStep(v, i, s, f)
      case Next(s', f') =>
        var g' := LineStep(v, i, s, g).fields;
        RunLineNext(v, i, last, s, f, s', f');
        RunLineNext(v, i, last, s, g, s', g');
        LineEndIgnoresFields(v, i + 1, last, s', f', g');
      case Complete(_) =>
      case Reject(_, _) =>
    }
  }

  /** One step moves to the same state, or ends the same way, whatever the fields. */
  lemma StepIgnoresFields(v: seq<Byte>, i: nat, s: LineState, f: LineFields, g: LineFields)
    requires i < |v|
    ensures LineStep(v, i, s, f).Next? <==> LineStep(v, i, s, g).Next?
    ensures LineStep(v, i, s, f).Reject? <==> LineStep(v, i, s, g).Reject?
    ensures LineStep(v, i, s, f).Next? ==> LineStep(v, i, s, f).state == LineStep(v, i, s, g).state
    ensures LineStep(v, i, s, f).Reject? ==> LineStep(v, i, s, f).error == LineStep(v, i, s, g).error
  {
  }

  /**
   * An invalid request line is never answered nor refused: its code is read
   * as `EAGAIN`, position and state stay where the error left them, and every
   * later read runs into the same error again, so the loop only ever waits.
   */
  lemma {:induction false} InvalidRequestStalls(v: seq<Byte>, cuts: seq<nat>, c: Saved)
    requires Chunked(v, cuts, c.pos) && c.state < 15 && |cuts| > 0
    requires RunLine(v, c.pos, cuts[0], LineStateOf(c.state), c.fields) == Failed(InvalidRequest, RunLine(v, c.pos, cuts[0], LineStateOf(c.state), c.fields).fields)
    ensures FeedAsWritten(v, cuts, c).Wait?
    ensures FeedAsWritten(v, cuts, c).at.pos == c.pos && FeedAsWritten(v, cuts, c).at.state == c.state
    decreases |cuts|
  {
    var c0 := cuts[0];
    var s := LineStateOf(c.state);
    RunLineLocal(v[..c0], v, 0, c.pos, c0, s, c.fields);
    var f' := RunLine(v, c.pos, c0, s, c.fields).fields;
    var c' := c.(fields := f');
    assert AsWrittenRound(v[..c0], c0, c) == Wait(c');
    if |cuts| > 1 {
      LineEndIgnoresFields(v, c.pos, c0, s, c.fields, f');
      RunLineSplit(v, c.pos, c0, cuts[1], s, f');
      InvalidRequestStalls(v, cuts[1..], c');
    }
  }

  /** The phase a connection is in: reading the request line, or the header lines after it. */
  datatype Phase = InLine | InHeaders

  /** The record a round saves, with the phase whose parser resumes next. */
  datatype Progress = Progress(phase: Phase, at: Saved)

  /** The saved state is a state of the phase's parser. */
  predicate Resumable(p: Progress) {
    if p.phase == InLine then p.at.state < 15 else p.at.state < 8
  }

  /**
   * One pass of the loop as the two resumable parsers were designed for: the
   * parser of the current phase resumes from its own saved state, and every
   * error closes the connection.
   */
  function ResumeRound(v: seq<Byte>, last: nat, p: Progress): (rd: Round<Progress>)
    requires p.at.pos <= last <= |v| && Resumable(p)
    ensures rd.Wait? ==> Resumable(rd.at) && rd.at.at.pos == last
  {
    var c := p.at;
    match p.phase
    case InHeaders => HeaderRound(v, last, c, HeaderStateOf(c.state))
    case InLine =>
      var o := RunLine(v, c.pos, last, LineStateOf(c.state), c.fields);
      var c' := AfterLine(c, last, o);
      match ActionOf(LineResult(o))
      case KeepReading => Wait(Progress(InLine, c'))
      case Close => Closed(LineResult(o).Code())
      case Proceed => HeaderRound(v, last, c', HStart)
  }

  /** The header phase of `ResumeRound`, from header state `s`. */
  function HeaderRound(v: seq<Byte>, last: nat, c: Saved, s: HeaderState): (rd: Round<Progress>)
    requires c.pos <= last <= |v|
    ensures rd.Wait? ==> Resumable(rd.at) && rd.at.at.pos == last
  {
    var o := RunHeaders(v, c.pos, last, s, c.scan);
    var c' := AfterHeaders(c, last, o);
    match ActionOf(HeaderResult(o))
    case KeepReading => Wait(Progress(InHeaders, c'))
    case Close => Closed(HeaderResult(o).Code())
    case Proceed => Respond(Progress(InLine, c'))
  }

  /** Go on from a round that waits, over the bytes up to `last`; a round that answered or closed stays as it is. */
  function Continue(rd: Round<Progress>, v: seq<Byte>, last: nat): Round<Progress>
    requires rd.Wait? ==> rd.at.at.pos <= last <= |v| && Resumable(rd.at)
  {
    match rd
    case Wait(p) => ResumeRound(v, last, p)
    case _ => rd
  }

  /** Resumption of the header phase: one round up to `c` is a round up to `b` continued up to `c`. */
  lemma HeaderRoundSplit(v: seq<Byte>, b: nat, c: nat, at: Saved, s: HeaderState)
    requires at.pos <= b <= c <= |v|
    ensures HeaderRound(v, c, at, s) == Continue(HeaderRound(v, b, at, s), v, c)
  {
    RunHeadersSplit(v, at.pos, b, c, s, at.scan);
    match RunHeaders(v, at.pos, b, s, at.scan)
    case HSuspended(s', _) => HeaderCodeRoundTrip(s');
    case HFinished(_, _) =>
    case HFailed(_) =>
  }

  /** Resumption of a whole round: saving after the bytes up to `b` and resuming loses nothing. */
  lemma RoundSplit(v: seq<Byte>, b: nat, c: nat, p: Progress)
    requires p.at.pos <= b <= c <= |v| && Resumable(p)
    ensures ResumeRound(v, c, p) == Continue(ResumeRound(v, b, p), v, c)
  {
    var at := p.at;
    match p.phase
    case InHeaders => HeaderRoundSplit(v, b, c, at, HeaderStateOf(at.state));
    case InLine =>
      RunLineSplit(v, at.pos, b, c, LineStateOf(at.state), at.fields);
      match RunLine(v, at.pos, b, LineStateOf(at.state), at.fields)
      case Suspended(s', _) => LineCodeRoundTrip(s');
      case Finished(f, next) => HeaderRoundSplit(v, b, c, AfterLine(at, b, Finished(f, next)), HStart);
      case Failed(_, _) =>
  }

  /** A round reads no byte at or after `last`. */
  lemma RoundLocal(v: seq<Byte>, last: nat, p: Progress)
    requires p.at.pos <= last <= |v| && Resumable(p)
    ensures ResumeRound(v[..last], last, p) == ResumeRound(v, last, p)
  {
    var at := p.at;
    var w := v[..last];
    match p.phase
    case InHeaders => RunHeadersLocal(w, v, at.pos, last, HeaderStateOf(at.state), at.scan);
    case InLine =>
      RunLineLocal(w, v, 0, at.pos, last, LineStateOf(at.state), at.fields);
      match RunLine(v, at.pos, last, LineStateOf(at.state), at.fields)
      case Finished(_, next) => RunHeadersLocal(w, v, next, last, HStart, at.scan);
      case Suspended(_, _) =>
      case Failed(_, _) =>
  }

  /** Rounds of `ResumeRound` after successive reads, until one answers or closes. */
  function FeedRounds(v: seq<Byte>, cuts: seq<nat>, p: Progress): Round<Progress>
    requires Chunked(v, cuts, p.at.pos) && Resumable(p)
    decreases |cuts|
  {
    if cuts == [] then Wait(p)
    else
      match ResumeRound(v[..cuts[0]], cuts[0], p)
      case Wait(p') => FeedRounds(v, cuts[1..], p')
      case rd => rd
  }

  /**
   * Chunk-split equivalence of the whole request: with each phase resuming
   * its own parser, a request split over any number of reads is answered or
   * refused exactly as when it arrives in one read, with the same method, URI,
   * version and header list.
   */
  lemma {:induction false} RoundChunkSplit(v: seq<Byte>, cuts: seq<nat>, p: Progress)
    requires Chunked(v, cuts, p.at.pos) && Resumable(p) && |cuts| > 0
    ensures FeedRounds(v, cuts, p) == ResumeRound(v, cuts[|cuts| - 1], p)
    decreases |cuts|
  {
    var c0 := cuts[0];
    RoundLocal(v, c0, p);
    if |cuts| > 1 {
      RoundSplit(v, c0, cuts[|cuts| - 1], p);
      match ResumeRound(v, c0, p)
      case Wait(p') => RoundChunkSplit(v, cuts[1..], p');
      case Respond(_) =>
      case Closed(_) =>
    }
  }

  /** A request whose header lines come in a read after the one that completes its request line. */
  const HEADERS_LATER: seq<Byte> := "GET / HTTP/1.1\r\nHost: a\r\n\r\n"

  /** `v` is `HEADERS_LATER`, byte by byte: a request line, then one header line and the empty line. */
  predicate HeadersLaterAt(v: seq<Byte>) {
    |v| == 27 && RequestLineAt(v) && HeaderBlockAt(v)
  }

  predicate RequestLineAt(v: seq<Byte>)
    requires |v| >= 16
  {
    && v[0] == 'G' && v[1] == 'E' && v[2] == 'T' && v[3] == SP && v[4] == '/' && v[5] == SP
    && v[6] == 'H' && v[7] == 'T' && v[8] == 'T' && v[9] == 'P' && v[10] == '/'
    && v[11] == '1' && v[12] == '.' && v[13] == '1' && v[14] == CR && v[15] == LF
  }

  predicate HeaderBlockAt(v: seq<Byte>)
    requires |v| >= 27
  {
    && v[16] == 'H' && v[17] == 'o' && v[18] == 's' && v[19] == 't' && v[20] == ':' && v[21] == SP
    && v[22] == 'a' && v[23] == CR && v[24] == LF && v[25] == CR && v[26] == LF
  }

  lemma HeadersLaterBytes()
    ensures HeadersLaterAt(HEADERS_LATER)
  {
    var v := HEADERS_LATER;
    assert |v| == 27;
    assert RequestLineAt(v);
    assert HeaderBlockAt(v);
  }

  /** The request line ends at index 16, whether or not the header bytes have arrived. */
  lemma LineOfHeadersLater(v: seq<Byte>, f: LineFields)
    requires HeadersLaterAt(v)
    ensures RunLine(v, 0, 16, Start, f).Finished?
    ensures RunLine(v, 0, 16, Start, f).next == 16
    ensures RunLine(v[..16], 0, 16, Start, f) == RunLine(v, 0, 16, Start, f)
  {
    var w := v[..16];
    WellFormedLineParses(w, 3, 4, 5, 6, 12, 14, 14, f);
    RunLineLocal(w, v, 0, 0, 16, Start, f);
  }

  /** The header block of `HEADERS_LATER` completes the request in one call. */
  lemma HeadersOfHeadersLater(v: seq<Byte>, sc: Scan)
    requires HeadersLaterAt(v)
    ensures RunHeaders(v, 16, 27, HStart, sc).HFinished?
  {
    assert ColonAt(v, Header(16, 20, 22, 23), 20);
    WellFormedHeadersParse(v, [Header(16, 20, 22, 23)], 27, sc);
  }

  /** The round after the header bytes arrive runs the request-line parser into `Host`. */
  lemma SecondReadRefused(v: seq<Byte>, f1: LineFields, sc: Scan)
    requires HeadersLaterAt(v)
    ensures AsWrittenRound(v, 27, Saved(16, 0, f1, sc)) == Closed(InvalidMethod.Code())
  {
    RunLineNext(v, 16, 27, Start, f1, Method, f1.(requestStart := 16));
  }

  /**
   * As written, the loop hands the first header bytes to the request-line
   * parser: `HEADERS_LATER` read in one piece is answered, but read as its
   * request line and then its headers, `Host` is taken for a method token and
   * the connection is closed with `HTTP_PARSER_INVALID_METHOD`.
   */
  lemma HeadersInLaterReadRefused(f: LineFields, sc: Scan)
    ensures AsWrittenRound(HEADERS_LATER, 27, Saved(0, 0, f, sc)).Respond?
    ensures FeedAsWritten(HEADERS_LATER, [16, 27], Saved(0, 0, f, sc)) == Closed(InvalidMethod.Code())
  {
    HeadersLaterBytes();
    HeadersInLaterReadRefusedAt(HEADERS_LATER, f, sc);
  }

  lemma HeadersInLaterReadRefusedAt(v: seq<Byte>, f: LineFields, sc: Scan)
    requires HeadersLaterAt(v)
    ensures AsWrittenRound(v, 27, Saved(0, 0, f, sc)).Respond?
    ensures FeedAsWritten(v, [16, 27], Saved(0, 0, f, sc)) == Closed(InvalidMethod.Code())
  {
    LineOfHeadersLater(v, f);
    var f1 := RunLine(v, 0, 16, Start, f).fields;
    RunLineSplit(v, 0, 16, 27, Start, f);
    HeadersOfHeadersLater(v, sc);
    assert AsWrittenRound(v[..16], 16, Saved(0, 0, f, sc)) == Wait(Saved(16, 0, f1, sc));
    assert v[..27] == v;
    SecondReadRefused(v, f1, sc);
  }

  /** Resuming each phase's own parser, the same two reads are answered as one read is. */
  lemma HeadersInLaterReadAnswered(f: LineFields, sc: Scan)
    ensures FeedRounds(HEADERS_LATER, [16, 27], Progress(InLine, Saved(0, 0, f, sc))).Respond?
  {
    HeadersLaterBytes();
    HeadersInLaterReadAnsweredAt(HEADERS_LATER, f, sc);
  }

  lemma HeadersInLaterReadAnsweredAt(v: seq<Byte>, f: LineFields, sc: Scan)
    requires HeadersLaterAt(v)
    ensures FeedRounds(v, [16, 27], Progress(InLine, Saved(0, 0, f, sc))).Respond?
  {
    LineOfHeadersLater(v, f);
    RunLineSplit(v, 0, 16, 27, Start, f);
    HeadersOfHeadersLater(v, sc);
    RoundChunkSplit(v, [16, 27], Progress(InLine, Saved(0, 0, f, sc)));
  }

  /** A request line whose target does not start with `/`. */
  const RELATIVE_TARGET: seq<Byte> := "GET x HTTP/1.1\r\n"

  /**
   * As written, a request line refused with `HTTP_PARSER_INVALID_REQUEST` is
   * read as `EAGAIN`: the loop waits for more bytes, at the same position and
   * state. The intended round closes the connection with code 11.
   */
  lemma RelativeTargetLeftWaiting(f: LineFields, sc: Scan)
    ensures AsWrittenRound(RELATIVE_TARGET, 16, Saved(0, 0, f, sc)).Wait?
    ensures AsWrittenRound(RELATIVE_TARGET, 16, Saved(0, 0, f, sc)).at.pos == 0
    ensures AsWrittenRound(RELATIVE_TARGET, 16, Saved(0, 0, f, sc)).at.state == 0
    ensures ResumeRound(RELATIVE_TARGET, 16, Progress(InLine, Saved(0, 0, f, sc))) == Closed(InvalidRequest.Code())
  {
    RelativeUriRejected(f);
  }

  /** What `stat` tells `do_request` about the file a request names. */
  datatype FileInfo = Missing | Unreadable | Readable(mtime: int)

  /** The response `do_request` sends: an error page, or the file with a status line. */
  datatype Reply = NotFound | Forbidden | Static(status: int)

  /**
   * The answering half of one pass of the loop (lines 326-362), once both
   * parsers returned `0`: a fresh `http_out_t`, the filename from the URI,
   * then a 404 or 403 page when the file is missing or unreadable, and
   * otherwise the file's time, the header handlers and the default status,
   * closing the connection when no header asked for keep-alive. The error
   * pages leave the header list as it was and the connection open.
   */
  method Answer(r: Request, o: Response, prior: seq<Byte>, stat: seq<Byte> -> FileInfo,
                sameTime: (seq<Byte>, int) -> bool)
      returns (filename: seq<Byte>, reply: Reply, close: bool)
    requires r.Valid() && NoNul(r.root)
    requires r.uriStart < r.uriEnd <= r.last && Held(r)[r.uriStart] == '/'
    requires HttpRequest.SpansWithin(r.headers, r.last)
    modifies r`headers, o
    ensures Http.FileFor(old(Held(r)[r.uriStart..r.uriEnd]), old(r.root), prior, filename)
    ensures stat(filename) == Missing ==> reply == NotFound && !close && r.headers == old(r.headers)
    ensures stat(filename) == Unreadable ==> reply == Forbidden && !close && r.headers == old(r.headers)
    ensures stat(filename).Readable? ==>
      && reply == Static(if HttpRequest.NotModifiedRequested(old(Held(r)), old(r.headers), stat(filename).mtime, sameTime)
                         then HTTP_NOT_MODIFIED else HTTP_OK)
      && close == !HttpRequest.KeepAliveRequested(old(Held(r)), old(r.headers))
      && r.headers == []
    ensures o.fd == old(r.fd)
    ensures r.Valid() && r.pos == old(r.pos) && r.last == old(r.last) && r.state == old(r.state)
    ensures r.stream == old(r.stream) && LineFieldsOf(r) == old(LineFieldsOf(r))
    ensures r.root == old(r.root) && r.fd == old(r.fd) && r.epfd == old(r.epfd)
    ensures r.curKeyStart == old(r.curKeyStart) && r.curKeyEnd == old(r.curKeyEnd)
    ensures r.curValueStart == old(r.curValueStart) && r.curValueEnd == old(r.curValueEnd)
  {
    var rc := Http.InitHttpOut(o, r.fd);
    var uri := HttpRequest.Span(r, r.uriStart, r.uriEnd);
    ghost var path := uri[..Http.PathLength(uri)];
    assert Http.HasSlash(r.root + path) by {
      assert uri[0] == '/';
      assert (r.root + path)[|r.root|] == '/';
    }
    filename := Http.ParseUri(uri, r.root, prior);
    var info := stat(filename);
    match info {
      case Missing =>
        return filename, NotFound, false;
      case Unreadable =>
        return filename, Forbidden, false;
      case Readable(mtime) =>
        o.mtime := mtime;
        HttpRequest.HandleHeader(r, o, sameTime);
        Http.DefaultStatus(o);
        return filename, Static(o.status), !o.keepAlive;
    }
  }
}
