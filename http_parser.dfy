/**
 * `http_parse_request_line` and `http_parse_request_body` as methods on the
 * request record: each walks the unparsed bytes of the ring buffer one at a
 * time, writing the request's fields as it goes, and is proved to end exactly
 * as the state machine of `LineParser` or `HeaderParser` does on the bytes the
 * ring holds.
 */
module HttpParser {
  import opened Bytes
  import opened HttpDefs
  import opened LineParser
  import opened HeaderParser

  /** The request-line fields of `r`. */
  function LineFieldsOf(r: Request): LineFields
    reads r
  {
    LineFields(r.requestStart, r.requestMethod, r.uriStart, r.uriEnd, r.httpMajor, r.httpMinor)
  }

  /** The header fields of `r`. */
  function ScanOf(r: Request): Scan
    reads r
  {
    Scan(r.curKeyStart, r.curKeyEnd, r.curValueStart, r.curValueEnd, r.headers)
  }

  /** The bytes the parser can address: logical indices below `r.last`, read through the ring. */
  function Held(r: Request): seq<Byte>
    reads r, r.buf
    requires r.buf.Length == MAX_BUF
  {
    RingView(r.buf[..], r.last)
  }

  /**
   * `http_parse_request_line`: from the saved state, over the bytes
   * `[r.pos, r.last)`. Out of bytes, it saves the state and the position and
   * returns `EAGAIN`; at the line feed it returns `0` with the position after
   * it and the state reset; on a grammar error it returns the error and leaves
   * position and state as they were. In every case the fields are those the
   * state machine leaves, including those written before an error.
   */
  method ParseRequestLine(r: Request) returns (rc: ParseResult)
    requires r.Valid()
    modifies r
    ensures r.Valid()
    ensures var o := RunLine(old(Held(r)), old(r.pos), old(r.last), LineStateOf(old(r.state)), old(LineFieldsOf(r)));
      match o
      case Suspended(s, f) => rc == Again && r.pos == old(r.last) && r.state == LineCode(s) && LineFieldsOf(r) == f
      case Finished(f, next) => rc == Ok && r.pos == next && r.state == 0 && LineFieldsOf(r) == f
      case Failed(e, f) => rc == e && r.pos == old(r.pos) && r.state == old(r.state) && LineFieldsOf(r) == f
    ensures r.last == old(r.last) && r.stream == old(r.stream) && ScanOf(r) == old(ScanOf(r))
    ensures r.root == old(r.root) && r.fd == old(r.fd) && r.epfd == old(r.epfd)
  {
    ghost var v := Held(r);
    ghost var o := RunLine(v, r.pos, r.last, LineStateOf(r.state), LineFieldsOf(r));
    var s := LineStateOf(r.state);
    var pi := r.pos;
    while pi < r.last
      invariant r.pos == old(r.pos) <= pi <= r.last == old(r.last)
      invariant r.state == old(r.state) && r.stream == old(r.stream) && ScanOf(r) == old(ScanOf(r))
      invariant r.root == old(r.root) && r.fd == old(r.fd) && r.epfd == old(r.epfd)
      invariant Held(r) == v
      invariant RunLine(v, pi, r.last, s, LineFieldsOf(r)) == o
      decreases r.last - pi
    {
      var mv := LineByte(r, v, pi, s);
      match mv {
        case Next(s', _) =>
          s := s';
        case Complete(_) =>
          r.pos := pi + 1;
          r.state := 0;
          return Ok;
        case Reject(e, _) =>
          return e;
      }
      pi := pi + 1;
    }
    r.pos := pi;
    r.state := LineCode(s);
    return Again;
  }

  /**
   * One turn of the `switch (state)` of `http_parse_request_line` on the byte
   * at logical index `pi`, writing the request's fields as the C does.
   */
  method LineByte(r: Request, ghost v: seq<Byte>, pi: nat, s: LineState) returns (mv: LineMove)
    requires r.buf.Length == MAX_BUF && v == Held(r) && pi < r.last
    modifies r
    ensures mv == LineStep(v, pi, s, old(LineFieldsOf(r)))
    ensures LineFieldsOf(r) == mv.fields
    ensures r.pos == old(r.pos) && r.last == old(r.last) && r.state == old(r.state)
    ensures r.stream == old(r.stream) && ScanOf(r) == old(ScanOf(r))
    ensures r.root == old(r.root) && r.fd == old(r.fd) && r.epfd == old(r.epfd)
  {
    if s.Start? || s.Method? || s.SpacesBeforeUri? || s.AfterSlashInUri? {
      mv := TargetByte(r, v, pi, s);
    } else {
      mv := VersionByte(r, v, pi, s);
    }
  }

  /** The states up to the end of the request target. */
  method TargetByte(r: Request, ghost v: seq<Byte>, pi: nat, s: LineState) returns (mv: LineMove)
    requires r.buf.Length == MAX_BUF && v == Held(r) && pi < r.last
    requires s.Start? || s.Method? || s.SpacesBeforeUri? || s.AfterSlashInUri?
    modifies r
    ensures mv == LineStep(v, pi, s, old(LineFieldsOf(r)))
    ensures LineFieldsOf(r) == mv.fields
    ensures r.pos == old(r.pos) && r.last == old(r.last) && r.state == old(r.state)
    ensures r.stream == old(r.stream) && ScanOf(r) == old(ScanOf(r))
    ensures r.root == old(r.root) && r.fd == old(r.fd) && r.epfd == old(r.epfd)
  {
    var ch := r.buf[pi % MAX_BUF];
    assert ch == v[pi];
    match s {
      case Start =>
        r.requestStart := pi;
        if ch == CR || ch == LF {
          mv := Next(Start, LineFieldsOf(r));
        } else if !IsMethodChar(ch) {
          mv := Reject(InvalidMethod, LineFieldsOf(r));
        } else {
          mv := Next(Method, LineFieldsOf(r));
        }
      case Method =>
        if ch == SP {
          ClassifyAtSpace(r, v, pi);
          mv := Next(SpacesBeforeUri, LineFieldsOf(r));
        } else if !IsMethodChar(ch) {
          mv := Reject(InvalidMethod, LineFieldsOf(r));
        } else {
          mv := Next(Method, LineFieldsOf(r));
        }
      case SpacesBeforeUri =>
        if ch == '/' {
          r.uriStart := pi;
          mv := Next(AfterSlashInUri, LineFieldsOf(r));
        } else if ch == SP {
          mv := Next(SpacesBeforeUri, LineFieldsOf(r));
        } else {
          mv := Reject(InvalidRequest, LineFieldsOf(r));
        }
      case AfterSlashInUri =>
        if ch == SP {
          r.uriEnd := pi;
          mv := Next(Http, LineFieldsOf(r));
        } else {
          mv := Next(AfterSlashInUri, LineFieldsOf(r));
        }
      case _ =>
        assert false;
    }
  }

  /**
   * The space that ends the method token: `switch (p - m)` on the slot
   * distance, and `cst_strcmp` on the 4 bytes from the token's slot.
   */
  method ClassifyAtSpace(r: Request, ghost v: seq<Byte>, pi: nat)
    requires r.buf.Length == MAX_BUF && v == Held(r) && pi < r.last && v[pi] == SP
    modifies r`requestMethod
    ensures LineStep(v, pi, Method, old(LineFieldsOf(r))) == Next(SpacesBeforeUri, LineFieldsOf(r))
  {
    var len := TokenDistance(pi, r.requestStart);
    if len == 3 || len == 4 {
      var a := r.requestStart % MAX_BUF;
      var window := r.buf[a..a + 4];
      RingWindow(r.buf[..], r.last, pi, len);
      assert window == r.buf[..][a..a + 4];
      r.requestMethod := ClassifyMethod(len, window, r.requestMethod);
    } else {
      r.requestMethod := Unknown;
    }
  }

  /** The 4 slots from `pi % MAX_BUF - len` hold what the ring view holds at logical `[pi - len, pi - len + 4)`. */
  lemma RingWindow(ring: seq<Byte>, last: nat, pi: nat, len: int)
    requires |ring| == MAX_BUF && pi < last && 3 <= len <= pi % MAX_BUF
    ensures pi % MAX_BUF - len + 4 <= MAX_BUF
    ensures ring[pi % MAX_BUF - len..pi % MAX_BUF - len + 4] == RingView(ring, last)[pi - len..pi - len + 4]
  {
    var a := pi % MAX_BUF - len;
    var b := pi - len;
    var view := RingView(ring, last);
    SlotOf(pi, len, 0);
    SlotOf(pi, len, 1);
    SlotOf(pi, len, 2);
    SlotOf(pi, len, 3);
    assert ring[a..a + 4] == [ring[a], ring[a + 1], ring[a + 2], ring[a + 3]];
    assert view[b..b + 4] == [view[b], view[b + 1], view[b + 2], view[b + 3]];
  }

  /**
   * The 4-byte load of `cst_strcmp` at the token's slot stays inside the
   * array, and each of its bytes is the one the ring holds for logical index
   * `pi - len + k`.
   */
  lemma SlotOf(pi: nat, len: int, k: nat)
    requires 3 <= len <= pi % MAX_BUF && k < 4
    ensures pi % MAX_BUF - len + k < MAX_BUF
    ensures (pi - len + k) % MAX_BUF == pi % MAX_BUF - len + k
  {
    var q := pi / MAX_BUF;
    assert pi - len + k == q * MAX_BUF + (pi % MAX_BUF - len + k);
  }

  /** The states of the protocol version and the line end. */
  method VersionByte(r: Request, ghost v: seq<Byte>, pi: nat, s: LineState) returns (mv: LineMove)
    requires r.buf.Length == MAX_BUF && v == Held(r) && pi < r.last
    requires !(s.Start? || s.Method? || s.SpacesBeforeUri? || s.AfterSlashInUri?)
    modifies r
    ensures mv == LineStep(v, pi, s, old(LineFieldsOf(r)))
    ensures LineFieldsOf(r) == mv.fields
    ensures r.pos == old(r.pos) && r.last == old(r.last) && r.state == old(r.state)
    ensures r.stream == old(r.stream) && ScanOf(r) == old(ScanOf(r))
    ensures r.root == old(r.root) && r.fd == old(r.fd) && r.epfd == old(r.epfd)
  {
    var ch := r.buf[pi % MAX_BUF];
    assert ch == v[pi];
    match s {
      case Http =>
        mv := Expect(ch, 'H', HttpH, LineFieldsOf(r), true);
      case HttpH =>
        mv := Expect(ch, 'T', HttpHT, LineFieldsOf(r), false);
      case HttpHT =>
        mv := Expect(ch, 'T', HttpHTT, LineFieldsOf(r), false);
      case HttpHTT =>
        mv := Expect(ch, 'P', HttpHTTP, LineFieldsOf(r), false);
      case HttpHTTP =>
        mv := Expect(ch, '/', FirstMajorDigit, LineFieldsOf(r), false);
      case FirstMajorDigit =>
        if ch < '1' || ch > '9' {
          mv := Reject(InvalidRequest, LineFieldsOf(r));
        } else {
          r.httpMajor := DigitValue(ch);
          mv := Next(MajorDigit, LineFieldsOf(r));
        }
      case MajorDigit =>
        if ch == '.' {
          mv := Next(FirstMinorDigit, LineFieldsOf(r));
        } else if !IsDigit(ch) {
          mv := Reject(InvalidRequest, LineFieldsOf(r));
        } else {
          r.httpMajor := r.httpMajor * 10 + DigitValue(ch);
          mv := Next(MajorDigit, LineFieldsOf(r));
        }
      case FirstMinorDigit =>
        if !IsDigit(ch) {
          mv := Reject(InvalidRequest, LineFieldsOf(r));
        } else {
          r.httpMinor := DigitValue(ch);
          mv := Next(MinorDigit, LineFieldsOf(r));
        }
      case MinorDigit =>
        if ch == CR {
          mv := Next(AlmostDone, LineFieldsOf(r));
        } else if ch == LF {
          mv := Complete(LineFieldsOf(r));
        } else if ch == SP {
          mv := Next(SpacesAfterDigit, LineFieldsOf(r));
        } else if !IsDigit(ch) {
          mv := Reject(InvalidRequest, LineFieldsOf(r));
        } else {
          r.httpMinor := r.httpMinor * 10 + DigitValue(ch);
          mv := Next(MinorDigit, LineFieldsOf(r));
        }
      case SpacesAfterDigit =>
        if ch == SP {
          mv := Next(SpacesAfterDigit, LineFieldsOf(r));
        } else if ch == CR {
          mv := Next(AlmostDone, LineFieldsOf(r));
        } else if ch == LF {
          mv := Complete(LineFieldsOf(r));
        } else {
          mv := Reject(InvalidRequest, LineFieldsOf(r));
        }
      case AlmostDone =>
        if ch == LF {
          mv := Complete(LineFieldsOf(r));
        } else {
          mv := Reject(InvalidRequest, LineFieldsOf(r));
        }
      case _ =>
        assert false;
    }
  }

  /** A state that accepts one literal byte (and, in `s_http`, leading spaces). */
  function Expect(ch: Byte, want: Byte, next: LineState, f: LineFields, spaces: bool): (mv: LineMove)
    ensures mv.fields == f
    ensures mv.Next? <==> ch == want || (spaces && ch == SP)
  {
    if ch == want then Next(next, f)
    else if spaces && ch == SP then Next(Http, f)
    else Reject(InvalidRequest, f)
  }
  /**
   * `http_parse_request_body`: the header lines, from the start state (the C
   * asserts the saved state is `s_start`, so the parser cannot resume a header
   * it left half read). Out of bytes, it saves the state and the position and
   * returns `EAGAIN`; after the blank line it returns `0` with the position
   * after it; on an invalid header it returns the error and leaves position and
   * state as they were. Completed headers are pushed on the front of the list.
   */
  method ParseRequestBody(r: Request) returns (rc: ParseResult)
    requires r.Valid() && r.state == 0
    modifies r
    ensures r.Valid()
    ensures var o := RunHeaders(old(Held(r)), old(r.pos), old(r.last), HStart, old(ScanOf(r)));
      match o
      case HSuspended(s, sc) => rc == Again && r.pos == old(r.last) && r.state == HeaderCode(s) && ScanOf(r) == sc
      case HFinished(sc, next) => rc == Ok && r.pos == next && r.state == 0 && ScanOf(r) == sc
      case HFailed(sc) => rc == InvalidHeader && r.pos == old(r.pos) && r.state == 0 && ScanOf(r) == sc
    ensures r.last == old(r.last) && r.stream == old(r.stream) && LineFieldsOf(r) == old(LineFieldsOf(r))
    ensures r.root == old(r.root) && r.fd == old(r.fd) && r.epfd == old(r.epfd)
  {
    ghost var v := Held(r);
    ghost var o := RunHeaders(v, r.pos, r.last, HStart, ScanOf(r));
    var s := HeaderStateOf(r.state);
    var pi := r.pos;
    while pi < r.last
      invariant r.pos == old(r.pos) <= pi <= r.last == old(r.last)
      invariant r.state == 0 && r.stream == old(r.stream) && LineFieldsOf(r) == old(LineFieldsOf(r))
      invariant r.root == old(r.root) && r.fd == old(r.fd) && r.epfd == old(r.epfd)
      invariant Held(r) == v
      invariant RunHeaders(v, pi, r.last, s, ScanOf(r)) == o
      decreases r.last - pi
    {
      var mv := HeaderByte(r, v, pi, s);
      match mv {
        case Go(s', _) =>
          s := s';
        case Done(_) =>
          r.pos := pi + 1;
          r.state := 0;
          return Ok;
        case Bad(_) =>
          return InvalidHeader;
      }
      pi := pi + 1;
    }
    r.pos := pi;
    r.state := HeaderCode(s);
    return Again;
  }

  /** One turn of the `switch (state)` of `http_parse_request_body` on the byte at logical index `pi`. */
  method HeaderByte(r: Request, ghost v: seq<Byte>, pi: nat, s: HeaderState) returns (mv: HeaderMove)
    requires r.buf.Length == MAX_BUF && v == Held(r) && pi < r.last
    modifies r
    ensures mv == HeaderStep(v, pi, s, old(ScanOf(r)))
    ensures ScanOf(r) == mv.scan
    ensures r.pos == old(r.pos) && r.last == old(r.last) && r.state == old(r.state)
    ensures r.stream == old(r.stream) && LineFieldsOf(r) == old(LineFieldsOf(r))
    ensures r.root == old(r.root) && r.fd == old(r.fd) && r.epfd == old(r.epfd)
  {
    var ch := r.buf[pi % MAX_BUF];
    assert ch == v[pi];
    match s {
      case HStart =>
        if ch != CR && ch != LF {
          r.curKeyStart := pi;
          mv := Go(Key, ScanOf(r));
        } else {
          mv := Go(HStart, ScanOf(r));
        }
      case Key =>
        if ch == SP {
          r.curKeyEnd := pi;
          mv := Go(SpacesBeforeColon, ScanOf(r));
        } else if ch == ':' {
          r.curKeyEnd := pi;
          mv := Go(SpacesAfterColon, ScanOf(r));
        } else {
          mv := Go(Key, ScanOf(r));
        }
      case SpacesBeforeColon =>
        if ch == SP {
          mv := Go(SpacesBeforeColon, ScanOf(r));
        } else if ch == ':' {
          mv := Go(SpacesAfterColon, ScanOf(r));
        } else {
          mv := Bad(ScanOf(r));
        }
      case SpacesAfterColon =>
        if ch == SP {
          mv := Go(SpacesAfterColon, ScanOf(r));
        } else {
          r.curValueStart := pi;
          mv := Go(Value, ScanOf(r));
        }
      case Value =>
        if ch == CR {
          r.curValueEnd := pi;
          mv := Go(Cr, ScanOf(r));
        } else if ch == LF {
          r.curValueEnd := pi;
          mv := Go(Crlf, ScanOf(r));
        } else {
          mv := Go(Value, ScanOf(r));
        }
      case Cr =>
        if ch == LF {
          var hd := Header(r.curKeyStart, r.curKeyEnd, r.curValueStart, r.curValueEnd);
          r.headers := [hd] + r.headers;
          mv := Go(Crlf, ScanOf(r));
        } else {
          mv := Bad(ScanOf(r));
        }
      case Crlf =>
        if ch == CR {
          mv := Go(Crlfcr, ScanOf(r));
        } else {
          r.curKeyStart := pi;
          mv := Go(Key, ScanOf(r));
        }
      case Crlfcr =>
        if ch == LF {
          mv := Done(ScanOf(r));
        } else {
          mv := Bad(ScanOf(r));
        }
    }
  }
  /** The ring holds the last `MAX_BUF` bytes received: from `Oldest(r)` on, it agrees with the stream. */
  function Oldest(r: Request): nat
    reads r
  {
    if r.last < MAX_BUF then 0 else r.last - MAX_BUF
  }

  lemma HeldIsRecent(r: Request)
    requires r.Valid()
    ensures Oldest(r) <= r.pos && Agree(Held(r), r.stream, Oldest(r), r.last)
  {
  }

  /**
   * Resuming the request line reads the bytes actually received, as long as a
   * method token already begun started at or before `pos` and within the
   * last `MAX_BUF` bytes; an older start would have been overwritten by later
   * reads.
   */
  lemma LineSeesStream(r: Request)
    requires r.Valid()
    requires LineStateOf(r.state) == Method ==> Oldest(r) <= r.requestStart <= r.pos
    ensures RunLine(Held(r), r.pos, r.last, LineStateOf(r.state), LineFieldsOf(r))
         == RunLine(r.stream, r.pos, r.last, LineStateOf(r.state), LineFieldsOf(r))
  {
    HeldIsRecent(r);
    RunLineLocal(Held(r), r.stream, Oldest(r), r.pos, r.last, LineStateOf(r.state), LineFieldsOf(r));
  }

  /** The header parser reads only the unparsed bytes, which the ring always still holds. */
  lemma HeadersSeeStream(r: Request, s: HeaderState)
    requires r.Valid()
    ensures RunHeaders(Held(r), r.pos, r.last, s, ScanOf(r)) == RunHeaders(r.stream, r.pos, r.last, s, ScanOf(r))
  {
    HeldIsRecent(r);
    RunHeadersLocal(Held(r), r.stream, r.pos, r.last, s, ScanOf(r));
  }
}
