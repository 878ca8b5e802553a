/**
 * The records, enumerations and constants of `src/http.h`: the parser return
 * codes, the methods, the status codes, the ring-buffer capacity, the request
 * record `http_request_t` with its initialiser, the response record `http_out_t`
 * and the header record `http_header_t`.
 */
module HttpDefs {
  import opened Bytes

  /** Capacity of each connection's ring buffer. */
  const MAX_BUF: nat := 8124

  /** `EAGAIN` as `<errno.h>` defines it on Linux. */
  const EAGAIN: int := 11

  const HTTP_OK: int := 200
  const HTTP_NOT_MODIFIED: int := 304
  const HTTP_NOT_FOUND: int := 404

  /**
   * What a parser call reports. The C functions return a bare `int`; here "need
   * more bytes" and the three grammar errors are distinct values, and `Code()`
   * gives the integer the C code returns for each.
   */
  datatype ParseResult = Ok | Again | InvalidMethod | InvalidRequest | InvalidHeader {

    predicate IsError() {
      InvalidMethod? || InvalidRequest? || InvalidHeader?
    }

    /** `0`, `EAGAIN`, or the `http_parser_retcode` value. */
    function Code(): int {
      match this
      case Ok => 0
      case Again => EAGAIN
      case InvalidMethod => 10
      case InvalidRequest => 11
      case InvalidHeader => 12
    }
  }

  /** `enum http_method`: the values are bit masks. */
  datatype HttpMethod = Unknown | Get | Head | Post {
    function Code(): int {
      match this
      case Unknown => 0x0001
      case Get => 0x0002
      case Head => 0x0004
      case Post => 0x0008
    }
  }

  /** `http_header_t` without its list link: logical indices of the key and value spans. */
  datatype Header = Header(keyStart: nat, keyEnd: nat, valueStart: nat, valueEnd: nat)

  /**
   * The buffer as the parser addresses it: logical index `j` names the byte at
   * `buf[j % MAX_BUF]`, for every index below `last`.
   */
  function RingView(ring: seq<Byte>, last: nat): (v: seq<Byte>)
    requires |ring| == MAX_BUF
    ensures |v| == last
    ensures forall j :: 0 <= j < last ==> v[j] == ring[j % MAX_BUF]
  {
    seq(last, j requires 0 <= j < last => ring[j % MAX_BUF])
  }

  /** `http_request_t`: one connection's buffer, cursors, parser state and parse results. */
  class Request {
    var root: seq<Byte>
    var fd: int
    var epfd: int

    const buf: array<Byte>
    var pos: nat
    var last: nat

    var state: nat

    var requestStart: nat
    var requestMethod: HttpMethod
    var uriStart: nat
    var uriEnd: nat
    var httpMajor: int
    var httpMinor: int

    /** The header list, most recently parsed header first. */
    var headers: seq<Header>

    var curKeyStart: nat
    var curKeyEnd: nat
    var curValueStart: nat
    var curValueEnd: nat

    /** Every byte ever read into the buffer, by logical index. */
    ghost var stream: seq<Byte>

    /**
     * The buffer never holds more than `MAX_BUF - 1` unparsed bytes, the saved
     * state is a parser state, and the last `MAX_BUF` bytes read are still in
     * the ring.
     */
    ghost predicate Valid()
      reads this, buf
    {
      && buf.Length == MAX_BUF
      && pos <= last
      && last - pos < MAX_BUF
      && state < 15
      && |stream| == last
      && forall j :: 0 <= j < last && last - MAX_BUF <= j ==> buf[j % MAX_BUF] == stream[j]
    }

    /** `malloc(sizeof(http_request_t))`: only the buffer exists; every other field is indeterminate. */
    constructor ()
      ensures fresh(buf) && buf.Length == MAX_BUF
    {
      buf := new Byte[MAX_BUF](_ => NUL);
    }

    /** `init_http_request`: empty buffer, start state, no headers; descriptors and root stored as given. */
    method InitHttpRequest(fd: int, epfd: int, root: seq<Byte>)
      requires buf.Length == MAX_BUF
      modifies this
      ensures Valid()
      ensures this.fd == fd && this.epfd == epfd && this.root == root
      ensures pos == 0 && last == 0 && state == 0
      ensures headers == [] && stream == []
      ensures requestStart == old(requestStart) && requestMethod == old(requestMethod)
      ensures uriStart == old(uriStart) && uriEnd == old(uriEnd)
      ensures httpMajor == old(httpMajor) && httpMinor == old(httpMinor)
      ensures curKeyStart == old(curKeyStart) && curKeyEnd == old(curKeyEnd)
      ensures curValueStart == old(curValueStart) && curValueEnd == old(curValueEnd)
    {
      this.fd, this.epfd, this.root := fd, epfd, root;
      pos, last, state := 0, 0, 0;
      headers, stream := [], [];
    }
  }

  /** `http_out_t`: what the response will say. */
  class Response {
    var fd: int
    var keepAlive: bool
    var mtime: int
    var modified: bool
    var status: int

    /** `malloc(sizeof(http_out_t))`: every field is indeterminate until `InitHttpOut`. */
    constructor ()
    {
    }
  }
}
