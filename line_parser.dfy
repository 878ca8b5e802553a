/**
 * The request-line state machine of `http_parse_request_line` as pure
 * functions. `LineStep` is one turn of the `for` loop over one byte; `RunLine`
 * is the loop over the logical indices `[i, last)`. Bytes are read from a view
 * `v` in which index `j` holds the byte at logical index `j` (for the ring
 * buffer, `RingView`).
 */
module LineParser {
  import opened Bytes
  import opened HttpDefs

  /** The parser states, in the order of the C enumeration (`s_start = 0`, ...). */
  datatype LineState =
    | Start | Method | SpacesBeforeUri | AfterSlashInUri
    | Http | HttpH | HttpHT | HttpHTT | HttpHTTP
    | FirstMajorDigit | MajorDigit | FirstMinorDigit | MinorDigit
    | SpacesAfterDigit | AlmostDone

  /** The integer saved in `r->state` for a state. */
  function LineCode(s: LineState): (n: nat)
    ensures n < 15
  {
    match s
    case Start => 0
    case Method => 1
    case SpacesBeforeUri => 2
    case AfterSlashInUri => 3
    case Http => 4
    case HttpH => 5
    case HttpHT => 6
    case HttpHTT => 7
    case HttpHTTP => 8
    case FirstMajorDigit => 9
    case MajorDigit => 10
    case FirstMinorDigit => 11
    case MinorDigit => 12
    case SpacesAfterDigit => 13
    case AlmostDone => 14
  }

  /** The state the parser resumes in when `r->state == n`; the inverse of `LineCode`. */
  function LineStateOf(n: nat): (s: LineState)
    requires n < 15
    ensures LineCode(s) == n
  {
    match n
    case 0 => Start
    case 1 => Method
    case 2 => SpacesBeforeUri
    case 3 => AfterSlashInUri
    case 4 => Http
    case 5 => HttpH
    case 6 => HttpHT
    case 7 => HttpHTT
    case 8 => HttpHTTP
    case 9 => FirstMajorDigit
    case 10 => MajorDigit
    case 11 => FirstMinorDigit
    case 12 => MinorDigit
    case 13 => SpacesAfterDigit
    case _ => AlmostDone
  }

  lemma LineCodeRoundTrip(s: LineState)
    ensures LineStateOf(LineCode(s)) == s
  {
  }

  /** The fields of the request the request-line parser writes. */
  datatype LineFields = LineFields(
    requestStart: nat, requestMethod: HttpMethod, uriStart: nat, uriEnd: nat, major: int, minor: int)

  /**
   * The method chosen when the method token ends: the token's length is `len`
   * and `window` is the 4 bytes `cst_strcmp` loads from the token's start.
   * Lengths 3 and 4 are compared against `GET `, `POST` and `HEAD`; a 3- or
   * 4-byte token that matches none leaves the method as it was, and every other
   * length gives `Unknown`.
   */
  function ClassifyMethod(len: int, window: seq<Byte>, prior: HttpMethod): HttpMethod
    requires |window| == 4
  {
    if len == 3 then
      if Spells(window, 'G', 'E', 'T', ' ') then Get else prior
    else if len == 4 then
      if Spells(window, 'P', 'O', 'S', 'T') then Post
      else if Spells(window, 'H', 'E', 'A', 'D') then Head
      else prior
    else Unknown
  }

  /** The 4-byte window holds `a b c d`: the integer comparison of `cst_strcmp`, byte by byte. */
  predicate Spells(window: seq<Byte>, a: Byte, b: Byte, c: Byte, d: Byte)
    requires |window| == 4
  {
    window[0] == a && window[1] == b && window[2] == c && window[3] == d
  }

  /**
   * `p - m` when the space is at logical index `i` and the token began at
   * logical index `m`: both are addresses in the ring, so the distance is
   * that of their array slots, negative when the token crosses the end of
   * the array.
   */
  function TokenDistance(i: nat, m: nat): (d: int)
    ensures d <= i % MAX_BUF <= i
    ensures m <= i && i - m < MAX_BUF && m % MAX_BUF <= i % MAX_BUF ==> d == i - m
  {
    (i % MAX_BUF) as int - (m % MAX_BUF) as int
  }

  /** The outcome of one byte. */
  datatype LineMove =
    | Next(state: LineState, fields: LineFields)
    | Complete(fields: LineFields)
    | Reject(error: ParseResult, fields: LineFields)

  /** One turn of the loop of `http_parse_request_line` on the byte at logical index `i`. */
  function LineStep(v: seq<Byte>, i: nat, s: LineState, f: LineFields): LineMove
    requires i < |v|
  {
    var ch := v[i];
    match s
    case Start =>
      var f' := f.(requestStart := i);
      if ch == CR || ch == LF then Next(Start, f')
      else if !IsMethodChar(ch) then Reject(InvalidMethod, f')
      else Next(Method, f')
    case Method =>
      if ch == SP then
        var len := TokenDistance(i, f.requestStart);
        var window := if len == 3 || len == 4 then v[i - len..i - len + 4] else "    ";
        Next(SpacesBeforeUri, f.(requestMethod := ClassifyMethod(len, window, f.requestMethod)))
      else if !IsMethodChar(ch) then Reject(InvalidMethod, f)
      else Next(Method, f)
    case SpacesBeforeUri =>
      if ch == '/' then Next(AfterSlashInUri, f.(uriStart := i))
      else if ch == SP then Next(SpacesBeforeUri, f)
      else Reject(InvalidRequest, f)
    case AfterSlashInUri =>
      if ch == SP then Next(Http, f.(uriEnd := i)) else Next(AfterSlashInUri, f)
    case Http =>
      if ch == SP then Next(Http, f)
      else if ch == 'H' then Next(HttpH, f)
      else Reject(InvalidRequest, f)
    case HttpH =>
      if ch == 'T' then Next(HttpHT, f) else Reject(InvalidRequest, f)
    case HttpHT =>
      if ch == 'T' then Next(HttpHTT, f) else Reject(InvalidRequest, f)
    case HttpHTT =>
      if ch == 'P' then Next(HttpHTTP, f) else Reject(InvalidRequest, f)
    case HttpHTTP =>
      if ch == '/' then Next(FirstMajorDigit, f) else Reject(InvalidRequest, f)
    case FirstMajorDigit =>
      if ch < '1' || ch > '9' then Reject(InvalidRequest, f)
      else Next(MajorDigit, f.(major := DigitValue(ch)))
    case MajorDigit =>
      if ch == '.' then Next(FirstMinorDigit, f)
      else if !IsDigit(ch) then Reject(InvalidRequest, f)
      else Next(MajorDigit, f.(major := f.major * 10 + DigitValue(ch)))
    case FirstMinorDigit =>
      if !IsDigit(ch) then Reject(InvalidRequest, f)
      else Next(MinorDigit, f.(minor := DigitValue(ch)))
    case MinorDigit =>
      if ch == CR then Next(AlmostDone, f)
      else if ch == LF then Complete(f)
      else if ch == SP then Next(SpacesAfterDigit, f)
      else if !IsDigit(ch) then Reject(InvalidRequest, f)
      else Next(MinorDigit, f.(minor := f.minor * 10 + DigitValue(ch)))
    case SpacesAfterDigit =>
      if ch == SP then Next(SpacesAfterDigit, f)
      else if ch == CR then Next(AlmostDone, f)
      else if ch == LF then Complete(f)
      else Reject(InvalidRequest, f)
    case AlmostDone =>
      if ch == LF then Complete(f) else Reject(InvalidRequest, f)
  }

  /**
   * What a call returns: out of bytes in some state (`EAGAIN`), done with the
   * index after the line feed (`0`), or a grammar error. Each carries the
   * fields as the call left them, since the C code writes them as it goes.
   */
  datatype LineOutcome =
    | Suspended(state: LineState, fields: LineFields)
    | Finished(fields: LineFields, next: nat)
    | Failed(error: ParseResult, fields: LineFields)

  /** The loop `for (pi = i; pi < last; pi++)` of `http_parse_request_line`. */
  function RunLine(v: seq<Byte>, i: nat, last: nat, s: LineState, f: LineFields): (o: LineOutcome)
    requires i <= last <= |v|
    ensures o.Finished? ==> i < o.next <= last && v[o.next - 1] == LF
    ensures o.Failed? ==> o.error == InvalidMethod || o.error == InvalidRequest
    decreases last - i
  {
    if i == last then Suspended(s, f)
    else
      match LineStep(v, i, s, f)
      case Next(s', f') => RunLine(v, i + 1, last, s', f')
      case Complete(f') => Finished(f', i + 1)
      case Reject(e, f') => Failed(e, f')
  }

  /** Continue a suspended outcome over the bytes `[b, c)`; any other outcome is final. */
  function Resume(o: LineOutcome, v: seq<Byte>, b: nat, c: nat): LineOutcome
    requires b <= c <= |v|
  {
    match o
    case Suspended(s, f) => RunLine(v, b, c, s, f)
    case _ => o
  }

  /** One byte that moves the parser on without finishing: the run continues from the next index. */
  lemma RunLineNext(v: seq<Byte>, i: nat, n: nat, s: LineState, f: LineFields, s': LineState, f': LineFields)
    requires i < n <= |v| && LineStep(v, i, s, f) == Next(s', f')
    ensures RunLine(v, i, n, s, f) == RunLine(v, i + 1, n, s', f')
  {
  }

  /**
   * Resumption: running over `[a, c)` in one call is the same as running over
   * `[a, b)`, saving the state, and resuming over `[b, c)`.
   */
  lemma {:induction false} RunLineSplit(v: seq<Byte>, a: nat, b: nat, c: nat, s: LineState, f: LineFields)
    requires a <= b <= c <= |v|
    ensures RunLine(v, a, c, s, f) == Resume(RunLine(v, a, b, s, f), v, b, c)
    decreases b - a
  {
    if a < b {
      match LineStep(v, a, s, f)
      case Next(s', f') => RunLineSplit(v, a + 1, b, c, s', f');
      case Complete(_) =>
      case Reject(_, _) =>
    }
  }

  /** Two views agree on the logical indices `[lo, hi)`. */
  predicate Agree(v: seq<Byte>, w: seq<Byte>, lo: nat, hi: nat) {
    hi <= |v| && hi <= |w| && forall j :: lo <= j < hi ==> v[j] == w[j]
  }

  /**
   * The parser never reads past `last`, and never before the start of the
   * current method token: two views that agree from `lo` (at or before where
   * the run starts, and before any method token already begun, which began
   * at or before `i` unless the views agree from the very start) up to
   * `last` give the same outcome.
   */
  lemma {:induction false} RunLineLocal(v: seq<Byte>, w: seq<Byte>, lo: nat, i: nat, last: nat, s: LineState, f: LineFields)
    requires lo <= i <= last
    requires Agree(v, w, lo, last)
    requires s == Method ==> lo <= f.requestStart && (lo == 0 || f.requestStart <= i)
    ensures RunLine(v, i, last, s, f) == RunLine(w, i, last, s, f)
    decreases last - i
  {
    if i < last {
      StepLocal(v, w, lo, i, s, f);
      match LineStep(v, i, s, f)
      case Next(s', f') => RunLineLocal(v, w, lo, i + 1, last, s', f');
      case Complete(_) =>
      case Reject(_, _) =>
    }
  }

  /**
   * One step reads only the byte at `i` and, on a space ending the method
   * token, the 4-byte window at the token's start; a method token seen from
   * `lo` on keeps its start at or after `lo`.
   */
  lemma StepLocal(v: seq<Byte>, w: seq<Byte>, lo: nat, i: nat, s: LineState, f: LineFields)
    requires lo <= i && Agree(v, w, lo, i + 1)
    requires s == Method ==> lo <= f.requestStart && (lo == 0 || f.requestStart <= i)
    ensures LineStep(v, i, s, f) == LineStep(w, i, s, f)
    ensures LineStep(v, i, s, f).Next? && LineStep(v, i, s, f).state == Method ==>
      var m := LineStep(v, i, s, f).fields.requestStart;
      lo <= m && (lo == 0 || m <= i + 1)
  {
    if s == Method && v[i] == SP {
      var len := TokenDistance(i, f.requestStart);
      if len == 3 || len == 4 {
        assert v[i - len..i - len + 4] == w[i - len..i - len + 4];
      }
    }
  }


  /**
   * Feeding the byte stream `v` in chunks: the k-th call sees only the bytes
   * received so far, `v[..cuts[k]]`, and resumes from the state the previous
   * call saved, exactly as the driver calls the parser after each read.
   */
  function FeedLine(v: seq<Byte>, cuts: seq<nat>, pos: nat, s: LineState, f: LineFields): LineOutcome
    requires Chunked(v, cuts, pos)
    decreases |cuts|
  {
    if cuts == [] then Suspended(s, f)
    else
      match RunLine(v[..cuts[0]], pos, cuts[0], s, f)
      case Suspended(s', f') => FeedLine(v, cuts[1..], cuts[0], s', f')
      case o => o
  }

  /** Cut points that split `v[pos..]` into consecutive chunks. */
  predicate Chunked(v: seq<Byte>, cuts: seq<nat>, pos: nat) {
    forall j, k :: 0 <= j <= k < |cuts| ==> pos <= cuts[j] <= cuts[k] <= |v|
  }

  /**
   * Chunk-split equivalence: however the bytes up to `cuts[|cuts| - 1]` are
   * split into reads, the parser ends with the same outcome (result, state,
   * method, URI span, version) as when they arrive in one read.
   */
  lemma {:induction false} LineChunkSplit(v: seq<Byte>, cuts: seq<nat>, pos: nat, s: LineState, f: LineFields)
    requires Chunked(v, cuts, pos) && |cuts| > 0
    ensures FeedLine(v, cuts, pos, s, f) == RunLine(v, pos, cuts[|cuts| - 1], s, f)
    decreases |cuts|
  {
    var n := cuts[|cuts| - 1];
    var c := cuts[0];
    RunLineLocal(v[..c], v, 0, pos, c, s, f);
    RunLineSplit(v, pos, c, n, s, f);
    if |cuts| > 1 {
      match RunLine(v, pos, c, s, f)
      case Suspended(s', f') =>
        LineChunkSplit(v, cuts[1..], c, s', f');
      case Finished(_, _) =>
      case Failed(_, _) =>
    }
  }
}
