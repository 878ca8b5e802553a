/**
 * The header state machine of `http_parse_request_body`, as pure functions
 * over the logical byte stream, with the resumption and locality facts the
 * byte-at-a-time design promises.
 */
module HeaderParser {
  import opened Bytes
  import opened HttpDefs

  /** The states of the header parser, in the order of their C enumerators. */
  datatype HeaderState =
    | HStart | Key | SpacesBeforeColon | SpacesAfterColon | Value | Cr | Crlf | Crlfcr

  /** The integer saved in `r->state`. */
  function HeaderCode(s: HeaderState): (n: nat)
    ensures n < 8
  {
    match s
    case HStart => 0
    case Key => 1
    case SpacesBeforeColon => 2
    case SpacesAfterColon => 3
    case Value => 4
    case Cr => 5
    case Crlf => 6
    case Crlfcr => 7
  }

  /** The state a saved integer below 8 stands for. */
  function HeaderStateOf(n: nat): (s: HeaderState)
    requires n < 8
    ensures HeaderCode(s) == n
  {
    match n
    case 0 => HStart
    case 1 => Key
    case 2 => SpacesBeforeColon
    case 3 => SpacesAfterColon
    case 4 => Value
    case 5 => Cr
    case 6 => Crlf
    case _ => Crlfcr
  }

  lemma HeaderCodeRoundTrip(s: HeaderState)
    ensures HeaderStateOf(HeaderCode(s)) == s
  {
  }

  /**
   * The fields of the request the header parser writes: the spans of the
   * header being read, and the header list, newest first since each header
   * is pushed at the head of the list.
   */
  datatype Scan = Scan(keyStart: nat, keyEnd: nat, valueStart: nat, valueEnd: nat, headers: seq<Header>)

  /** The header the fields of `sc` describe. */
  function Current(sc: Scan): Header {
    Header(sc.keyStart, sc.keyEnd, sc.valueStart, sc.valueEnd)
  }

  /** The outcome of one byte; every error is `HTTP_PARSER_INVALID_HEADER`. */
  datatype HeaderMove =
    | Go(state: HeaderState, scan: Scan)
    | Done(scan: Scan)
    | Bad(scan: Scan)

  /** One turn of the loop of `http_parse_request_body` on the byte at logical index `i`. */
  function HeaderStep(v: seq<Byte>, i: nat, s: HeaderState, sc: Scan): HeaderMove
    requires i < |v|
  {
    var ch := v[i];
    match s
    case HStart =>
      if ch == CR || ch == LF then Go(HStart, sc) else Go(Key, sc.(keyStart := i))
    case Key =>
      if ch == SP then Go(SpacesBeforeColon, sc.(keyEnd := i))
      else if ch == ':' then Go(SpacesAfterColon, sc.(keyEnd := i))
      else Go(Key, sc)
    case SpacesBeforeColon =>
      if ch == SP then Go(SpacesBeforeColon, sc)
      else if ch == ':' then Go(SpacesAfterColon, sc)
      else Bad(sc)
    case SpacesAfterColon =>
      if ch == SP then Go(SpacesAfterColon, sc) else Go(Value, sc.(valueStart := i))
    case Value =>
      if ch == CR then Go(Cr, sc.(valueEnd := i))
      else if ch == LF then Go(Crlf, sc.(valueEnd := i))
      else Go(Value, sc)
    case Cr =>
      if ch == LF then Go(Crlf, sc.(headers := [Current(sc)] + sc.headers)) else Bad(sc)
    case Crlf =>
      if ch == CR then Go(Crlfcr, sc) else Go(Key, sc.(keyStart := i))
    case Crlfcr =>
      if ch == LF then Done(sc) else Bad(sc)
  }

  /** What a call returns: out of bytes (`EAGAIN`), done with the index after the blank line (`0`), or an invalid header. */
  datatype HeaderOutcome =
    | HSuspended(state: HeaderState, scan: Scan)
    | HFinished(scan: Scan, next: nat)
    | HFailed(scan: Scan)

  /** The loop `for (pi = r->pos; pi < r->last; pi++)` of `http_parse_request_body`. */
  function RunHeaders(v: seq<Byte>, i: nat, last: nat, s: HeaderState, sc: Scan): (o: HeaderOutcome)
    requires i <= last <= |v|
    ensures o.HFinished? ==> i < o.next <= last && v[o.next - 1] == LF
    decreases last - i
  {
    if i == last then HSuspended(s, sc)
    else
      match HeaderStep(v, i, s, sc)
      case Go(s', sc') => RunHeaders(v, i + 1, last, s', sc')
      case Done(sc') => HFinished(sc', i + 1)
      case Bad(sc') => HFailed(sc')
  }

  /** Continue a suspended outcome over `[b, c)`; any other outcome is final. */
  function ResumeHeaders(o: HeaderOutcome, v: seq<Byte>, b: nat, c: nat): HeaderOutcome
    requires b <= c <= |v|
  {
    match o
    case HSuspended(s, sc) => RunHeaders(v, b, c, s, sc)
    case _ => o
  }

  /** One byte that moves the parser on: the run continues from the next index. */
  lemma RunHeadersNext(v: seq<Byte>, i: nat, n: nat, s: HeaderState, sc: Scan, s': HeaderState, sc': Scan)
    requires i < n <= |v| && HeaderStep(v, i, s, sc) == Go(s', sc')
    ensures RunHeaders(v, i, n, s, sc) == RunHeaders(v, i + 1, n, s', sc')
  {
  }

  /** Resumption: one run over `[a, c)` is a run over `[a, b)` resumed over `[b, c)`. */
  lemma {:induction false} RunHeadersSplit(v: seq<Byte>, a: nat, b: nat, c: nat, s: HeaderState, sc: Scan)
    requires a <= b <= c <= |v|
    ensures RunHeaders(v, a, c, s, sc) == ResumeHeaders(RunHeaders(v, a, b, s, sc), v, b, c)
    decreases b - a
  {
    if a < b {
      match HeaderStep(v, a, s, sc)
      case Go(s', sc') => RunHeadersSplit(v, a + 1, b, c, s', sc');
      case Done(_) =>
      case Bad(_) =>
    }
  }

  /** The header parser reads only the bytes in `[i, last)`: it never looks back. */
  lemma {:induction false} RunHeadersLocal(v: seq<Byte>, w: seq<Byte>, i: nat, last: nat, s: HeaderState, sc: Scan)
    requires i <= last <= |v| && last <= |w|
    requires forall j :: i <= j < last ==> v[j] == w[j]
    ensures RunHeaders(v, i, last, s, sc) == RunHeaders(w, i, last, s, sc)
    decreases last - i
  {
    if i < last {
      assert HeaderStep(v, i, s, sc) == HeaderStep(w, i, s, sc);
      match HeaderStep(v, i, s, sc)
      case Go(s', sc') => RunHeadersLocal(v, w, i + 1, last, s', sc');
      case Done(_) =>
      case Bad(_) =>
    }
  }

  /** Feeding the stream in chunks, each call resuming from the state the last one saved. */
  function FeedHeaders(v: seq<Byte>, cuts: seq<nat>, pos: nat, s: HeaderState, sc: Scan): HeaderOutcome
    requires forall j, k :: 0 <= j <= k < |cuts| ==> pos <= cuts[j] <= cuts[k] <= |v|
    decreases |cuts|
  {
    if cuts == [] then HSuspended(s, sc)
    else
      match RunHeaders(v[..cuts[0]], pos, cuts[0], s, sc)
      case HSuspended(s', sc') => FeedHeaders(v, cuts[1..], cuts[0], s', sc')
      case o => o
  }

  /**
   * Chunk-split equivalence for the header state machine: resumed from its
   * saved state after every read, it ends as one run over all the bytes.
   */
  lemma {:induction false} HeaderChunkSplit(v: seq<Byte>, cuts: seq<nat>, pos: nat, s: HeaderState, sc: Scan)
    requires forall j, k :: 0 <= j <= k < |cuts| ==> pos <= cuts[j] <= cuts[k] <= |v|
    requires |cuts| > 0
    ensures FeedHeaders(v, cuts, pos, s, sc) == RunHeaders(v, pos, cuts[|cuts| - 1], s, sc)
    decreases |cuts|
  {
    var n := cuts[|cuts| - 1];
    var c := cuts[0];
    RunHeadersLocal(v[..c], v, pos, c, s, sc);
    RunHeadersSplit(v, pos, c, n, s, sc);
    if |cuts| > 1 {
      match RunHeaders(v, pos, c, s, sc)
      case HSuspended(s', sc') =>
        HeaderChunkSplit(v, cuts[1..], c, s', sc');
      case HFinished(_, _) =>
      case HFailed(_) =>
    }
  }

  /**
   * Blank lines alone never end the header block: from the start state, CR
   * and LF bytes are skipped and the parser asks for more data, so a request
   * with no header lines is never complete.
   */
  lemma {:induction false} EmptyHeaderBlockNeverCompletes(v: seq<Byte>, i: nat, last: nat, sc: Scan)
    requires i <= last <= |v|
    requires forall j :: i <= j < last ==> v[j] == CR || v[j] == LF
    ensures RunHeaders(v, i, last, HStart, sc) == HSuspended(HStart, sc)
    decreases last - i
  {
    if i < last {
      EmptyHeaderBlockNeverCompletes(v, i + 1, last, sc);
    }
  }
}
