/**
 * `src/http_request.c`: the table that maps header names to handlers, the
 * handlers for `Connection` and the ignored headers, and `http_handle_header`,
 * which empties the request's header list through that table.
 */
module HttpRequest {
  import opened Bytes
  import opened HttpDefs
  import opened HttpParser

  /** The byte of a C string at index `k`: past its end, the terminating NUL. */
  function CharAt(name: seq<Byte>, k: nat): Byte {
    if k < |name| then name[k] else NUL
  }

  /** Two bytes compare equal, as `strncmp` (exactly) or `strncasecmp` (after `tolower`) sees them. */
  predicate Same(a: Byte, b: Byte, caseless: bool) {
    if caseless then Lower(a) == Lower(b) else a == b
  }

  /**
   * `strncmp(s, name, |s|) == 0` (or `strncasecmp` when `caseless`): the `|s|`
   * bytes of `s` agree with `name` up to and including the first NUL, so the
   * comparison of the C functions stops there.
   */
  function StrNEqual(s: seq<Byte>, name: seq<Byte>, caseless: bool): bool
    decreases |s|
  {
    if s == [] then true
    else if !Same(s[0], CharAt(name, 0), caseless) then false
    else if s[0] == NUL then true
    else StrNEqual(s[1..], if name == [] then [] else name[1..], caseless)
  }

  /** The comparison stops at the first difference, or after the first NUL the two share. */
  lemma {:induction false} StrNEqualMeans(s: seq<Byte>, name: seq<Byte>, caseless: bool)
    ensures StrNEqual(s, name, caseless) <==> AgreeToNul(s, name, caseless)
    decreases |s|
  {
    if s != [] && Same(s[0], CharAt(name, 0), caseless) && s[0] != NUL {
      var tail := if name == [] then [] else name[1..];
      StrNEqualMeans(s[1..], tail, caseless);
      forall k | 1 <= k < |s| ensures NoNul(s[..k]) <==> NoNul(s[1..][..k - 1]) {
        assert s[..k] == [s[0]] + s[1..][..k - 1];
      }
      forall k | 1 <= k < |s| ensures CharAt(name, k) == CharAt(tail, k - 1) {
      }
      assert AgreeToNul(s, name, caseless) ==> AgreeToNul(s[1..], tail, caseless) by {
        if AgreeToNul(s, name, caseless) {
          forall k | 0 <= k < |s[1..]| && NoNul(s[1..][..k]) ensures Same(s[1..][k], CharAt(tail, k), caseless) {
            assert NoNul(s[..k + 1]);
          }
        }
      }
    }
    assert NoNul(s[..0]);
  }

  /** Byte by byte, `s` agrees with `name` wherever no NUL of `s` comes before. */
  predicate AgreeToNul(s: seq<Byte>, name: seq<Byte>, caseless: bool) {
    forall k :: 0 <= k < |s| && NoNul(s[..k]) ==> Same(s[k], CharAt(name, k), caseless)
  }

  /** `http_header_handler`: the three handler functions the table refers to. */
  datatype Handler = ProcessIgnore | ProcessConnection | ProcessIfModifiedSince

  /** `http_headers_in`, the sentinel row with the empty name last. */
  const HEADERS_IN: seq<(seq<Byte>, Handler)> := [
    ("Host", ProcessIgnore),
    ("Connection", ProcessConnection),
    ("If-Modified-Since", ProcessIfModifiedSince),
    ("", ProcessIgnore)
  ]

  /** The rows before the sentinel, the only ones the search tries. */
  const NAMED: nat := 3

  /** The key matches the name of table row `i`: `strncmp(key, name, key length) == 0`. */
  predicate RowMatches(key: seq<Byte>, i: nat)
    requires i < |HEADERS_IN|
  {
    StrNEqual(key, HEADERS_IN[i].0, false)
  }

  /**
   * The handler a key selects: the first named row, in table order, whose
   * name it matches; none when it matches none of them.
   */
  function Dispatch(key: seq<Byte>): Option<Handler>
  {
    if RowMatches(key, 0) then Some(ProcessIgnore)
    else if RowMatches(key, 1) then Some(ProcessConnection)
    else if RowMatches(key, 2) then Some(ProcessIfModifiedSince)
    else None
  }

  /**
   * The rows are tried in table order and the first match wins: a handler is
   * selected exactly when some named row matches, and it is the handler of the
   * first such row.
   */
  lemma DispatchFirstMatch(key: seq<Byte>)
    ensures Dispatch(key).Some? <==> exists i :: 0 <= i < NAMED && RowMatches(key, i)
    ensures forall i :: 0 <= i < NAMED && RowMatches(key, i) && (forall j :: 0 <= j < i ==> !RowMatches(key, j)) ==>
              Dispatch(key) == Some(HEADERS_IN[i].1)
  {
  }

  /**
   * The search loop of `http_handle_header`: rows in order until the one with
   * the empty name; the first whose name the key matches gives the handler.
   */
  method FindHandler(key: seq<Byte>) returns (h: Option<Handler>)
    ensures h == Dispatch(key)
  {
    var i := 0;
    while |HEADERS_IN[i].0| > 0
      invariant i <= NAMED
      invariant forall j :: 0 <= j < i ==> !RowMatches(key, j)
      decreases NAMED - i
    {
      if StrNEqual(key, HEADERS_IN[i].0, false) {
        return Some(HEADERS_IN[i].1);
      }
      i := i + 1;
    }
    return None;
  }

  /**
   * For a key without NUL bytes the comparison is a plain prefix test: the
   * key matches exactly when it is no longer than the name and agrees with it
   * byte by byte (ignoring case for `strncasecmp`).
   */
  lemma NulFreeMatch(s: seq<Byte>, name: seq<Byte>, caseless: bool)
    requires NoNul(s)
    ensures StrNEqual(s, name, caseless) <==> |s| <= |name| && forall k :: 0 <= k < |s| ==> Same(s[k], name[k], caseless)
  {
    StrNEqualMeans(s, name, caseless);
    forall k | 0 <= k < |s| ensures NoNul(s[..k]) {
    }
    if |s| > |name| {
      assert !Same(s[|name|], CharAt(name, |name|), caseless);
    }
  }

  /** A key that differs from a name in its first byte does not match it. */
  lemma FirstByteMismatches(key: seq<Byte>, name: seq<Byte>, caseless: bool)
    requires |key| > 0 && !Same(key[0], CharAt(name, 0), caseless)
    ensures !StrNEqual(key, name, caseless)
  {
  }

  /**
   * Names match case-sensitively: a key starting with a lower-case letter,
   * such as `connection`, selects no handler, since every name in the table
   * starts with a capital.
   */
  lemma LowerCaseKeySelectsNothing(key: seq<Byte>)
    requires |key| > 0 && 'a' <= key[0] <= 'z'
    ensures Dispatch(key) == None
  {
    FirstByteMismatches(key, HEADERS_IN[0].0, false);
    FirstByteMismatches(key, HEADERS_IN[1].0, false);
    FirstByteMismatches(key, HEADERS_IN[2].0, false);
  }

  /**
   * Names match by prefix: any non-empty NUL-free prefix of a table name, the
   * whole name included (`Conn`, `Connection`), selects that row's handler,
   * since the names start with different bytes.
   */
  lemma PrefixOfNameSelects(key: seq<Byte>, i: nat)
    requires i < NAMED && 0 < |key| <= |HEADERS_IN[i].0| && key == HEADERS_IN[i].0[..|key|]
    ensures Dispatch(key) == Some(HEADERS_IN[i].1)
  {
    assert key[0] == HEADERS_IN[i].0[0];
    NulFreeNames(i);
    assert NoNul(key) by {
      forall k | 0 <= k < |key| ensures key[k] != NUL {
        assert key[k] == HEADERS_IN[i].0[k];
      }
    }
    NulFreeMatch(key, HEADERS_IN[i].0, false);
    forall j | 0 <= j < i ensures !RowMatches(key, j) {
      FirstByteMismatches(key, HEADERS_IN[j].0, false);
    }
  }

  /** A NUL-free key longer than a name does not match it: the name's terminator differs. */
  lemma LongerKeyMismatches(key: seq<Byte>, i: nat)
    requires i < NAMED && NoNul(key) && |key| > |HEADERS_IN[i].0|
    ensures !RowMatches(key, i)
  {
    NulFreeMatch(key, HEADERS_IN[i].0, false);
  }

  lemma NulFreeNames(i: nat)
    requires i < NAMED
    ensures NoNul(HEADERS_IN[i].0)
  {
  }

  /** `strncasecmp("keep-alive", data, len) == 0`: the value is, ignoring case, a prefix of `keep-alive`. */
  predicate KeepAliveValue(value: seq<Byte>) {
    StrNEqual(value, KEEP_ALIVE, true)
  }

  /**
   * A NUL-free value asks for keep-alive exactly when, ignoring case, it is a
   * prefix of `keep-alive`: `Keep-Alive` and `k` do, `close` does not, and
   * neither does a list such as `keep-alive, Upgrade`.
   */
  lemma KeepAliveValueMeans(value: seq<Byte>)
    requires NoNul(value)
    ensures KeepAliveValue(value) <==> |value| <= 10 && forall k :: 0 <= k < |value| ==> Lower(value[k]) == KEEP_ALIVE[k]
  {
    NulFreeMatch(value, KEEP_ALIVE, true);
    assert forall k :: 0 <= k < |KEEP_ALIVE| ==> Lower(KEEP_ALIVE[k]) == KEEP_ALIVE[k];
  }

  const KEEP_ALIVE: seq<Byte> := "keep-alive"

  /**
   * The handlers: `http_process_connection` marks the response keep-alive
   * when the value is a keep-alive value and never clears it;
   * `http_process_if_modified_since` marks it not modified, status 304, when
   * the date in the value names the file's modification time (`sameTime`
   * stands for its `strptime`/`mktime`/`difftime` comparison); the ignore
   * handler does nothing. All of them return 0.
   */
  method CallHandler(h: Handler, o: Response, value: seq<Byte>, sameTime: (seq<Byte>, int) -> bool) returns (rc: int)
    modifies o
    ensures rc == 0
    ensures o.keepAlive == (old(o.keepAlive) || (h == ProcessConnection && KeepAliveValue(value)))
    ensures h == ProcessIfModifiedSince && sameTime(value, o.mtime)
      ==> !o.modified && o.status == HTTP_NOT_MODIFIED
    ensures !(h == ProcessIfModifiedSince && sameTime(value, o.mtime))
      ==> o.modified == old(o.modified) && o.status == old(o.status)
    ensures o.fd == old(o.fd) && o.mtime == old(o.mtime)
  {
    match h {
      case ProcessIgnore =>
      case ProcessConnection =>
        if KeepAliveValue(value) {
          o.keepAlive := true;
        }
      case ProcessIfModifiedSince =>
        if sameTime(value, o.mtime) {
          o.modified := false;
          o.status := HTTP_NOT_MODIFIED;
        }
    }
    return 0;
  }

  /** Every recorded span lies within the bytes received so far. */
  predicate SpansWithin(hs: seq<Header>, last: nat) {
    forall k :: 0 <= k < |hs| ==> SpanWithin(hs[k], last)
  }

  function KeyOf(v: seq<Byte>, h: Header): seq<Byte>
    requires h.keyStart <= h.keyEnd <= |v|
  {
    v[h.keyStart..h.keyEnd]
  }

  function ValueOf(v: seq<Byte>, h: Header): seq<Byte>
    requires h.valueStart <= h.valueEnd <= |v|
  {
    v[h.valueStart..h.valueEnd]
  }

  /** A header span lies within the first `last` bytes. */
  predicate SpanWithin(h: Header, last: nat) {
    h.keyStart <= h.keyEnd <= last && h.valueStart <= h.valueEnd <= last
  }

  /** The header selects the `Connection` handler and carries a keep-alive value. */
  predicate AsksKeepAlive(v: seq<Byte>, h: Header)
    requires SpanWithin(h, |v|)
  {
    Dispatch(KeyOf(v, h)) == Some(ProcessConnection) && KeepAliveValue(ValueOf(v, h))
  }

  /** The header selects the `If-Modified-Since` handler and names the file's modification time. */
  predicate AsksNotModified(v: seq<Byte>, h: Header, mtime: int, sameTime: (seq<Byte>, int) -> bool)
    requires SpanWithin(h, |v|)
  {
    Dispatch(KeyOf(v, h)) == Some(ProcessIfModifiedSince) && sameTime(ValueOf(v, h), mtime)
  }

  predicate KeepAliveRequested(v: seq<Byte>, hs: seq<Header>)
    requires SpansWithin(hs, |v|)
  {
    exists k :: 0 <= k < |hs| && AsksKeepAlive(v, hs[k])
  }

  predicate NotModifiedRequested(v: seq<Byte>, hs: seq<Header>, mtime: int, sameTime: (seq<Byte>, int) -> bool)
    requires SpansWithin(hs, |v|)
  {
    exists k :: 0 <= k < |hs| && AsksNotModified(v, hs[k], mtime, sameTime)
  }

  /** The bytes `[a, b)` as the ring holds them, read in place as the handlers read them. */
  function Span(r: Request, a: nat, b: nat): (s: seq<Byte>)
    reads r, r.buf
    requires r.buf.Length == MAX_BUF && a <= b <= r.last
    ensures s == Held(r)[a..b]
  {
    seq(b - a, k requires 0 <= k < b - a reads r.buf => r.buf[(a + k) % MAX_BUF])
  }

  /**
   * `http_handle_header`: each header on the list, front to back, goes to the
   * handler its key selects (if any) and is then unlinked and freed. The list
   * ends empty; the response is keep-alive exactly when it was or some header
   * asked for it, and not modified with status 304 when some
   * `If-Modified-Since` header names the file's time; otherwise it is as
   * before.
   */
  method HandleHeader(r: Request, o: Response, sameTime: (seq<Byte>, int) -> bool)
    requires r.buf.Length == MAX_BUF && SpansWithin(r.headers, r.last)
    modifies r`headers, o
    ensures r.last == old(r.last) && r.headers == []
    ensures o.keepAlive == (old(o.keepAlive) || KeepAliveRequested(Held(r), old(r.headers)))
    ensures NotModifiedRequested(Held(r), old(r.headers), o.mtime, sameTime)
      ==> !o.modified && o.status == HTTP_NOT_MODIFIED
    ensures !NotModifiedRequested(Held(r), old(r.headers), o.mtime, sameTime)
      ==> o.modified == old(o.modified) && o.status == old(o.status)
    ensures o.fd == old(o.fd) && o.mtime == old(o.mtime)
    ensures r.last == old(r.last) && r.pos == old(r.pos) && r.state == old(r.state) && r.stream == old(r.stream)
    ensures LineFieldsOf(r) == old(LineFieldsOf(r))
    ensures r.root == old(r.root) && r.fd == old(r.fd) && r.epfd == old(r.epfd)
    ensures r.curKeyStart == old(r.curKeyStart) && r.curKeyEnd == old(r.curKeyEnd)
    ensures r.curValueStart == old(r.curValueStart) && r.curValueEnd == old(r.curValueEnd)
  {
    ghost var v := Held(r);
    ghost var hs := r.headers;
    ghost var i := 0;
    ghost var mtime := o.mtime;
    while r.headers != []
      invariant 0 <= i <= |hs| && r.headers == hs[i..]
      invariant r.last == old(r.last) && r.pos == old(r.pos) && r.state == old(r.state) && r.stream == old(r.stream)
      invariant LineFieldsOf(r) == old(LineFieldsOf(r)) && Held(r) == v
      invariant o.fd == old(o.fd) && o.mtime == old(o.mtime)
      invariant o.keepAlive == (old(o.keepAlive) || KeepAliveRequested(v, hs[..i]))
      invariant NotModifiedRequested(v, hs[..i], mtime, sameTime) ==> !o.modified && o.status == HTTP_NOT_MODIFIED
      invariant !NotModifiedRequested(v, hs[..i], mtime, sameTime) ==> o.modified == old(o.modified) && o.status == old(o.status)
      decreases |r.headers|
    {
      HandleOne(r, o, r.headers[0], sameTime);
      r.headers := r.headers[1..];
      ExtendRequested(v, hs, i, mtime, sameTime);
      i := i + 1;
    }
    assert hs[..i] == hs;
  }

  /** The body of the `list_for_each_safe` loop for one header, before it is unlinked. */
  method HandleOne(r: Request, o: Response, header: Header, sameTime: (seq<Byte>, int) -> bool)
    requires r.buf.Length == MAX_BUF && SpanWithin(header, r.last)
    modifies o
    ensures o.keepAlive == (old(o.keepAlive) || AsksKeepAlive(Held(r), header))
    ensures AsksNotModified(Held(r), header, o.mtime, sameTime) ==> !o.modified && o.status == HTTP_NOT_MODIFIED
    ensures !AsksNotModified(Held(r), header, o.mtime, sameTime) ==> o.modified == old(o.modified) && o.status == old(o.status)
    ensures o.fd == old(o.fd) && o.mtime == old(o.mtime)
  {
    var handler := FindHandler(Span(r, header.keyStart, header.keyEnd));
    if handler.Some? {
      var _ := CallHandler(handler.value, o, Span(r, header.valueStart, header.valueEnd), sameTime);
    }
  }

  /** Looking at one more header: the requests seen so far, or this one. */
  lemma ExtendRequested(v: seq<Byte>, hs: seq<Header>, i: nat, mtime: int, sameTime: (seq<Byte>, int) -> bool)
    requires i < |hs| && SpansWithin(hs, |v|)
    ensures SpansWithin(hs[..i], |v|) && SpansWithin(hs[..i + 1], |v|)
    ensures KeepAliveRequested(v, hs[..i + 1]) <==> KeepAliveRequested(v, hs[..i]) || AsksKeepAlive(v, hs[i])
    ensures NotModifiedRequested(v, hs[..i + 1], mtime, sameTime) <==>
      NotModifiedRequested(v, hs[..i], mtime, sameTime) || AsksNotModified(v, hs[i], mtime, sameTime)
  {
    assert forall k :: 0 <= k < i ==> hs[..i + 1][k] == hs[..i][k];
    assert hs[..i + 1][i] == hs[i];
  }
}
