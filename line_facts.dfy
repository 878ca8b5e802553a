/**
 * What `http_parse_request_line` does with each part of a request line, and
 * the request lines it accepts in one call, proved from the state machine of
 * module `LineParser`.
 */
module LineFacts {
  import opened Bytes
  import opened HttpDefs
  import opened LineParser

  /** Inside the method token every `A`-`Z` or `_` byte keeps the parser in `Method`. */
  lemma {:induction false} MethodTokenRun(v: seq<Byte>, i: nat, j: nat, f: LineFields)
    requires i <= j <= |v|
    requires forall k :: i <= k < j ==> IsMethodChar(v[k])
    ensures RunLine(v, i, j, Method, f) == Suspended(Method, f)
    decreases j - i
  {
    if i < j {
      MethodTokenRun(v, i + 1, j, f);
    }
  }

  /** Every byte other than a space, CR and LF included, belongs to the URI. */
  lemma {:induction false} UriRun(v: seq<Byte>, i: nat, j: nat, f: LineFields)
    requires i <= j <= |v|
    requires forall k :: i <= k < j ==> v[k] != SP
    ensures RunLine(v, i, j, AfterSlashInUri, f) == Suspended(AfterSlashInUri, f)
    decreases j - i
  {
    if i < j {
      UriRun(v, i + 1, j, f);
    }
  }

  /** Major version digits accumulate as `major * 10 + digit`: the value is that of all digits so far. */
  lemma {:induction false} MajorDigitsRun(v: seq<Byte>, a: nat, i: nat, j: nat, f: LineFields)
    requires a <= i <= j <= |v|
    requires forall k :: a <= k < j ==> IsDigit(v[k])
    requires f.major == Decimal(v[a..i])
    ensures RunLine(v, i, j, MajorDigit, f) == Suspended(MajorDigit, f.(major := Decimal(v[a..j])))
    decreases j - i
  {
    if i < j {
      assert v[a..i + 1][..i - a] == v[a..i];
      MajorDigitsRun(v, a, i + 1, j, f.(major := f.major * 10 + DigitValue(v[i])));
    } else {
      assert f.(major := Decimal(v[a..j])) == f;
    }
  }

  /** Minor version digits accumulate the same way. */
  lemma {:induction false} MinorDigitsRun(v: seq<Byte>, a: nat, i: nat, j: nat, f: LineFields)
    requires a <= i <= j <= |v|
    requires forall k :: a <= k < j ==> IsDigit(v[k])
    requires f.minor == Decimal(v[a..i])
    ensures RunLine(v, i, j, MinorDigit, f) == Suspended(MinorDigit, f.(minor := Decimal(v[a..j])))
    decreases j - i
  {
    if i < j {
      assert v[a..i + 1][..i - a] == v[a..i];
      MinorDigitsRun(v, a, i + 1, j, f.(minor := f.minor * 10 + DigitValue(v[i])));
    } else {
      assert f.(minor := Decimal(v[a..j])) == f;
    }
  }

  /** Blank lines before a request: CR and LF bytes keep the parser in `Start`, only moving `request_start`. */
  lemma {:induction false} LeadingBlankLinesRun(v: seq<Byte>, i: nat, j: nat, f: LineFields)
    requires i < j <= |v|
    requires forall k :: i <= k < j ==> v[k] == CR || v[k] == LF
    ensures RunLine(v, i, j, Start, f) == Suspended(Start, f.(requestStart := j - 1))
    decreases j - i
  {
    if i + 1 < j {
      LeadingBlankLinesRun(v, i + 1, j, f.(requestStart := i));
    }
  }

  /** Bytes on which a state stays put, with the fields unchanged, are skipped. */
  lemma {:induction false} LineStayRun(v: seq<Byte>, i: nat, j: nat, n: nat, s: LineState, f: LineFields)
    requires i <= j <= n <= |v|
    requires forall k :: i <= k < j ==> LineStep(v, k, s, f) == Next(s, f)
    ensures RunLine(v, i, n, s, f) == RunLine(v, j, n, s, f)
    decreases j - i
  {
    if i < j {
      RunLineNext(v, i, n, s, f, s, f);
      LineStayRun(v, i + 1, j, n, s, f);
    }
  }

  /** Spaces before the URI, after it and after the version are skipped. */
  lemma SpacesRun(v: seq<Byte>, i: nat, j: nat, n: nat, s: LineState, f: LineFields)
    requires s == SpacesBeforeUri || s == Http || s == SpacesAfterDigit
    requires i <= j <= n <= |v|
    requires forall k :: i <= k < j ==> v[k] == SP
    ensures RunLine(v, i, n, s, f) == RunLine(v, j, n, s, f)
  {
    forall k | i <= k < j
      ensures LineStep(v, k, s, f) == Next(s, f)
    {
      assert v[k] == SP;
    }
    LineStayRun(v, i, j, n, s, f);
  }

  /**
   * The method a complete token starting in slot 0 of the ring stands for.
   * The C switches on the distance between the slots of the token's first
   * byte and of the space, `|token| % MAX_BUF`, and compares the 4 bytes
   * from the first slot, which then hold the last 3 bytes of the token and
   * the space, or its last 4 bytes: `GET`, `POST`, `HEAD`, another 3- or
   * 4-byte tail keeps the prior method, any other distance is `Unknown`.
   */
  function MethodOf(token: seq<Byte>, prior: HttpMethod): HttpMethod {
    var len := |token| % MAX_BUF;
    var tail := token[|token| - len..];
    if len == 3 then (if tail == "GET" then Get else prior)
    else if len == 4 then (if tail == "POST" then Post else if tail == "HEAD" then Head else prior)
    else Unknown
  }

  /** A token shorter than the ring is classified by itself: `GET`, `POST`, `HEAD`, any other 3 or 4 bytes keep the prior method, other lengths give `Unknown`. */
  lemma ShortTokenMethod(token: seq<Byte>, prior: HttpMethod)
    requires |token| < MAX_BUF
    ensures MethodOf(token, prior) == (
      if token == "GET" then Get
      else if token == "POST" then Post
      else if token == "HEAD" then Head
      else if |token| == 3 || |token| == 4 then prior
      else Unknown)
  {
    assert token[|token| - |token| % MAX_BUF..] == token;
  }

  /**
   * A method token that crosses the end of the array (its first byte in a
   * later slot than the space) gives `Unknown`, whatever its bytes: the
   * distance between the two slots is negative.
   */
  lemma WrappedTokenUnknown(v: seq<Byte>, i: nat, f: LineFields)
    requires i < |v| && v[i] == SP && f.requestStart % MAX_BUF > i % MAX_BUF
    ensures LineStep(v, i, Method, f) == Next(SpacesBeforeUri, f.(requestMethod := Unknown))
  {
  }

  /** `v` holds `HTTP/` at `[h, h + 5)`. */
  predicate HttpAt(v: seq<Byte>, h: nat) {
    h + 5 <= |v| && v[h] == 'H' && v[h + 1] == 'T' && v[h + 2] == 'T' && v[h + 3] == 'P' && v[h + 4] == '/'
  }

  /** `v` ends at `t` with a CR LF or a bare LF. */
  predicate Terminated(v: seq<Byte>, t: nat) {
    || (t + 1 == |v| && v[t] == LF)
    || (t + 2 == |v| && v[t] == CR && v[t + 1] == LF)
  }

  /** From `Start` over the method token and the space after it. */
  lemma MethodPart(v: seq<Byte>, m: seq<Byte>, n: nat, f: LineFields)
    requires 0 < |m| < n <= |v| && v[..|m|] == m && v[|m|] == SP
    requires forall k :: 0 <= k < |m| ==> IsMethodChar(m[k])
    ensures RunLine(v, 0, n, Start, f)
         == RunLine(v, |m| + 1, n, SpacesBeforeUri, f.(requestStart := 0, requestMethod := MethodOf(m, f.requestMethod)))
  {
    var f1 := f.(requestStart := 0);
    assert v[0] == m[0];
    RunLineNext(v, 0, n, Start, f, Method, f1);
    MethodTokenRun(v, 1, |m|, f1);
    RunLineSplit(v, 1, |m|, n, Method, f1);
    MethodSpaceStep(v, m, f1);
    RunLineNext(v, |m|, n, Method, f1, SpacesBeforeUri, f1.(requestMethod := MethodOf(m, f.requestMethod)));
  }

  /** The space after a method token that started at slot 0 classifies it as `MethodOf` says. */
  lemma MethodSpaceStep(v: seq<Byte>, m: seq<Byte>, f: LineFields)
    requires 0 < |m| < |v| && v[..|m|] == m && v[|m|] == SP && f.requestStart == 0
    ensures LineStep(v, |m|, Method, f) == Next(SpacesBeforeUri, f.(requestMethod := MethodOf(m, f.requestMethod)))
  {
    var len := TokenDistance(|m|, 0);
    assert len == |m| % MAX_BUF;
    var window := if len == 3 || len == 4 then v[|m| - len..|m| - len + 4] else "    ";
    assert ClassifyMethod(len, window, f.requestMethod) == MethodOf(m, f.requestMethod) by {
      if len == 3 {
        assert window == m[|m| - len..] + " ";
      } else if len == 4 {
        assert window == m[|m| - len..];
      }
    }
  }

  /** From `SpacesBeforeUri` over the URI and the space after it: the URI span is recorded. */
  lemma UriPart(v: seq<Byte>, u0: nat, u1: nat, n: nat, f: LineFields)
    requires u0 < u1 < n <= |v| && v[u0] == '/' && v[u1] == SP
    requires forall k :: u0 <= k < u1 ==> v[k] != SP
    ensures RunLine(v, u0, n, SpacesBeforeUri, f) == RunLine(v, u1 + 1, n, Http, f.(uriStart := u0, uriEnd := u1))
  {
    var f3 := f.(uriStart := u0);
    assert RunLine(v, u0, n, SpacesBeforeUri, f) == RunLine(v, u0 + 1, n, AfterSlashInUri, f3);
    UriRun(v, u0 + 1, u1, f3);
    RunLineSplit(v, u0 + 1, u1, n, AfterSlashInUri, f3);
  }

  /** From `Http` over the literal `HTTP/`. */
  lemma HttpPart(v: seq<Byte>, h: nat, n: nat, f: LineFields)
    requires h + 5 <= n <= |v| && HttpAt(v, h)
    ensures RunLine(v, h, n, Http, f) == RunLine(v, h + 5, n, FirstMajorDigit, f)
  {
    RunLineNext(v, h, n, Http, f, HttpH, f);
    RunLineNext(v, h + 1, n, HttpH, f, HttpHT, f);
    RunLineNext(v, h + 2, n, HttpHT, f, HttpHTT, f);
    RunLineNext(v, h + 3, n, HttpHTT, f, HttpHTTP, f);
    RunLineNext(v, h + 4, n, HttpHTTP, f, FirstMajorDigit, f);
  }

  /** From `FirstMajorDigit` over the major digits and the dot. */
  lemma MajorPart(v: seq<Byte>, d0: nat, dot: nat, n: nat, f: LineFields)
    requires d0 < dot < n <= |v|
    requires '1' <= v[d0] <= '9' && v[dot] == '.'
    requires forall k :: d0 <= k < dot ==> IsDigit(v[k])
    ensures RunLine(v, d0, n, FirstMajorDigit, f) == RunLine(v, dot + 1, n, FirstMinorDigit, f.(major := Decimal(v[d0..dot])))
  {
    var f5 := f.(major := DigitValue(v[d0]));
    assert v[d0..d0 + 1] == [v[d0]];
    RunLineNext(v, d0, n, FirstMajorDigit, f, MajorDigit, f5);
    MajorDigitsRun(v, d0, d0 + 1, dot, f5);
    RunLineSplit(v, d0 + 1, dot, n, MajorDigit, f5);
    var f6 := f5.(major := Decimal(v[d0..dot]));
    assert f6 == f.(major := Decimal(v[d0..dot]));
    RunLineNext(v, dot, n, MajorDigit, f6, FirstMinorDigit, f6);
  }

  /** From `FirstMinorDigit` over the minor digits, the spaces after them and the terminator: the line is complete. */
  lemma MinorPart(v: seq<Byte>, e0: nat, t: nat, e: nat, f: LineFields)
    requires e0 < t <= e < |v|
    requires forall k :: e0 <= k < t ==> IsDigit(v[k])
    requires forall k :: t <= k < e ==> v[k] == SP
    requires Terminated(v, e)
    ensures RunLine(v, e0, |v|, FirstMinorDigit, f) == Finished(f.(minor := Decimal(v[e0..t])), |v|)
  {
    var n := |v|;
    var f7 := f.(minor := DigitValue(v[e0]));
    assert v[e0..e0 + 1] == [v[e0]];
    RunLineNext(v, e0, n, FirstMinorDigit, f, MinorDigit, f7);
    MinorDigitsRun(v, e0, e0 + 1, t, f7);
    RunLineSplit(v, e0 + 1, t, n, MinorDigit, f7);
    LineEndRun(v, t, e, f.(minor := Decimal(v[e0..t])));
  }

  /** After the minor digits, optional spaces and a CR LF or bare LF complete the line just after the LF. */
  lemma LineEndRun(v: seq<Byte>, t: nat, e: nat, f: LineFields)
    requires t <= e < |v|
    requires forall k :: t <= k < e ==> v[k] == SP
    requires Terminated(v, e)
    ensures RunLine(v, t, |v|, MinorDigit, f) == Finished(f, |v|)
  {
    var n := |v|;
    if t < e {
      RunLineNext(v, t, n, MinorDigit, f, SpacesAfterDigit, f);
      SpacesRun(v, t + 1, e, n, SpacesAfterDigit, f);
      if v[e] == CR {
        RunLineNext(v, e, n, SpacesAfterDigit, f, AlmostDone, f);
      }
    } else if v[t] == CR {
      RunLineNext(v, t, n, MinorDigit, f, AlmostDone, f);
    }
  }

  /**
   * A well-formed request line parses in one call. The method token is
   * `[0, sp)`, spaces up to the URI `[u0, u1)` starting with `/`, spaces up
   * to `HTTP/` at `h`, the major version up to the dot at `dot` (no leading
   * zero), the minor version `[dot + 1, t)`, spaces up to `e` and a CR LF or
   * bare LF terminator at `e`. The method is classified from its token, the
   * URI span is exactly the URI, the version numbers are the decimal values
   * of their digits, and parsing stops just after the line feed.
   */
  lemma WellFormedLineParses(v: seq<Byte>, sp: nat, u0: nat, u1: nat, h: nat, dot: nat, t: nat, e: nat, f: LineFields)
    requires 0 < sp < u0 < u1 < h && h + 5 < dot && dot + 1 < t <= e < |v|
    requires forall k :: 0 <= k < sp ==> IsMethodChar(v[k])
    requires forall k :: sp <= k < u0 ==> v[k] == SP
    requires v[u0] == '/' && forall k :: u0 <= k < u1 ==> v[k] != SP
    requires forall k :: u1 <= k < h ==> v[k] == SP
    requires HttpAt(v, h) && '1' <= v[h + 5] <= '9' && v[dot] == '.'
    requires forall k :: h + 5 <= k < dot ==> IsDigit(v[k])
    requires forall k :: dot + 1 <= k < t ==> IsDigit(v[k])
    requires forall k :: t <= k < e ==> v[k] == SP
    requires Terminated(v, e)
    ensures RunLine(v, 0, |v|, Start, f) == Finished(
      LineFields(0, MethodOf(v[..sp], f.requestMethod), u0, u1, Decimal(v[h + 5..dot]), Decimal(v[dot + 1..t])),
      |v|)
  {
    var f4 := f.(requestStart := 0, requestMethod := MethodOf(v[..sp], f.requestMethod), uriStart := u0, uriEnd := u1);
    TargetAt(v, sp, u0, u1, h, f);
    VersionAt(v, h, dot, t, e, f4);
  }

  /** The method token, the URI and the spaces around it take the parser to `Http`. */
  lemma TargetAt(v: seq<Byte>, sp: nat, u0: nat, u1: nat, h: nat, f: LineFields)
    requires 0 < sp < u0 < u1 < h <= |v|
    requires forall k :: 0 <= k < sp ==> IsMethodChar(v[k])
    requires forall k :: sp <= k < u0 ==> v[k] == SP
    requires v[u0] == '/' && forall k :: u0 <= k < u1 ==> v[k] != SP
    requires forall k :: u1 <= k < h ==> v[k] == SP
    ensures RunLine(v, 0, |v|, Start, f) == RunLine(v, h, |v|, Http,
      f.(requestStart := 0, requestMethod := MethodOf(v[..sp], f.requestMethod), uriStart := u0, uriEnd := u1))
  {
    var n := |v|;
    var f2 := f.(requestStart := 0, requestMethod := MethodOf(v[..sp], f.requestMethod));
    MethodPart(v, v[..sp], n, f);
    SpacesRun(v, sp + 1, u0, n, SpacesBeforeUri, f2);
    UriPart(v, u0, u1, n, f2);
    SpacesRun(v, u1 + 1, h, n, Http, f2.(uriStart := u0, uriEnd := u1));
  }

  /** `HTTP/`, the version, the spaces after it and the terminator complete the line. */
  lemma VersionAt(v: seq<Byte>, h: nat, dot: nat, t: nat, e: nat, f: LineFields)
    requires h + 5 < dot && dot + 1 < t <= e < |v|
    requires HttpAt(v, h) && '1' <= v[h + 5] <= '9' && v[dot] == '.'
    requires forall k :: h + 5 <= k < dot ==> IsDigit(v[k])
    requires forall k :: dot + 1 <= k < t ==> IsDigit(v[k])
    requires forall k :: t <= k < e ==> v[k] == SP
    requires Terminated(v, e)
    ensures RunLine(v, h, |v|, Http, f) == Finished(f.(major := Decimal(v[h + 5..dot]), minor := Decimal(v[dot + 1..t])), |v|)
  {
    HttpPart(v, h, |v|, f);
    MajorPart(v, h + 5, dot, |v|, f);
    MinorPart(v, dot + 1, t, e, f.(major := Decimal(v[h + 5..dot])));
  }

  /**
   * The bytes each state lets through, as the request-line grammar
   * `METHOD SP+ /uri SP+ HTTP/d+.d+ SP* [CR] LF` (with blank lines before it)
   * reads at that point.
   */
  predicate Allowed(s: LineState, ch: Byte) {
    match s
    case Start => ch == CR || ch == LF || IsMethodChar(ch)
    case Method => ch == SP || IsMethodChar(ch)
    case SpacesBeforeUri => ch == SP || ch == '/'
    case AfterSlashInUri => true
    case Http => ch == SP || ch == 'H'
    case HttpH => ch == 'T'
    case HttpHT => ch == 'T'
    case HttpHTT => ch == 'P'
    case HttpHTTP => ch == '/'
    case FirstMajorDigit => '1' <= ch <= '9'
    case MajorDigit => ch == '.' || IsDigit(ch)
    case FirstMinorDigit => IsDigit(ch)
    case MinorDigit => ch == CR || ch == LF || ch == SP || IsDigit(ch)
    case SpacesAfterDigit => ch == SP || ch == CR || ch == LF
    case AlmostDone => ch == LF
  }

  /** The error for a byte refused in state `s`: bad method bytes are `INVALID_METHOD`, every other refusal `INVALID_REQUEST`. */
  function ErrorIn(s: LineState): ParseResult {
    if s == Start || s == Method then InvalidMethod else InvalidRequest
  }

  /**
   * The parser refuses a byte exactly when the grammar does not allow it in
   * the current state, and then stops with that state's error, `request_start`
   * moved to the byte in `Start` and no other field touched.
   */
  lemma StepRefusesExactly(v: seq<Byte>, i: nat, n: nat, s: LineState, f: LineFields)
    requires i < n <= |v|
    ensures LineStep(v, i, s, f).Reject? <==> !Allowed(s, v[i])
    ensures !Allowed(s, v[i]) ==>
      RunLine(v, i, n, s, f) == Failed(ErrorIn(s), if s == Start then f.(requestStart := i) else f)
  {
  }

  /**
   * A method byte outside `A`-`Z` and `_`, after a method prefix (and not a
   * blank line's CR or LF at the start, nor the space that ends the token),
   * is `INVALID_METHOD`, with only `request_start` recorded.
   */
  lemma BadMethodByteRejected(v: seq<Byte>, k: nat, n: nat, f: LineFields)
    requires k < n <= |v|
    requires forall j :: 0 <= j < k ==> IsMethodChar(v[j])
    requires !IsMethodChar(v[k])
    requires k == 0 ==> v[k] != CR && v[k] != LF
    requires k > 0 ==> v[k] != SP
    ensures RunLine(v, 0, n, Start, f) == Failed(InvalidMethod, f.(requestStart := 0))
  {
    var f0 := f.(requestStart := 0);
    if k > 0 {
      RunLineNext(v, 0, n, Start, f, Method, f0);
      MethodTokenRun(v, 1, k, f0);
      RunLineSplit(v, 1, k, n, Method, f0);
    }
  }

  /**
   * After the method token and its spaces, a byte other than a space or `/`
   * is `INVALID_REQUEST`; the method is already classified.
   */
  lemma BadTargetRejected(v: seq<Byte>, sp: nat, b: nat, n: nat, f: LineFields)
    requires 0 < sp < b < n <= |v|
    requires forall k :: 0 <= k < sp ==> IsMethodChar(v[k])
    requires forall k :: sp <= k < b ==> v[k] == SP
    requires v[b] != SP && v[b] != '/'
    ensures RunLine(v, 0, n, Start, f) == Failed(InvalidRequest, f.(requestStart := 0, requestMethod := MethodOf(v[..sp], f.requestMethod)))
  {
    var f2 := f.(requestStart := 0, requestMethod := MethodOf(v[..sp], f.requestMethod));
    MethodPart(v, v[..sp], n, f);
    SpacesRun(v, sp + 1, b, n, SpacesBeforeUri, f2);
  }

  /** Lower-case methods are refused on their first byte, after `request_start` is set. */
  lemma LowerCaseMethodRejected(f: LineFields)
    ensures RunLine("get / HTTP/1.1\r\n", 0, 16, Start, f) == Failed(InvalidMethod, f.(requestStart := 0))
  {
  }

  /** A URI must begin with `/`: the method is already recorded when the request is refused. */
  lemma RelativeUriRejected(f: LineFields)
    ensures RunLine("GET x HTTP/1.1\r\n", 0, 16, Start, f) == Failed(InvalidRequest, f.(requestStart := 0, requestMethod := Get))
  {
    var v: seq<Byte> := "GET x HTTP/1.1\r\n";
    assert v[..3] == "GET";
    BadTargetRejected(v, 3, 4, 16, f);
  }
}
