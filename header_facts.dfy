/**
 * What `http_parse_request_body` records for a well-formed header block, and
 * the guarantees that hold of every header it records, proved from the state
 * machine of module `HeaderParser`.
 */
module HeaderFacts {
  import opened Bytes
  import opened HttpDefs
  import opened HeaderParser

  /** `s` backwards: the order in which `list_add` leaves headers pushed in the order of `s`. */
  function Reversed<T>(s: seq<T>): (r: seq<T>)
    ensures |r| == |s|
  {
    if s == [] then [] else Reversed(s[1..]) + [s[0]]
  }

  /** Bytes on which a state steps back to itself leave the scan untouched. */
  lemma {:induction false} StayRun(v: seq<Byte>, i: nat, j: nat, n: nat, s: HeaderState, sc: Scan)
    requires i <= j <= n <= |v|
    requires forall k :: i <= k < j ==> HeaderStep(v, k, s, sc) == Go(s, sc)
    ensures RunHeaders(v, i, n, s, sc) == RunHeaders(v, j, n, s, sc)
    decreases j - i
  {
    if i < j {
      RunHeadersNext(v, i, n, s, sc, s, sc);
      StayRun(v, i + 1, j, n, s, sc);
    }
  }

  /**
   * The colon of header `h` at `c`: only spaces between the end of the key
   * and the colon, and between the colon and the value.
   */
  predicate ColonAt(v: seq<Byte>, h: Header, c: nat)
    requires h.valueStart <= |v|
  {
    && h.keyEnd <= c < h.valueStart && v[c] == ':'
    && (forall k :: h.keyEnd <= k < c ==> v[k] == SP)
    && (forall k :: c < k < h.valueStart ==> v[k] == SP)
  }

  /**
   * A header field at `h`: a key of bytes other than space, colon, CR and LF,
   * a colon with optional spaces on either side, and a value that does not
   * begin with a space and holds no CR or LF, up to `h.valueEnd`.
   */
  predicate FieldAt(v: seq<Byte>, h: Header) {
    && h.keyStart < h.keyEnd < h.valueStart < h.valueEnd < |v|
    && (forall k :: h.keyStart <= k < h.keyEnd ==> v[k] != SP && v[k] != ':' && v[k] != CR && v[k] != LF)
    && (exists c :: h.keyEnd <= c < h.valueStart && ColonAt(v, h, c))
    && v[h.valueStart] != SP
    && (forall k :: h.valueStart <= k < h.valueEnd ==> v[k] != CR && v[k] != LF)
  }

  /** A canonical header line: a header field ended by CR LF. */
  predicate HeaderLineAt(v: seq<Byte>, h: Header) {
    FieldAt(v, h) && h.valueEnd + 1 < |v| && v[h.valueEnd] == CR && v[h.valueEnd + 1] == LF
  }

  /** The scan once header `h` has been read: its spans are current and it heads the list. */
  function Recorded(h: Header, sc: Scan): Scan {
    Scan(h.keyStart, h.keyEnd, h.valueStart, h.valueEnd, [h] + sc.headers)
  }

  /** The key of a header line: from the first key byte, over any spaces before the colon, to just after the colon. */
  lemma KeyPart(v: seq<Byte>, h: Header, c: nat, n: nat, s: HeaderState, sc: Scan)
    requires s == HStart || s == Crlf
    requires FieldAt(v, h) && ColonAt(v, h, c) && h.valueEnd < n <= |v|
    ensures RunHeaders(v, h.keyStart, n, s, sc)
         == RunHeaders(v, c + 1, n, SpacesAfterColon, sc.(keyStart := h.keyStart, keyEnd := h.keyEnd))
  {
    var sc1 := sc.(keyStart := h.keyStart);
    RunHeadersNext(v, h.keyStart, n, s, sc, Key, sc1);
    StayRun(v, h.keyStart + 1, h.keyEnd, n, Key, sc1);
    ColonPart(v, h, c, n, sc1);
  }

  /** The end of a key: a colon at once, or spaces and then the colon; the key ends at the first of them. */
  lemma ColonPart(v: seq<Byte>, h: Header, c: nat, n: nat, sc: Scan)
    requires h.valueStart < n <= |v| && ColonAt(v, h, c)
    ensures RunHeaders(v, h.keyEnd, n, Key, sc) == RunHeaders(v, c + 1, n, SpacesAfterColon, sc.(keyEnd := h.keyEnd))
  {
    var sc2 := sc.(keyEnd := h.keyEnd);
    if c == h.keyEnd {
      RunHeadersNext(v, h.keyEnd, n, Key, sc, SpacesAfterColon, sc2);
    } else {
      RunHeadersNext(v, h.keyEnd, n, Key, sc, SpacesBeforeColon, sc2);
      StayRun(v, h.keyEnd + 1, c, n, SpacesBeforeColon, sc2);
      RunHeadersNext(v, c, n, SpacesBeforeColon, sc2, SpacesAfterColon, sc2);
    }
  }

  /** The spaces after the colon and the value, up to its CR. */
  lemma ValuePart(v: seq<Byte>, h: Header, c: nat, n: nat, sc: Scan)
    requires FieldAt(v, h) && ColonAt(v, h, c) && h.valueEnd < n <= |v|
    ensures RunHeaders(v, c + 1, n, SpacesAfterColon, sc)
         == RunHeaders(v, h.valueEnd, n, Value, sc.(valueStart := h.valueStart))
  {
    StayRun(v, c + 1, h.valueStart, n, SpacesAfterColon, sc);
    var sc2 := sc.(valueStart := h.valueStart);
    RunHeadersNext(v, h.valueStart, n, SpacesAfterColon, sc, Value, sc2);
    StayRun(v, h.valueStart + 1, h.valueEnd, n, Value, sc2);
  }

  /** The CR LF ending a value: the header is pushed on the list. */
  lemma LineEndPart(v: seq<Byte>, h: Header, n: nat, sc: Scan)
    requires HeaderLineAt(v, h) && h.valueEnd + 2 <= n <= |v|
    requires sc.keyStart == h.keyStart && sc.keyEnd == h.keyEnd && sc.valueStart == h.valueStart
    ensures RunHeaders(v, h.valueEnd, n, Value, sc) == RunHeaders(v, h.valueEnd + 2, n, Crlf, Recorded(h, sc))
  {
    var sc3 := sc.(valueEnd := h.valueEnd);
    RunHeadersNext(v, h.valueEnd, n, Value, sc, Cr, sc3);
    assert Current(sc3) == h;
    RunHeadersNext(v, h.valueEnd + 1, n, Cr, sc3, Crlf, Recorded(h, sc));
  }

  /** One header line, from the start state or after the previous line's CR LF. */
  lemma HeaderLinePart(v: seq<Byte>, h: Header, n: nat, s: HeaderState, sc: Scan)
    requires s == HStart || s == Crlf
    requires HeaderLineAt(v, h) && h.valueEnd + 2 <= n <= |v|
    ensures RunHeaders(v, h.keyStart, n, s, sc) == RunHeaders(v, h.valueEnd + 2, n, Crlf, Recorded(h, sc))
  {
    var sc1 := sc.(keyStart := h.keyStart, keyEnd := h.keyEnd);
    var c :| ColonAt(v, h, c);
    KeyPart(v, h, c, n, s, sc);
    ValuePart(v, h, c, n, sc1);
    LineEndPart(v, h, n, sc1.(valueStart := h.valueStart));
    assert Recorded(h, sc1.(valueStart := h.valueStart)) == Recorded(h, sc);
  }

  /**
   * A header field ended by a bare LF is not recorded: the parser takes the
   * LF as the end of the line but pushes a header only after a CR LF, so the
   * list is unchanged and only the current spans move.
   */
  lemma BareLfFieldDropped(v: seq<Byte>, h: Header, n: nat, s: HeaderState, sc: Scan)
    requires s == HStart || s == Crlf
    requires FieldAt(v, h) && h.valueEnd < n <= |v| && v[h.valueEnd] == LF
    ensures RunHeaders(v, h.keyStart, n, s, sc)
         == RunHeaders(v, h.valueEnd + 1, n, Crlf, Scan(h.keyStart, h.keyEnd, h.valueStart, h.valueEnd, sc.headers))
  {
    var sc1 := sc.(keyStart := h.keyStart, keyEnd := h.keyEnd);
    var c :| ColonAt(v, h, c);
    KeyPart(v, h, c, n, s, sc);
    ValuePart(v, h, c, n, sc1);
    var sc2 := sc1.(valueStart := h.valueStart);
    RunHeadersNext(v, h.valueEnd, n, Value, sc2, Crlf, sc2.(valueEnd := h.valueEnd));
  }

  /**
   * Only spaces may stand between a key and its colon: a key `[k0, e)` ended
   * by a space, further spaces up to `b` and then any byte other than a
   * space or a colon make the header invalid.
   */
  lemma StrayByteBeforeColonRejected(v: seq<Byte>, k0: nat, e: nat, b: nat, n: nat, sc: Scan)
    requires k0 <= e < b < n <= |v|
    requires forall k :: k0 <= k < e ==> v[k] != SP && v[k] != ':'
    requires forall k :: e <= k < b ==> v[k] == SP
    requires v[b] != SP && v[b] != ':'
    ensures RunHeaders(v, k0, n, Key, sc) == HFailed(sc.(keyEnd := e))
  {
    StayRun(v, k0, e, n, Key, sc);
    var sc1 := sc.(keyEnd := e);
    RunHeadersNext(v, e, n, Key, sc, SpacesBeforeColon, sc1);
    StayRun(v, e + 1, b, n, SpacesBeforeColon, sc1);
  }

  /** A CR ending a value must be followed by LF: any other byte makes the header invalid and nothing is recorded. */
  lemma CrWithoutLfRejected(v: seq<Byte>, h: Header, n: nat, s: HeaderState, sc: Scan)
    requires s == HStart || s == Crlf
    requires FieldAt(v, h) && h.valueEnd + 1 < n <= |v| && v[h.valueEnd] == CR && v[h.valueEnd + 1] != LF
    ensures RunHeaders(v, h.keyStart, n, s, sc)
         == HFailed(Scan(h.keyStart, h.keyEnd, h.valueStart, h.valueEnd, sc.headers))
  {
    var sc1 := sc.(keyStart := h.keyStart, keyEnd := h.keyEnd);
    var c :| ColonAt(v, h, c);
    KeyPart(v, h, c, n, s, sc);
    ValuePart(v, h, c, n, sc1);
    var sc2 := sc1.(valueStart := h.valueStart);
    RunHeadersNext(v, h.valueEnd, n, Value, sc2, Cr, sc2.(valueEnd := h.valueEnd));
  }

  /** Header lines that follow each other without a gap. */
  predicate HeaderLinesAt(v: seq<Byte>, hs: seq<Header>) {
    && (forall j :: 0 <= j < |hs| ==> HeaderLineAt(v, hs[j]))
    && (forall j :: 0 <= j < |hs| - 1 ==> hs[j + 1].keyStart == hs[j].valueEnd + 2)
  }

  /** Where a non-empty block of header lines ends: after the last line's CR LF. */
  function BlockEnd(hs: seq<Header>): nat
    requires |hs| > 0
  {
    hs[|hs| - 1].valueEnd + 2
  }

  /** The scan after a block: the last line's spans, and every line on the list, newest first. */
  function AfterBlock(hs: seq<Header>, sc: Scan): Scan
    requires |hs| > 0
  {
    var h := hs[|hs| - 1];
    Scan(h.keyStart, h.keyEnd, h.valueStart, h.valueEnd, Reversed(hs) + sc.headers)
  }

  /** A block of header lines, line by line. */
  lemma {:induction false} BlockPart(v: seq<Byte>, hs: seq<Header>, n: nat, s: HeaderState, sc: Scan)
    requires s == HStart || s == Crlf
    requires |hs| > 0 && HeaderLinesAt(v, hs) && BlockEnd(hs) <= n <= |v|
    ensures hs[0].keyStart <= BlockEnd(hs)
    ensures RunHeaders(v, hs[0].keyStart, n, s, sc) == RunHeaders(v, BlockEnd(hs), n, Crlf, AfterBlock(hs, sc))
    decreases |hs|
  {
    var h := hs[0];
    assert HeaderLineAt(v, h);
    EndsOrdered(v, hs, 0);
    HeaderLinePart(v, h, n, s, sc);
    AfterBlockStep(hs, sc);
    if |hs| > 1 {
      LinesTail(v, hs);
      BlockPart(v, hs[1..], n, Crlf, Recorded(h, sc));
    }
  }

  /** Recording the first line, then the rest of the block, records the whole block. */
  lemma AfterBlockStep(hs: seq<Header>, sc: Scan)
    requires |hs| > 0
    ensures |hs| == 1 ==> AfterBlock(hs, sc) == Recorded(hs[0], sc) && BlockEnd(hs) == hs[0].valueEnd + 2
    ensures |hs| > 1 ==> AfterBlock(hs[1..], Recorded(hs[0], sc)) == AfterBlock(hs, sc)
  {
    var h := hs[0];
    var rest := hs[1..];
    assert Reversed(hs) == Reversed(rest) + [h];
    if |hs| == 1 {
      assert rest == [];
    } else {
      assert rest[|rest| - 1] == hs[|hs| - 1];
      assert Reversed(rest) + ([h] + sc.headers) == Reversed(hs) + sc.headers;
    }
  }

  /** The lines after the first of a block form a block. */
  lemma LinesTail(v: seq<Byte>, hs: seq<Header>)
    requires |hs| > 1 && HeaderLinesAt(v, hs)
    ensures HeaderLinesAt(v, hs[1..]) && hs[1..][0].keyStart == hs[0].valueEnd + 2 && BlockEnd(hs[1..]) == BlockEnd(hs)
  {
    var rest := hs[1..];
    forall j | 0 <= j < |rest|
      ensures HeaderLineAt(v, rest[j])
    {
      assert rest[j] == hs[j + 1];
    }
    forall j | 0 <= j < |rest| - 1
      ensures rest[j + 1].keyStart == rest[j].valueEnd + 2
    {
      assert rest[j] == hs[j + 1] && rest[j + 1] == hs[j + 2];
    }
  }

  /** In a block, every line from the `j`-th on ends no later than the block. */
  lemma {:induction false} EndsOrdered(v: seq<Byte>, hs: seq<Header>, j: nat)
    requires HeaderLinesAt(v, hs) && j < |hs|
    ensures hs[j].valueEnd + 2 <= BlockEnd(hs)
    decreases |hs| - j
  {
    if j < |hs| - 1 {
      assert HeaderLineAt(v, hs[j + 1]);
      EndsOrdered(v, hs, j + 1);
    }
  }

  /**
   * A well-formed header block parses in one call: header lines followed by
   * an empty line end the block just after its LF, with every line's key and
   * value spans on the header list, the last line first.
   */
  lemma WellFormedHeadersParse(v: seq<Byte>, hs: seq<Header>, n: nat, sc: Scan)
    requires |hs| > 0 && HeaderLinesAt(v, hs)
    requires BlockEnd(hs) + 2 <= n <= |v|
    requires v[BlockEnd(hs)] == CR && v[BlockEnd(hs) + 1] == LF
    ensures hs[0].keyStart < BlockEnd(hs)
    ensures RunHeaders(v, hs[0].keyStart, n, HStart, sc) == HFinished(AfterBlock(hs, sc), BlockEnd(hs) + 2)
  {
    var e := BlockEnd(hs);
    var sc' := AfterBlock(hs, sc);
    BlockPart(v, hs, n, HStart, sc);
    RunHeadersNext(v, e, n, Crlf, sc', Crlfcr, sc');
  }

  /**
   * A header the parser can have recorded from the bytes `[lo, hi)`: its key
   * ends at a space or a colon, its spans are in order, and its value ends
   * at a CR LF inside those bytes.
   */
  predicate SoundHeader(v: seq<Byte>, lo: nat, hi: nat, h: Header) {
    && lo <= h.keyStart < h.keyEnd < h.valueStart < h.valueEnd && h.valueEnd + 1 < hi <= |v|
    && (v[h.keyEnd] == SP || v[h.keyEnd] == ':')
    && v[h.valueEnd] == CR && v[h.valueEnd + 1] == LF
  }

  /** Sound headers, newest first, each one's key after the previous one's line feed. */
  predicate SoundList(v: seq<Byte>, lo: nat, hi: nat, hs: seq<Header>) {
    && (forall j :: 0 <= j < |hs| ==> SoundHeader(v, lo, hi, hs[j]))
    && (forall j :: 0 <= j < |hs| - 1 ==> hs[j + 1].valueEnd + 1 < hs[j].keyStart)
  }

  /** `hs` is `base` with headers pushed in front of it. */
  predicate Extends(hs: seq<Header>, base: seq<Header>) {
    |base| <= |hs| && hs[|hs| - |base|..] == base
  }

  /** The headers pushed in front of `base`. */
  function Pushed(hs: seq<Header>, base: seq<Header>): seq<Header>
    requires Extends(hs, base)
  {
    hs[..|hs| - |base|]
  }

  /** What the header parser keeps true between bytes, having read `[lo, i)` on top of the list `base`. */
  predicate ScanInv(v: seq<Byte>, lo: nat, i: nat, s: HeaderState, sc: Scan, base: seq<Header>) {
    && i <= |v|
    && Extends(sc.headers, base)
    && SoundList(v, lo, i, Pushed(sc.headers, base))
    && (s.Key? || s.SpacesBeforeColon? || s.SpacesAfterColon? || s.Value? || s.Cr? ==>
         && lo <= sc.keyStart < i
         && (|Pushed(sc.headers, base)| > 0 ==> Pushed(sc.headers, base)[0].valueEnd + 1 < sc.keyStart))
    && (s.SpacesBeforeColon? || s.SpacesAfterColon? || s.Value? || s.Cr? ==> sc.keyStart < sc.keyEnd < i)
    && (s.SpacesBeforeColon? ==> v[sc.keyEnd] == SP)
    && (s.SpacesAfterColon? || s.Value? || s.Cr? ==> v[sc.keyEnd] == SP || v[sc.keyEnd] == ':')
    && (s.Value? || s.Cr? ==> sc.keyEnd < sc.valueStart < i)
    && (s.Cr? ==> sc.valueStart < sc.valueEnd && sc.valueEnd + 1 == i && v[sc.valueEnd] == CR)
  }

  /** Sound headers stay sound as more bytes are read. */
  lemma SoundListGrows(v: seq<Byte>, lo: nat, i: nat, j: nat, hs: seq<Header>)
    requires SoundList(v, lo, i, hs) && i <= j <= |v|
    ensures SoundList(v, lo, j, hs)
  {
    forall k | 0 <= k < |hs|
      ensures SoundHeader(v, lo, j, hs[k])
    {
      assert SoundHeader(v, lo, i, hs[k]);
    }
  }

  /** Pushing the current header after its CR LF keeps the list sound. */
  lemma PushSound(v: seq<Byte>, lo: nat, i: nat, sc: Scan, base: seq<Header>)
    requires i < |v| && v[i] == LF
    requires ScanInv(v, lo, i, Cr, sc, base)
    ensures var hs := [Current(sc)] + sc.headers;
      Extends(hs, base) && Pushed(hs, base) == [Current(sc)] + Pushed(sc.headers, base)
      && SoundList(v, lo, i + 1, Pushed(hs, base))
  {
    var prior := Pushed(sc.headers, base);
    var hs := [Current(sc)] + sc.headers;
    assert hs[|hs| - |base|..] == sc.headers[|sc.headers| - |base|..];
    assert Pushed(hs, base) == [Current(sc)] + prior;
    SoundListGrows(v, lo, i, i + 1, prior);
  }

  /** One byte keeps the invariant, or ends the call with a sound list. */
  lemma StepSound(v: seq<Byte>, lo: nat, i: nat, s: HeaderState, sc: Scan, base: seq<Header>)
    requires i < |v| && ScanInv(v, lo, i, s, sc, base)
    requires s.HStart? || s.Crlf? ==> lo <= i
    ensures match HeaderStep(v, i, s, sc)
      case Go(s', sc') => ScanInv(v, lo, i + 1, s', sc', base)
      case Done(sc') => Extends(sc'.headers, base) && SoundList(v, lo, i + 1, Pushed(sc'.headers, base))
      case Bad(sc') => Extends(sc'.headers, base) && SoundList(v, lo, i + 1, Pushed(sc'.headers, base))
  {
    SoundListGrows(v, lo, i, i + 1, Pushed(sc.headers, base));
    if s.HStart? || s.Key? || s.SpacesBeforeColon? || s.SpacesAfterColon? {
      KeyStepSound(v, lo, i, s, sc, base);
    } else {
      ValueStepSound(v, lo, i, s, sc, base);
    }
  }

  /** `StepSound` in the states that read a key and the colon. */
  lemma KeyStepSound(v: seq<Byte>, lo: nat, i: nat, s: HeaderState, sc: Scan, base: seq<Header>)
    requires s.HStart? || s.Key? || s.SpacesBeforeColon? || s.SpacesAfterColon?
    requires i < |v| && ScanInv(v, lo, i, s, sc, base)
    requires s.HStart? ==> lo <= i
    requires SoundList(v, lo, i + 1, Pushed(sc.headers, base))
    ensures match HeaderStep(v, i, s, sc)
      case Go(s', sc') => ScanInv(v, lo, i + 1, s', sc', base)
      case Done(sc') => false
      case Bad(sc') => Extends(sc'.headers, base) && SoundList(v, lo, i + 1, Pushed(sc'.headers, base))
  {
    match s
    case HStart =>
      if v[i] != CR && v[i] != LF {
        assert ScanInv(v, lo, i + 1, Key, sc.(keyStart := i), base);
      }
    case Key =>
      if v[i] == SP {
        assert ScanInv(v, lo, i + 1, SpacesBeforeColon, sc.(keyEnd := i), base);
      } else if v[i] == ':' {
        assert ScanInv(v, lo, i + 1, SpacesAfterColon, sc.(keyEnd := i), base);
      } else {
        assert ScanInv(v, lo, i + 1, Key, sc, base);
      }
    case SpacesBeforeColon =>
      if v[i] == SP {
        assert ScanInv(v, lo, i + 1, SpacesBeforeColon, sc, base);
      } else if v[i] == ':' {
        assert ScanInv(v, lo, i + 1, SpacesAfterColon, sc, base);
      }
    case SpacesAfterColon =>
      if v[i] == SP {
        assert ScanInv(v, lo, i + 1, SpacesAfterColon, sc, base);
      } else {
        assert ScanInv(v, lo, i + 1, Value, sc.(valueStart := i), base);
      }
  }

  /** `StepSound` in the states that read a value and the line ends. */
  lemma ValueStepSound(v: seq<Byte>, lo: nat, i: nat, s: HeaderState, sc: Scan, base: seq<Header>)
    requires s.Value? || s.Cr? || s.Crlf? || s.Crlfcr?
    requires i < |v| && ScanInv(v, lo, i, s, sc, base)
    requires s.Crlf? ==> lo <= i
    requires SoundList(v, lo, i + 1, Pushed(sc.headers, base))
    ensures match HeaderStep(v, i, s, sc)
      case Go(s', sc') => ScanInv(v, lo, i + 1, s', sc', base)
      case Done(sc') => Extends(sc'.headers, base) && SoundList(v, lo, i + 1, Pushed(sc'.headers, base))
      case Bad(sc') => Extends(sc'.headers, base) && SoundList(v, lo, i + 1, Pushed(sc'.headers, base))
  {
    match s
    case Value =>
      if v[i] == CR {
        assert ScanInv(v, lo, i + 1, Cr, sc.(valueEnd := i), base);
      } else if v[i] == LF {
        assert ScanInv(v, lo, i + 1, Crlf, sc.(valueEnd := i), base);
      } else {
        assert ScanInv(v, lo, i + 1, Value, sc, base);
      }
    case Cr =>
      if v[i] == LF {
        PushSound(v, lo, i, sc, base);
        CrLfSound(v, lo, i, sc, base);
      }
    case Crlf =>
      if v[i] == CR {
        assert ScanInv(v, lo, i + 1, Crlfcr, sc, base);
      } else {
        assert ScanInv(v, lo, i + 1, Key, sc.(keyStart := i), base);
      }
    case Crlfcr =>
  }

  /** The line feed after a value's CR pushes the header and keeps the invariant. */
  lemma CrLfSound(v: seq<Byte>, lo: nat, i: nat, sc: Scan, base: seq<Header>)
    requires i < |v| && v[i] == LF
    requires ScanInv(v, lo, i, Cr, sc, base)
    requires var hs := [Current(sc)] + sc.headers;
      Extends(hs, base) && SoundList(v, lo, i + 1, Pushed(hs, base))
    ensures ScanInv(v, lo, i + 1, Crlf, sc.(headers := [Current(sc)] + sc.headers), base)
  {
  }

  /**
   * What a run over `[lo, last)` leaves behind: a list that extends `base`
   * with sound headers, and the invariant again if the run is suspended.
   */
  predicate SoundOutcome(v: seq<Byte>, lo: nat, last: nat, o: HeaderOutcome, base: seq<Header>)
    requires last <= |v|
  {
    && Extends(o.scan.headers, base)
    && SoundList(v, lo, if o.HFinished? then o.next else last, Pushed(o.scan.headers, base))
    && (o.HSuspended? ==> ScanInv(v, lo, last, o.state, o.scan, base))
  }

  /**
   * Every run of the header parser over `[lo, last)` keeps the invariant,
   * and leaves a sound header list however it ends.
   */
  lemma {:induction false} RunSound(v: seq<Byte>, lo: nat, i: nat, last: nat, s: HeaderState, sc: Scan, base: seq<Header>)
    requires lo <= i <= last <= |v| && ScanInv(v, lo, i, s, sc, base)
    ensures SoundOutcome(v, lo, last, RunHeaders(v, i, last, s, sc), base)
    decreases last - i
  {
    if i < last {
      StepSound(v, lo, i, s, sc, base);
      match HeaderStep(v, i, s, sc)
      case Go(s', sc') =>
        RunHeadersNext(v, i, last, s, sc, s', sc');
        RunSound(v, lo, i + 1, last, s', sc', base);
      case Done(sc') =>
        assert RunHeaders(v, i, last, s, sc) == HFinished(sc', i + 1);
      case Bad(sc') =>
        assert RunHeaders(v, i, last, s, sc) == HFailed(sc');
        SoundListGrows(v, lo, i + 1, last, Pushed(sc'.headers, base));
    } else {
      assert RunHeaders(v, i, last, s, sc) == HSuspended(s, sc);
    }
  }

  /**
   * Soundness of the header parser: whatever the bytes, every header a call
   * from the start state pushes on the list has its key before its value,
   * both inside the bytes read by that call, and a value ending at CR LF;
   * the pushed headers are newest first and do not overlap.
   */
  lemma HeadersSound(v: seq<Byte>, i: nat, last: nat, sc: Scan)
    requires i <= last <= |v|
    ensures var o := RunHeaders(v, i, last, HStart, sc);
      && Extends(o.scan.headers, sc.headers)
      && SoundList(v, i, if o.HFinished? then o.next else last, Pushed(o.scan.headers, sc.headers))
  {
    assert Extends(sc.headers, sc.headers);
    assert Pushed(sc.headers, sc.headers) == [];
    RunSound(v, i, i, last, HStart, sc, sc.headers);
  }
}

