/**
 * The helpers of `src/http.c` around the parser: the read window of the ring
 * buffer, the read itself, URI-to-filename resolution, the MIME and status
 * tables, and the response record's initialisation and default status.
 */
module Http {
  import opened Bytes
  import opened HttpDefs

  function Min(a: int, b: int): int {
    if a <= b then a else b
  }

  /**
   * `remain_size` in `do_request`: the bytes a read may add, at most all the
   * free space but one byte, and never past the end of the array.
   */
  function RemainSize(pos: nat, last: nat): (n: int)
    requires pos <= last && last - pos < MAX_BUF
  {
    Min(MAX_BUF - (last - pos) - 1, MAX_BUF - last % MAX_BUF)
  }

  /** A read of at most `remain_size` bytes writes a contiguous run inside the array. */
  lemma ReadStaysInArray(pos: nat, last: nat, n: nat)
    requires pos <= last && last - pos < MAX_BUF && n <= RemainSize(pos, last)
    ensures last % MAX_BUF + n <= MAX_BUF
  {
  }

  /** ... and leaves fewer than `MAX_BUF` unparsed bytes, as the assertion after `r->last += n` demands. */
  lemma ReadKeepsBound(pos: nat, last: nat, n: nat)
    requires pos <= last && last - pos < MAX_BUF && n <= RemainSize(pos, last)
    ensures (last + n) - pos < MAX_BUF
  {
  }

  /**
   * The window is never negative, and it is empty exactly when the buffer
   * holds `MAX_BUF - 1` unparsed bytes: the end of the array alone never
   * closes it, since the read then starts at index 0 of the next lap.
   */
  lemma RemainEmptyIff(pos: nat, last: nat)
    requires pos <= last && last - pos < MAX_BUF
    ensures RemainSize(pos, last) >= 0
    ensures RemainSize(pos, last) == 0 <==> last - pos == MAX_BUF - 1
  {
  }

  /** Moving `k` slots along from `a` without reaching the end of the array. */
  lemma SlotShift(a: nat, k: nat)
    requires a % MAX_BUF + k < MAX_BUF
    ensures (a + k) % MAX_BUF == a % MAX_BUF + k
  {
    var q := a / MAX_BUF;
    assert a == q * MAX_BUF + a % MAX_BUF;
    assert a + k == q * MAX_BUF + (a % MAX_BUF + k);
  }

  /**
   * A byte still in the ring before a read of `n` bytes at `last` lives in a
   * slot that read does not write.
   */
  lemma SlotKept(last: nat, n: nat, j: nat)
    requires last % MAX_BUF + n <= MAX_BUF && j < last && last + n <= j + MAX_BUF
    ensures !(last % MAX_BUF <= j % MAX_BUF < last % MAX_BUF + n)
  {
    var d := last - j;
    var q := last / MAX_BUF;
    assert last == q * MAX_BUF + last % MAX_BUF;
    if d <= last % MAX_BUF {
      assert j == q * MAX_BUF + (last % MAX_BUF - d);
      assert j % MAX_BUF == last % MAX_BUF - d;
    } else {
      assert q >= 1;
      assert j == (q - 1) * MAX_BUF + (last % MAX_BUF + MAX_BUF - d);
      assert j % MAX_BUF == last % MAX_BUF + MAX_BUF - d;
    }
  }

  /**
   * `read(fd, plast, remain_size)` followed by `r->last += n`: the `n` bytes
   * that arrived (a parameter, since the socket is outside the model) land in
   * the array from `last % MAX_BUF` on, and the ring again holds the last
   * `MAX_BUF` bytes of the stream.
   */
  method Receive(r: Request, data: seq<Byte>)
    requires r.Valid() && |data| <= RemainSize(r.pos, r.last)
    modifies r, r.buf
    ensures r.Valid()
    ensures r.stream == old(r.stream) + data && r.last == old(r.last) + |data|
    ensures r.pos == old(r.pos) && r.state == old(r.state) && r.headers == old(r.headers)
    ensures r.requestStart == old(r.requestStart) && r.requestMethod == old(r.requestMethod)
    ensures r.uriStart == old(r.uriStart) && r.uriEnd == old(r.uriEnd)
    ensures r.httpMajor == old(r.httpMajor) && r.httpMinor == old(r.httpMinor)
    ensures r.curKeyStart == old(r.curKeyStart) && r.curKeyEnd == old(r.curKeyEnd)
    ensures r.curValueStart == old(r.curValueStart) && r.curValueEnd == old(r.curValueEnd)
    ensures r.root == old(r.root) && r.fd == old(r.fd) && r.epfd == old(r.epfd)
  {
    ReadStaysInArray(r.pos, r.last, |data|);
    var plast := r.last % MAX_BUF;
    var k := 0;
    while k < |data|
      modifies r.buf
      invariant 0 <= k <= |data|
      invariant forall j :: 0 <= j < k ==> r.buf[plast + j] == data[j]
      invariant forall i :: 0 <= i < MAX_BUF && !(plast <= i < plast + k) ==> r.buf[i] == old(r.buf[i])
    {
      r.buf[plast + k] := data[k];
      k := k + 1;
    }
    ghost var last0 := r.last;
    r.last := r.last + |data|;
    r.stream := r.stream + data;
    forall j | 0 <= j < r.last && r.last - MAX_BUF <= j
      ensures r.buf[j % MAX_BUF] == r.stream[j]
    {
      if j < last0 {
        SlotKept(last0, |data|, j);
      } else {
        SlotShift(last0, j - last0);
      }
    }
  }

  /** `SHORTLINE`, the size of the filename buffer; a URI may be at most half of it. */
  const SHORTLINE: nat := 512

  /**
   * How many leading bytes of the URI name the file: those before the first
   * `?` (the query is dropped) or before a NUL byte (where the C string ends).
   */
  function PathLength(uri: seq<Byte>): (n: nat)
    ensures n <= |uri|
    ensures forall j :: 0 <= j < n ==> uri[j] != '?' && uri[j] != NUL
    ensures n < |uri| ==> uri[n] == '?' || uri[n] == NUL
  {
    if uri == [] || uri[0] == '?' || uri[0] == NUL then 0 else 1 + PathLength(uri[1..])
  }

  /** The path has a `.` after its last `/`: the last component names a file with an extension. */
  predicate DotInLastComponent(path: seq<Byte>) {
    exists j :: 0 <= j < |path| && path[j] == '.' && NoSlashFrom(path, j)
  }

  predicate NoSlashFrom(path: seq<Byte>, j: nat) {
    forall k :: j < k < |path| ==> path[k] != '/'
  }

  predicate HasSlash(path: seq<Byte>) {
    exists k :: 0 <= k < |path| && path[k] == '/'
  }

  /**
   * The filename `parse_uri` leaves for `uri` under the web root `root` when
   * the buffer held `prior`: see `ParseUri`.
   */
  predicate FileFor(uri: seq<Byte>, root: seq<Byte>, prior: seq<Byte>, filename: seq<Byte>) {
    && (|uri| > SHORTLINE / 2 ==> filename == prior)
    && (|uri| <= SHORTLINE / 2 ==>
      var base := root + uri[..PathLength(uri)];
      && |base| > 0
      && |filename| > 0 && filename[|filename| - 1] != '/'
      && |base| <= |filename| && filename[..|base|] == base
      && (DotInLastComponent(base) ==> filename == base)
      && (!DotInLastComponent(base) && base[|base| - 1] == '/' ==> filename == base + "index.html")
      && (!DotInLastComponent(base) && base[|base| - 1] != '/' ==> filename == base + "/index.html"))
  }

  /**
   * `parse_uri`: a URI longer than 256 bytes is refused and the filename
   * buffer keeps what it held (`prior`); otherwise the filename is the web root
   * followed by the URI up to its query, and when its last component has no
   * extension `/index.html` is added (only `index.html` when it already ends in
   * `/`), so it never ends in `/`. The web root is a C string, and the copy
   * must contain a `/` for `strrchr` to find the last component.
   */
  method ParseUri(uri: seq<Byte>, root: seq<Byte>, prior: seq<Byte>) returns (filename: seq<Byte>)
    requires NoNul(root)
    requires |uri| <= SHORTLINE / 2 ==> HasSlash(root + uri[..PathLength(uri)])
    ensures FileFor(uri, root, prior, filename)
  {
    // strchr(uri, '?') on the string cut at `uri_length`
    var q := 0;
    while q < |uri| && uri[q] != '?' && uri[q] != NUL
      invariant q <= |uri|
      invariant forall j :: 0 <= j < q ==> uri[j] != '?' && uri[j] != NUL
    {
      q := q + 1;
    }
    var fileLength := if q < |uri| && uri[q] == '?' then q else |uri|;
    if |uri| > SHORTLINE / 2 {
      return prior;
    }
    // strcpy, then strncat stopping at `file_length` bytes or a NUL
    filename := root;
    var k := 0;
    while k < fileLength && uri[k] != NUL
      invariant k <= fileLength && k <= q
      invariant filename == root + uri[..k]
    {
      filename := filename + [uri[k]];
      k := k + 1;
    }
    assert k == PathLength(uri) by {
      PathLengthIsFirstStop(uri, k);
    }
    filename := AddIndex(filename);
  }

  /**
   * The end of `parse_uri`: a path whose last component has no extension gets
   * `/index.html` (only `index.html` when it already ends in `/`); any other
   * path is kept.
   */
  method AddIndex(base: seq<Byte>) returns (filename: seq<Byte>)
    requires HasSlash(base)
    ensures |filename| > 0 && filename[|filename| - 1] != '/'
    ensures |base| <= |filename| && filename[..|base|] == base
    ensures DotInLastComponent(base) ==> filename == base
    ensures !DotInLastComponent(base) && base[|base| - 1] == '/' ==> filename == base + "index.html"
    ensures !DotInLastComponent(base) && base[|base| - 1] != '/' ==> filename == base + "/index.html"
  {
    filename := base;
    // strrchr(filename, '/')
    var slash := LastIndexOf(filename, '/', 0);
    assert slash.Some?;
    // strrchr(last_comp, '.')
    var dot := LastIndexOf(filename, '.', slash.value);
    assert dot.None? <==> !DotInLastComponent(base) by {
      if dot.Some? {
        assert NoSlashFrom(base, dot.value);
      } else {
        forall j | 0 <= j < |base| && base[j] == '.' ensures !NoSlashFrom(base, j) {
          assert j < slash.value;
        }
      }
    }
    if dot.None? && filename[|filename| - 1] != '/' {
      filename := filename + "/";
    }
    if filename[|filename| - 1] == '/' {
      filename := filename + "index.html";
    }
  }

  /** The only place the bytes of the URI stop the copy is `PathLength`. */
  lemma {:induction false} PathLengthIsFirstStop(uri: seq<Byte>, k: nat)
    requires k <= |uri|
    requires forall j :: 0 <= j < k ==> uri[j] != '?' && uri[j] != NUL
    requires k < |uri| ==> uri[k] == '?' || uri[k] == NUL
    ensures PathLength(uri) == k
  {
    if k > 0 {
      PathLengthIsFirstStop(uri[1..], k - 1);
    }
  }

  /**
   * `strrchr` from index `from`: the last occurrence of `c` at or after `from`,
   * if any.
   */
  method LastIndexOf(s: seq<Byte>, c: Byte, from: nat) returns (found: Option<nat>)
    requires from <= |s|
    ensures found.Some? ==> from <= found.value < |s| && s[found.value] == c
    ensures found.Some? ==> forall j :: found.value < j < |s| ==> s[j] != c
    ensures found.None? ==> forall j :: from <= j < |s| ==> s[j] != c
  {
    var i := |s|;
    while i > from
      invariant from <= i <= |s|
      invariant forall j :: i <= j < |s| ==> s[j] != c
    {
      if s[i - 1] == c {
        return Some(i - 1);
      }
      i := i - 1;
    }
    return None;
  }

  /** The `mime` table: extension and type, in the order the C searches it, before the `NULL` sentinel. */
  const MIME: seq<(seq<Byte>, seq<Byte>)> := [
    (".html", "text/html"),
    (".xml", "text/xml"),
    (".xhtml", "application/xhtml+xml"),
    (".txt", "text/plain"),
    (".pdf", "application/pdf"),
    (".png", "image/png"),
    (".gif", "image/gif"),
    (".jpg", "image/jpeg"),
    (".css", "text/css")
  ]

  /** The type the sentinel row carries, and the one for a name without extension. */
  const DEFAULT_MIME: seq<Byte> := "text/plain"

  /**
   * `get_file_type`: no extension gives `text/plain`; an extension equal to
   * a table entry (case-sensitive, whole string) gives that entry's type;
   * anything else the sentinel's `text/plain`.
   */
  method GetFileType(ext: Option<seq<Byte>>) returns (mime: seq<Byte>)
    ensures ext.None? ==> mime == DEFAULT_MIME
    ensures forall i :: 0 <= i < |MIME| && ext == Some(MIME[i].0) ==> mime == MIME[i].1
    ensures ext.Some? && (forall i :: 0 <= i < |MIME| ==> MIME[i].0 != ext.value) ==> mime == DEFAULT_MIME
  {
    if ext.None? {
      return DEFAULT_MIME;
    }
    MimeExtensionsDistinct();
    var i := 0;
    while i < |MIME|
      invariant i <= |MIME|
      invariant forall j :: 0 <= j < i ==> MIME[j].0 != ext.value
    {
      if ext.value == MIME[i].0 {
        return MIME[i].1;
      }
      i := i + 1;
    }
    return DEFAULT_MIME;
  }

  /** No extension appears twice in the table, so the first match is the only one. */
  lemma MimeExtensionsDistinct()
    ensures forall i, j :: 0 <= i < j < |MIME| ==> MIME[i].0 != MIME[j].0
  {
    forall i, j | 0 <= i < j < |MIME| ensures MIME[i].0 != MIME[j].0 {
      assert MIME[i].0[1] != MIME[j].0[1] || MIME[i].0[2] != MIME[j].0[2] || |MIME[i].0| != |MIME[j].0|;
    }
  }

  /** `get_msg_from_status`: the reason phrase for the three known codes, "Unknown" otherwise. */
  function GetMsgFromStatus(status: int): (msg: seq<Byte>)
    ensures msg == "OK" <==> status == HTTP_OK
    ensures msg == "Not Modified" <==> status == HTTP_NOT_MODIFIED
    ensures msg == "Not Found" <==> status == HTTP_NOT_FOUND
    ensures msg == "Unknown" <==> status !in {HTTP_OK, HTTP_NOT_MODIFIED, HTTP_NOT_FOUND}
  {
    if status == HTTP_OK then "OK"
    else if status == HTTP_NOT_MODIFIED then "Not Modified"
    else if status == HTTP_NOT_FOUND then "Not Found"
    else "Unknown"
  }

  /** `init_http_out`: not keep-alive, modified, no status yet; the descriptor as given. */
  method InitHttpOut(o: Response, fd: int) returns (rc: int)
    modifies o
    ensures o.fd == fd && !o.keepAlive && o.modified && o.status == 0
    ensures o.mtime == old(o.mtime)
    ensures rc == 0
  {
    o.fd := fd;
    o.keepAlive := false;
    o.modified := true;
    o.status := 0;
    return 0;
  }

  /** `if (!out->status) out->status = HTTP_OK;`: a status no handler set becomes 200. */
  method DefaultStatus(o: Response)
    modifies o
    ensures o.status == FinalStatus(old(o.status))
    ensures o.keepAlive == old(o.keepAlive) && o.modified == old(o.modified)
    ensures o.fd == old(o.fd) && o.mtime == old(o.mtime)
  {
    if o.status == 0 {
      o.status := HTTP_OK;
    }
  }

  /** The status sent: never 0, a status already set is kept, and applying it twice changes nothing. */
  function FinalStatus(status: int): (s: int)
    ensures s != 0
    ensures status != 0 ==> s == status
    ensures status == 0 ==> s == HTTP_OK
  {
    if status == 0 then HTTP_OK else status
  }
}
