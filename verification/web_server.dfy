/** The request path of the static-file server: percent-decoding of the
    request target into a caller buffer, cutting off the query in place,
    the GET-only routing that maps the path under the web root, and the
    flags by which the accept loop hands a connection to an idle worker. */
module WebServer {
  import opened Common

  /** Number of worker threads. */
  const ThreadPoolSize: nat := 8

  /** Bytes in the method and path buffers that the request line is scanned into. */
  const MethodBufferSize: nat := 16
  const PathBufferSize: nat := 256

  /** The web root, prefixed to every request path. */
  const WebRoot: seq<char> := "."

  /** The file appended to a path naming a directory. */
  const IndexFile: seq<char> := "index.html"

  // ---------------------------------------------------------------------
  // Percent-decoding (url_decode)
  // ---------------------------------------------------------------------

  /** Characters of a C string restricted to 7-bit, non-NUL bytes, where
      the `isxdigit` test is defined. */
  predicate AsciiText(s: seq<char>)
  {
    forall i :: 0 <= i < |s| ==> 0 < s[i] as int < 128
  }

  predicate IsHexDigit(c: char)
  {
    '0' <= c <= '9' || 'a' <= c <= 'f' || 'A' <= c <= 'F'
  }

  /** The digit's value as the decoder computes it: a lower-case letter is
      first shifted to upper case, then letters count from 10 at 'A' and
      digits from 0 at '0'. */
  function HexValue(c: char): (v: nat)
    requires IsHexDigit(c)
    ensures v < 16
  {
    var u := if c >= 'a' then c as int - ('a' as int - 'A' as int) else c as int;
    if u >= 'A' as int then u - ('A' as int - 10) else u - '0' as int
  }

  /** The shifted arithmetic agrees with the usual reading of a hex digit,
      in either case. */
  lemma HexValueOfDigit(c: char)
    requires IsHexDigit(c)
    ensures '0' <= c <= '9' ==> HexValue(c) == c as int - '0' as int
    ensures 'a' <= c <= 'f' ==> HexValue(c) == c as int - 'a' as int + 10
    ensures 'A' <= c <= 'F' ==> HexValue(c) == c as int - 'A' as int + 10
  {
  }

  /** Whether a percent triplet starts `s`: '%' and then two hex digits. */
  predicate StartsWithEscape(s: seq<char>)
  {
    |s| >= 3 && s[0] == '%' && IsHexDigit(s[1]) && IsHexDigit(s[2])
  }

  /** The character a percent triplet stands for: the byte 16*X + Y. */
  function EscapedChar(s: seq<char>): (c: char)
    requires StartsWithEscape(s)
    ensures c as int < 256
  {
    (16 * HexValue(s[1]) + HexValue(s[2])) as char
  }

  /** The decoded form of `s`: a percent triplet becomes the byte it
      encodes, '+' becomes a space, and every other character, a '%'
      without two hex digits after it included, is copied. */
  function UrlDecoded(s: seq<char>): (r: seq<char>)
    ensures |r| <= |s|
  {
    if s == [] then []
    else if StartsWithEscape(s) then [EscapedChar(s)] + UrlDecoded(s[3..])
    else if s[0] == '+' then [' '] + UrlDecoded(s[1..])
    else [s[0]] + UrlDecoded(s[1..])
  }

  /** A string with no '%' and no '+' decodes to itself. */
  lemma {:induction false} UrlDecodedPlain(s: seq<char>)
    requires '%' !in s && '+' !in s
    ensures UrlDecoded(s) == s
  {
    if s != [] {
      assert '%' !in s[1..] && '+' !in s[1..];
      UrlDecodedPlain(s[1..]);
    }
  }

  /** Each of the three rules, one step at a time: a triplet is consumed
      whole, '+' yields a space, and a '%' that does not begin a triplet,
      at the end of the string or before a non-hex character, is kept. */
  lemma UrlDecodedStep(s: seq<char>)
    requires s != []
    ensures StartsWithEscape(s) ==> UrlDecoded(s) == [EscapedChar(s)] + UrlDecoded(s[3..])
    ensures s[0] == '+' ==> UrlDecoded(s) == [' '] + UrlDecoded(s[1..])
    ensures s[0] == '%' && !StartsWithEscape(s) ==> UrlDecoded(s) == ['%'] + UrlDecoded(s[1..])
    ensures s[0] != '%' && s[0] != '+' ==> UrlDecoded(s) == [s[0]] + UrlDecoded(s[1..])
  {
  }

  /** One decoding step taken at position `i` of `src`. */
  lemma UrlDecodedAt(src: seq<char>, i: nat)
    requires i < |src|
    ensures src[i] == '%' && i + 2 < |src| && IsHexDigit(src[i + 1]) && IsHexDigit(src[i + 2]) ==>
      UrlDecoded(src[i..]) == [(16 * HexValue(src[i + 1]) + HexValue(src[i + 2])) as char] + UrlDecoded(src[i + 3..])
    ensures !(src[i] == '%' && i + 2 < |src| && IsHexDigit(src[i + 1]) && IsHexDigit(src[i + 2])) ==>
      UrlDecoded(src[i..]) == [if src[i] == '+' then ' ' else src[i]] + UrlDecoded(src[i + 1..])
  {
    var rest := src[i..];
    assert rest[1..] == src[i + 1..];
    if StartsWithEscape(rest) {
      assert rest[3..] == src[i + 3..];
    }
  }

  lemma AppendStep(out: seq<char>, c: char, rest: seq<char>)
    ensures out + ([c] + rest) == (out + [c]) + rest
  {
  }

  /** The upper-case hex digit for a value below 16. */
  function HexDigit(v: nat): (c: char)
    requires v < 16
    ensures IsHexDigit(c) && HexValue(c) == v
  {
    if v < 10 then ('0' as int + v) as char else ('A' as int + v - 10) as char
  }

  /** Every byte written as a percent triplet, as section 2.1 of RFC 3986
      describes percent-encoding. */
  function PercentEncoded(s: seq<char>): (r: seq<char>)
    requires forall i :: 0 <= i < |s| ==> s[i] as int < 256
    ensures |r| == 3 * |s|
  {
    if s == [] then []
    else
      var b := s[0] as int;
      ['%', HexDigit(b / 16), HexDigit(b % 16)] + PercentEncoded(s[1..])
  }

  /** Decoding undoes percent-encoding of any byte string. */
  lemma {:induction false} UrlDecodedPercentEncoded(s: seq<char>)
    requires forall i :: 0 <= i < |s| ==> s[i] as int < 256
    ensures UrlDecoded(PercentEncoded(s)) == s
  {
    if s != [] {
      var e := PercentEncoded(s);
      assert StartsWithEscape(e);
      assert EscapedChar(e) == s[0];
      assert e[3..] == PercentEncoded(s[1..]);
      UrlDecodedPercentEncoded(s[1..]);
    }
  }

  /** url_decode: decode `src` into `dst` and terminate it. Every step
      writes one character and consumes one or three, so the decoded text
      and its terminator fit whenever `src` with its own terminator does. */
  method UrlDecode(dst: array<char>, src: seq<char>) returns (n: nat)
    requires AsciiText(src)
    requires |src| < dst.Length
    modifies dst
    ensures n == |UrlDecoded(src)| && n < dst.Length
    ensures dst[..n] == UrlDecoded(src) && dst[n] == '\0'
    ensures forall j :: n < j < dst.Length ==> dst[j] == old(dst[j])
  {
    var i := 0;
    n := 0;
    ghost var out: seq<char> := [];
    while i < |src|
      invariant 0 <= n <= i <= |src| && n == |out|
      invariant forall j :: 0 <= j < n ==> dst[j] == out[j]
      invariant out + UrlDecoded(src[i..]) == UrlDecoded(src)
      invariant forall j :: n <= j < dst.Length ==> dst[j] == old(dst[j])
    {
      ghost var i0 := i;
      var c: char;
      // src[i + 1] and src[i + 2] are non-NUL exactly when they exist
      if src[i] == '%' && i + 2 < |src| && IsHexDigit(src[i + 1]) && IsHexDigit(src[i + 2]) {
        c := (16 * HexValue(src[i + 1]) + HexValue(src[i + 2])) as char;
        i := i + 3;
      } else if src[i] == '+' {
        c := ' ';
        i := i + 1;
      } else {
        c := src[i];
        i := i + 1;
      }
      UrlDecodedAt(src, i0);
      AppendStep(out, c, UrlDecoded(src[i..]));
      dst[n] := c;
      out := out + [c];
      n := n + 1;
    }
    assert src[i..] == [];
    dst[n] := '\0';
    assert dst[..n] == out;
  }

  // ---------------------------------------------------------------------
  // C strings and the query component (removeQueryString)
  // ---------------------------------------------------------------------

  /** The C string held in a buffer: everything before the first NUL. */
  function CString(buf: seq<char>): seq<char>
  {
    PrefixBefore(buf, '\0')
  }

  /** A buffer holding `d` and then a terminator holds the C string of `d`,
      which ends early if `d` itself contains a NUL. */
  lemma CStringOfTerminated(buf: seq<char>, d: seq<char>)
    requires |d| < |buf| && buf[..|d|] == d && buf[|d|] == '\0'
    ensures CString(buf) == CString(d)
  {
    assert buf[..|d| + 1] == d + ['\0'];
    PrefixBeforeOfPrefix(buf, '\0', |d| + 1);
    PrefixBeforeTerminated(d, '\0');
  }

  /** The path without its query, which starts at the first '?'. */
  function WithoutQuery(path: seq<char>): seq<char>
  {
    PrefixBefore(path, '?')
  }

  /** Stripping the query leaves a prefix with no '?', leaves a path
      without '?' as it is, and a second strip changes nothing. */
  lemma WithoutQueryProperties(path: seq<char>)
    ensures WithoutQuery(path) == path[..|WithoutQuery(path)|]
    ensures '?' !in WithoutQuery(path)
    ensures '?' !in path ==> WithoutQuery(path) == path
    ensures WithoutQuery(WithoutQuery(path)) == WithoutQuery(path)
  {
    PrefixBeforeIdempotent(path, '?');
  }

  /** removeQueryString: end the string held in `buf` at its first '?' by
      writing a NUL there; a string without '?' is left untouched. */
  method RemoveQueryString(buf: array<char>)
    requires '\0' in buf[..]
    modifies buf
    ensures CString(buf[..]) == WithoutQuery(old(CString(buf[..])))
    ensures IndexOf(old(CString(buf[..])), '?').None? ==> buf[..] == old(buf[..])
    ensures IndexOf(old(CString(buf[..])), '?').Some? ==>
              buf[..] == old(buf[..])[IndexOf(old(CString(buf[..])), '?').value := '\0']
  {
    var s := CString(buf[..]);
    var q := IndexOf(s, '?');
    if q.Some? {
      ghost var old_buf := buf[..];
      buf[q.value] := '\0';
      assert buf[..] == old_buf[q.value := '\0'];
      PrefixBeforeAt(buf[..], '\0', q.value);
      assert buf[..q.value] == s[..q.value];
      PrefixBeforeAt(s, '?', q.value);
    }
  }

  // ---------------------------------------------------------------------
  // Routing (handle_client)
  // ---------------------------------------------------------------------

  /** What the server does with a request. */
  datatype Reply = SendFile(fullPath: seq<char>) | Send404

  /** A token of the request line as "%s" scans it: non-empty, no white
      space, 7-bit non-NUL characters. */
  predicate IsToken(s: seq<char>)
  {
    |s| > 0 && AsciiText(s) &&
    forall i :: 0 <= i < |s| ==> s[i] !in {' ', '\t', '\n', '\r', '\U{000B}', '\U{000C}'}
  }

  /** The request path after decoding, where a decoded NUL ends the string,
      and after stripping the query. */
  function DecodedPath(encodedPath: seq<char>): seq<char>
  {
    WithoutQuery(CString(UrlDecoded(encodedPath)))
  }

  /** The file a path names under the web root, `index.html` for a path
      ending in '/'. */
  function FilePath(path: seq<char>): (full: seq<char>)
    ensures |full| > 0 && full[..|WebRoot|] == WebRoot
    ensures full[|full| - 1] != '/'
  {
    var full := WebRoot + path;
    if full[|full| - 1] == '/' then full + IndexFile else full
  }

  /** The reply to a request line with these two tokens. */
  function Route(requestMethod: seq<char>, encodedPath: seq<char>): Reply
  {
    if requestMethod == "GET" then SendFile(FilePath(DecodedPath(encodedPath))) else Send404
  }

  /** Only GET is served, and then from the web root, under the decoded,
      query-free path, with `index.html` added only to a directory path. */
  lemma RouteProperties(requestMethod: seq<char>, encodedPath: seq<char>)
    ensures Route(requestMethod, encodedPath).SendFile? <==> requestMethod == "GET"
    ensures requestMethod == "GET" ==>
      var p := DecodedPath(encodedPath);
      var full := Route(requestMethod, encodedPath).fullPath;
      (p != [] && p[|p| - 1] == '/' ==> full == WebRoot + p + IndexFile) &&
      (p == [] || p[|p| - 1] != '/' ==> full == WebRoot + p)
  {
  }

  lemma ConcatAssoc(x: seq<char>, y: seq<char>, z: seq<char>)
    ensures x + (y + z) == (x + y) + z
  {
  }

  /** Decoding splits in front of every '%': no triplet starts before it
      and reaches into it, because '%' is not a hex digit. */
  lemma {:induction false} UrlDecodedSplitAtPercent(a: seq<char>, t: seq<char>)
    requires t != [] && t[0] == '%'
    ensures UrlDecoded(a + t) == UrlDecoded(a) + UrlDecoded(t)
    decreases |a|
  {
    if a == [] {
      assert a + t == t;
    } else if StartsWithEscape(a + t) {
      assert |a| >= 3 && StartsWithEscape(a);
      assert (a + t)[3..] == a[3..] + t;
      assert EscapedChar(a + t) == EscapedChar(a);
      UrlDecodedSplitAtPercent(a[3..], t);
      calc {
        UrlDecoded(a + t);
        [EscapedChar(a)] + UrlDecoded(a[3..] + t);
        [EscapedChar(a)] + (UrlDecoded(a[3..]) + UrlDecoded(t));
        { ConcatAssoc([EscapedChar(a)], UrlDecoded(a[3..]), UrlDecoded(t)); }
        ([EscapedChar(a)] + UrlDecoded(a[3..])) + UrlDecoded(t);
      }
    } else {
      assert !StartsWithEscape(a) && (a + t)[0] == a[0];
      assert (a + t)[1..] == a[1..] + t;
      UrlDecodedSplitAtPercent(a[1..], t);
      var h := if a[0] == '+' then ' ' else a[0];
      calc {
        UrlDecoded(a + t);
        [h] + UrlDecoded(a[1..] + t);
        [h] + (UrlDecoded(a[1..]) + UrlDecoded(t));
        { ConcatAssoc([h], UrlDecoded(a[1..]), UrlDecoded(t)); }
        ([h] + UrlDecoded(a[1..])) + UrlDecoded(t);
      }
    }
  }

  /** An encoded '?' decodes to a literal '?' between the decoded text
      before it and the decoded text after it. */
  lemma UrlDecodedQuestionMark(a: seq<char>, b: seq<char>)
    ensures UrlDecoded(a + "%3F" + b) == UrlDecoded(a) + ['?'] + UrlDecoded(b)
  {
    var t := "%3F" + b;
    assert a + "%3F" + b == a + t;
    UrlDecodedSplitAtPercent(a, t);
    assert HexValue('3') == 3 && HexValue('F') == 15;
    assert StartsWithEscape(t) && EscapedChar(t) == '?' && t[3..] == b;
  }

  /** The path of a string whose first '?' comes before any NUL is the text
      before that '?'. */
  lemma DecodedPathAtQuestionMark(u: seq<char>, w: seq<char>)
    requires '\0' !in u && '?' !in u
    ensures WithoutQuery(CString(u + ['?'] + w)) == u
  {
    var d := u + ['?'] + w;
    assert forall j :: 0 <= j <= |u| ==> d[j] != '\0';
    PrefixBeforeReaches(d, '\0', |u| + 1);
    var c := CString(d);
    assert c[..|u|] == u && c[|u|] == '?';
    PrefixBeforeAt(c, '?', |u|);
  }

  /** Decoding runs before the query is stripped, so an encoded '?' cuts
      the path as a literal one does: whatever follows `%3F` is dropped,
      and the path is the decoded text before it. */
  lemma EncodedQuestionMarkCuts(a: seq<char>, b: seq<char>)
    requires '\0' !in UrlDecoded(a) && '?' !in UrlDecoded(a)
    ensures DecodedPath(a + "%3F" + b) == UrlDecoded(a)
    ensures Route("GET", a + "%3F" + b) == SendFile(FilePath(UrlDecoded(a)))
  {
    UrlDecodedQuestionMark(a, b);
    DecodedPathAtQuestionMark(UrlDecoded(a), UrlDecoded(b));
  }

  /** An example: `GET /a%3Fb` serves `./a`. */
  lemma EncodedQuestionMarkCutsPath(a: seq<char>, b: seq<char>)
    requires a == "/a" && b == "b"
    ensures Route("GET", a + "%3F" + b) == SendFile("./a")
  {
    UrlDecodedPlain(a);
    EncodedQuestionMarkCuts(a, b);
    assert WebRoot + a == "./a";
  }

  /** handle_client, from the scanned method and path tokens to the reply:
      decode into a path buffer, strip the query in place, then serve the
      file for GET or answer 404 for any other method. */
  method HandleClient(requestMethod: seq<char>, encodedPath: seq<char>) returns (reply: Reply)
    requires IsToken(requestMethod) && |requestMethod| < MethodBufferSize
    requires IsToken(encodedPath) && |encodedPath| < PathBufferSize
    ensures reply == Route(requestMethod, encodedPath)
    ensures reply.SendFile? <==> requestMethod == "GET"
  {
    var decodedPath := new char[PathBufferSize];
    var n := UrlDecode(decodedPath, encodedPath);
    ghost var decoded := decodedPath[..];
    assert decoded[n] == '\0';
    CStringOfTerminated(decoded, UrlDecoded(encodedPath));
    RemoveQueryString(decodedPath);
    var widePath := CString(decodedPath[..]);
    assert widePath == WithoutQuery(CString(decoded)) == DecodedPath(encodedPath);
    if requestMethod == "GET" {
      var fullPath := WebRoot + widePath;
      if |fullPath| > 0 && fullPath[|fullPath| - 1] == '/' {
        fullPath := fullPath + IndexFile;
      }
      reply := SendFile(fullPath);
    } else {
      reply := Send404;
    }
  }

  // ---------------------------------------------------------------------
  // The 200 response header (send_file)
  // ---------------------------------------------------------------------

  function DigitChar(d: nat): char
    requires d < 10
  {
    ('0' as int + d) as char
  }

  /** The decimal numeral of `n`, as "%lld" prints it. */
  function Decimal(n: nat): (r: seq<char>)
    ensures |r| > 0
    ensures forall i :: 0 <= i < |r| ==> '0' <= r[i] <= '9'
  {
    if n < 10 then [DigitChar(n)] else Decimal(n / 10) + [DigitChar(n % 10)]
  }

  /** The value of a string of decimal digits. */
  function DecimalValue(s: seq<char>): nat
    requires forall i :: 0 <= i < |s| ==> '0' <= s[i] <= '9'
  {
    if s == [] then 0
    else 10 * DecimalValue(s[..|s| - 1]) + (s[|s| - 1] as int - '0' as int)
  }

  /** Reading the numeral back gives the number. */
  lemma {:induction false} DecimalRoundTrip(n: nat)
    ensures DecimalValue(Decimal(n)) == n
  {
    if n >= 10 {
      var r := Decimal(n);
      assert r[..|r| - 1] == Decimal(n / 10);
      DecimalRoundTrip(n / 10);
    }
  }

  /** The header sent before a file's bytes. */
  function OkHeader(fileSize: nat): seq<char>
  {
    "HTTP/1.1 200 OK\r\nContent-Length: " + Decimal(fileSize) + "\r\nConnection: close\r\n\r\n"
  }

  /** The header's Content-Length field carries exactly the file's size. */
  lemma OkHeaderContentLength(fileSize: nat)
    ensures var h := OkHeader(fileSize);
      var prefix := "HTTP/1.1 200 OK\r\nContent-Length: ";
      var digits := Decimal(fileSize);
      h[..|prefix|] == prefix &&
      h[|prefix|..|prefix| + |digits|] == digits &&
      DecimalValue(digits) == fileSize &&
      h[|prefix| + |digits|..] == "\r\nConnection: close\r\n\r\n"
  {
    DecimalRoundTrip(fileSize);
  }

  // ---------------------------------------------------------------------
  // Worker hand-off (workers[], get_available_worker)
  // ---------------------------------------------------------------------

  /** The worker table. Despite its name, a worker's `available` flag is 1
      while it is busy with a connection and 0 while it is idle. */
  class WorkerPool {
    const available: array<int>

    ghost predicate Valid()
      reads this, available
    {
      available.Length == ThreadPoolSize &&
      forall i :: 0 <= i < available.Length ==> available[i] == 0 || available[i] == 1
    }

    /** init_thread_pool: every worker starts idle. */
    constructor ()
      ensures Valid() && fresh(available)
      ensures forall i :: 0 <= i < available.Length ==> available[i] == 0
    {
      available := new int[ThreadPoolSize](_ => 0);
    }

    /** get_available_worker: the lowest-indexed idle worker, or None when
        every worker is busy. No flag changes. */
    method GetAvailableWorker() returns (w: Option<nat>)
      requires Valid()
      ensures w == IndexOf(available[..], 0)
      ensures w.Some? ==> w.value < ThreadPoolSize && available[w.value] == 0
      ensures w.Some? ==> forall j :: 0 <= j < w.value ==> available[j] == 1
      ensures w.None? <==> forall j :: 0 <= j < ThreadPoolSize ==> available[j] == 1
    {
      for i := 0 to ThreadPoolSize
        invariant forall j :: 0 <= j < i ==> available[j] != 0
      {
        if available[i] == 0 {
          assert available[..][i] == 0;
          return Some(i);
        }
      }
      assert forall j :: 0 <= j < |available[..]| ==> available[..][j] != 0;
      return None;
    }

    /** The accept loop's hand-off: the chosen worker is marked busy. */
    method Dispatch(w: nat)
      requires Valid() && w < ThreadPoolSize
      modifies available
      ensures Valid()
      ensures available[..] == old(available[..])[w := 1]
    {
      available[w] := 1;
    }

    /** A worker that has finished its connection marks itself idle. */
    method Finish(w: nat)
      requires Valid() && w < ThreadPoolSize
      modifies available
      ensures Valid()
      ensures available[..] == old(available[..])[w := 0]
    {
      available[w] := 0;
    }

    /** One accepted connection: handed to the lowest idle worker, which
        becomes busy, or handled on the accept thread itself (None) when
        all workers are busy, leaving every flag as it was. */
    method Accept() returns (w: Option<nat>)
      requires Valid()
      modifies available
      ensures Valid()
      ensures w == IndexOf(old(available[..]), 0)
      ensures w.None? ==> available[..] == old(available[..])
      ensures w.Some? ==> available[..] == old(available[..])[w.value := 1]
    {
      w := GetAvailableWorker();
      if w.Some? {
        Dispatch(w.value);
      }
    }
  }
}
