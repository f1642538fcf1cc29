/**
 HttpRequestBuilder: the header map, the precomputed size of a request, and the
 buffer that is filled in afterwards.
 */
module HttpBuilder {
  import opened Bytes
  import opened Decimal

  datatype HttpMethod = Delete | Get | Head | Post | Put | Other(name: bytes)

  // The fields of a parsed URL are C strings; an empty path has been replaced by "/".
  datatype Url = Url(schema: bytes, host: bytes, path: bytes, query: bytes, port: nat)

  datatype Header = Header(key: bytes, value: bytes)

  const CHUNKED: bytes := [99, 104, 117, 110, 107, 101, 100]
  const TRANSFER_ENCODING: bytes := [84, 114, 97, 110, 115, 102, 101, 114, 45, 69, 110, 99, 111, 100, 105, 110, 103]
  const CONTENT_LENGTH: bytes := [67, 111, 110, 116, 101, 110, 116, 45, 76, 101, 110, 103, 116, 104]
  // "content-length"
  const LENGTH_NAME: bytes := [99, 111, 110, 116, 101, 110, 116, 45, 108, 101, 110, 103, 116, 104]
  const HOST: bytes := [72, 111, 115, 116]
  const SCHEMA_HTTP: bytes := [104, 116, 116, 112]
  const SCHEMA_HTTPS: bytes := [104, 116, 116, 112, 115]
  const VERSION: bytes := [72, 84, 84, 80, 47, 49, 46, 49]
  const QUESTION: byte := 63

  /** http_method_str. */
  function MethodName(m: HttpMethod): bytes {
    match m
    case Delete => [68, 69, 76, 69, 84, 69]
    case Get => [71, 69, 84]
    case Head => [72, 69, 65, 68]
    case Post => [80, 79, 83, 84]
    case Put => [80, 85, 84]
    case Other(name) => name
  }

  /** What a C function sees of a string: the bytes before the first NUL. */
  function CStr(s: bytes): (r: bytes)
    ensures |r| <= |s| && NulFree(r)
    ensures r == s <==> NulFree(s)
  {
    if s == [] || s[0] == NUL then []
    else
      var rest := CStr(s[1..]);
      assert s == [s[0]] + s[1..];
      assert NulFree(s[1..]) ==> NulFree(s);
      [s[0]] + rest
  }

  // ---- The header map ----

  /** std::map keeps its keys in strictly increasing order. */
  predicate InOrder(hs: seq<Header>) {
    |hs| >= 2 ==> BytesLess(hs[0].key, hs[1].key) && InOrder(hs[1..])
  }

  function PutHeader(hs: seq<Header>, key: bytes, value: bytes): seq<Header> {
    if hs == [] then [Header(key, value)]
    else if hs[0].key == key then [Header(key, value)] + hs[1..]
    else if BytesLess(key, hs[0].key) then [Header(key, value)] + hs
    else [hs[0]] + PutHeader(hs[1..], key, value)
  }

  ghost function HeaderMap(hs: seq<Header>): map<bytes, bytes> {
    if hs == [] then map[] else HeaderMap(hs[1..])[hs[0].key := hs[0].value]
  }

  lemma {:induction false} FirstIsLeast(hs: seq<Header>, key: bytes)
    requires InOrder(hs) && hs != [] && (BytesLess(key, hs[0].key) || key == hs[0].key)
    ensures forall h | h in hs[1..] :: BytesLess(key, h.key) && h.key != key
    ensures BytesLess(key, hs[0].key) ==> key !in HeaderMap(hs)
    ensures key == hs[0].key ==> key !in HeaderMap(hs[1..])
    decreases |hs|
  {
    BytesTrichotomy(key, hs[0].key);
    if |hs| > 1 {
      if BytesLess(key, hs[0].key) {
        BytesTransitive(key, hs[0].key, hs[1].key);
      }
      FirstIsLeast(hs[1..], key);
    }
  }

  /** set_header acts as an assignment to a map, and keeps the keys in order. */
  lemma {:induction false} PutHeaderIsUpdate(hs: seq<Header>, key: bytes, value: bytes)
    requires InOrder(hs)
    ensures InOrder(PutHeader(hs, key, value))
    ensures HeaderMap(PutHeader(hs, key, value)) == HeaderMap(hs)[key := value]
    decreases |hs|
  {
    hide BytesLess;
    if hs != [] {
      var r := PutHeader(hs, key, value);
      if hs[0].key == key {
        assert r[1..] == hs[1..];
      } else if BytesLess(key, hs[0].key) {
        assert r[1..] == hs;
      } else {
        BytesTrichotomy(key, hs[0].key);
        PutHeaderIsUpdate(hs[1..], key, value);
        assert r[1..] == PutHeader(hs[1..], key, value);
      }
    }
  }

  /** has_header compares as C strings; no value asked for means any. */
  predicate HeaderIs(h: Header, key: bytes, value: Option<bytes>) {
    CStr(h.key) == key && (value.None? || CStr(h.value) == value.value)
  }

  predicate HasHeaderSpec(hs: seq<Header>, key: bytes, value: Option<bytes>) {
    exists i | 0 <= i < |hs| :: HeaderIs(hs[i], key, value)
  }

  predicate IsChunked(hs: seq<Header>) {
    HasHeaderSpec(hs, TRANSFER_ENCODING, Some(CHUNKED))
  }

  // ---- The text of a request ----

  function Target(url: Url): bytes {
    url.path + if url.query != [] then [QUESTION] + url.query else []
  }

  function RequestLine(m: HttpMethod, url: Url): bytes {
    MethodName(m) + [SPACE] + Target(url) + [SPACE] + VERSION + CRLF
  }

  function HeaderLine(key: bytes, value: bytes): bytes {
    key + [COLON, SPACE] + value + CRLF
  }

  function Zeros(n: nat): (z: bytes)
    ensures |z| == n
  {
    seq(n, _ => NUL)
  }

  /** What printing one header leaves behind: the C strings, and zeros up to the length that was reserved. */
  function PrintedLine(h: Header): (r: bytes)
    ensures |r| == |h.key| + |h.value| + 4
  {
    var text := HeaderLine(CStr(h.key), CStr(h.value));
    text + Zeros(|h.key| + |h.value| + 4 - |text|)
  }

  function PrintedLines(hs: seq<Header>): bytes {
    if hs == [] then [] else PrintedLine(hs[0]) + PrintedLines(hs[1..])
  }

  function HeaderLines(hs: seq<Header>): bytes {
    if hs == [] then [] else HeaderLine(hs[0].key, hs[0].value) + HeaderLines(hs[1..])
  }

  function Printed(m: HttpMethod, url: Url, hs: seq<Header>): bytes {
    RequestLine(m, url) + PrintedLines(hs) + CRLF
  }

  /** The message head of section 3 of RFC 7230. */
  function HeadText(m: HttpMethod, url: Url, hs: seq<Header>): bytes {
    RequestLine(m, url) + HeaderLines(hs) + CRLF
  }

  /** Content-Length goes through a buffer of ten characters. */
  function LengthText(n: nat): bytes {
    var text := Digits(n);
    if |text| <= 9 then text else text[..9]
  }

  function WithLength(hs: seq<Header>, m: HttpMethod, bodySize: nat): seq<Header> {
    if !IsChunked(hs) && (m.Post? || m.Put? || m.Delete? || bodySize > 0) then PutHeader(hs, CONTENT_LENGTH, LengthText(bodySize))
    else hs
  }

  predicate NulFreeHeaders(hs: seq<Header>) {
    forall i | 0 <= i < |hs| :: NulFree(hs[i].key) && NulFree(hs[i].value)
  }

  lemma LineIff(h: Header)
    ensures PrintedLine(h) == HeaderLine(h.key, h.value) <==> NulFree(h.key) && NulFree(h.value)
  {
    var line := HeaderLine(h.key, h.value);
    var k, v := CStr(h.key), CStr(h.value);
    if k != h.key {
      CStrStops(h.key);
      assert line[|k|] == NUL != PrintedLine(h)[|k|];
    } else if v != h.value {
      CStrStops(h.value);
      assert line[|k| + 2 + |v|] == NUL != PrintedLine(h)[|k| + 2 + |v|];
    }
  }

  lemma {:induction false} CStrStops(s: bytes)
    requires CStr(s) != s
    ensures |CStr(s)| < |s| && s[|CStr(s)|] == NUL
    decreases |s|
  {
    if s[0] != NUL {
      assert s == [s[0]] + s[1..];
      CStrStops(s[1..]);
    }
  }

  /** The printed head is the intended text if and only if no header holds a NUL. */
  lemma {:induction false} LinesIff(hs: seq<Header>)
    ensures |PrintedLines(hs)| == |HeaderLines(hs)|
    ensures PrintedLines(hs) == HeaderLines(hs) <==> NulFreeHeaders(hs)
    decreases |hs|
  {
    if hs != [] {
      hide PrintedLine, HeaderLine, NulFreeHeaders, NulFree;
      LineIff(hs[0]);
      LineLengths(hs[0]);
      LinesIff(hs[1..]);
      ConcatIff(PrintedLine(hs[0]), HeaderLine(hs[0].key, hs[0].value), PrintedLines(hs[1..]), HeaderLines(hs[1..]));
      NulFreeStep(hs);
    }
  }

  lemma LineLengths(h: Header)
    ensures |PrintedLine(h)| == |HeaderLine(h.key, h.value)|
  {
  }

  lemma ConcatIff(a: bytes, b: bytes, x: bytes, y: bytes)
    requires |a| == |b|
    ensures a + x == b + y <==> a == b && x == y
  {
    if a + x == b + y {
      assert (a + x)[..|a|] == a && (b + y)[..|b|] == b && (a + x)[|a|..] == x && (b + y)[|b|..] == y;
    }
  }

  lemma NulFreeStep(hs: seq<Header>)
    requires hs != []
    ensures NulFreeHeaders(hs) <==> NulFree(hs[0].key) && NulFree(hs[0].value) && NulFreeHeaders(hs[1..])
  {
    hide NulFree;
    assert forall i | 0 < i < |hs| :: hs[i] == hs[1..][i - 1];
  }

  lemma PrintedIff(m: HttpMethod, url: Url, hs: seq<Header>)
    ensures |Printed(m, url, hs)| == |HeadText(m, url, hs)|
    ensures Printed(m, url, hs) == HeadText(m, url, hs) <==> NulFreeHeaders(hs)
  {
    LinesIff(hs);
    var a, n := |RequestLine(m, url)|, |HeaderLines(hs)|;
    assert Printed(m, url, hs)[a..a + n] == PrintedLines(hs);
    assert HeadText(m, url, hs)[a..a + n] == HeaderLines(hs);
  }

  // ---- Filling the buffer ----

  /** sprintf of this text at this place: the text and a NUL behind it. */
  method Print(req: array<byte>, at: nat, text: bytes)
    requires at + |text| < req.Length
    modifies req
    ensures req[..] == old(req[..at]) + text + [NUL] + old(req[at + |text| + 1..])
  {
    ghost var was := req[..];
    for i := 0 to |text|
      invariant req[..] == was[..at] + text[..i] + was[at + i..]
    {
      req[at + i] := text[i];
    }
    req[at + |text|] := NUL;
  }

  /** memcpy of the body; what lies past the end of the buffer is only counted. */
  method CopyBody(req: array<byte>, at: nat, body: bytes) returns (ghost outside: nat)
    requires at <= req.Length
    modifies req
    ensures outside == if at + |body| <= req.Length then 0 else at + |body| - req.Length
    ensures req[..] == (old(req[..at]) + body + old(req[..])[Min(at + |body|, req.Length)..])[..req.Length]
  {
    ghost var was := req[..];
    outside := if at + |body| <= req.Length then 0 else at + |body| - req.Length;
    var n := Min(|body|, req.Length - at);
    for i := 0 to n
      invariant req[..] == was[..at] + body[..i] + was[at + i..]
    {
      req[at + i] := body[i];
    }
  }

  /** A buffer filled up to here, and still zero behind. */
  predicate Filled(req: bytes, done: bytes) {
    |done| <= |req| && req == done + Zeros(|req| - |done|)
  }

  lemma FillMore(was: bytes, now: bytes, done: bytes, text: bytes, reserved: nat)
    requires Filled(was, done) && |text| <= reserved && |done| + reserved < |was|
    requires now == was[..|done|] + text + [NUL] + was[|done| + |text| + 1..]
    ensures Filled(now, done + (text + Zeros(reserved - |text|)))
  {
  }

  class HttpRequestBuilder {
    const method_: HttpMethod
    const url: Url
    var headers: seq<Header>

    ghost predicate Valid()
      reads this
    {
      InOrder(headers) && url.port < 65536
    }

    constructor (a_method: HttpMethod, a_url: Url)
      requires a_url.port < 65536
      ensures Valid() && method_ == a_method && url == a_url
      ensures headers == [Header(HOST, HostText(a_url))]
    {
      hide Digits;
      method_ := a_method;
      url := a_url;
      headers := [];
      new;
      var host := url.host;
      var portStr := [COLON] + Digits(url.port);
      if url.schema == SCHEMA_HTTP && url.port != 80 {
        host := host + portStr;
      } else if url.schema == SCHEMA_HTTPS && url.port != 443 {
        host := host + portStr;
      }
      assert host == HostText(url);
      SetHeader(HOST, host);
    }

    method SetHeader(key: bytes, value: bytes)
      requires Valid()
      modifies this`headers
      ensures Valid() && headers == PutHeader(old(headers), key, value)
    {
      hide BytesLess, InOrder, PutHeader;
      PutHeaderIsUpdate(headers, key, value);
      var hs := headers;
      var i := 0;
      assert hs[..0] + PutHeader(hs, key, value) == PutHeader(hs, key, value) && hs[0..] == hs;
      while i < |hs| && BytesLess(hs[i].key, key)
        invariant i <= |hs|
        invariant PutHeader(hs, key, value) == hs[..i] + PutHeader(hs[i..], key, value)
      {
        PutHere(hs, key, value, i);
        assert hs[..i + 1] == hs[..i] + [hs[i]];
        i := i + 1;
      }
      PutHere(hs, key, value, i);
      if i < |hs| && hs[i].key == key {
        headers := hs[..i] + ([Header(key, value)] + hs[i + 1..]);
      } else {
        headers := hs[..i] + ([Header(key, value)] + hs[i..]);
      }
    }

    method HasHeader(key: bytes, value: Option<bytes>) returns (has: bool)
      ensures has <==> HasHeaderSpec(headers, key, value)
    {
      for i := 0 to |headers|
        invariant forall j | 0 <= j < i :: !HeaderIs(headers[j], key, value)
      {
        if CStr(headers[i].key) == key {
          if value.None? || CStr(headers[i].value) == value.value {
            return true;
          }
        }
      }
      return false;
    }

    /** The header lines, from index at on. */
    method PrintHeaders(req: array<byte>, at: nat, ghost done: bytes) returns (end: nat)
      requires at == |done| && at + |PrintedLines(headers)| < req.Length && Filled(req[..], done)
      modifies req
      ensures end == at + |PrintedLines(headers)| && Filled(req[..], done + PrintedLines(headers))
    {
      hide PrintedLine, Filled, CStr;
      end := at;
      assert headers[0..] == headers && done + [] == done;
      ghost var sofar: bytes := [];
      for i := 0 to |headers|
        invariant end == |done + sofar| && sofar + PrintedLines(headers[i..]) == PrintedLines(headers)
        invariant Filled(req[..], done + sofar)
      {
        var h := headers[i];
        var text := HeaderLine(CStr(h.key), CStr(h.value));
        assert headers[i..][1..] == headers[i + 1..];
        ghost var was := req[..];
        Print(req, end, text);
        LineFilled(was, req[..], done + sofar, h);
        LinesJoined(done, sofar, PrintedLine(h), PrintedLines(headers[i + 1..]));
        sofar := sofar + PrintedLine(h);
        end := end + |h.key| + 1 + 1 + |h.value| + 2;
      }
      assert sofar == PrintedLines(headers);
    }

    /** The size computed before anything is printed. */
    method RequestSize(isChunked: bool, bodySize: nat) returns (size: nat)
      ensures size == |Printed(method_, url, headers)| + if isChunked then 0 else bodySize
    {
      hide PrintedLine, RequestLine;
      var hs := headers;
      size := |RequestLine(method_, url)|;
      LinesFrom(hs, 0);
      for i := 0 to |hs|
        invariant size + |PrintedLines(hs[i..])| == |RequestLine(method_, url)| + |PrintedLines(hs)|
      {
        LinesFrom(hs, i);
        size := size + |hs[i].key| + 1 + 1 + |hs[i].value| + 2;
      }
      LinesFrom(hs, |hs|);
      size := size + 2;
      if !isChunked {
        size := size + bodySize;
      }
    }

    /** sprintf behind what is printed already, into a buffer that is still zero there. */
    method PrintNext(req: array<byte>, at: nat, text: bytes, ghost done: bytes) returns (end: nat)
      requires at == |done| && at + |text| < req.Length && Filled(req[..], done)
      modifies req
      ensures end == |done + text| && Filled(req[..], done + text)
    {
      hide Filled;
      ghost var was := req[..];
      Print(req, at, text);
      FillExactly(was, req[..], done, text);
      end := at + |text|;
    }

    /** The request line, the headers and the empty line are printed into the zeroed buffer. */
    method PrintHead(req: array<byte>) returns (end: nat)
      requires |Printed(method_, url, headers)| < req.Length && Filled(req[..], [])
      modifies req
      ensures end == |Printed(method_, url, headers)| && Filled(req[..], Printed(method_, url, headers))
    {
      hide Filled, PrintedLines, RequestLine, Printed;
      PrintedParts(method_, url, headers);
      var line := RequestLine(method_, url);
      assert [] + line == line;
      end := PrintNext(req, 0, line, []);
      end := PrintHeaders(req, end, line);
      end := PrintNext(req, end, CRLF, line + PrintedLines(headers));
    }

    /** Everything is printed into the zeroed buffer; the result counts the bytes put past its end. */
    method FillIn(req: array<byte>, body: bytes) returns (ghost outside: nat)
      requires |Printed(method_, url, headers)| < req.Length <= |Printed(method_, url, headers)| + |body| + 1
      requires Filled(req[..], [])
      modifies req
      ensures req[..] == (Printed(method_, url, headers) + body + [NUL])[..req.Length]
      ensures var all := |Printed(method_, url, headers)| + |body|;
              outside == if all <= req.Length then 0 else all - req.Length
    {
      hide Filled, Printed, Min;
      var end := PrintHead(req);
      ghost var was := req[..];
      outside := CopyBody(req, end, body);
      BodyFilled(was, req[..], Printed(method_, url, headers), body);
    }

    /** build. The ghost result counts the bytes that memcpy puts past the end of the buffer. */
    method Build(body: bytes) returns (request: array<byte>, size: nat, ghost outside: nat)
      requires Valid()
      modifies this`headers
      ensures Valid() && fresh(request)
      ensures headers == WithLength(old(headers), method_, |body|)
      ensures request.Length == size + 1 && size == |Printed(method_, url, headers)| + if IsChunked(headers) then 0 else |body|
      ensures request[..] == (Printed(method_, url, headers) + body + [NUL])[..size + 1]
      ensures request[..] == HeadText(method_, url, headers) + body + [NUL]
         <==> NulFreeHeaders(headers) && (!IsChunked(headers) || body == [])
      ensures outside == if IsChunked(headers) && |body| > 1 then |body| - 1 else 0
    {
      hide IsChunked, Printed, HeadText, InOrder, Digits, NulFreeHeaders;
      var isChunked := HasHeader(TRANSFER_ENCODING, Some(CHUNKED));
      Chunkedness(headers);
      if !isChunked && (method_.Post? || method_.Put? || method_.Delete? || |body| > 0) {
        LengthStaysPlain(headers, LengthText(|body|));
        SetHeader(CONTENT_LENGTH, LengthText(|body|));
      }
      PrintedIff(method_, url, headers);
      size := RequestSize(isChunked, |body|);
      request := new byte[size + 1](_ => NUL);
      assert request[..] == [] + Zeros(size + 1);
      outside := FillIn(request, body);
      ExactIff(request[..], Printed(method_, url, headers), HeadText(method_, url, headers), body);
    }
  }

  lemma PutHere(hs: seq<Header>, key: bytes, value: bytes, i: nat)
    requires i <= |hs|
    ensures i < |hs| && BytesLess(hs[i].key, key) ==> PutHeader(hs[i..], key, value) == [hs[i]] + PutHeader(hs[i + 1..], key, value)
    ensures i < |hs| && hs[i].key == key ==> PutHeader(hs[i..], key, value) == [Header(key, value)] + hs[i + 1..]
    ensures i == |hs| || (!BytesLess(hs[i].key, key) && hs[i].key != key) ==>
              PutHeader(hs[i..], key, value) == [Header(key, value)] + hs[i..]
  {
    hide BytesLess;
    if i < |hs| {
      BytesTrichotomy(hs[i].key, key);
      assert hs[i..][1..] == hs[i + 1..];
    }
  }

  lemma PrintedParts(m: HttpMethod, url: Url, hs: seq<Header>)
    ensures Printed(m, url, hs) == RequestLine(m, url) + PrintedLines(hs) + CRLF
    ensures |CRLF| == 2
  {
  }

  lemma FillExactly(was: bytes, now: bytes, done: bytes, text: bytes)
    requires Filled(was, done) && |done| + |text| < |was|
    requires now == was[..|done|] + text + [NUL] + was[|done| + |text| + 1..]
    ensures Filled(now, done + text)
  {
    FillMore(was, now, done, text, |text|);
    assert text + Zeros(0) == text;
  }

  lemma BodyFilled(was: bytes, now: bytes, head: bytes, body: bytes)
    requires Filled(was, head) && |head| < |was| <= |head| + |body| + 1
    requires now == (was[..|head|] + body + was[Min(|head| + |body|, |was|)..])[..|was|]
    ensures now == (head + body + [NUL])[..|was|]
  {
    assert was[..|head|] == head;
    if |head| + |body| < |was| {
      assert was[|head| + |body|..] == [NUL];
    }
  }

  lemma ExactIff(buffer: bytes, printed: bytes, head: bytes, body: bytes)
    requires |printed| == |head| < |buffer| <= |head| + |body| + 1
    requires buffer == (printed + body + [NUL])[..|buffer|]
    ensures buffer == head + body + [NUL] <==> printed == head && |buffer| == |head| + |body| + 1
  {
    assert buffer[..|printed|] == printed;
    assert (head + body + [NUL])[..|printed|] == head;
  }

  function HostText(url: Url): bytes {
    url.host + if (url.schema == SCHEMA_HTTP && url.port != 80) || (url.schema == SCHEMA_HTTPS && url.port != 443)
               then [COLON] + Digits(url.port) else []
  }

  /** The port stands in the Host header exactly if it is neither 80 over http nor 443 over https, nor the schema another one. */
  lemma HostPort(url: Url)
    ensures var http, https := url.schema == [104, 116, 116, 112], url.schema == [104, 116, 116, 112, 115];
            && (HostText(url) == url.host <==> (!http && !https) || (http && url.port == 80) || (https && url.port == 443))
            && (HostText(url) != url.host ==>
                  var n := |url.host|;
                  && HostText(url)[..n] == url.host && |HostText(url)| > n + 1 && HostText(url)[n] == 58
                  && AllDigits(HostText(url)[n + 1..]) && DecimalValue(HostText(url)[n + 1..]) == url.port)
  {
    hide Digits;
    DigitsValue(url.port);
    var text := [COLON] + Digits(url.port);
    assert (url.host + text)[|url.host|..] == text && text[1..] == Digits(url.port);
    assert (url.host + text)[|url.host| + 1..] == text[1..];
  }

  lemma LineFilled(was: bytes, now: bytes, done: bytes, h: Header)
    requires Filled(was, done) && |done| + |PrintedLine(h)| < |was|
    requires var text := HeaderLine(CStr(h.key), CStr(h.value));
             now == was[..|done|] + text + [NUL] + was[|done| + |text| + 1..]
    ensures Filled(now, done + PrintedLine(h))
  {
    hide Filled, CStr;
    FillMore(was, now, done, HeaderLine(CStr(h.key), CStr(h.value)), |PrintedLine(h)|);
  }

  lemma LinesJoined(done: bytes, sofar: bytes, line: bytes, more: bytes)
    ensures done + sofar + line == done + (sofar + line)
    ensures sofar + (line + more) == sofar + line + more
  {
  }

  lemma LinesFrom(hs: seq<Header>, i: nat)
    requires i <= |hs|
    ensures i < |hs| ==> |PrintedLines(hs[i..])| == |hs[i].key| + |hs[i].value| + 4 + |PrintedLines(hs[i + 1..])|
    ensures i == |hs| ==> PrintedLines(hs[i..]) == []
    ensures hs[0..] == hs
  {
    if i < |hs| {
      assert hs[i..][1..] == hs[i + 1..];
    }
  }

  lemma Chunkedness(hs: seq<Header>)
    ensures IsChunked(hs) == HasHeaderSpec(hs, TRANSFER_ENCODING, Some(CHUNKED))
  {
  }

  lemma LengthIsNoCoding(value: bytes)
    ensures !HeaderIs(Header(CONTENT_LENGTH, value), TRANSFER_ENCODING, Some(CHUNKED))
  {
    assert CONTENT_LENGTH[0] != TRANSFER_ENCODING[0];
    assert NulFree(CONTENT_LENGTH);
  }

  /** Every header of the new list is the one put, or an old one. */
  lemma {:induction false} PutMembers(hs: seq<Header>, key: bytes, value: bytes)
    ensures forall h | h in PutHeader(hs, key, value) :: h == Header(key, value) || h in hs
    ensures Header(key, value) in PutHeader(hs, key, value)
    decreases |hs|
  {
    hide BytesLess;
    if hs != [] && hs[0].key != key && !BytesLess(key, hs[0].key) {
      PutMembers(hs[1..], key, value);
    }
  }

  /** Writing the length does not make a request chunked. */
  lemma LengthStaysPlain(hs: seq<Header>, value: bytes)
    requires !IsChunked(hs)
    ensures !IsChunked(PutHeader(hs, CONTENT_LENGTH, value))
  {
    hide HeaderIs, PutHeader;
    var r := PutHeader(hs, CONTENT_LENGTH, value);
    PutMembers(hs, CONTENT_LENGTH, value);
    LengthIsNoCoding(value);
    forall i | 0 <= i < |r|
      ensures !HeaderIs(r[i], TRANSFER_ENCODING, Some(CHUNKED))
    {
      assert r[i] in r;
    }
  }

  // ---- The length that is announced ----

  lemma {:induction false} ValueBelow(s: bytes)
    requires AllDigits(s)
    ensures DecimalValue(s) < Pow10(|s|)
    decreases |s|
  {
    if s != [] {
      ValueBelow(s[..|s| - 1]);
    }
  }

  /** The Content-Length header is right if and only if the body has less than a thousand million bytes. */
  lemma LengthTextIff(n: nat)
    ensures AllDigits(LengthText(n))
    ensures DecimalValue(LengthText(n)) == n <==> n < 1000000000
  {
    assert Pow10(5) == 100000;
    assert Pow10(9) == 1000000000;
    DigitsValue(n);
    if n < 1000000000 {
      DigitsLength(n, 9, Pow10(9));
    } else {
      ValueBelow(LengthText(n));
      if |Digits(n)| <= 9 {
        PowerMonotone(|Digits(n)|, 9);
      }
    }
  }

  lemma {:induction false} PowerMonotone(a: nat, b: nat)
    requires a <= b
    ensures Pow10(a) <= Pow10(b)
    decreases b
  {
    if a < b {
      PowerMonotone(a, b - 1);
    }
  }

  /** A request that carries a length carries this one. */
  lemma LengthAnnounced(hs: seq<Header>, m: HttpMethod, bodySize: nat)
    requires InOrder(hs)
    ensures InOrder(WithLength(hs, m, bodySize)) && IsChunked(WithLength(hs, m, bodySize)) == IsChunked(hs)
    ensures HeaderMap(WithLength(hs, m, bodySize))
         == if IsChunked(hs) || !(m.Post? || m.Put? || m.Delete? || bodySize > 0) then HeaderMap(hs)
            else HeaderMap(hs)[CONTENT_LENGTH := LengthText(bodySize)]
  {
    hide IsChunked;
    PutHeaderIsUpdate(hs, CONTENT_LENGTH, LengthText(bodySize));
    if !IsChunked(hs) {
      LengthStaysPlain(hs, LengthText(bodySize));
    }
  }

  // ---- Lines ----

  /** The first position of a byte, or the end. */
  function Find(s: bytes, c: byte): (k: nat)
    ensures k <= |s| && (forall i | 0 <= i < k :: s[i] != c) && (k < |s| ==> s[k] == c)
  {
    if s == [] || s[0] == c then 0 else 1 + Find(s[1..], c)
  }

  lemma FindAt(a: bytes, c: byte, b: bytes)
    requires c !in a
    ensures Find(a + [c] + b, c) == |a| && Find(a, c) == |a|
  {
    var s := a + [c] + b;
    assert s[|a|] == c;
    assert forall i | 0 <= i < |a| :: s[i] == a[i] && a[i] in a;
  }

  /** A line, and what follows its CRLF. */
  function ReadLine(s: bytes): Option<(bytes, bytes)> {
    var k := Find(s, 13);
    if k + 1 < |s| && s[k + 1] == 10 then Some((s[..k], s[k + 2..])) else None
  }

  lemma LineRead(line: bytes, rest: bytes)
    requires CR !in line
    ensures ReadLine(line + CRLF + rest) == Some((line, rest))
  {
    var s := line + CRLF + rest;
    assert s == line + [CR] + ([LF] + rest);
    FindAt(line, CR, [LF] + rest);
    assert s[..|line|] == line && s[|line| + 2..] == rest;
  }
}
