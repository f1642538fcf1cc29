/**
 A request as its receiver reads it: the message of section 3 of RFC 7230, with the
 body framed by the headers (section 3.3.3).
 */
module HttpReceiver {
  import opened Bytes
  import opened Decimal
  import opened HttpBuilder
  import opened HttpChunked

  datatype Message = Message(name: bytes, target: bytes, headers: seq<Header>, body: bytes)

  // "transfer-encoding"
  const CODING_NAME: bytes := [116, 114, 97, 110, 115, 102, 101, 114, 45, 101, 110, 99, 111, 100, 105, 110, 103]

  // "chunked"
  const CHUNKED_CODING: bytes := [99, 104, 117, 110, 107, 101, 100]
  // "HTTP/1.1"
  const HTTP_VERSION: bytes := [72, 84, 84, 80, 47, 49, 46, 49]

  // ---- The head ----

  predicate IsBlank(c: byte) {
    c == 32 || c == 9
  }

  function TrimFront(s: bytes): bytes {
    if s != [] && IsBlank(s[0]) then TrimFront(s[1..]) else s
  }

  function TrimBack(s: bytes): bytes {
    if s != [] && IsBlank(s[|s| - 1]) then TrimBack(s[..|s| - 1]) else s
  }

  /** A field value without the optional whitespace around it. */
  function Trim(s: bytes): bytes {
    TrimBack(TrimFront(s))
  }

  /** One header line; whitespace in front of the colon is an error. */
  function ReadHeader(text: bytes): Option<Header> {
    var c := Find(text, 58);
    if c == 0 || c == |text| || IsBlank(text[c - 1]) then None
    else Some(Header(text[..c], Trim(text[c + 1..])))
  }

  function ReadHeaders(s: bytes): Option<(seq<Header>, bytes)>
    decreases |s|
  {
    var line := ReadLine(s);
    if line.None? then None
    else if line.value.0 == [] then Some(([], line.value.1))
    else
      var h := ReadHeader(line.value.0);
      if h.None? || |line.value.1| >= |s| then None
      else
        var more := ReadHeaders(line.value.1);
        if more.None? then None else Some(([h.value] + more.value.0, more.value.1))
  }

  // ---- The framing of the body ----

  datatype Framing = NoBody | OfLength(length: nat) | ChunkedBody | BadFraming

  /** The values of the fields of this name, in any case. */
  function FieldValues(hs: seq<Header>, name: bytes): seq<bytes> {
    if hs == [] then []
    else (if Lower(hs[0].key) == name then [hs[0].value] else []) + FieldValues(hs[1..], name)
  }

  /** The items of a comma-separated list, without empty ones (section 7 of RFC 7230). */
  function ListItems(s: bytes): seq<bytes>
    decreases |s|
  {
    var c := Find(s, 44);
    var item := Trim(s[..c]);
    (if item == [] then [] else [item]) + if c < |s| then ListItems(s[c + 1..]) else []
  }

  function AllItems(values: seq<bytes>): seq<bytes> {
    if values == [] then [] else ListItems(values[0]) + AllItems(values[1..])
  }

  /** Every one of these values is the number n in decimal. */
  predicate AllSay(values: seq<bytes>, n: nat) {
    forall i | 0 <= i < |values| :: values[i] != [] && AllDigits(values[i]) && DecimalValue(values[i]) == n
  }

  /** The last transfer coding counts, and overrides a length; several lengths must agree. */
  function FramingOf(hs: seq<Header>): Framing {
    var codings, lengths := AllItems(FieldValues(hs, CODING_NAME)), AllItems(FieldValues(hs, LENGTH_NAME));
    if codings != [] then if Lower(codings[|codings| - 1]) == CHUNKED_CODING then ChunkedBody else BadFraming
    else if lengths == [] then NoBody
    else if lengths[0] != [] && AllDigits(lengths[0]) && AllSay(lengths, DecimalValue(lengths[0]))
    then OfLength(DecimalValue(lengths[0]))
    else BadFraming
  }

  /** The body, and what follows the message. */
  function ReadBody(f: Framing, s: bytes): Option<(bytes, bytes)> {
    match f
    case NoBody => Some(([], s))
    case OfLength(n) => if n <= |s| then Some((s[..n], s[n..])) else None
    case ChunkedBody => Dechunk(s)
    case BadFraming => None
  }

  function ReadRequest(s: bytes): Option<(Message, bytes)> {
    var line := ReadLine(s);
    if line.None? then None
    else
      var text := line.value.0;
      var i := Find(text, 32);
      if i == |text| then None
      else
        var after := text[i + 1..];
        var j := Find(after, 32);
        var headers := ReadHeaders(line.value.1);
        if j == |after| || after[j + 1..] != HTTP_VERSION || headers.None? then None
        else
          var body := ReadBody(FramingOf(headers.value.0), headers.value.1);
          if body.None? then None else Some((Message(text[..i], after[..j], headers.value.0, body.value.0), body.value.1))
  }

  // ---- Reading what was built ----

  /** A name and a value that a header line can carry. */
  predicate Clean(h: Header) {
    && h.key != [] && COLON !in h.key && CR !in h.key && !IsBlank(h.key[|h.key| - 1])
    && CR !in h.value && (h.value != [] ==> !IsBlank(h.value[0]) && !IsBlank(h.value[|h.value| - 1]))
  }

  lemma HeaderRead(h: Header)
    requires Clean(h)
    ensures var text := h.key + [COLON, SPACE] + h.value;
            CR !in text && text != [] && ReadHeader(text) == Some(h)
  {
    var text := h.key + [COLON, SPACE] + h.value;
    assert text == h.key + [COLON] + ([SPACE] + h.value);
    FindAt(h.key, COLON, [SPACE] + h.value);
    assert text[..|h.key|] == h.key && text[|h.key| + 1..] == [SPACE] + h.value;
    assert text[|h.key| - 1] == h.key[|h.key| - 1];
    var v := [SPACE] + h.value;
    assert v[1..] == h.value;
    assert TrimFront(h.value) == h.value;
    assert TrimFront(v) == h.value;
    assert TrimBack(h.value) == h.value;
  }

  predicate AllClean(hs: seq<Header>) {
    forall i | 0 <= i < |hs| :: Clean(hs[i])
  }

  lemma {:induction false} HeadersReadBack(hs: seq<Header>, tail: bytes)
    requires AllClean(hs)
    ensures ReadHeaders(HeaderLines(hs) + CRLF + tail) == Some((hs, tail))
    decreases |hs|
  {
    hide ReadLine, ReadHeader, Clean;
    var s := HeaderLines(hs) + CRLF + tail;
    if hs == [] {
      LineRead([], tail);
      assert s == [] + CRLF + tail;
    } else {
      var h := hs[0];
      var rest := HeaderLines(hs[1..]) + CRLF + tail;
      HeaderRead(h);
      LineRead(h.key + [COLON, SPACE] + h.value, rest);
      assert s == h.key + [COLON, SPACE] + h.value + CRLF + rest;
      HeadersReadBack(hs[1..], tail);
      assert hs == [h] + hs[1..];
    }
  }

  predicate CleanLine(m: HttpMethod, url: Url) {
    var target := Target(url);
    SPACE !in MethodName(m) && CR !in MethodName(m) && SPACE !in target && CR !in target
  }

  lemma RequestLineRead(m: HttpMethod, url: Url, rest: bytes)
    requires CleanLine(m, url)
    ensures ReadLine(RequestLine(m, url) + rest) == Some((MethodName(m) + [SPACE] + (Target(url) + [SPACE] + VERSION), rest))
  {
    hide Target, MethodName;
    var text := MethodName(m) + [SPACE] + (Target(url) + [SPACE] + VERSION);
    assert CR !in VERSION;
    LineRead(text, rest);
    assert RequestLine(m, url) + rest == text + CRLF + rest;
  }

  /** Behind a printed head the receiver takes the body that the headers frame, and leaves the rest. */
  lemma HeadRead(m: HttpMethod, url: Url, hs: seq<Header>, tail: bytes)
    requires CleanLine(m, url) && AllClean(hs)
    ensures var body := ReadBody(FramingOf(hs), tail);
            ReadRequest(HeadText(m, url, hs) + tail)
            == if body.None? then None else Some((Message(MethodName(m), Target(url), hs, body.value.0), body.value.1))
  {
    hide HeaderLines, MethodName, Target, RequestLine, ReadHeaders, ReadLine, ReadBody, FramingOf;
    var rest := HeaderLines(hs) + CRLF + tail;
    var name, target := MethodName(m), Target(url);
    assert HeadText(m, url, hs) + tail == RequestLine(m, url) + rest;
    RequestLineRead(m, url, rest);
    var text := name + [SPACE] + (target + [SPACE] + VERSION);
    FindAt(name, SPACE, target + [SPACE] + VERSION);
    assert text[|name| + 1..] == target + [SPACE] + VERSION && text[..|name|] == name;
    var after := target + [SPACE] + VERSION;
    FindAt(target, SPACE, VERSION);
    assert after[|target| + 1..] == VERSION && after[..|target|] == target;
    HeadersReadBack(hs, tail);
  }

  /** The chunked form is longer than what it carries. */
  lemma {:induction false} DechunkShrinks(s: bytes)
    ensures var r := Dechunk(s);
            r.Some? ==> |r.value.0| + |r.value.1| < |s|
    decreases |s|
  {
    hide HexNumber;
    var line := ReadLine(s);
    if line.Some? {
      ReadLineShrinks(s);
      var size := HexNumber(line.value.0);
      var rest := line.value.1;
      if size.Some? && size.value > 0 && |rest| >= size.value + 2 {
        DechunkShrinks(rest[size.value + 2..]);
      }
    }
  }

  lemma ReadLineShrinks(s: bytes)
    ensures var r := ReadLine(s);
            r.Some? ==> |r.value.0| + |r.value.1| + 2 == |s|
  {
  }

  /** The body is taken as it was sent exactly if the headers say no body and there is none, or give its length. */
  lemma BodyReadIff(f: Framing, body: bytes, rest: bytes)
    ensures ReadBody(f, body + rest) == Some((body, rest)) <==> (f == NoBody && body == []) || f == OfLength(|body|)
  {
    DechunkShrinks(body + rest);
    assert (body + rest)[..|body|] == body && (body + rest)[|body|..] == rest;
    if body == [] {
      assert body + rest == rest;
    }
  }

  // ---- The headers that build writes ----

  /** Nothing but the builder frames the body: no length set beforehand, and no coding but the one the builder knows. */
  predicate BuilderFrames(hs: seq<Header>) {
    && FieldValues(hs, LENGTH_NAME) == []
    && FieldValues(hs, CODING_NAME) == if IsChunked(hs) then [CHUNKED] else []
  }

  predicate LengthDue(m: HttpMethod, bodySize: nat) {
    m.Post? || m.Put? || m.Delete? || bodySize > 0
  }

  lemma LengthFieldName()
    ensures Lower(CONTENT_LENGTH) == LENGTH_NAME && Lower(CONTENT_LENGTH) != CODING_NAME
  {
    assert Lower(CONTENT_LENGTH)[0] == 99 && CODING_NAME[0] == 116;
  }

  lemma {:induction false} PutLengthValues(hs: seq<Header>, value: bytes)
    requires FieldValues(hs, LENGTH_NAME) == []
    ensures FieldValues(PutHeader(hs, CONTENT_LENGTH, value), LENGTH_NAME) == [value]
    ensures FieldValues(PutHeader(hs, CONTENT_LENGTH, value), CODING_NAME) == FieldValues(hs, CODING_NAME)
    decreases |hs|
  {
    hide Lower, BytesLess;
    LengthFieldName();
    var r := PutHeader(hs, CONTENT_LENGTH, value);
    assert r[0].key == CONTENT_LENGTH || (hs != [] && r[0] == hs[0] && r[1..] == PutHeader(hs[1..], CONTENT_LENGTH, value));
    if hs != [] {
      if hs[0].key != CONTENT_LENGTH && !BytesLess(CONTENT_LENGTH, hs[0].key) {
        PutLengthValues(hs[1..], value);
        assert r[1..] == PutHeader(hs[1..], CONTENT_LENGTH, value);
      } else {
        assert r[1..] == hs;
      }
    } else {
      assert r[1..] == [];
    }
  }

  /** What the receiver makes of the headers that build leaves. */
  lemma BuiltFraming(hs: seq<Header>, m: HttpMethod, bodySize: nat)
    requires BuilderFrames(hs)
    ensures FramingOf(WithLength(hs, m, bodySize))
         == if IsChunked(hs) then ChunkedBody
            else if LengthDue(m, bodySize) then OfLength(DecimalValue(LengthText(bodySize)))
            else NoBody
  {
    hide IsChunked, FieldValues, PutHeader, LengthText, AllItems;
    LengthTextIff(bodySize);
    LengthTextSome(bodySize);
    PutLengthValues(hs, LengthText(bodySize));
    LengthItem(bodySize);
    OneItem(CHUNKED);
    NoItems();
    assert Lower(CHUNKED) == CHUNKED;
  }

  lemma LengthTextSome(n: nat)
    ensures LengthText(n) != []
  {
  }

  lemma OneItem(s: bytes)
    requires s != [] && COMMA !in s && !IsBlank(s[0]) && !IsBlank(s[|s| - 1])
    ensures AllItems([s]) == [s]
  {
    assert Find(s, COMMA) == |s| && s[..|s|] == s;
    assert ListItems(s) == [s];
    assert AllItems([s][1..]) == [];
  }

  lemma NoItems()
    ensures AllItems([]) == []
  {
  }

  lemma LengthItem(n: nat)
    ensures AllItems([LengthText(n)]) == [LengthText(n)]
  {
    var v := LengthText(n);
    LengthTextIff(n);
    LengthTextSome(n);
    assert AllDigits(v);
    assert forall i | 0 <= i < |v| :: IsDigit(v[i]);
    OneItem(v);
  }

  lemma {:induction false} PutClean(hs: seq<Header>, h: Header)
    requires AllClean(hs) && Clean(h)
    ensures AllClean(PutHeader(hs, h.key, h.value))
    decreases |hs|
  {
    hide Clean, BytesLess;
    var r := PutHeader(hs, h.key, h.value);
    if hs != [] && hs[0].key != h.key && !BytesLess(h.key, hs[0].key) {
      PutClean(hs[1..], h);
      assert r[0] == hs[0] && r[1..] == PutHeader(hs[1..], h.key, h.value);
      assert forall i | 1 <= i < |r| :: r[i] == r[1..][i - 1];
    }
  }

  lemma LengthClean(n: nat)
    ensures Clean(Header(CONTENT_LENGTH, LengthText(n)))
  {
    var v := LengthText(n);
    LengthTextIff(n);
    assert AllDigits(v);
    assert forall i | 0 <= i < |v| :: IsDigit(v[i]);
  }

  /**
   A built request followed by anything: its receiver reads back the method, the target,
   the headers and exactly the body, and leaves what follows, if and only if the request
   is not chunked and either no length is due or the body has less than 10^9 bytes.
   */
  lemma RequestReadBackIff(m: HttpMethod, url: Url, hs: seq<Header>, body: bytes, rest: bytes)
    requires CleanLine(m, url) && AllClean(hs) && BuilderFrames(hs)
    ensures var sent := WithLength(hs, m, |body|);
            ReadRequest(HeadText(m, url, sent) + body + rest) == Some((Message(MethodName(m), Target(url), sent, body), rest))
            <==> !IsChunked(hs) && (LengthDue(m, |body|) ==> |body| < 1000000000)
  {
    hide HeadText, ReadRequest, ReadBody, FramingOf, IsChunked, CleanLine, MethodName, Target, LengthText, DecimalValue, PutHeader;
    var sent := WithLength(hs, m, |body|);
    LengthClean(|body|);
    PutClean(hs, Header(CONTENT_LENGTH, LengthText(|body|)));
    assert HeadText(m, url, sent) + body + rest == HeadText(m, url, sent) + (body + rest);
    HeadRead(m, url, sent, body + rest);
    BuiltFraming(hs, m, |body|);
    BodyReadIff(FramingOf(sent), body, rest);
    LengthTextIff(|body|);
  }

  /** The same for headers of any kind: exactly if they frame the body that is there. */
  lemma AnyHeadersReadBackIff(m: HttpMethod, url: Url, hs: seq<Header>, body: bytes, rest: bytes)
    requires CleanLine(m, url) && AllClean(hs)
    ensures ReadRequest(HeadText(m, url, hs) + body + rest) == Some((Message(MethodName(m), Target(url), hs, body), rest))
       <==> (FramingOf(hs) == NoBody && body == []) || FramingOf(hs) == OfLength(|body|)
  {
    hide HeadText, ReadRequest, ReadBody, FramingOf, CleanLine, MethodName, Target;
    assert HeadText(m, url, hs) + body + rest == HeadText(m, url, hs) + (body + rest);
    HeadRead(m, url, hs, body + rest);
    BodyReadIff(FramingOf(hs), body, rest);
  }

  /** A chunked request is read back with the chunks joined together, whatever length it may also carry. */
  lemma ChunkedReadBack(m: HttpMethod, url: Url, hs: seq<Header>, cs: seq<bytes>, rest: bytes)
    requires CleanLine(m, url) && AllClean(hs) && FramingOf(hs) == ChunkedBody
    ensures ReadRequest(HeadText(m, url, hs) + Encoding(cs) + rest)
         == Some((Message(MethodName(m), Target(url), hs, Payload(cs)), rest))
  {
    hide HeadText, ReadRequest, CleanLine, MethodName, Target, Encoding, Payload;
    assert HeadText(m, url, hs) + Encoding(cs) + rest == HeadText(m, url, hs) + (Encoding(cs) + rest);
    HeadRead(m, url, hs, Encoding(cs) + rest);
    DechunkEncoding(cs, rest);
  }

  // ---- The fields of the request ----

  /** A target is cut at its first question mark (section 5.3.1 of RFC 7230). */
  function CutTarget(target: bytes): (bytes, Option<bytes>) {
    var k := Find(target, 63);
    if k == |target| then (target, None) else (target[..k], Some(target[k + 1..]))
  }

  /** Cut that way, the target gives back the path and, unless it is empty, the query. */
  lemma TargetReadBack(url: Url)
    requires 63 !in url.path
    ensures CutTarget(Target(url)) == (url.path, if url.query == [] then None else Some(url.query))
  {
    FindAt(url.path, 63, url.query);
    var t := url.path + [63] + url.query;
    assert t[..|url.path|] == url.path && t[|url.path| + 1..] == url.query;
    assert Target(url) == if url.query == [] then url.path else t;
  }

  /** The method that a name stands for: DELETE, GET, HEAD, POST, PUT, or the one of that name. */
  function MethodOf(name: bytes): HttpMethod {
    if name == [68, 69, 76, 69, 84, 69] then Delete
    else if name == [71, 69, 84] then Get
    else if name == [72, 69, 65, 68] then Head
    else if name == [80, 79, 83, 84] then Post
    else if name == [80, 85, 84] then Put
    else Other(name)
  }

  lemma MethodReadBack(m: HttpMethod)
    ensures !m.Other? ==> MethodOf(MethodName(m)) == m
    ensures m.Other? ==> MethodName(m) == m.name
  {
  }

  /**
   The receiver of a request without the chunked coding and below 10^9 bytes of body reads
   the method, the path, the query, every header that was set, the length, and the body.
   */
  lemma FieldsReadBack(m: HttpMethod, url: Url, hs: seq<Header>, body: bytes, rest: bytes)
    requires CleanLine(m, url) && AllClean(hs) && BuilderFrames(hs) && InOrder(hs) && 63 !in url.path
    requires !IsChunked(hs) && |body| < 1000000000
    ensures var r := ReadRequest(HeadText(m, url, WithLength(hs, m, |body|)) + body + rest);
            && r.Some? && r.value.1 == rest && r.value.0.body == body
            && (if m.Other? then r.value.0.name == m.name else MethodOf(r.value.0.name) == m)
            && CutTarget(r.value.0.target) == (url.path, if url.query == [] then None else Some(url.query))
            && HeaderMap(r.value.0.headers)
               == if LengthDue(m, |body|) then HeaderMap(hs)[CONTENT_LENGTH := LengthText(|body|)] else HeaderMap(hs)
  {
    hide HeadText, ReadRequest, CleanLine, MethodName, Target, LengthText, PutHeader, IsChunked, AllClean, BuilderFrames, HeaderMap;
    hide CutTarget, MethodOf;
    RequestReadBackIff(m, url, hs, body, rest);
    TargetReadBack(url);
    MethodReadBack(m);
    LengthAnnounced(hs, m, |body|);
  }

  // The text of the example: `POST /p?q HTTP/1.1`, `Content-Length: 1`, `Host: h`, and the body `x`
  const EXAMPLE_LINE: bytes := [80, 79, 83, 84, 32, 47, 112, 63, 113, 32, 72, 84, 84, 80, 47, 49, 46, 49, 13, 10]
  const EXAMPLE_LENGTH: bytes := [67, 111, 110, 116, 101, 110, 116, 45, 76, 101, 110, 103, 116, 104, 58, 32, 49, 13, 10]
  const EXAMPLE_HOST: bytes := [72, 111, 115, 116, 58, 32, 104, 13, 10]
  const EXAMPLE_URL: Url := Url([104, 116, 116, 112], [104], [47, 112], [113], 80)

  lemma ExampleHeaders()
    ensures HostText(EXAMPLE_URL) == [104]
    ensures WithLength([Header(HOST, [104])], Post, 1) == [Header(CONTENT_LENGTH, [49]), Header(HOST, [104])]
  {
    hide CStr;
    var host := Header(HOST, [104]);
    assert NulFree(HOST);
    assert CStr(HOST) == HOST && HOST[0] != TRANSFER_ENCODING[0];
    assert !HeaderIs(host, TRANSFER_ENCODING, Some(CHUNKED));
    assert LengthText(1) == [49];
    BytesLessStep(CONTENT_LENGTH, HOST);
  }

  lemma ExampleLines()
    ensures HeaderLines([Header(CONTENT_LENGTH, [49]), Header(HOST, [104])]) == EXAMPLE_LENGTH + EXAMPLE_HOST
  {
    var length, host := Header(CONTENT_LENGTH, [49]), Header(HOST, [104]);
    assert [length, host][1..] == [host] && [host][1..] == [];
    assert HeaderLines([]) == [];
    assert HeaderLines([host]) == HeaderLine(HOST, [104]) == EXAMPLE_HOST;
    assert HeaderLine(CONTENT_LENGTH, [49]) == EXAMPLE_LENGTH;
  }

  /** A whole request, byte by byte. */
  lemma RequestExample()
    ensures HeadText(Post, EXAMPLE_URL, WithLength([Header(HOST, HostText(EXAMPLE_URL))], Post, 1)) + [120]
         == EXAMPLE_LINE + EXAMPLE_LENGTH + EXAMPLE_HOST + [13, 10, 120]
  {
    hide HeaderLines, HeaderLine, WithLength, HostText;
    ExampleHeaders();
    ExampleLines();
    assert RequestLine(Post, EXAMPLE_URL) == EXAMPLE_LINE;
    assert CRLF + [120] == [13, 10, 120];
  }
}
