/**
 * Requests of the RTSP-style control protocol (src/rtsp/mod.rs): methods,
 * bodies, the request object with its header map, the normalisation done
 * just before sending, and the byte layout of an outgoing frame.
 */
module Rtsp {
  import opened Wrappers
  import opened Text
  import Numbers
  import Utf8

  datatype Method = Get | Post | Setup | SetParameter | GetParameter | SetPeers | Record | Flush | Teardown

  /** The bytes a method name is made of: ASCII upper-case letters and `_`. */
  predicate IsTokenByte(b: byte) {
    'A' as byte <= b <= 'Z' as byte || b == '_' as byte
  }

  lemma AsciiToken(s: string)
    requires forall c :: c in s ==> 'A' <= c <= 'Z' || c == '_'
    ensures forall i :: 0 <= i < |s| ==> IsTokenByte(Ascii(s)[i])
  {
    forall i | 0 <= i < |s|
      ensures IsTokenByte(Ascii(s)[i])
    {
      assert s[i] in s;
    }
  }

  /**
   * `Method::to_string`: the variant's name, upper case, underscores kept.
   * Every method is sent as a non-empty word of upper-case letters and
   * underscores.
   */
  function MethodName(m: Method): (r: Bytes)
    ensures |r| > 0
    ensures forall i :: 0 <= i < |r| ==> IsTokenByte(r[i])
  {
    match m
    case Get => AsciiToken("GET"); Ascii("GET")
    case Post => AsciiToken("POST"); Ascii("POST")
    case Setup => AsciiToken("SETUP"); Ascii("SETUP")
    case SetParameter => AsciiToken("SET_PARAMETER"); Ascii("SET_PARAMETER")
    case GetParameter => AsciiToken("GET_PARAMETER"); Ascii("GET_PARAMETER")
    case SetPeers => AsciiToken("SETPEERS"); Ascii("SETPEERS")
    case Record => AsciiToken("RECORD"); Ascii("RECORD")
    case Flush => AsciiToken("FLUSH"); Ascii("FLUSH")
    case Teardown => AsciiToken("TEARDOWN"); Ascii("TEARDOWN")
  }

  /** Distinct methods are sent as distinct words. */
  lemma MethodNameInjective(a: Method, b: Method)
    ensures MethodName(a) == MethodName(b) ==> a == b
  {
    if MethodName(a) == MethodName(b) {
      var r := MethodName(a);
      assert |r| == |MethodName(b)| && r[0] == MethodName(b)[0];
    }
  }

  /** A response as the listener hands it on: status, headers and body. */
  datatype Response = Response(status: int, headers: Headers, body: Body)

  /** A structured value as the `plist` crate represents one (`plist::Value`). */
  datatype PlistValue =
    | PlistString(text: Bytes)
    | PlistInteger(number: int)
    | PlistBoolean(flag: bool)
    | PlistData(data: Bytes)
    | PlistArray(items: seq<PlistValue>)
    | PlistDictionary(entries: seq<(Bytes, PlistValue)>)

  /**
   * The binary property-list codec of the `plist` crate, whose workings are
   * not part of this model: `to_writer_binary` (taken to succeed, as the
   * `unwrap` at its call sites assumes) and `from_bytes`.
   */
  datatype PlistCodec = PlistCodec(encode: PlistValue -> Bytes, decode: Bytes -> Option<PlistValue>)

  datatype Body = None | Plist(value: PlistValue) | Raw(bytes: Bytes)

  /** The bytes a body is sent as: the codec's output, the raw bytes, or nothing. */
  function BodyBytes(body: Body, codec: PlistCodec): Bytes {
    match body
    case None => []
    case Plist(v) => codec.encode(v)
    case Raw(b) => b
  }

  type Headers = map<Bytes, Bytes>

  const PROTOCOL_VERSION: Bytes := Ascii("X-Apple-ProtocolVersion")
  const USER_AGENT: Bytes := Ascii("User-Agent")
  const CONTENT_LENGTH: Bytes := Ascii("Content-Length")
  const CONTENT_TYPE: Bytes := Ascii("Content-Type")
  const CSEQ: Bytes := Ascii("CSeq")
  const PLIST_CONTENT_TYPE: Bytes := Ascii("application/x-apple-binary-plist")
  const SP: Bytes := Ascii(" ")
  const COLON_SP: Bytes := Ascii(": ")
  const RTSP_VERSION: Bytes := Ascii(" RTSP/1.0")

  /**
   * The headers after `normalize(seq)` on a request whose body serialises
   * to `contentLength` bytes: `CSeq` is the sequence number, `Content-Length`
   * the body length when that is positive, and every other header as it was.
   */
  function NormalizedHeaders(h: Headers, contentLength: nat, cseq: nat): (r: Headers)
    ensures CSEQ in r && r[CSEQ] == Numbers.DecimalText(cseq)
    ensures contentLength > 0 ==> CONTENT_LENGTH in r && r[CONTENT_LENGTH] == Numbers.DecimalText(contentLength)
    ensures contentLength == 0 ==> (CONTENT_LENGTH in r <==> CONTENT_LENGTH in h)
    ensures contentLength == 0 && CONTENT_LENGTH in h ==> r[CONTENT_LENGTH] == h[CONTENT_LENGTH]
    ensures forall k :: k != CSEQ && k != CONTENT_LENGTH ==> (k in r <==> k in h)
    ensures forall k :: k != CSEQ && k != CONTENT_LENGTH && k in h ==> r[k] == h[k]
  {
    var sized := if contentLength > 0 then h[CONTENT_LENGTH := Numbers.DecimalText(contentLength)] else h;
    sized[CSEQ := Numbers.DecimalText(cseq)]
  }

  /** A request being built and, just before it is sent, normalised. */
  class Request {
    var verb: Method  // the `method` field
    var path: Bytes
    var headers: Headers
    var body: Body

    /** `Request::new`: no body and the two default headers. */
    constructor (verb: Method, path: Bytes)
      ensures this.verb == verb && this.path == path && body == Body.None
      ensures headers == map[PROTOCOL_VERSION := Ascii("1"), USER_AGENT := Ascii("AirPlay/409.16")]
      ensures |headers| == 2
    {
      this.verb := verb;
      this.path := path;
      headers := map[PROTOCOL_VERSION := Ascii("1"), USER_AGENT := Ascii("AirPlay/409.16")];
      body := Body.None;
    }

    /** `set_header`: `HashMap::insert`, which hands back the value it replaced. */
    method SetHeader(name: Bytes, value: Bytes) returns (previous: Option<Bytes>)
      modifies this
      ensures headers == old(headers)[name := value]
      ensures previous == if name in old(headers) then Option.Some(old(headers)[name]) else Option.None
      ensures verb == old(verb) && path == old(path) && body == old(body)
    {
      previous := if name in headers then Option.Some(headers[name]) else Option.None;
      headers := headers[name := value];
    }

    /** `normalize(seq)`: sets `Content-Length` for a non-empty body, then `CSeq`. */
    method Normalize(cseq: nat, codec: PlistCodec)
      modifies this
      ensures headers == NormalizedHeaders(old(headers), |BodyBytes(body, codec)|, cseq)
      ensures verb == old(verb) && path == old(path) && body == old(body)
    {
      var cl := |BodyBytes(body, codec)|;
      if cl > 0 {
        var _ := SetHeader(CONTENT_LENGTH, Numbers.DecimalText(cl));
      }
      var _ := SetHeader(CSEQ, Numbers.DecimalText(cseq));
    }
  }

  /** The order `HashMap::iter` visits a map in: every key exactly once, in some order. */
  ghost predicate IsOrderOf(order: seq<Bytes>, h: Headers) {
    && (forall k :: k in h <==> k in order)
    && |order| == |h|
  }

  function HeaderLine(name: Bytes, value: Bytes): Bytes {
    name + COLON_SP + value + CRLF
  }

  /** One `name: value` line per key of `order`, in that order. */
  function HeaderLines(h: Headers, order: seq<Bytes>): Bytes
    requires forall k :: k in order ==> k in h
  {
    if |order| == 0 then [] else HeaderLine(order[0], h[order[0]]) + HeaderLines(h, order[1..])
  }

  /** The first line of a request, without its line break. */
  function RequestLine(m: Method, path: Bytes): Bytes {
    MethodName(m) + SP + path + RTSP_VERSION
  }

  /**
   * The text part of a message: its first line, one line per header and a
   * blank line, each ended by CRLF.
   */
  function Head(firstLine: Bytes, h: Headers, order: seq<Bytes>): Bytes
    requires forall k :: k in order ==> k in h
  {
    firstLine + CRLF + HeaderLines(h, order) + CRLF
  }

  /** A whole request frame: its text part followed by the body bytes. */
  function Frame(m: Method, path: Bytes, h: Headers, order: seq<Bytes>, body: Bytes): Bytes
    requires forall k :: k in order ==> k in h
  {
    Head(RequestLine(m, path), h, order) + body
  }

  lemma {:induction false} HeaderLinesSnoc(h: Headers, order: seq<Bytes>, i: nat)
    requires i < |order| && forall k :: k in order ==> k in h
    ensures HeaderLines(h, order[..i + 1]) == HeaderLines(h, order[..i]) + HeaderLine(order[i], h[order[i]])
    decreases i
  {
    if i == 0 {
      assert order[..1][1..] == [];
    } else {
      var tail := order[1..];
      assert order[..i + 1][1..] == tail[..i];
      assert order[..i][1..] == tail[..i - 1];
      HeaderLinesSnoc(h, tail, i - 1);
    }
  }

  /**
   * The text `Client::request` formats (mod.rs 222-228): the request line,
   * one line per header in the order `order` visits the map, a blank line.
   * The header lines are gathered first and joined to the request line at
   * the end, which gives the same bytes as appending them one by one.
   */
  method EncodeHead(verb: Method, path: Bytes, headers: Headers, order: seq<Bytes>) returns (text: Bytes)
    requires IsOrderOf(order, headers)
    ensures text == Head(RequestLine(verb, path), headers, order)
  {
    var lines: Bytes := [];
    assert order[..0] == [];
    var i := 0;
    while i < |order|
      invariant 0 <= i <= |order|
      invariant lines == HeaderLines(headers, order[..i])
    {
      HeaderLinesSnoc(headers, order, i);
      lines := lines + HeaderLine(order[i], headers[order[i]]);
      i := i + 1;
    }
    assert order[..i] == order;
    text := RequestLine(verb, path) + CRLF + lines + CRLF;
  }

  /**
   * The bytes `Client::request` writes for a normalised request (mod.rs
   * 222-240), `order` being the order in which the header map is iterated.
   */
  method EncodeRequest(req: Request, order: seq<Bytes>, codec: PlistCodec) returns (frame: Bytes)
    requires IsOrderOf(order, req.headers)
    ensures frame == Frame(req.verb, req.path, req.headers, order, BodyBytes(req.body, codec))
  {
    var text := EncodeHead(req.verb, req.path, req.headers, order);
    match req.body
    case Plist(v) => frame := text + codec.encode(v);
    case Raw(b) => frame := text + b;
    case None => frame := text;
  }

  /** `request.normalize(seq)` followed by the encoding of the request (mod.rs 220-240). */
  method Prepare(req: Request, cseq: nat, order: seq<Bytes>, codec: PlistCodec) returns (frame: Bytes)
    requires IsOrderOf(order, NormalizedHeaders(req.headers, |BodyBytes(req.body, codec)|, cseq))
    modifies req
    ensures req.headers == NormalizedHeaders(old(req.headers), |BodyBytes(req.body, codec)|, cseq)
    ensures req.verb == old(req.verb) && req.path == old(req.path) && req.body == old(req.body)
    ensures frame == Frame(req.verb, req.path, req.headers, order, BodyBytes(req.body, codec))
  {
    req.Normalize(cseq, codec);
    frame := EncodeRequest(req, order, codec);
  }

  /**
   * After normalisation, a frame with a non-empty body announces in
   * `Content-Length` exactly the number of bytes that follow its blank line.
   */
  lemma ContentLengthMatchesBody(m: Method, path: Bytes, h: Headers, order: seq<Bytes>, body: Bytes, cseq: nat)
    requires 0 < |body| < Numbers.Pow2(64)
    requires IsOrderOf(order, NormalizedHeaders(h, |body|, cseq))
    ensures var n := NormalizedHeaders(h, |body|, cseq);
      && CONTENT_LENGTH in n
      && Numbers.ParseUnsigned(n[CONTENT_LENGTH], 10, 64) == Option.Some(|Frame(m, path, n, order, body)| - |Head(RequestLine(m, path), n, order)|)
  {
    Numbers.DecimalRoundTrip(|body|);
  }
}
