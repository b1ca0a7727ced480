/** One cache entry (cache/cache.go, File, cReq and cRes): the fingerprint of a
    request, the file it names inside a transaction directory, and the layout
    of that file: the request descriptor, a newline, the response descriptor,
    a newline, then the raw response body. */
module Entry {
  import opened Common
  import opened Codec
  import Numerals
  import opened Disk

  /** A readable body: its bytes, then EOF (fails = false) or a read error (fails = true). */
  datatype Stream = Stream(data: Bytes, fails: bool)

  /** What req.GetBody() yields: a fresh reader over the body, or an error. */
  datatype BodySource = Reopens(stream: Stream) | ReopenFails

  /** The fields of an outgoing http.Request the core reads: verb is Method, url is URL.String(). */
  datatype Request = Request(verb: Str, url: Str, getBody: Option<BodySource>)

  /** The Method and URL of the http.Request a loaded response points back to. */
  datatype RequestLine = RequestLine(verb: Str, url: Str)

  /** The fields of an http.Response the core reads or sets. */
  datatype Response = Response(
    status: Str, statusCode: int, proto: Str, protoMajor: int, protoMinor: int,
    header: Header, contentLength: int, transferEncoding: seq<Str>, uncompressed: bool,
    body: Option<Stream>, request: Option<RequestLine>)

  /** cReq: the request descriptor stored first in an entry file. */
  datatype CReq = CReq(verb: Str, url: Str, payload: Option<Bytes>)

  /** cRes: the response descriptor stored second in an entry file. */
  datatype CRes = CRes(
    status: Str, statusCode: int, proto: Str, protoMajor: int, protoMinor: int,
    header: Header, contentLength: int, transferEncoding: seq<Str>, uncompressed: bool)

  /** File: a request descriptor bound to the path of its entry file. */
  datatype File = File(creq: CReq, pathname: Path)

  const MaxPayload: nat := 256


  // ---------------------------------------------------------------- fingerprint

  /** getPayload: at most the first 256 bytes of a fresh reader over the body;
      no GetBody gives no payload; reaching EOF early is not an error. */
  function GetPayload(getBody: Option<BodySource>): (r: Result<Option<Bytes>>)
    ensures getBody.None? <==> r == Ok(None)
    ensures getBody == Some(ReopenFails) ==> r == Err(PayloadRead)
    ensures r.Err? ==> r.error == PayloadRead
    ensures r.Ok? && r.value.Some? ==> |r.value.value| <= MaxPayload
  {
    match getBody
    case None => Ok(None)
    case Some(ReopenFails) => Err(PayloadRead)
    case Some(Reopens(s)) =>
      if |s.data| < MaxPayload && s.fails then Err(PayloadRead)
      else Ok(Some(s.data[..Min(MaxPayload, |s.data|)]))
  }

  /** The payload is the body's first 256 bytes, or the whole body when shorter;
      a read error after the first 256 bytes is never seen. */
  lemma PayloadIsPrefix(s: Stream)
    ensures GetPayload(Some(Reopens(s))).Ok? <==> (|s.data| >= MaxPayload || !s.fails)
    ensures GetPayload(Some(Reopens(s))).Ok? ==>
      var p := GetPayload(Some(Reopens(s))).value.value;
      p <= s.data && |p| == Min(MaxPayload, |s.data|)
  {
  }

  /** Bodies that agree on their first 256 bytes (and read cleanly that far) give the same payload. */
  lemma PayloadAgreesOnPrefix(s1: Stream, s2: Stream)
    requires |s1.data| >= MaxPayload && |s2.data| >= MaxPayload
    requires s1.data[..MaxPayload] == s2.data[..MaxPayload]
    ensures GetPayload(Some(Reopens(s1))) == GetPayload(Some(Reopens(s2)))
    ensures GetPayload(Some(Reopens(s1))).Ok?
  {
  }

  /** newCreq. */
  function NewCreq(req: Request): (r: Result<CReq>)
    ensures r.Ok? <==> GetPayload(req.getBody).Ok?
    ensures r.Ok? ==> r.value == CReq(req.verb, req.url, GetPayload(req.getBody).value)
  {
    match GetPayload(req.getBody)
    case Ok(p) => Ok(CReq(req.verb, req.url, p))
    case Err(e) => Err(e)
  }

  function PayloadBytes(p: Option<Bytes>): Bytes
  {
    if p.Some? then p.value else []
  }

  /** Stand-in for md5.Sum (RFC 1321): some deterministic 16-byte function of its
      input. The model relies on nothing else about it; the MD5 rounds are not modelled. */
  function Digest(data: Bytes): (d: Bytes)
    ensures |d| == 16
  {
    var zero: Byte := 0;
    Fold(seq(16, _ => zero), data, 0)
  }

  function Fold(acc: Bytes, data: Bytes, k: nat): (d: Bytes)
    requires |acc| == 16
    ensures |d| == 16
    decreases |data|
  {
    if data == [] then acc
    else
      var j := k % 16;
      var b: Byte := (acc[j] as int * 31 + data[0] as int + 1) % 256;
      Fold(acc[j := b], data[1..], k + 1)
  }

  /** cReq.ident: hex(md5(Method ++ Url ++ Payload)). */
  function Ident(q: CReq): (id: Str)
    ensures |id| == 32
    ensures forall i :: 0 <= i < |id| ==> Numerals.IsLowerHex(id[i])
  {
    Numerals.HexEncode(Digest(q.verb + q.url + PayloadBytes(q.payload)))
  }

  /** A nil payload and an empty one give the same fingerprint. */
  lemma IdentNilIsEmpty(verb: Str, url: Str)
    ensures Ident(CReq(verb, url, None)) == Ident(CReq(verb, url, Some([])))
  {
    assert verb + url + PayloadBytes(None) == verb + url + PayloadBytes(Some([]));
  }

  /** The fingerprint depends on the request only through Method ++ Url ++ Payload;
      distinct digests give distinct fingerprints. */
  lemma IdentOfConcatenation(q1: CReq, q2: CReq)
    ensures q1.verb + q1.url + PayloadBytes(q1.payload) == q2.verb + q2.url + PayloadBytes(q2.payload)
      ==> Ident(q1) == Ident(q2)
    ensures Ident(q1) == Ident(q2) ==>
      Digest(q1.verb + q1.url + PayloadBytes(q1.payload)) == Digest(q2.verb + q2.url + PayloadBytes(q2.payload))
  {
    var d1 := Digest(q1.verb + q1.url + PayloadBytes(q1.payload));
    var d2 := Digest(q2.verb + q2.url + PayloadBytes(q2.payload));
    if d1 != d2 {
      Numerals.HexInjective(d1, d2);
    }
  }

  /** Tx.NewFile: the entry of req inside the transaction directory dir. */
  function NewFile(dir: Path, req: Request): (r: Result<File>)
    ensures r.Ok? <==> NewCreq(req).Ok?
    ensures r.Ok? ==> r.value.creq == NewCreq(req).value
    ensures r.Ok? ==> r.value.pathname == Join(dir, Ident(r.value.creq))
    ensures r.Err? ==> r.error == PayloadRead
  {
    match NewCreq(req)
    case Ok(creq) => Ok(File(creq, Join(dir, Ident(creq))))
    case Err(e) => Err(e)
  }

  /** Requests that agree on method, URL and the first 256 bytes of their bodies
      share one entry file (the accepted fingerprint collision). */
  lemma SamePrefixSameEntry(dir: Path, r1: Request, r2: Request, s1: Stream, s2: Stream)
    requires r1.verb == r2.verb && r1.url == r2.url
    requires r1.getBody == Some(Reopens(s1)) && r2.getBody == Some(Reopens(s2))
    requires |s1.data| >= MaxPayload && |s2.data| >= MaxPayload
    requires s1.data[..MaxPayload] == s2.data[..MaxPayload]
    ensures NewFile(dir, r1).Ok? && NewFile(dir, r1) == NewFile(dir, r2)
  {
    PayloadAgreesOnPrefix(s1, s2);
  }

  // ---------------------------------------------------------------- descriptors

  /** newCres: the nine descriptor fields of a response; newResponse rebuilds the
      response from them, lacking only its body and its request. */
  function NewCres(resp: Response): (cs: CRes)
    ensures NewResponse(cs) == resp.(body := None, request := None)
  {
    CRes(resp.status, resp.statusCode, resp.proto, resp.protoMajor, resp.protoMinor,
         resp.header, resp.contentLength, resp.transferEncoding, resp.uncompressed)
  }

  /** cRes.newResponse: a response carrying the nine fields, with no body and no request yet. */
  function NewResponse(cs: CRes): (resp: Response)
    ensures resp.body.None? && resp.request.None?
  {
    Response(cs.status, cs.statusCode, cs.proto, cs.protoMajor, cs.protoMinor,
             cs.header, cs.contentLength, cs.transferEncoding, cs.uncompressed, None, None)
  }

  /** newCres and newResponse are inverse field copies: nothing is lost either way. */
  lemma DescriptorRoundTrip(cs: CRes, resp: Response)
    ensures NewCres(NewResponse(cs)) == cs
    ensures NewResponse(NewCres(resp)) == resp.(body := None, request := None)
  {
  }

  // ---------------------------------------------------------------- descriptor encoding

  // The member names of cReq and cRes, as encoding/json writes the Go field names.
  const MethodName: Str := [77, 101, 116, 104, 111, 100]  // Method
  const UrlName: Str := [85, 114, 108]  // Url
  const PayloadName: Str := [80, 97, 121, 108, 111, 97, 100]  // Payload
  const StatusName: Str := [83, 116, 97, 116, 117, 115]  // Status
  const StatusCodeName: Str := [83, 116, 97, 116, 117, 115, 67, 111, 100, 101]  // StatusCode
  const ProtoName: Str := [80, 114, 111, 116, 111]  // Proto
  const ProtoMajorName: Str := [80, 114, 111, 116, 111, 77, 97, 106, 111, 114]  // ProtoMajor
  const ProtoMinorName: Str := [80, 114, 111, 116, 111, 77, 105, 110, 111, 114]  // ProtoMinor
  const HeaderName: Str := [72, 101, 97, 100, 101, 114]  // Header
  const ContentLengthName: Str := [67, 111, 110, 116, 101, 110, 116, 76, 101, 110, 103, 116, 104]  // ContentLength
  const TransferEncodingName: Str := [84, 114, 97, 110, 115, 102, 101, 114, 69, 110, 99, 111, 100, 105, 110, 103]  // TransferEncoding
  const UncompressedName: Str := [85, 110, 99, 111, 109, 112, 114, 101, 115, 115, 101, 100]  // Uncompressed

  const CReqKeys: seq<Str> := [MethodName, UrlName, PayloadName]
  const CReqKinds: seq<Kind> := [TextKind, TextKind, MaybeTextKind]

  function CReqValues(q: CReq): seq<Value>
  {
    [Text(q.verb), Text(q.url), MaybeText(q.payload)]
  }

  /** The request descriptor as json.Encoder writes it (a nil Payload is null). */
  function EncodeCReq(q: CReq): Bytes
  {
    EncodeObject(CReqKeys, CReqValues(q))
  }

  function DecodeCReq(t: Bytes): Option<(CReq, Bytes)>
  {
    var p :- DecodeObject(CReqKeys, CReqKinds, t);
    var vs := p.0;
    if |vs| == 3 && vs[0].Text? && vs[1].Text? && vs[2].MaybeText? then
      Some((CReq(vs[0].s, vs[1].s, vs[2].p), p.1))
    else None
  }

  /** The request descriptor is self-delimiting: it decodes back whatever follows it. */
  lemma CReqRoundTrip(q: CReq, rest: Bytes)
    ensures DecodeCReq(EncodeCReq(q) + rest) == Some((q, rest))
  {
    assert KindsOf(CReqValues(q)) == CReqKinds;
    ObjectRoundTrip(CReqKeys, CReqValues(q), rest);
  }

  const CResKeys: seq<Str> := [
    StatusName, StatusCodeName, ProtoName, ProtoMajorName, ProtoMinorName,
    HeaderName, ContentLengthName, TransferEncodingName, UncompressedName]
  const CResKinds: seq<Kind> := [
    TextKind, NumberKind, TextKind, NumberKind, NumberKind,
    FieldsKind, NumberKind, TextsKind, FlagKind]

  function CResValues(c: CRes): seq<Value>
  {
    [Text(c.status), Number(c.statusCode), Text(c.proto), Number(c.protoMajor), Number(c.protoMinor),
     Fields(c.header), Number(c.contentLength), Texts(c.transferEncoding), Flag(c.uncompressed)]
  }

  /** The response descriptor as json.Encoder writes it. */
  function EncodeCRes(c: CRes): Bytes
  {
    EncodeObject(CResKeys, CResValues(c))
  }

  predicate IsCResShape(vs: seq<Value>)
  {
    && |vs| == 9 && vs[0].Text? && vs[1].Number? && vs[2].Text? && vs[3].Number? && vs[4].Number?
    && vs[5].Fields? && vs[6].Number? && vs[7].Texts? && vs[8].Flag?
  }

  function DecodeCRes(t: Bytes): Option<(CRes, Bytes)>
  {
    var p :- DecodeObject(CResKeys, CResKinds, t);
    var vs := p.0;
    if IsCResShape(vs) then
      Some((CRes(vs[0].s, vs[1].n, vs[2].s, vs[3].n, vs[4].n, vs[5].h, vs[6].n, vs[7].ss, vs[8].b), p.1))
    else None
  }

  /** The response descriptor is self-delimiting: it decodes back whatever follows it. */
  lemma CResRoundTrip(c: CRes, rest: Bytes)
    ensures DecodeCRes(EncodeCRes(c) + rest) == Some((c, rest))
  {
    CResKindsOf(c);
    ObjectRoundTrip(CResKeys, CResValues(c), rest);
  }

  lemma CResKindsOf(c: CRes)
    ensures KindsOf(CResValues(c)) == CResKinds
    ensures IsCResShape(CResValues(c))
  {
  }

  // ---------------------------------------------------------------- entry files

  /** What Store writes: json.Encoder ends each descriptor with a newline; the raw body follows. */
  function EntryBytes(q: CReq, c: CRes, body: Bytes): Bytes
  {
    EncodeCReq(q) + [Newline] + EncodeCRes(c) + [Newline] + body
  }

  /** What Load makes of an entry file. json.Decoder skips blanks before each value;
      the body starts one byte past the end of the response descriptor (the Seek to
      InputOffset()+1), whatever that byte is, and is empty if the file ends there. */
  function ParseEntry(data: Bytes): (r: Option<(CReq, CRes, Bytes)>)
    ensures r.Some? ==> IsTail(r.value.2, data)
  {
    var q :- DecodeCReq(SkipBlanks(data));
    var c :- DecodeCRes(SkipBlanks(q.1));
    var body := if c.1 == [] then [] else c.1[1..];
    BodyTail(data, q, c);
    Some((q.0, c.0, body))
  }

  /** Whatever follows a decoded descriptor is a tail of the input it was decoded from. */
  lemma DescriptorTails(t: Bytes)
    ensures DecodeCReq(t).Some? ==> IsTail(DecodeCReq(t).value.1, t)
    ensures DecodeCRes(t).Some? ==> IsTail(DecodeCRes(t).value.1, t)
  {
    ObjectTail(CReqKeys, CReqKinds, t);
    ObjectTail(CResKeys, CResKinds, t);
  }

  /** The body Load reads, one byte past the response descriptor, is a tail of the file. */
  lemma BodyTail(data: Bytes, q: (CReq, Bytes), c: (CRes, Bytes))
    requires DecodeCReq(SkipBlanks(data)) == Some(q)
    requires DecodeCRes(SkipBlanks(q.1)) == Some(c)
    ensures IsTail(if c.1 == [] then [] else c.1[1..], data)
  {
    DescriptorTails(SkipBlanks(data));
    DescriptorTails(SkipBlanks(q.1));
    TailOfTail(q.1, SkipBlanks(data), data);
    TailOfTail(SkipBlanks(q.1), q.1, data);
    TailOfTail(c.1, SkipBlanks(q.1), data);
    if c.1 != [] {
      TailOfTail(c.1[1..], c.1, data);
    }
  }

  lemma ParseEntryOf(t: Bytes, q: CReq, r1: Bytes, c: CRes, r2: Bytes)
    requires DecodeCReq(SkipBlanks(t)) == Some((q, r1))
    requires DecodeCRes(SkipBlanks(r1)) == Some((c, r2))
    ensures ParseEntry(t) == Some((q, c, if r2 == [] then [] else r2[1..]))
  {
  }

  lemma SkipNewline(x: Bytes)
    requires |x| >= 1 && x[0] == OpenBrace
    ensures SkipBlanks([Newline] + x) == x
  {
    assert ([Newline] + x)[1..] == x;
  }

  lemma EntryBytesSplit(eq: Bytes, ec: Bytes, body: Bytes)
    ensures eq + [Newline] + ec + [Newline] + body == eq + ([Newline] + (ec + ([Newline] + body)))
  {
    var a, r2 := eq + [Newline], [Newline] + body;
    assert a + ec + [Newline] + body == (a + ec) + r2 by { Assoc(a + ec, [Newline], body); }
    assert (a + ec) + r2 == a + (ec + r2) by { Assoc(a, ec, r2); }
    assert a + (ec + r2) == eq + ([Newline] + (ec + r2)) by { Assoc(eq, [Newline], ec + r2); }
  }

  /** An entry file gives back the descriptors and the body it was written from. */
  lemma EntryRoundTrip(q: CReq, c: CRes, body: Bytes)
    ensures ParseEntry(EntryBytes(q, c, body)) == Some((q, c, body))
  {
    var eq, ec := EncodeCReq(q), EncodeCRes(c);
    var r2 := [Newline] + body;
    var r1 := [Newline] + (ec + r2);
    var t := EntryBytes(q, c, body);
    assert t == eq + r1 by { EntryBytesSplit(eq, ec, body); }
    assert SkipBlanks(t) == t by { assert t[0] == eq[0] == OpenBrace; }
    CReqRoundTrip(q, r1);
    SkipNewline(ec + r2);
    CResRoundTrip(c, r2);
    ParseEntryOf(t, q, r1, c, r2);
    assert r2[1..] == body;
  }

  /** File.IsExists: os.Stat finds the entry (a directory there counts too). An entry
      that Load can read exists, and one that does not exist reads as not-exist unless
      its path is broken. */
  predicate IsExists(fs: FileSystem, f: File): (b: bool)
    reads fs
    ensures fs.Read(f.pathname).Ok? ==> b
    ensures !b && f.pathname !in fs.broken ==> fs.Read(f.pathname) == Err(NotExist(f.pathname))
    ensures b ==> f.pathname in fs.nodes
  {
    fs.Exists(f.pathname)
  }

  /** The response Load hands back for a parsed entry: the stored descriptor's fields,
      the stored request's method and URL, and a body that reads the remaining bytes. */
  function LoadedResponse(q: CReq, c: CRes, body: Bytes): (resp: Response)
    ensures NewCres(resp) == c
    ensures resp.body == Some(Stream(body, false))
    ensures resp.request == Some(RequestLine(q.verb, q.url))
  {
    NewResponse(c).(body := Some(Stream(body, false)), request := Some(RequestLine(q.verb, q.url)))
  }

  /** File.Load: an open error is returned as is; an entry that does not parse is Malformed. */
  function Load(fs: FileSystem, f: File): (r: Result<Response>)
    reads fs
    ensures fs.Read(f.pathname).Err? ==> r == Err(fs.Read(f.pathname).error)
    ensures fs.Read(f.pathname).Ok? && ParseEntry(fs.Read(f.pathname).value).None? ==>
      r == Err(Malformed(f.pathname))
    ensures r.Ok? <==> fs.Read(f.pathname).Ok? && ParseEntry(fs.Read(f.pathname).value).Some?
  {
    match fs.Read(f.pathname)
    case Err(e) => Err(e)
    case Ok(data) =>
      match ParseEntry(data)
      case None => Err(Malformed(f.pathname))
      case Some(e) => Ok(LoadedResponse(e.0, e.1, e.2))
  }

  /** File.Store: creates the entry file, writes both descriptors, then copies the body.
      A body that fails part way leaves the bytes read so far in the file and returns BodyRead. */
  method Store(fs: FileSystem, f: File, resp: Response) returns (o: Outcome)
    requires resp.body.Some?
    modifies fs
    ensures !old(fs.CanCreate(f.pathname)) ==> o == Fail(old(fs.CreateError(f.pathname))) && fs.nodes == old(fs.nodes)
    ensures old(fs.CanCreate(f.pathname)) ==>
      && fs.nodes == old(fs.nodes)[f.pathname := Regular(EntryBytes(f.creq, NewCres(resp), resp.body.value.data))]
      && o == (if resp.body.value.fails then Fail(BodyRead) else Pass)
  {
    var written := fs.WriteFile(f.pathname, EntryBytes(f.creq, NewCres(resp), resp.body.value.data));
    if written.Fail? {
      return written;
    }
    o := if resp.body.value.fails then Fail(BodyRead) else Pass;
  }

  /** Store then Load: the loaded response carries the nine stored fields, the stored
      request's method and URL, and exactly the body bytes. */
  lemma LoadAfterStore(fs: FileSystem, f: File, resp: Response)
    requires resp.body.Some? && f.pathname !in fs.broken
    requires f.pathname in fs.nodes
    requires fs.nodes[f.pathname] == Regular(EntryBytes(f.creq, NewCres(resp), resp.body.value.data))
    ensures Load(fs, f) == Ok(resp.(body := Some(Stream(resp.body.value.data, false)),
                                    request := Some(RequestLine(f.creq.verb, f.creq.url))))
    ensures IsExists(fs, f)
  {
    EntryRoundTrip(f.creq, NewCres(resp), resp.body.value.data);
    DescriptorRoundTrip(NewCres(resp), resp);
  }
}
