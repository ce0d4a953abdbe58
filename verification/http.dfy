/** Building requests and classifying answers (base_impl.go): `genReq`,
    `sendHttp`, `head`, `getFileSize` and `Ping`.

    The transport is not modelled: what it answers to a request is a
    `Reply` given as a parameter. A request is the record of what the
    client would put on the wire. */
module Http {
  import opened Text
  import opened Outcomes
  import Paths
  import UrlEncoding
  import Signing

  /** What the transport returned for one request. */
  datatype Reply =
    | TransportFailed(error: Error)
      // the client returned neither an error nor a response
    | NoResponse
    | Response(status: int, contentLength: int, header: seq<Signing.Entry>, body: Bytes)

  /** A 2xx answer, the only kind `sendHttp` hands back. */
  datatype Answer = Answer(contentLength: int, header: seq<Signing.Entry>, body: Bytes)

  predicate IsSuccess(status: int) { 200 <= status < 300 }

  const StatusNotFound: int := 404

  /** `sendHttp`: a transport error is passed through; a missing response,
      a 404 and any other non-2xx status become errors, the last one
      carrying the status, method, path and body. */
  function SendHttp(verb: Bytes, path: Bytes, reply: Reply): (r: Result<Answer>)
    ensures r.Ok? <==> reply.Response? && IsSuccess(reply.status)
    ensures r.Ok? ==> r.value == Answer(reply.contentLength, reply.header, reply.body)
    ensures reply.TransportFailed? ==> r == Err(reply.error)
    ensures reply.NoResponse? ==> r == Err(NilResponse)
    ensures reply.Response? && reply.status == StatusNotFound ==> r == Err(NotExists)
    ensures reply.Response? && !IsSuccess(reply.status) && reply.status != StatusNotFound ==>
              r == Err(BadStatus(reply.status, verb, path, reply.body))
  {
    match reply
    case TransportFailed(e) => Err(e)
    case NoResponse => Err(NilResponse)
    case Response(status, length, header, body) =>
      if IsSuccess(status) then Ok(Answer(length, header, body))
      else if status == StatusNotFound then Err(NotExists)
      else Err(BadStatus(status, verb, path, body))
  }

  /** Every error `sendHttp` makes itself is one of its three kinds, and
      `ErrNotExists` arises from a 404 answer and from nothing else the
      client makes. */
  lemma SendHttpErrors(verb: Bytes, path: Bytes, reply: Reply)
    requires !reply.TransportFailed? && SendHttp(verb, path, reply).Err?
    ensures var e := SendHttp(verb, path, reply).error;
            e.NilResponse? || e.NotExists? || e.BadStatus?
    ensures SendHttp(verb, path, reply).error == NotExists <==> reply.Response? && reply.status == StatusNotFound
  {
  }

  // ---------------------------------------------------------------------------
  // Composing a request

  const HostHeader: Bytes := "Host"
  const ContentLengthHeader: Bytes := "Content-Length"
  const AuthorizationHeader: Bytes := "Authorization"

  /** `AuthExpirationTime`, ten minutes in nanoseconds. */
  const AuthExpirationNanos: int := 10 * 60 * 1_000_000_000

  /** The parts of a client that a request depends on. */
  datatype Client = Client(host: Bytes, signer: Signing.Signer)

  datatype Request = Request(verb: Bytes, path: Bytes, query: seq<Signing.Entry>,
                             header: seq<Signing.Entry>, body: Bytes, contentLength: int)

  /** The header set that is signed: the caller's headers with `Host`, and
      `Content-Length` when there is a body. */
  function SignedHeader(c: Client, header: seq<Signing.Entry>, contentLength: int): seq<Signing.Entry>
  {
    var withHost := Signing.SetValue(header, HostHeader, c.host);
    if contentLength > 0 then Signing.SetValue(withHost, ContentLengthHeader, Itoa(contentLength))
    else withHost
  }

  /** The URL path of a request: the id with its leading slashes removed,
      after a single '/'. */
  function RequestPath(fileId: Bytes): Bytes
  {
    "/" + TrimLeft(fileId, '/')
  }

  /** `genReq`. */
  function GenReq(c: Client, verb: Bytes, fileId: Bytes, query: seq<Signing.Entry>,
                  header: seq<Signing.Entry>, content: Bytes): Request
  {
    var signed := SignedHeader(c, header, |content|);
    var auth := Signing.GenerateAuthorization(c.signer, fileId, verb, query, signed, AuthExpirationNanos);
    Request(verb, RequestPath(fileId), query, Signing.SetValue(signed, AuthorizationHeader, auth),
            content, |content|)
  }

  /** `genReqForReader`: as `genReq`, with the length given by the caller
      in place of a body's; the body is the caller's reader, which is not
      modelled. */
  function GenReqForReader(c: Client, verb: Bytes, fileId: Bytes, query: seq<Signing.Entry>,
                           header: seq<Signing.Entry>, contentLength: int): Request
  {
    var signed := SignedHeader(c, header, contentLength);
    var auth := Signing.GenerateAuthorization(c.signer, fileId, verb, query, signed, AuthExpirationNanos);
    Request(verb, RequestPath(fileId), query, Signing.SetValue(signed, AuthorizationHeader, auth),
            [], contentLength)
  }

  /** `genReq` sets `Host`, and `Content-Length` for a non-empty body,
      before it signs, so both are in the signed header list. */
  lemma SignedHeaderKeys(c: Client, header: seq<Signing.Entry>, contentLength: int)
    ensures var signed := SignedHeader(c, header, contentLength);
            && Signing.CanonicalKey(HostHeader) in Signing.KeyList(signed)
            && (contentLength > 0 ==> Signing.CanonicalKey(ContentLengthHeader) in Signing.KeyList(signed))
  {
    var signed := SignedHeader(c, header, contentLength);
    assert Signing.Entry(HostHeader, [c.host]) in signed;
    Signing.KeyListHas(signed, Signing.Entry(HostHeader, [c.host]));
    if contentLength > 0 {
      Signing.KeyListHas(signed, Signing.Entry(ContentLengthHeader, [Itoa(contentLength)]));
    }
  }

  /** The request carries the signed headers and the authorization made
      over them, and nothing else; its path is the id after a single '/'. */
  lemma GenReqShape(c: Client, verb: Bytes, fileId: Bytes, query: seq<Signing.Entry>,
                    header: seq<Signing.Entry>, content: Bytes)
    ensures var req := GenReq(c, verb, fileId, query, header, content);
            var signed := SignedHeader(c, header, |content|);
            && Signing.Entry(AuthorizationHeader,
                 [Signing.GenerateAuthorization(c.signer, fileId, verb, query, signed, AuthExpirationNanos)])
               in req.header
            && (forall e :: e in req.header && e.key != AuthorizationHeader ==> e in signed)
            && req.path[0] == '/' && (|req.path| > 1 ==> req.path[1] != '/')
            && req.contentLength == |req.body| == |content|
  {
    TrimLeftShape(fileId, '/');
  }

  /** For an in-memory body, building the request for a reader of the same
      length gives the same request but for the body itself. */
  lemma ForReaderAgrees(c: Client, verb: Bytes, fileId: Bytes, query: seq<Signing.Entry>,
                        header: seq<Signing.Entry>, content: Bytes)
    ensures GenReqForReader(c, verb, fileId, query, header, |content|)
              == GenReq(c, verb, fileId, query, header, content).(body := [])
  {
  }

  // ---------------------------------------------------------------------------
  // HEAD, size probe, ping

  /** `http.Header.Get`: the first value of the entry with the key, or ""
      when there is none. Go canonicalises the key it is asked for and the
      transport stores canonical keys; here both sides are written in the
      canonical form already, so keys are compared as written. */
  function HeaderGet(header: seq<Signing.Entry>, key: Bytes): (r: Bytes)
    ensures (forall i :: 0 <= i < |header| ==> header[i].key != key) ==> r == []
    ensures r != [] ==> exists i :: 0 <= i < |header| && header[i].key == key
                                 && |header[i].values| > 0 && r == header[i].values[0]
    ensures forall i :: (0 <= i < |header| && header[i].key == key && |header[i].values| > 0
                         && forall j :: 0 <= j < i ==> header[j].key != key) ==> r == header[i].values[0]
  {
    if |header| == 0 then []
    else if header[0].key == key then (if |header[0].values| > 0 then header[0].values[0] else [])
    else HeaderGet(header[1..], key)
  }

  /** `head`: a HEAD request for the id, classified by `sendHttp`. */
  function Head(fileId: Bytes, reply: Reply): Result<Answer>
  {
    SendHttp("HEAD", RequestPath(fileId), reply)
  }

  /** `getFileSize`: the response's length when positive, otherwise the
      `Content-Length` header parsed as a base-10 int64, whose failure is
      ignored. */
  function GetFileSize(fileId: Bytes, reply: Reply): (r: Result<int>)
    ensures r.Err? <==> Head(fileId, reply).Err?
    ensures r.Err? ==> r.error == Head(fileId, reply).error
    ensures r.Ok? ==> MinInt64 <= r.value <= MaxInt64 || r.value == reply.contentLength
    ensures reply.Response? && IsSuccess(reply.status) && reply.contentLength > 0 ==>
              r == Ok(reply.contentLength)
  {
    var a :- Head(fileId, reply);
    if a.contentLength > 0 then Ok(a.contentLength)
    else Ok(ParseInt(HeaderGet(a.header, ContentLengthHeader)).Lossy())
  }

  /** The fallback recovers any int64 the header carries in decimal, and
      a missing or unparsable header gives 0. */
  lemma GetFileSizeFallback(fileId: Bytes, length: int, header: seq<Signing.Entry>, body: Bytes)
    requires length <= 0
    ensures forall n :: MinInt64 <= n <= MaxInt64 && HeaderGet(header, ContentLengthHeader) == Itoa(n) ==>
              GetFileSize(fileId, Response(200, length, header, body)) == Ok(n)
    ensures HeaderGet(header, ContentLengthHeader) == [] ==>
              GetFileSize(fileId, Response(200, length, header, body)) == Ok(0)
    ensures ParseInt(HeaderGet(header, ContentLengthHeader)).SyntaxError? ==>
              GetFileSize(fileId, Response(200, length, header, body)) == Ok(0)
  {
    forall n | MinInt64 <= n <= MaxInt64 && HeaderGet(header, ContentLengthHeader) == Itoa(n)
      ensures GetFileSize(fileId, Response(200, length, header, body)) == Ok(n)
    {
      ParseItoa(n);
    }
  }

  /** `Ping`: a HEAD of "ping"; a 404 counts as success. */
  function Ping(reply: Reply): (r: Outcome)
  {
    match Head("ping", reply)
    case Ok(_) => Pass
    case Err(e) => if e == NotExists then Pass else Fail(e)
  }

  /** Ping succeeds exactly when the service answered 2xx or 404, and
      otherwise reports the error the request produced. */
  lemma PingCases(reply: Reply)
    ensures Ping(reply).Pass? <==>
              (reply.Response? && (IsSuccess(reply.status) || reply.status == StatusNotFound))
              || reply == TransportFailed(NotExists)
    ensures Ping(reply).Fail? ==> Ping(reply).error == Head("ping", reply).error
  {
  }
}
