/** Querying objects (query_impl.go): `Info` and `Exist` over the HEAD
    request, and `ListFiles`, which lists a directory by prefix.

    Times (`Last-Modified`, `Expires`, the listing's `LastModified`) are not
    modelled; the XML decoding of a listing is given in an `Exchange`. */
module Query {
  import opened Text
  import opened Outcomes
  import Paths
  import Signing
  import Http
  import MultipartParts

  // ---------------------------------------------------------------------------
  // Info and Exist

  /** The header keys `Info` reads, in the canonical MIME form that
      `http.Header.Get` turns its argument into before the lookup. */
  const EtagHeader: Bytes := "Etag"
  const Crc64Header: Bytes := "X-Cos-Hash-Crc64ecma"

  /** The parts of `FileInfo` the model keeps. */
  datatype FileInfo = FileInfo(size: int, entityTag: Bytes, crc64: Bytes)

  /** `Info`: HEAD the normalised id; its errors, `ErrNotExists` included,
      are the call's. The size is the `Content-Length` header parsed as an
      int64 with the parse error ignored; tag and checksum are copied from
      their headers. */
  function Info(fileId: Bytes, reply: Http.Reply): (r: Result<FileInfo>)
    ensures Paths.SuitFileId(fileId) == [] ==> r == Err(InvalidFileId)
    ensures Paths.SuitFileId(fileId) != [] ==>
              (r.Err? <==> Http.Head(Paths.SuitFileId(fileId), reply).Err?)
    ensures Paths.SuitFileId(fileId) != [] && r.Err? ==> r.error == Http.Head(Paths.SuitFileId(fileId), reply).error
    ensures r.Ok? ==> && MinInt64 <= r.value.size <= MaxInt64
                      && r.value.entityTag == Http.HeaderGet(reply.header, EtagHeader)
                      && r.value.crc64 == Http.HeaderGet(reply.header, Crc64Header)
  {
    var id := Paths.SuitFileId(fileId);
    if id == [] then Err(InvalidFileId)
    else
      var a :- Http.Head(id, reply);
      var size := ParseInt(Http.HeaderGet(a.header, Http.ContentLengthHeader)).Lossy();
      Ok(FileInfo(size, Http.HeaderGet(a.header, EtagHeader), Http.HeaderGet(a.header, Crc64Header)))
  }

  /** The size `Info` reports is the header's decimal int64, 0 when the
      header is missing or not a number, and the int64 bound the header
      overflows past. */
  lemma InfoSize(fileId: Bytes, header: seq<Signing.Entry>, length: int, body: Bytes)
    requires Paths.SuitFileId(fileId) != []
    ensures forall n :: MinInt64 <= n <= MaxInt64 && Http.HeaderGet(header, Http.ContentLengthHeader) == Itoa(n) ==>
              Info(fileId, Http.Response(200, length, header, body)).value.size == n
    ensures Http.HeaderGet(header, Http.ContentLengthHeader) == [] ==>
              Info(fileId, Http.Response(200, length, header, body)).value.size == 0
    ensures ParseInt(Http.HeaderGet(header, Http.ContentLengthHeader)).SyntaxError? ==>
              Info(fileId, Http.Response(200, length, header, body)).value.size == 0
    ensures ParseInt(Http.HeaderGet(header, Http.ContentLengthHeader)).RangeError? ==>
              var size := Info(fileId, Http.Response(200, length, header, body)).value.size;
              size == MinInt64 || size == MaxInt64
  {
    forall n | MinInt64 <= n <= MaxInt64 && Http.HeaderGet(header, Http.ContentLengthHeader) == Itoa(n)
      ensures Info(fileId, Http.Response(200, length, header, body)).value.size == n
    {
      ParseItoa(n);
    }
  }

  /** `Exist`: true on a 2xx HEAD, false on `ErrNotExists`, and any other
      error returned (with false). */
  function Exist(fileId: Bytes, reply: Http.Reply): (r: Result<bool>)
    ensures Paths.SuitFileId(fileId) == [] ==> r == Err(InvalidFileId)
    ensures Paths.SuitFileId(fileId) != [] ==>
              && (r == Ok(true) <==> Http.Head(Paths.SuitFileId(fileId), reply).Ok?)
              && (r == Ok(false) <==> Http.Head(Paths.SuitFileId(fileId), reply) == Err(NotExists))
    ensures r.Err? ==> r.error != NotExists
  {
    var id := Paths.SuitFileId(fileId);
    if id == [] then Err(InvalidFileId)
    else match Http.Head(id, reply)
      case Ok(_) => Ok(true)
      case Err(e) => if e == NotExists then Ok(false) else Err(e)
  }

  /** `Exist` and `Info` agree: an object exists exactly when its info can
      be read, it is absent exactly when `Info` fails with
      `ErrNotExists`, and otherwise both fail alike. */
  lemma ExistMatchesInfo(fileId: Bytes, reply: Http.Reply)
    ensures Exist(fileId, reply) == Ok(true) <==> Info(fileId, reply).Ok?
    ensures Exist(fileId, reply) == Ok(false) <==> Info(fileId, reply) == Err(NotExists)
    ensures Exist(fileId, reply).Err? <==> Info(fileId, reply).Err? && Info(fileId, reply).error != NotExists
    ensures Exist(fileId, reply).Err? ==> Exist(fileId, reply).error == Info(fileId, reply).error
  {
  }

  // ---------------------------------------------------------------------------
  // ListFiles: the request

  /** `strings.LastIndex(s, string(c))`: the position of the last `c`, or
      -1. */
  function LastIndex(s: Bytes, c: Byte): (r: int)
    ensures -1 <= r < |s|
    ensures r == -1 <==> c !in s
    ensures r >= 0 ==> s[r] == c && c !in s[r + 1..]
  {
    if |s| == 0 then -1
    else if s[|s| - 1] == c then |s| - 1
    else
      var r := LastIndex(s[..|s| - 1], c);
      assert s == s[..|s| - 1] + [s[|s| - 1]];
      r
  }

  /** The listed prefix: dir and name prefix cleaned, any directory part of
      the name prefix (up to its last '/') moved onto the directory, and
      the two joined. */
  function ListPrefix(dir: Bytes, namePrefix: Bytes): Bytes
  {
    var d := Paths.Clean(dir);
    var p := Paths.Clean(namePrefix);
    if '/' in p then
      var i := LastIndex(p, '/');
      Paths.JoinPath(Paths.JoinPath(d, p[..i]), p[i..])
    else Paths.JoinPath(d, p)
  }

  /** Moving the name prefix's directory part onto the directory changes
      nothing: the listed prefix is always the cleaned directory joined
      with the cleaned name prefix. */
  lemma ListPrefixJoins(dir: Bytes, namePrefix: Bytes)
    ensures ListPrefix(dir, namePrefix) == Paths.JoinPath(Paths.Clean(dir), Paths.Clean(namePrefix))
  {
    var d := Paths.Clean(dir);
    var p := Paths.Clean(namePrefix);
    Paths.CleanFirst(dir);
    if '/' in p {
      var i := LastIndex(p, '/');
      assert p[i..] == [p[i]] + p[i + 1..];
      assert p == p[..i] + [p[i]] + p[i + 1..];
      Paths.JoinPathNested(d, p[..i], p[i + 1..]);
    }
  }

  /** A directory and a name prefix that are single names are joined with
      one '/'. */
  lemma ListPrefixNames(dir: Bytes, namePrefix: Bytes)
    requires Paths.IsName(dir) && Paths.IsName(namePrefix)
    ensures ListPrefix(dir, namePrefix) == dir + ['/'] + namePrefix
  {
    Paths.CleanNames([dir]);
    Paths.CleanNames([namePrefix]);
    Paths.CleanNames([dir, namePrefix]);
    assert Text.Join([dir, namePrefix], '/') == dir + ['/'] + namePrefix;
    ListPrefixJoins(dir, namePrefix);
  }

  const PrefixParam: Bytes := "prefix"
  const DelimiterParam: Bytes := "delimiter"
  const MaxKeysParam: Bytes := "max-keys"
  const MarkerParam: Bytes := "marker"

  /** The listing's query parameters. */
  function ListQuery(dir: Bytes, namePrefix: Bytes, offset: Bytes, limit: int): seq<Signing.Entry>
  {
    QueryOf(ListPrefix(dir, namePrefix), offset, limit)
  }

  /** The parameters set in order: prefix, delimiter, then page size and
      marker when given. */
  function QueryOf(prefix: Bytes, offset: Bytes, limit: int): seq<Signing.Entry>
  {
    var q := Signing.SetValue([], PrefixParam, prefix);
    var q := Signing.SetValue(q, DelimiterParam, "/");
    var q := if limit > 0 then Signing.SetValue(q, MaxKeysParam, Itoa(limit)) else q;
    if |offset| > 0 then Signing.SetValue(q, MarkerParam, offset) else q
  }

  /** The names of the listing's parameters. */
  predicate ListParam(key: Bytes)
  {
    key == PrefixParam || key == DelimiterParam || key == MaxKeysParam || key == MarkerParam
  }

  /** Whether a query carries a parameter. */
  predicate Has(q: seq<Signing.Entry>, key: Bytes)
  {
    exists e :: e in q && e.key == key
  }

  /** The query carries the prefix and the '/' delimiter always, the page
      size exactly when the limit is positive, the marker exactly when an
      offset is given, and nothing else. */
  lemma ListQueryShape(dir: Bytes, namePrefix: Bytes, offset: Bytes, limit: int)
    ensures var q := ListQuery(dir, namePrefix, offset, limit);
            && Signing.Entry(PrefixParam, [ListPrefix(dir, namePrefix)]) in q
            && Signing.Entry(DelimiterParam, ["/"]) in q
            && (Has(q, MaxKeysParam) <==> limit > 0)
            && (limit > 0 ==> Signing.Entry(MaxKeysParam, [Itoa(limit)]) in q)
            && (Has(q, MarkerParam) <==> |offset| > 0)
            && (|offset| > 0 ==> Signing.Entry(MarkerParam, [offset]) in q)
            && (forall e :: e in q ==> ListParam(e.key))
  {
    QueryShape(ListPrefix(dir, namePrefix), offset, limit);
  }

  lemma QueryShape(prefix: Bytes, offset: Bytes, limit: int)
    ensures var q := QueryOf(prefix, offset, limit);
            && Signing.Entry(PrefixParam, [prefix]) in q
            && Signing.Entry(DelimiterParam, ["/"]) in q
            && (Has(q, MaxKeysParam) <==> limit > 0)
            && (limit > 0 ==> Signing.Entry(MaxKeysParam, [Itoa(limit)]) in q)
            && (Has(q, MarkerParam) <==> |offset| > 0)
            && (|offset| > 0 ==> Signing.Entry(MarkerParam, [offset]) in q)
            && (forall e :: e in q ==> ListParam(e.key))
  {
    QueryEntries(prefix, offset, limit);
  }

  /** Since the names differ, each parameter is added at the end. */
  lemma QueryEntries(prefix: Bytes, offset: Bytes, limit: int)
    ensures QueryOf(prefix, offset, limit)
         == [Signing.Entry(PrefixParam, [prefix])] + [Signing.Entry(DelimiterParam, ["/"])]
            + (if limit > 0 then [Signing.Entry(MaxKeysParam, [Itoa(limit)])] else [])
            + (if |offset| > 0 then [Signing.Entry(MarkerParam, [offset])] else [])
  {
    ParamsDistinct();
    var q0 := Signing.SetValue([], PrefixParam, prefix);
    assert q0 == [Signing.Entry(PrefixParam, [prefix])];
    Signing.SetValueNew(q0, DelimiterParam, "/");
    var q1 := Signing.SetValue(q0, DelimiterParam, "/");
    var q2 := if limit > 0 then Signing.SetValue(q1, MaxKeysParam, Itoa(limit)) else q1;
    if limit > 0 {
      Signing.SetValueNew(q1, MaxKeysParam, Itoa(limit));
    } else {
      assert q2 == q1 + [];
    }
    if |offset| > 0 {
      Signing.SetValueNew(q2, MarkerParam, offset);
    } else {
      assert QueryOf(prefix, offset, limit) == q2 + [];
    }
  }

  /** The four parameter names differ. */
  lemma ParamsDistinct()
    ensures PrefixParam != DelimiterParam && PrefixParam != MaxKeysParam && PrefixParam != MarkerParam
    ensures DelimiterParam != MaxKeysParam && DelimiterParam != MarkerParam
    ensures MaxKeysParam != MarkerParam
  {
    assert PrefixParam[0] != DelimiterParam[0] && PrefixParam[0] != MaxKeysParam[0];
    assert PrefixParam[0] != MarkerParam[0] && DelimiterParam[0] != MaxKeysParam[0];
    assert DelimiterParam[0] != MarkerParam[0] && MaxKeysParam[2] != MarkerParam[2];
  }

  /** The listing request: a GET of the bucket root with the query. */
  function ListRequest(c: Http.Client, dir: Bytes, namePrefix: Bytes, offset: Bytes, limit: int): Http.Request
  {
    Http.GenReq(c, "GET", "", ListQuery(dir, namePrefix, offset, limit), [], [])
  }

  /** The listing request is a bodiless GET of the bucket root that
      carries the query, signed over it together with the `Host` header. */
  lemma ListRequestShape(c: Http.Client, dir: Bytes, namePrefix: Bytes, offset: Bytes, limit: int)
    ensures var req := ListRequest(c, dir, namePrefix, offset, limit);
            && req.verb == "GET" && req.path == "/" && req.body == [] && req.contentLength == 0
            && req.query == ListQuery(dir, namePrefix, offset, limit)
            && Signing.Entry(Http.AuthorizationHeader,
                 [Signing.GenerateAuthorization(c.signer, "", "GET", req.query,
                    Http.SignedHeader(c, [], 0), Http.AuthExpirationNanos)]) in req.header
  {
    Http.GenReqShape(c, "GET", "", ListQuery(dir, namePrefix, offset, limit), [], []);
    assert TrimLeft([], '/') == [];
  }

  // ---------------------------------------------------------------------------
  // ListFiles: the answer

  /** A `Contents` entry of the answer. */
  datatype Contents = Contents(key: Bytes, size: int, etag: Bytes)

  /** The answer's `ListBucketResult`. */
  datatype BucketPage = BucketPage(nextMarker: Bytes, contents: seq<Contents>)

  /** The parts of `File` the model keeps. */
  datatype File = File(id: Bytes, size: int, entityTag: Bytes)

  datatype Listing = Listing(files: seq<File>, nextOffset: Bytes)

  function ToFile(v: Contents): File
  {
    File(v.key, v.size, v.etag)
  }

  /** `ListFiles`: one request; the first failure among sending, reading
      and decoding is returned, otherwise one file per entry in order and
      the page's next marker. */
  function ListFiles(ex: MultipartParts.Exchange<BucketPage>): (r: Result<Listing>)
    ensures r.Ok? <==> MultipartParts.Fetch("GET", "/", ex).Ok?
    ensures r.Err? ==> r.error == MultipartParts.Fetch("GET", "/", ex).error
    ensures r.Ok? ==> && r.value.nextOffset == ex.decoded.value.nextMarker
                      && |r.value.files| == |ex.decoded.value.contents|
                      && forall i :: 0 <= i < |r.value.files| ==>
                           && r.value.files[i].id == ex.decoded.value.contents[i].key
                           && r.value.files[i].size == ex.decoded.value.contents[i].size
                           && r.value.files[i].entityTag == ex.decoded.value.contents[i].etag
  {
    var page :- MultipartParts.Fetch("GET", "/", ex);
    Ok(Listing(seq(|page.contents|, i requires 0 <= i < |page.contents| => ToFile(page.contents[i])), page.nextMarker))
  }
}
