/** The multipart requests (multi_upload_impl.go): initiating a session,
    uploading a part, listing the uploaded parts page by page, completing
    and aborting.

    What the service answers is given per request as an `Exchange`: the
    transport's reply, whether reading the body succeeded, and what the XML
    decoder made of the body. The request itself is the record `genReq`
    builds. */
module MultipartParts {
  import opened Text
  import opened Outcomes
  import Paths
  import Signing
  import Http
  import Sorting

  /** The service's answer to one request whose body is decoded. */
  datatype Exchange<T> = Exchange(reply: Http.Reply, read: Outcome, decoded: Result<T>)

  /** Send, read the body, decode it: the first failure is the call's. */
  function Fetch<T>(verb: Bytes, path: Bytes, ex: Exchange<T>): (r: Result<T>)
    ensures r.Ok? <==> Http.SendHttp(verb, path, ex.reply).Ok? && ex.read.Pass? && ex.decoded.Ok?
    ensures r.Ok? ==> r.value == ex.decoded.value
    ensures Http.SendHttp(verb, path, ex.reply).Err? ==> r.error == Http.SendHttp(verb, path, ex.reply).error
    ensures Http.SendHttp(verb, path, ex.reply).Ok? && ex.read.Fail? ==> r.error == ex.read.error
  {
    var _ :- Http.SendHttp(verb, path, ex.reply);
    if ex.read.Fail? then Err(ex.read.error) else ex.decoded
  }

  /** A request with no body decoded: success is a 2xx answer. */
  function Send(verb: Bytes, path: Bytes, reply: Http.Reply): (r: Outcome)
    ensures r.Pass? <==> Http.SendHttp(verb, path, reply).Ok?
    ensures r.Fail? ==> r.error == Http.SendHttp(verb, path, reply).error
  {
    match Http.SendHttp(verb, path, reply)
    case Ok(_) => Pass
    case Err(e) => Fail(e)
  }

  function Single(key: Bytes, value: Bytes): seq<Signing.Entry>
  {
    Signing.SetValue([], key, value)
  }

  const UploadsParam: Bytes := "uploads"
  const UploadIdParam: Bytes := "uploadId"
  const PartNumberParam: Bytes := "partNumber"
  const MarkerParam: Bytes := "part-number-marker"

  // ---------------------------------------------------------------------------
  // Initiate

  /** The initiation request: a POST with the `uploads` parameter and an
      explicit zero `Content-Length`. */
  function InitRequest(c: Http.Client, id: Bytes): Http.Request
  {
    Http.GenReq(c, "POST", id, Single(UploadsParam, ""), Single(Http.ContentLengthHeader, "0"), [])
  }

  /** `InitMultiUpload`: the decoded `UploadId` of the answer. */
  function InitMultiUpload(fileId: Bytes, ex: Exchange<Bytes>): (r: Result<Bytes>)
    ensures Paths.SuitFileId(fileId) == [] ==> r == Err(InvalidFileId)
    ensures Paths.SuitFileId(fileId) != [] ==>
              r == Fetch("POST", Http.RequestPath(Paths.SuitFileId(fileId)), ex)
  {
    var id := Paths.SuitFileId(fileId);
    if id == [] then Err(InvalidFileId)
    else Fetch("POST", Http.RequestPath(id), ex)
  }

  /** The initiation request signs its `uploads` parameter and its zero
      `Content-Length`, although it has no body. */
  lemma InitRequestSigned(c: Http.Client, id: Bytes)
    ensures var req := InitRequest(c, id);
            && Signing.Entry(UploadsParam, [""]) in req.query
            && req.contentLength == 0
            && Signing.CanonicalKey(Http.ContentLengthHeader)
                 in Signing.KeyList(Http.SignedHeader(c, Single(Http.ContentLengthHeader, "0"), 0))
  {
    var signed := Http.SignedHeader(c, Single(Http.ContentLengthHeader, "0"), 0);
    var e := Signing.Entry(Http.ContentLengthHeader, ["0"]);
    assert e in Single(Http.ContentLengthHeader, "0");
    assert e in signed by {
      assert e.key != Http.HostHeader;
    }
    Signing.KeyListHas(signed, e);
  }

  // ---------------------------------------------------------------------------
  // Upload a part

  /** The query of `UploadPart`: the part number in decimal and the upload
      id. `UploadPartByReader` sets the two in the other order. */
  function PartQuery(uploadId: Bytes, partNumber: int): seq<Signing.Entry>
  {
    Signing.SetValue(Single(PartNumberParam, Itoa(partNumber)), UploadIdParam, uploadId)
  }

  function PartQueryByReader(uploadId: Bytes, partNumber: int): seq<Signing.Entry>
  {
    Signing.SetValue(Single(UploadIdParam, uploadId), PartNumberParam, Itoa(partNumber))
  }

  function PartRequest(c: Http.Client, id: Bytes, uploadId: Bytes, partNumber: int, body: Bytes): Http.Request
  {
    Http.GenReq(c, "PUT", id, PartQuery(uploadId, partNumber), [], body)
  }

  function PartRequestByReader(c: Http.Client, id: Bytes, uploadId: Bytes, partNumber: int,
                               contentLength: int): Http.Request
  {
    Http.GenReqForReader(c, "PUT", id, PartQueryByReader(uploadId, partNumber), [], contentLength)
  }

  /** A request to the normalised id that decodes no answer: an id that
      normalises to nothing is refused before anything is sent; otherwise
      the call succeeds exactly when `sendHttp` does, with its error. */
  function FileCall(verb: Bytes, fileId: Bytes, reply: Http.Reply): (r: Outcome)
    ensures Paths.SuitFileId(fileId) == [] ==> r == Fail(InvalidFileId)
    ensures Paths.SuitFileId(fileId) != [] ==>
              (r.Pass? <==> Http.SendHttp(verb, Http.RequestPath(Paths.SuitFileId(fileId)), reply).Ok?)
    ensures Paths.SuitFileId(fileId) != [] && r.Fail? ==>
              r.error == Http.SendHttp(verb, Http.RequestPath(Paths.SuitFileId(fileId)), reply).error
  {
    var id := Paths.SuitFileId(fileId);
    if id == [] then Fail(InvalidFileId)
    else Send(verb, Http.RequestPath(id), reply)
  }

  /** One call of the client: the request it built, if it got that far,
      and what it returned. */
  datatype Call = Call(request: Option<Http.Request>, outcome: Outcome)

  /** `UploadPart`: a PUT of the part's bytes whose query names the part
      and the upload. `UploadPartByReader` differs only in the order the
      query is set and in taking its body from a reader. */
  function UploadPart(c: Http.Client, fileId: Bytes, uploadId: Bytes, partNumber: int, body: Bytes,
                      reply: Http.Reply): (r: Call)
    ensures r.request.Some? <==> Paths.SuitFileId(fileId) != []
    ensures r.request.Some? ==>
              var req := r.request.value;
              && req.verb == "PUT" && req.path == Http.RequestPath(Paths.SuitFileId(fileId))
              && req.body == body
              && Signing.Entry(UploadIdParam, [uploadId]) in req.query
              && Signing.Entry(PartNumberParam, [Itoa(partNumber)]) in req.query
              && (forall e :: e in req.query ==> e.key == UploadIdParam || e.key == PartNumberParam)
    ensures r.outcome == FileCall("PUT", fileId, reply)
  {
    var id := Paths.SuitFileId(fileId);
    if id == [] then Call(None, Fail(InvalidFileId))
    else Call(Some(PartRequest(c, id, uploadId, partNumber, body)), FileCall("PUT", fileId, reply))
  }

  /** Both part queries carry exactly the upload id and the part number,
      and the number the service reads back is the one sent. */
  lemma PartQueryCarries(uploadId: Bytes, partNumber: int)
    requires MinInt64 <= partNumber <= MaxInt64
    ensures var q := PartQuery(uploadId, partNumber);
            && Signing.Entry(UploadIdParam, [uploadId]) in q
            && Signing.Entry(PartNumberParam, [Itoa(partNumber)]) in q
            && (forall e :: e in q ==> e.key == UploadIdParam || e.key == PartNumberParam)
    ensures var q := PartQueryByReader(uploadId, partNumber);
            && Signing.Entry(UploadIdParam, [uploadId]) in q
            && Signing.Entry(PartNumberParam, [Itoa(partNumber)]) in q
            && (forall e :: e in q ==> e.key == UploadIdParam || e.key == PartNumberParam)
    ensures ParseInt(Itoa(partNumber)) == Parsed(partNumber)
  {
    ParseItoa(partNumber);
  }

  // ---------------------------------------------------------------------------
  // List the parts

  /** One `<Part>` of a listing page, its fields as text. */
  datatype RawPart = RawPart(partNumber: Bytes, etag: Bytes, size: Bytes)

  /** A decoded listing page. */
  datatype Page = Page(parts: seq<RawPart>, nextMarker: Bytes)

  /** `FilePartInfo`. */
  datatype FilePart = FilePart(partNumber: int, etag: Bytes, size: int)

  /** A part's fields converted: the number by `strconv.Atoi`, the size by
      `strconv.ParseInt`, in that order; the entity tag is kept verbatim. */
  function ParsePart(raw: RawPart): (r: Result<FilePart>)
    ensures r.Ok? <==> ParseInt(raw.partNumber).Parsed? && ParseInt(raw.size).Parsed?
    ensures r.Ok? ==> r.value == FilePart(ParseInt(raw.partNumber).value, raw.etag, ParseInt(raw.size).value)
    ensures !ParseInt(raw.partNumber).Parsed? ==> r == Err(BadNumber(raw.partNumber))
  {
    match ParseInt(raw.partNumber)
    case Parsed(n) =>
      (match ParseInt(raw.size)
       case Parsed(size) => Ok(FilePart(n, raw.etag, size))
       case _ => Err(BadNumber(raw.size)))
    case _ => Err(BadNumber(raw.partNumber))
  }

  /** The parts of a page converted in order; the first failure ends it. */
  function ParseParts(raws: seq<RawPart>): (r: Result<seq<FilePart>>)
    ensures r.Ok? <==> forall k :: 0 <= k < |raws| ==> ParsePart(raws[k]).Ok?
    ensures r.Ok? ==> |r.value| == |raws| && forall k :: 0 <= k < |raws| ==> r.value[k] == ParsePart(raws[k]).value
  {
    if |raws| == 0 then Ok([])
    else
      var first :- ParsePart(raws[0]);
      var rest :- ParseParts(raws[1..]);
      assert forall k :: 1 <= k < |raws| ==> raws[k] == raws[1..][k - 1];
      Ok([first] + rest)
  }

  /** The query of a listing request: the upload id, and the marker when
      there is one. */
  function ListQuery(uploadId: Bytes, marker: Bytes): seq<Signing.Entry>
  {
    var q := Single(UploadIdParam, uploadId);
    if |marker| > 0 then Signing.SetValue(q, MarkerParam, marker) else q
  }

  /** A listing request names the upload, and names a marker exactly when
      it has a non-empty one. */
  lemma ListQueryMarker(uploadId: Bytes, marker: Bytes)
    ensures Signing.Entry(UploadIdParam, [uploadId]) in ListQuery(uploadId, marker)
    ensures |marker| > 0 ==> Signing.Entry(MarkerParam, [marker]) in ListQuery(uploadId, marker)
    ensures |marker| == 0 ==> forall e :: e in ListQuery(uploadId, marker) ==> e.key != MarkerParam
  {
    if |marker| > 0 {
      assert MarkerParam != UploadIdParam by {
        assert MarkerParam[0] != UploadIdParam[0];
      }
    }
  }

  /** One page fetched and converted: its parts and the next marker. */
  function PageResult(path: Bytes, ex: Exchange<Page>): Result<(seq<FilePart>, Bytes)>
  {
    var page :- Fetch("GET", path, ex);
    var parts :- ParseParts(page.parts);
    Ok((parts, page.nextMarker))
  }

  type Answer = Result<(seq<FilePart>, Bytes)>

  /** Every page of the service, fetched and converted. */
  function Answers(path: Bytes, pages: seq<Exchange<Page>>): (r: seq<Answer>)
    ensures |r| == |pages|
  {
    seq(|pages|, j requires 0 <= j < |pages| => PageResult(path, pages[j]))
  }

  /** An answer that ends the listing: a failure, or no next marker. */
  predicate Ends(a: Answer)
  {
    a.Err? || a.value.1 == []
  }

  /** The service's answers end the listing at some point. */
  predicate Stops(answers: seq<Answer>)
  {
    exists k :: 0 <= k < |answers| && Ends(answers[k])
  }

  /** The first answer that ends the listing. */
  function FirstEnd(answers: seq<Answer>): (k: nat)
    requires Stops(answers)
    ensures k < |answers| && Ends(answers[k])
    ensures forall j :: 0 <= j < k ==> !Ends(answers[j])
  {
    if Ends(answers[0]) then 0
    else
      var w :| 0 <= w < |answers| && Ends(answers[w]);
      assert answers[1..][w - 1] == answers[w];
      var k := FirstEnd(answers[1..]);
      assert forall j :: 1 <= j < k + 1 ==> answers[j] == answers[1..][j - 1];
      k + 1
  }

  /** The parts of the first `n` answers, in order. */
  function Gathered(answers: seq<Answer>, n: nat): seq<FilePart>
    requires n <= |answers|
    requires forall j :: 0 <= j < n ==> answers[j].Ok?
  {
    if n == 0 then [] else Gathered(answers, n - 1) + answers[n - 1].value.0
  }

  /** Ascending by part number, as `sort.Slice` orders them. */
  predicate NumberOrder(a: FilePart, b: FilePart)
  {
    a.partNumber <= b.partNumber
  }

  lemma NumberOrderIsTotal()
    ensures Sorting.TotalPreorder(NumberOrder)
  {
  }

  /** What the listing loop promises for the service's `answers`: one
      request per answer up to the first that ends the listing, the first
      without a marker and each later one with the previous answer's
      (non-empty) marker; the ending answer's failure, or else the parts of
      all answers, sorted by part number. */
  ghost predicate Listed(answers: seq<Answer>, markers: seq<Bytes>, r: Result<seq<FilePart>>)
  {
    && Stops(answers)
    && |markers| == FirstEnd(answers) + 1
    && markers[0] == []
    && (forall j :: 0 < j < |markers| ==> answers[j - 1].Ok? && markers[j] == answers[j - 1].value.1 != [])
    && (r.Err? <==> answers[|markers| - 1].Err?)
    && (r.Err? ==> r.error == answers[|markers| - 1].error)
    && (r.Ok? ==> Sorting.SortedBy(r.value, NumberOrder)
                  && multiset(r.value) == multiset(Gathered(answers, |markers|)))
  }

  /** The marker the `j`-th request carries: none for the first, the
      previous answer's for the others. */
  function MarkerOf(answers: seq<Answer>, j: nat): Bytes
  {
    if 0 < j <= |answers| && answers[j - 1].Ok? then answers[j - 1].value.1 else []
  }

  /** The listing loop's account before its `i`-th request: no answer so
      far ended the listing, `markers` holds what the earlier requests
      carried, `next` is what this one will carry, and `parts` gathers the
      earlier answers' parts. */
  ghost predicate Paging(answers: seq<Answer>, i: nat, markers: seq<Bytes>, next: Bytes, parts: seq<FilePart>)
    requires Stops(answers)
  {
    && i <= FirstEnd(answers)
    && |markers| == i
    && next == MarkerOf(answers, i)
    && (forall j :: 0 <= j < i ==> markers[j] == MarkerOf(answers, j))
    && parts == Gathered(answers, i)
  }

  /** An answer that does not end the listing moves the loop on to the
      next request. */
  lemma PageStep(answers: seq<Answer>, i: nat, markers: seq<Bytes>, next: Bytes, parts: seq<FilePart>)
    requires Stops(answers) && Paging(answers, i, markers, next, parts) && !Ends(answers[i])
    ensures i < FirstEnd(answers)
    ensures Paging(answers, i + 1, markers + [next], answers[i].value.1, parts + answers[i].value.0)
  {
    var m := markers + [next];
    assert forall j :: 0 <= j < i ==> m[j] == markers[j];
  }

  /** The answer that ends the listing completes what `Listed` promises,
      given its failure or the sorted parts. */
  lemma PageEnd(answers: seq<Answer>, i: nat, markers: seq<Bytes>, next: Bytes, parts: seq<FilePart>,
                r: Result<seq<FilePart>>)
    requires Stops(answers) && Paging(answers, i, markers, next, parts) && Ends(answers[i])
    requires answers[i].Err? ==> r == Err(answers[i].error)
    requires answers[i].Ok? ==> r.Ok? && Sorting.SortedBy(r.value, NumberOrder)
                                && multiset(r.value) == multiset(parts + answers[i].value.0)
    ensures Listed(answers, markers + [next], r)
  {
    var m := markers + [next];
    assert forall j :: 0 <= j < i ==> m[j] == markers[j];
  }

  /** The listing loop: answers are taken until one ends the listing. */
  method Paginate(answers: seq<Answer>) returns (markers: seq<Bytes>, r: Result<seq<FilePart>>)
    requires Stops(answers)
    ensures Listed(answers, markers, r)
  {
    var parts: seq<FilePart> := [];
    var next: Bytes := [];
    var i := 0;
    markers := [];
    ghost var asked, asking, gathered := markers, next, parts;
    while true
      invariant Paging(answers, i, markers, next, parts)
      decreases FirstEnd(answers) - i
    {
      asked, asking, gathered := markers, next, parts;
      markers := markers + [next];
      var answer := answers[i];
      if answer.Err? {
        PageEnd(answers, i, asked, asking, gathered, Err(answer.error));
        return markers, Err(answer.error);
      }
      parts := parts + answer.value.0;
      next := answer.value.1;
      if next == [] {
        break;
      }
      PageStep(answers, i, asked, asking, gathered);
      i := i + 1;
    }
    NumberOrderIsTotal();
    r := Ok(Sorting.Sort(parts, NumberOrder));
    PageEnd(answers, i, asked, asking, gathered, r);
  }

  /** `ListFileParts`: the listing loop over the service's pages. */
  method ListFileParts(fileId: Bytes, pages: seq<Exchange<Page>>)
    returns (markers: seq<Bytes>, r: Result<seq<FilePart>>)
    requires Paths.SuitFileId(fileId) != [] ==> Stops(Answers(Http.RequestPath(Paths.SuitFileId(fileId)), pages))
    ensures Paths.SuitFileId(fileId) == [] ==> markers == [] && r == Err(InvalidFileId)
    ensures Paths.SuitFileId(fileId) != [] ==>
              Listed(Answers(Http.RequestPath(Paths.SuitFileId(fileId)), pages), markers, r)
  {
    var id := Paths.SuitFileId(fileId);
    if id == [] {
      return [], Err(InvalidFileId);
    }
    markers, r := Paginate(Answers(Http.RequestPath(id), pages));
  }

  // ---------------------------------------------------------------------------
  // Complete and abort

  /** The `<Part>` entries of the completion body: each listed part's number
      in decimal and its entity tag, in the listing's order. */
  function CompletionParts(parts: seq<FilePart>): (r: seq<(Bytes, Bytes)>)
    ensures |r| == |parts|
  {
    seq(|parts|, k requires 0 <= k < |parts| => (Itoa(parts[k].partNumber), parts[k].etag))
  }

  /** The completion body names every listed part by the number the listing
      parsed, and in ascending order when the listing is sorted. */
  lemma CompletionPartsRoundTrip(parts: seq<FilePart>)
    requires forall k :: 0 <= k < |parts| ==> MinInt64 <= parts[k].partNumber <= MaxInt64
    ensures forall k :: 0 <= k < |parts| ==>
              ParseInt(CompletionParts(parts)[k].0) == Parsed(parts[k].partNumber)
              && CompletionParts(parts)[k].1 == parts[k].etag
  {
    forall k | 0 <= k < |parts|
      ensures ParseInt(CompletionParts(parts)[k].0) == Parsed(parts[k].partNumber)
    {
      ParseItoa(parts[k].partNumber);
    }
  }

  /** Every converted part has an int64 part number. */
  lemma GatheredInRange(path: Bytes, pages: seq<Exchange<Page>>, n: nat)
    requires n <= |pages|
    requires forall j :: 0 <= j < n ==> Answers(path, pages)[j].Ok?
    ensures forall p :: p in Gathered(Answers(path, pages), n) ==> MinInt64 <= p.partNumber <= MaxInt64
  {
    if n > 0 {
      GatheredInRange(path, pages, n - 1);
      var page := Answers(path, pages)[n - 1].value.0;
      forall p | p in page
        ensures MinInt64 <= p.partNumber <= MaxInt64
      {
        var raws := Fetch("GET", path, pages[n - 1]).value.parts;
        var k :| 0 <= k < |page| && page[k] == p;
        assert p == ParsePart(raws[k]).value;
      }
    }
  }

  /** A successful listing took every answer it used without failure. */
  lemma ListedAnswersOk(answers: seq<Answer>, markers: seq<Bytes>, parts: seq<FilePart>)
    requires Listed(answers, markers, Ok(parts))
    ensures |markers| <= |answers|
    ensures forall j :: 0 <= j < |markers| ==> answers[j].Ok?
  {
    forall j | 0 <= j < |markers|
      ensures answers[j].Ok?
    {
      if j < |markers| - 1 {
        assert answers[j].Ok? && markers[j + 1] == answers[j].value.1;
      }
    }
  }

  /** A rearrangement keeps every part's number in range. */
  lemma RearrangedInRange(parts: seq<FilePart>, gathered: seq<FilePart>)
    requires multiset(parts) == multiset(gathered)
    requires forall p :: p in gathered ==> MinInt64 <= p.partNumber <= MaxInt64
    ensures forall k :: 0 <= k < |parts| ==> MinInt64 <= parts[k].partNumber <= MaxInt64
  {
    forall k | 0 <= k < |parts|
      ensures MinInt64 <= parts[k].partNumber <= MaxInt64
    {
      assert parts[k] in multiset(parts);
      assert parts[k] in gathered;
    }
  }

  /** A successful listing has only int64 part numbers, so the completion
      body built from it names each part by the very number listed, in
      ascending order. */
  lemma ListedCompletion(path: Bytes, pages: seq<Exchange<Page>>, markers: seq<Bytes>, parts: seq<FilePart>)
    requires Listed(Answers(path, pages), markers, Ok(parts))
    ensures var body := CompletionParts(parts);
            && (forall k :: 0 <= k < |body| ==> ParseInt(body[k].0) == Parsed(parts[k].partNumber))
            && (forall k, m :: 0 <= k < m < |body| ==>
                  ParseInt(body[k].0).value <= ParseInt(body[m].0).value)
  {
    var answers := Answers(path, pages);
    ListedAnswersOk(answers, markers, parts);
    GatheredInRange(path, pages, |markers|);
    RearrangedInRange(parts, Gathered(answers, |markers|));
    CompletionPartsRoundTrip(parts);
  }

  /** `CompleteMultiUpload`'s result: the completion body sent, if the
      listing succeeded, and the outcome. */
  datatype Completion = Completion(sent: Option<seq<(Bytes, Bytes)>>, outcome: Outcome)

  /** `CompleteMultiUpload`: the parts are listed first and a failed
      listing ends the call with the listing's error; otherwise the listed
      parts, in the listing's (ascending) order, make the body of a POST to
      the id. The listing is asked for the id already normalised, and
      normalises it once more (see `ListingPathDiffers`). */
  method CompleteMultiUpload(fileId: Bytes, pages: seq<Exchange<Page>>, reply: Http.Reply)
    returns (markers: seq<Bytes>, listing: Result<seq<FilePart>>, r: Completion)
    requires var id := Paths.SuitFileId(fileId);
             id != [] && Paths.SuitFileId(id) != [] ==>
               Stops(Answers(Http.RequestPath(Paths.SuitFileId(id)), pages))
    ensures Paths.SuitFileId(fileId) == [] ==>
              markers == [] && listing == Err(InvalidFileId) && r == Completion(None, Fail(InvalidFileId))
    ensures var id := Paths.SuitFileId(fileId);
            id != [] ==>
              && (Paths.SuitFileId(id) == [] ==> markers == [] && listing == Err(InvalidFileId))
              && (Paths.SuitFileId(id) != [] ==>
                    Listed(Answers(Http.RequestPath(Paths.SuitFileId(id)), pages), markers, listing))
    ensures listing.Err? ==> r == Completion(None, Fail(listing.error))
    ensures listing.Ok? ==>
              && r.sent == Some(CompletionParts(listing.value))
              && r.outcome == FileCall("POST", fileId, reply)
    ensures r.sent.Some? ==>
              && (forall k :: 0 <= k < |r.sent.value| ==> ParseInt(r.sent.value[k].0).Parsed?)
              && (forall k, m :: 0 <= k < m < |r.sent.value| ==>
                    ParseInt(r.sent.value[k].0).value <= ParseInt(r.sent.value[m].0).value)
  {
    var id := Paths.SuitFileId(fileId);
    if id == [] {
      return [], Err(InvalidFileId), Completion(None, Fail(InvalidFileId));
    }
    markers, listing := ListFileParts(id, pages);
    if listing.Err? {
      return markers, listing, Completion(None, Fail(listing.error));
    }
    ListedCompletion(Http.RequestPath(Paths.SuitFileId(id)), pages, markers, listing.value);
    r := Completion(Some(CompletionParts(listing.value)), FileCall("POST", fileId, reply));
  }

  /** Normalising is not idempotent, so the listing `CompleteMultiUpload`
      makes may name another object than the POST that follows it. */
  lemma ListingPathDiffers()
    ensures Http.RequestPath(Paths.SuitFileId("../../a")) == "/../a"
    ensures Http.RequestPath(Paths.SuitFileId(Paths.SuitFileId("../../a"))) == "/a"
  {
    Paths.SuitFileIdNotIdempotent();
    assert TrimLeft("../a", '/') == "../a";
    assert TrimLeft("a", '/') == "a";
  }

  /** `AbortMultiUpload`: a DELETE naming the upload id. */
  function AbortRequest(c: Http.Client, id: Bytes, uploadId: Bytes): Http.Request
  {
    Http.GenReq(c, "DELETE", id, Single(UploadIdParam, uploadId), [], [])
  }

  /** The DELETE carries no body and a query of the upload id alone. */
  function AbortMultiUpload(c: Http.Client, fileId: Bytes, uploadId: Bytes, reply: Http.Reply): (r: Call)
    ensures r.request.Some? <==> Paths.SuitFileId(fileId) != []
    ensures r.request.Some? ==>
              var req := r.request.value;
              && req.verb == "DELETE" && req.path == Http.RequestPath(Paths.SuitFileId(fileId))
              && req.body == [] && req.query == [Signing.Entry(UploadIdParam, [uploadId])]
    ensures r.outcome == FileCall("DELETE", fileId, reply)
  {
    var id := Paths.SuitFileId(fileId);
    if id == [] then Call(None, Fail(InvalidFileId))
    else Call(Some(AbortRequest(c, id, uploadId)), FileCall("DELETE", fileId, reply))
  }
}
