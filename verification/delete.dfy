/** Deleting (delete_impl.go): one object, or many in batched requests of
    at most a thousand keys whose failures are collected per key.

    The service's answer to each batch is given as a `BatchAnswer`; the XML
    body, its MD5 digest and the base64 text of the digest are computed by
    functions given in a `Codecs` value. */
module BatchDelete {
  import opened Text
  import opened Outcomes
  import Paths
  import Signing
  import Http
  import Cutting

  /** `Delete`: one DELETE of the normalised id. */
  function Delete(fileId: Bytes, reply: Http.Reply): (r: Outcome)
    ensures Paths.SuitFileId(fileId) == [] ==> r == Fail(InvalidFileId)
    ensures Paths.SuitFileId(fileId) != [] ==>
              (r.Pass? <==> Http.SendHttp("DELETE", Http.RequestPath(Paths.SuitFileId(fileId)), reply).Ok?)
    ensures Paths.SuitFileId(fileId) != [] && r.Fail? ==>
              r.error == Http.SendHttp("DELETE", Http.RequestPath(Paths.SuitFileId(fileId)), reply).error
  {
    var id := Paths.SuitFileId(fileId);
    if id == [] then Fail(InvalidFileId)
    else match Http.SendHttp("DELETE", Http.RequestPath(id), reply)
      case Ok(_) => Pass
      case Err(e) => Fail(e)
  }

  // ---------------------------------------------------------------------------
  // Normalising and batching

  /** The ids as sent: each normalised by `suitFileId`, those that become
      empty dropped, the rest in their order. */
  function Normalise(ids: seq<Bytes>): (r: seq<Bytes>)
    ensures |r| <= |ids|
    ensures forall k :: 0 <= k < |r| ==> r[k] != []
  {
    if |ids| == 0 then []
    else
      Keep(Paths.SuitFileId(ids[0]), Normalise(ids[1..]))
  }

  /** One normalised id put in front of those already kept, unless empty. */
  function Keep(id: Bytes, rest: seq<Bytes>): (r: seq<Bytes>)
    requires forall k :: 0 <= k < |rest| ==> rest[k] != []
    ensures id == [] ==> r == rest
    ensures id != [] ==> r == [id] + rest
    ensures forall k :: 0 <= k < |r| ==> r[k] != []
  {
    if id == [] then rest
    else
      assert forall k :: 1 <= k <= |rest| ==> ([id] + rest)[k] == rest[k - 1];
      [id] + rest
  }

  /** Every id whose normalised form is non-empty is sent, and nothing
      else is. */
  lemma {:induction false} NormaliseKeeps(ids: seq<Bytes>)
    ensures forall v :: v in ids && Paths.SuitFileId(v) != [] ==> Paths.SuitFileId(v) in Normalise(ids)
    ensures forall x :: x in Normalise(ids) ==> exists v :: v in ids && x == Paths.SuitFileId(v)
    decreases |ids|
  {
    if |ids| > 0 {
      NormaliseKeeps(ids[1..]);
      var id := Paths.SuitFileId(ids[0]);
      var rest := Normalise(ids[1..]);
      assert forall v :: v in ids ==> v == ids[0] || v in ids[1..];
      forall x | x in Normalise(ids) ensures exists v :: v in ids && x == Paths.SuitFileId(v) {
        if x in rest {
          var v :| v in ids[1..] && x == Paths.SuitFileId(v);
          assert v in ids;
        } else {
          assert ids[0] in ids && x == id;
        }
      }
    }
  }

  /** Most keys one request deletes. */
  const BatchLimit: nat := 1000

  /** The batches, in order: consecutive runs of at most a thousand ids. */
  function Batches(ids: seq<Bytes>): seq<seq<Bytes>>
  {
    Cutting.Chunks(Normalise(ids), BatchLimit)
  }

  /** Every kept id is sent in exactly one batch, in input order, in
      ⌈m / 1000⌉ requests of at most a thousand ids each; with no id left
      after normalising no request is sent. */
  lemma BatchesShape(ids: seq<Bytes>)
    ensures Cutting.Flatten(Batches(ids)) == Normalise(ids)
    ensures |Batches(ids)| == (|Normalise(ids)| + BatchLimit - 1) / BatchLimit
    ensures forall j :: 0 <= j < |Batches(ids)| ==> 1 <= |Batches(ids)[j]| <= BatchLimit
    ensures Normalise(ids) == [] <==> Batches(ids) == []
  {
    CutShape(Normalise(ids));
  }

  lemma CutShape(xs: seq<Bytes>)
    ensures Cutting.Flatten(Cutting.Chunks(xs, BatchLimit)) == xs
    ensures |Cutting.Chunks(xs, BatchLimit)| == (|xs| + BatchLimit - 1) / BatchLimit
    ensures forall j :: 0 <= j < |Cutting.Chunks(xs, BatchLimit)| ==> 1 <= |Cutting.Chunks(xs, BatchLimit)[j]| <= BatchLimit
    ensures xs == [] <==> Cutting.Chunks(xs, BatchLimit) == []
  {
    Cutting.ChunksFlatten(xs, BatchLimit);
    Cutting.ChunksCount(xs, BatchLimit);
    Cutting.ChunksSizes(xs, BatchLimit);
  }

  /** The loop's step: the first batch is the first thousand ids, or all
      of them when fewer remain. */
  lemma FirstBatch(xs: seq<Bytes>, n: nat)
    requires |xs| > 0 && n == (if |xs| < BatchLimit then |xs| else BatchLimit)
    ensures Cutting.Chunks(xs, BatchLimit) == [xs[..n]] + Cutting.Chunks(xs[n..], BatchLimit)
  {
    if |xs| <= BatchLimit {
      assert xs[..n] == xs && xs[n..] == [];
    }
  }

  // ---------------------------------------------------------------------------
  // The request of a batch

  /** The collaborators that build a request body: the XML encoding of the
      keys, MD5, and standard base64. */
  datatype Codecs = Codecs(marshal: seq<Bytes> -> Bytes, md5: Bytes -> Bytes, base64: Bytes -> Bytes)

  const DeleteParam: Bytes := "delete"
  /** `Content-MD5` as `http.Header.Set` stores it, in canonical MIME form. */
  const ContentMd5Header: Bytes := "Content-Md5"

  /** A batch's request: a POST to the bucket root with the `delete`
      parameter, the encoded keys as body and their digest in `Content-MD5`
      (section 2 of RFC 1864: the base64 text of the body's MD5). */
  function BatchRequest(c: Http.Client, codecs: Codecs, batch: seq<Bytes>): Http.Request
  {
    var body := codecs.marshal(batch);
    var header := Signing.SetValue([], ContentMd5Header, codecs.base64(codecs.md5(body)));
    Http.GenReq(c, "POST", "", Signing.SetValue([], DeleteParam, ""), header, body)
  }

  /** The digest travels with exactly the body it was computed over, and
      it is among the signed headers. */
  lemma BatchRequestChecksum(c: Http.Client, codecs: Codecs, batch: seq<Bytes>)
    ensures var req := BatchRequest(c, codecs, batch);
            && req.body == codecs.marshal(batch)
            && req.path == "/"
            && Signing.Entry(ContentMd5Header, [codecs.base64(codecs.md5(req.body))]) in req.header
    ensures var body := codecs.marshal(batch);
            var header := Signing.SetValue([], ContentMd5Header, codecs.base64(codecs.md5(body)));
            Signing.CanonicalKey(ContentMd5Header) in Signing.KeyList(Http.SignedHeader(c, header, |body|))
  {
    var body := codecs.marshal(batch);
    var e := Signing.Entry(ContentMd5Header, [codecs.base64(codecs.md5(body))]);
    var header := Signing.SetValue([], ContentMd5Header, codecs.base64(codecs.md5(body)));
    var signed := Http.SignedHeader(c, header, |body|);
    assert ContentMd5Header != Http.HostHeader;
    assert ContentMd5Header != Http.ContentLengthHeader by {
      assert ContentMd5Header[8] != Http.ContentLengthHeader[8];
    }
    assert ContentMd5Header != Http.AuthorizationHeader;
    assert e in signed;
    Signing.KeyListHas(signed, e);
    assert TrimLeft([], '/') == [];
  }

  // ---------------------------------------------------------------------------
  // Judging a batch's answer

  /** An `<Error>` entry of the answer. */
  datatype DeleteError = DeleteError(code: Bytes, message: Bytes, key: Bytes)

  /** The service's answer to one batch: the transport's reply, whether
      reading the body succeeded and what was read, and what the XML
      decoder made of it. */
  datatype BatchAnswer = BatchAnswer(reply: Http.Reply, read: Outcome, body: Bytes,
                                     decoded: Result<seq<DeleteError>>)

  /** What a batch amounts to: a failure of the whole batch, or the
      entries the service reported. */
  datatype Verdict = BatchFailed(error: Error) | Reported(errors: seq<DeleteError>)

  /** A send failure is the batch's error as it is; a failed read or
      decode is decorated with the body read. */
  function Judge(a: BatchAnswer): (v: Verdict)
    ensures v.Reported? <==> Http.SendHttp("POST", "/", a.reply).Ok? && a.read.Pass? && a.decoded.Ok?
    ensures v.Reported? ==> v.errors == a.decoded.value
    ensures Http.SendHttp("POST", "/", a.reply).Err? ==> v == BatchFailed(Http.SendHttp("POST", "/", a.reply).error)
    ensures Http.SendHttp("POST", "/", a.reply).Ok? && a.read.Fail? ==> v == BatchFailed(WithBody(a.read.error, a.body))
  {
    match Http.SendHttp("POST", "/", a.reply)
    case Err(e) => BatchFailed(e)
    case Ok(_) =>
      if a.read.Fail? then BatchFailed(WithBody(a.read.error, a.body))
      else match a.decoded
        case Err(e) => BatchFailed(WithBody(e, a.body))
        case Ok(errors) => Reported(errors)
  }

  /** The ids of a batch, as a set. */
  function Members(batch: seq<Bytes>): set<Bytes>
  {
    set k | k in batch
  }

  /** The keys an entry list names (entries with an empty key are
      ignored). */
  function NamedKeys(errors: seq<DeleteError>): set<Bytes>
  {
    set k | 0 <= k < |errors| && errors[k].key != [] :: errors[k].key
  }

  /** The error the reported entries leave for `k`: that of the last entry
      naming it, a later entry overriding an earlier one; entries with an
      empty key name nothing. */
  function LastReport(errors: seq<DeleteError>, k: Bytes): Option<Error>
  {
    if |errors| == 0 then None
    else
      match LastReport(errors[1..], k)
      case Some(e) => Some(e)
      case None =>
        if errors[0].key == k && k != [] then Some(DeleteRejected(errors[0].code, errors[0].message))
        else None
  }

  /** `LastReport` is the report of the last entry that names the key, and
      there is one exactly when some entry names it. */
  lemma {:induction false} LastReportIsLast(errors: seq<DeleteError>, k: Bytes)
    ensures LastReport(errors, k).Some? <==> k in NamedKeys(errors)
    ensures LastReport(errors, k).Some? ==>
              exists m :: 0 <= m < |errors| && errors[m].key == k
                && LastReport(errors, k).value == DeleteRejected(errors[m].code, errors[m].message)
                && forall j :: m < j < |errors| ==> errors[j].key != k
    decreases |errors|
  {
    if |errors| > 0 {
      var rest := errors[1..];
      LastReportIsLast(rest, k);
      NamedKeysCons(errors);
      if LastReport(rest, k).Some? {
        var m :| 0 <= m < |rest| && rest[m].key == k
                 && LastReport(rest, k).value == DeleteRejected(rest[m].code, rest[m].message)
                 && forall j :: m < j < |rest| ==> rest[j].key != k;
        assert errors[m + 1] == rest[m];
        assert forall j :: m + 1 < j < |errors| ==> errors[j] == rest[j - 1];
      } else if errors[0].key == k && k != [] {
        assert forall j :: 0 < j < |errors| ==> errors[j] == rest[j - 1];
      }
    }
  }

  /** Recording the reported entries, in order: each with a non-empty key
      sets that key's error, so a key ends with the last report naming it,
      and every other key keeps what it had. */
  function RecordReports(undeleted: map<Bytes, Error>, errors: seq<DeleteError>): (r: map<Bytes, Error>)
    ensures r.Keys == undeleted.Keys + NamedKeys(errors)
    ensures forall k :: LastReport(errors, k).Some? ==> k in r && r[k] == LastReport(errors, k).value
    ensures forall k :: k in undeleted && LastReport(errors, k).None? ==> r[k] == undeleted[k]
    decreases |errors|
  {
    if |errors| == 0 then undeleted
    else
      var e := errors[0];
      var m := if e.key != [] then undeleted[e.key := DeleteRejected(e.code, e.message)] else undeleted;
      var r := RecordReports(m, errors[1..]);
      RecordReportsKeys(undeleted, errors, m, r);
      RecordReportsValues(undeleted, errors, m, r);
      r
  }

  /** Recording the first report, then the rest, keeps the keys of both. */
  lemma RecordReportsKeys(undeleted: map<Bytes, Error>, errors: seq<DeleteError>, m: map<Bytes, Error>, r: map<Bytes, Error>)
    requires |errors| > 0
    requires m == if errors[0].key != [] then undeleted[errors[0].key := DeleteRejected(errors[0].code, errors[0].message)] else undeleted
    requires r.Keys == m.Keys + NamedKeys(errors[1..])
    ensures r.Keys == undeleted.Keys + NamedKeys(errors)
  {
    var e := errors[0];
    var first: set<Bytes> := if e.key != [] then {e.key} else {};
    assert m.Keys == undeleted.Keys + first;
    NamedKeysCons(errors);
  }

  /** Recording the first report, then the rest, leaves every key with its
      last report, and every other key as it was. */
  lemma RecordReportsValues(undeleted: map<Bytes, Error>, errors: seq<DeleteError>, m: map<Bytes, Error>, r: map<Bytes, Error>)
    requires |errors| > 0
    requires m == if errors[0].key != [] then undeleted[errors[0].key := DeleteRejected(errors[0].code, errors[0].message)] else undeleted
    requires forall k :: LastReport(errors[1..], k).Some? ==> k in r && r[k] == LastReport(errors[1..], k).value
    requires forall k :: k in m && LastReport(errors[1..], k).None? ==> k in r && r[k] == m[k]
    ensures forall k :: LastReport(errors, k).Some? ==> k in r && r[k] == LastReport(errors, k).value
    ensures forall k :: k in undeleted && LastReport(errors, k).None? ==> k in r && r[k] == undeleted[k]
  {
    forall k | LastReport(errors, k).Some?
      ensures k in r && r[k] == LastReport(errors, k).value
    {
      ReportedKey(undeleted, errors, m, r, k);
    }
    forall k | k in undeleted && LastReport(errors, k).None?
      ensures k in r && r[k] == undeleted[k]
    {
      ReportedKey(undeleted, errors, m, r, k);
    }
  }

  /** `RecordReportsValues` for one key. */
  lemma ReportedKey(undeleted: map<Bytes, Error>, errors: seq<DeleteError>, m: map<Bytes, Error>, r: map<Bytes, Error>, k: Bytes)
    requires |errors| > 0
    requires m == if errors[0].key != [] then undeleted[errors[0].key := DeleteRejected(errors[0].code, errors[0].message)] else undeleted
    requires LastReport(errors[1..], k).Some? ==> k in r && r[k] == LastReport(errors[1..], k).value
    requires k in m && LastReport(errors[1..], k).None? ==> k in r && r[k] == m[k]
    ensures LastReport(errors, k).Some? ==> k in r && r[k] == LastReport(errors, k).value
    ensures k in undeleted && LastReport(errors, k).None? ==> k in r && r[k] == undeleted[k]
  {
    ReportStep(errors, k);
  }

  /** One unfolding of `LastReport`: the rest's report wins, else the
      first entry's if it names the key. */
  lemma ReportStep(errors: seq<DeleteError>, k: Bytes)
    requires |errors| > 0
    ensures LastReport(errors[1..], k).Some? ==> LastReport(errors, k) == LastReport(errors[1..], k)
    ensures LastReport(errors[1..], k).None? && errors[0].key == k && k != [] ==>
              LastReport(errors, k) == Some(DeleteRejected(errors[0].code, errors[0].message))
    ensures LastReport(errors[1..], k).None? && !(errors[0].key == k && k != []) ==> LastReport(errors, k).None?
  {
  }

  /** The keys named by a non-empty list: the first entry's, if any, and
      the rest's. */
  lemma NamedKeysCons(errors: seq<DeleteError>)
    requires |errors| > 0
    ensures NamedKeys(errors) == (if errors[0].key != [] then {errors[0].key} else {}) + NamedKeys(errors[1..])
  {
    var e := errors[0];
    forall k | k in NamedKeys(errors)
      ensures k in (if e.key != [] then {e.key} else {}) + NamedKeys(errors[1..])
    {
      var j :| 0 <= j < |errors| && errors[j].key != [] && errors[j].key == k;
      if j > 0 {
        assert errors[1..][j - 1] == errors[j];
      }
    }
    forall k | k in NamedKeys(errors[1..])
      ensures k in NamedKeys(errors)
    {
      var j :| 0 <= j < |errors[1..]| && errors[1..][j].key != [] && errors[1..][j].key == k;
      assert errors[j + 1] == errors[1..][j];
    }
  }

  /** The error a batch's verdict leaves for `k`, if it touches `k`: the
      batch's error for each of its ids, or the last report naming `k`. */
  function Blame(batch: seq<Bytes>, v: Verdict, k: Bytes): Option<Error>
  {
    match v
    case BatchFailed(e) => if k in batch then Some(e) else None
    case Reported(errors) => LastReport(errors, k)
  }

  /** One batch's effect on the collected failures: every id of a failed
      batch gets the batch's error, whatever it had before; otherwise the
      reported entries are recorded. A key the batch does not touch keeps
      its error. */
  function Record(undeleted: map<Bytes, Error>, batch: seq<Bytes>, v: Verdict): (r: map<Bytes, Error>)
    ensures v.BatchFailed? ==> r.Keys == undeleted.Keys + Members(batch)
    ensures v.Reported? ==> r.Keys == undeleted.Keys + NamedKeys(v.errors)
    ensures v.BatchFailed? ==> forall k :: k in batch ==> r[k] == v.error
    ensures forall k :: Blame(batch, v, k).Some? ==> k in r && r[k] == Blame(batch, v, k).value
    ensures forall k :: k in undeleted && Blame(batch, v, k).None? ==> r[k] == undeleted[k]
  {
    match v
    case BatchFailed(e) => undeleted + map k | k in batch :: e
    case Reported(errors) => RecordReports(undeleted, errors)
  }

  // ---------------------------------------------------------------------------
  // Deletes

  /** The ids reported after the first `n` batches: every id of a failed
      batch and every key named by a batch's entries. */
  function Complained(batches: seq<seq<Bytes>>, answers: nat -> BatchAnswer, n: nat): set<Bytes>
    requires n <= |batches|
  {
    if n == 0 then {}
    else
      Complained(batches, answers, n - 1) +
      match Judge(answers(n - 1))
      case BatchFailed(_) => Members(batches[n - 1])
      case Reported(errors) => NamedKeys(errors)
  }

  /** Whether a batch's verdict puts `k` in the map: `k` is in a failed
      batch, or a reported entry names it. */
  predicate Blames(batch: seq<Bytes>, v: Verdict, k: Bytes)
  {
    match v
    case BatchFailed(_) => k in batch
    case Reported(errors) => exists m :: 0 <= m < |errors| && errors[m].key == k && k != []
  }

  /** An id is reported after `n` batches exactly when one of them blames
      it; in particular an id whose batches were all answered without an
      entry for it is absent. */
  lemma {:induction false} ComplainedCases(batches: seq<seq<Bytes>>, answers: nat -> BatchAnswer, n: nat, k: Bytes)
    requires n <= |batches|
    ensures k in Complained(batches, answers, n) <==>
              exists i :: 0 <= i < n && Blames(batches[i], Judge(answers(i)), k)
  {
    if n > 0 {
      ComplainedCases(batches, answers, n - 1, k);
      var v := Judge(answers(n - 1));
      if v.Reported? && k in NamedKeys(v.errors) {
        var m :| 0 <= m < |v.errors| && v.errors[m].key != [] && v.errors[m].key == k;
        assert Blames(batches[n - 1], v, k);
      }
      if Blames(batches[n - 1], v, k) && v.Reported? {
        var m :| 0 <= m < |v.errors| && v.errors[m].key == k && k != [];
        assert k in NamedKeys(v.errors);
      }
    }
  }

  /** The error the first `n` batches leave for `k`: that of the last
      batch that touches `k`, if any does. */
  function LastBlame(batches: seq<seq<Bytes>>, answers: nat -> BatchAnswer, n: nat, k: Bytes): Option<Error>
    requires n <= |batches|
  {
    if n == 0 then None
    else
      var b := Blame(batches[n - 1], Judge(answers(n - 1)), k);
      if b.Some? then b else LastBlame(batches, answers, n - 1, k)
  }

  /** `LastBlame` names the last batch touching the key: that batch leaves
      the error, and no later one of the first `n` touches the key. */
  lemma {:induction false} LastBlameIsLast(batches: seq<seq<Bytes>>, answers: nat -> BatchAnswer, n: nat, k: Bytes)
    requires n <= |batches|
    requires LastBlame(batches, answers, n, k).Some?
    ensures exists i :: 0 <= i < n && Blame(batches[i], Judge(answers(i)), k) == LastBlame(batches, answers, n, k)
              && forall j :: i < j < n ==> Blame(batches[j], Judge(answers(j)), k).None?
  {
    if Blame(batches[n - 1], Judge(answers(n - 1)), k).None? {
      LastBlameIsLast(batches, answers, n - 1, k);
    }
  }

  /** Every error collected after the first `n` batches is the one the
      last batch touching its key left. */
  predicate Pinned(batches: seq<seq<Bytes>>, answers: nat -> BatchAnswer, n: nat, undeleted: map<Bytes, Error>)
    requires n <= |batches|
  {
    forall k :: k in undeleted ==> LastBlame(batches, answers, n, k) == Some(undeleted[k])
  }

  /** Recording the n-th batch extends both halves of the loop's account. */
  lemma RecordStep(batches: seq<seq<Bytes>>, answers: nat -> BatchAnswer, n: nat, before: map<Bytes, Error>)
    requires n < |batches|
    requires before.Keys == Complained(batches, answers, n)
    requires Pinned(batches, answers, n, before)
    ensures var after := Record(before, batches[n], Judge(answers(n)));
            && after.Keys == Complained(batches, answers, n + 1)
            && Pinned(batches, answers, n + 1, after)
  {
    var v := Judge(answers(n));
    var after := Record(before, batches[n], v);
    forall k | k in after
      ensures LastBlame(batches, answers, n + 1, k) == Some(after[k])
    {
      if Blame(batches[n], v, k).None? {
        if v.Reported? {
          LastReportIsLast(v.errors, k);
        }
        assert k in before;
      }
    }
  }

  /** Taking the next batch off the ids still to send moves it from the
      batches to come to the batches sent. */
  lemma NextBatch(all: seq<seq<Bytes>>, sent: seq<seq<Bytes>>, rest: seq<Bytes>, n: nat)
    requires all == sent + Cutting.Chunks(rest, BatchLimit)
    requires |rest| > 0 && n == (if |rest| < BatchLimit then |rest| else BatchLimit)
    ensures |sent| < |all| && all[|sent|] == rest[..n]
    ensures all == (sent + [rest[..n]]) + Cutting.Chunks(rest[n..], BatchLimit)
  {
    FirstBatch(rest, n);
    MoveFirst(sent, rest[..n], Cutting.Chunks(rest[n..], BatchLimit));
  }

  /** Moving the next element from the front of what is to come to the end
      of what was taken; stated generically so that the facts stay apart
      from the batches' own terms. */
  lemma MoveFirst<T>(a: seq<T>, b: T, c: seq<T>)
    ensures (a + [b] + c)[|a|] == b
    ensures a + ([b] + c) == a + [b] + c
  {
  }

  /** The loop's account after the batches `sent`, with the ids `rest`
      still to send: the batches sent and to come make up all of them,
      and the errors collected are those the batches sent complained of,
      each the one the last batch touching its key left. */
  ghost predicate Sending(all: seq<seq<Bytes>>, answers: nat -> BatchAnswer, sent: seq<seq<Bytes>>,
                          rest: seq<Bytes>, undeleted: map<Bytes, Error>)
  {
    && all == sent + Cutting.Chunks(rest, BatchLimit)
    && |sent| <= |all|
    && undeleted.Keys == Complained(all, answers, |sent|)
    && Pinned(all, answers, |sent|, undeleted)
  }

  /** Sending the next batch and recording its answer keeps the account. */
  lemma SendStep(all: seq<seq<Bytes>>, answers: nat -> BatchAnswer, sent: seq<seq<Bytes>>,
                 rest: seq<Bytes>, undeleted: map<Bytes, Error>, n: nat)
    requires Sending(all, answers, sent, rest, undeleted)
    requires |rest| > 0 && n == (if |rest| < BatchLimit then |rest| else BatchLimit)
    ensures Sending(all, answers, sent + [rest[..n]], rest[n..],
                    Record(undeleted, rest[..n], Judge(answers(|sent|))))
  {
    NextBatch(all, sent, rest, n);
    RecordStep(all, answers, |sent|, undeleted);
  }

  /** Once no id is left, the batches sent are all of them. */
  lemma SendDone(all: seq<seq<Bytes>>, answers: nat -> BatchAnswer, sent: seq<seq<Bytes>>,
                 undeleted: map<Bytes, Error>)
    requires Sending(all, answers, sent, [], undeleted)
    ensures all == sent
  {
    assert sent + [] == sent;
  }

  /** The loop of `Deletes` over the normalised ids: batch after batch,
      each judged and recorded. */
  method SendBatches(cleaned: seq<Bytes>, answers: nat -> BatchAnswer)
    returns (undeleted: map<Bytes, Error>, sent: seq<seq<Bytes>>)
    ensures sent == Cutting.Chunks(cleaned, BatchLimit)
    ensures undeleted.Keys == Complained(sent, answers, |sent|)
    ensures forall k :: k in undeleted ==> LastBlame(sent, answers, |sent|, k) == Some(undeleted[k])
  {
    undeleted := map[];
    sent := [];
    ghost var all := Cutting.Chunks(cleaned, BatchLimit);
    var rest := cleaned;
    assert [] + all == all;
    while |rest| > 0
      invariant Sending(all, answers, sent, rest, undeleted)
      decreases |rest|
    {
      var n := if |rest| < BatchLimit then |rest| else BatchLimit;
      var batch := rest[..n];
      SendStep(all, answers, sent, rest, undeleted, n);
      rest := rest[n..];
      undeleted := Record(undeleted, batch, Judge(answers(|sent|)));
      sent := sent + [batch];
    }
    SendDone(all, answers, sent, undeleted);
  }

  /** `Deletes`: the batches are sent in order, `answers(j)` being the
      service's answer to the j-th; failures are collected into one map.
      Every failed batch's ids and every named key end up in the map, and
      nothing else: an id deleted without complaint is absent, and no key
      is ever empty. Each key holds the error of the last batch that touched
      it: a later batch's failure or report overrides an earlier one. */
  method Deletes(ids: seq<Bytes>, answers: nat -> BatchAnswer)
    returns (undeleted: map<Bytes, Error>, sent: seq<seq<Bytes>>)
    ensures sent == Batches(ids)
    ensures |ids| == 0 ==> sent == [] && undeleted == map[]
    ensures undeleted.Keys == Complained(sent, answers, |sent|)
    ensures [] !in undeleted
    ensures forall k :: k in undeleted ==> LastBlame(sent, answers, |sent|, k) == Some(undeleted[k])
  {
    if |ids| == 0 {
      return map[], [];
    }
    var cleaned := Normalise(ids);
    if |cleaned| == 0 {
      return map[], [];
    }
    undeleted, sent := SendBatches(cleaned, answers);
    Cutting.ChunksAvoid(cleaned, BatchLimit, []);
    EmptyNeverComplained(sent, answers, |sent|);
  }

  /** No batch holds an empty id and no named key is empty, so the empty
      key is never reported. */
  lemma EmptyNeverComplained(batches: seq<seq<Bytes>>, answers: nat -> BatchAnswer, n: nat)
    requires n <= |batches|
    requires forall j :: 0 <= j < |batches| ==> [] !in batches[j]
    ensures [] !in Complained(batches, answers, n)
  {
    if n > 0 {
      EmptyNeverComplained(batches, answers, n - 1);
    }
  }
}
