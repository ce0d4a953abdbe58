/** Download range planning (download_impl.go): how `[0, fileSize)` is cut
    into inclusive byte ranges, one ranged GET each (section 14.1.2 of
    RFC 9110), how submission stops at the first refused part, and the
    length check on each part.

    Two loops do the cutting. The one for a `WriterAt` stops when the
    current end reaches the last byte (`>=`); the one feeding a reader stops
    only when it passes it (`>`), so when the size is a multiple of the part
    size it plans one more range, `{fileSize, fileSize-1}`, of length 0.
    Both loops are written here as they are in the source and proved equal
    to closed forms. */
module RangePlan {
  import opened Text
  import opened Outcomes
  import Http
  import Signing

  /** An inclusive byte range. */
  datatype Range = Range(offset: int, end: int)
  {
    function Length(): int { end - offset + 1 }
  }

  // ---------------------------------------------------------------------------
  // Closed forms

  /** The number of ranges: `ceil(fileSize/partSize)`, and 1 for an empty
      or negative size. */
  function PartCount(fileSize: int, partSize: int): (k: nat)
    requires partSize >= 1
    ensures k >= 1
    ensures fileSize > 0 ==> (k - 1) * partSize < fileSize <= k * partSize
  {
    if fileSize <= 0 then 1
    else
      var k := (fileSize + partSize - 1) / partSize;
      var rem := (fileSize + partSize - 1) % partSize;
      assert fileSize + partSize - 1 == k * partSize + rem;
      assert (k - 1) * partSize == k * partSize - partSize;
      k
  }

  /** The number of ranges the reader loop plans: `fileSize/partSize + 1`
      for a non-negative size, and 1 otherwise. */
  function ReaderCount(fileSize: int, partSize: int): (k: nat)
    requires partSize >= 1
    ensures k >= 1
    ensures fileSize >= 0 ==> (k - 1) * partSize <= fileSize < k * partSize
  {
    if fileSize < 0 then 1
    else
      var q := fileSize / partSize;
      assert (q + 1) * partSize == q * partSize + partSize;
      q + 1
  }

  /** `k` ranges of `partSize` bytes from 0, the last one cut at
      `fileSize-1`. */
  function Cut(k: nat, fileSize: int, partSize: int): (r: seq<Range>)
    ensures |r| == k
  {
    seq(k, i requires 0 <= i < k =>
      Range(i * partSize, if i == k - 1 then fileSize - 1 else i * partSize + partSize - 1))
  }

  /** The plan of the `WriterAt` loop. */
  function Tiling(fileSize: int, partSize: int): (r: seq<Range>)
    requires partSize >= 1
    ensures |r| == PartCount(fileSize, partSize)
  {
    Cut(PartCount(fileSize, partSize), fileSize, partSize)
  }

  /** The plan of the reader loop. */
  function ReaderTiling(fileSize: int, partSize: int): (r: seq<Range>)
    requires partSize >= 1
    ensures |r| == ReaderCount(fileSize, partSize)
  {
    Cut(ReaderCount(fileSize, partSize), fileSize, partSize)
  }

  predicate Contiguous(rs: seq<Range>)
  {
    forall i :: 0 <= i < |rs| - 1 ==> rs[i + 1].offset == rs[i].end + 1
  }

  function TotalLength(rs: seq<Range>): int
  {
    if |rs| == 0 then 0 else rs[0].Length() + TotalLength(rs[1..])
  }

  /** Contiguous ranges cover exactly the bytes from the first offset to
      the last end. */
  lemma {:induction false} ContiguousLength(rs: seq<Range>)
    requires |rs| >= 1 && Contiguous(rs)
    ensures TotalLength(rs) == rs[|rs| - 1].end - rs[0].offset + 1
    decreases |rs|
  {
    if |rs| > 1 {
      assert Contiguous(rs[1..]) by {
        forall i | 0 <= i < |rs[1..]| - 1 ensures rs[1..][i + 1].offset == rs[1..][i].end + 1 {
          assert rs[1..][i] == rs[i + 1] && rs[1..][i + 1] == rs[i + 2];
        }
      }
      ContiguousLength(rs[1..]);
    }
  }

  /** For a positive size the `WriterAt` plan starts at 0, is contiguous,
      has `ceil(fileSize/partSize)` ranges of `partSize` bytes except the
      last, which is 1 to `partSize` bytes long and ends at `fileSize-1`,
      and so covers exactly `fileSize` bytes. */
  lemma TilingShape(fileSize: int, partSize: int)
    requires partSize >= 1 && fileSize > 0
    ensures var r := Tiling(fileSize, partSize);
            && |r| == (fileSize + partSize - 1) / partSize
            && r[0].offset == 0
            && Contiguous(r)
            && (forall i :: 0 <= i < |r| - 1 ==> r[i].Length() == partSize)
            && 1 <= r[|r| - 1].Length() <= partSize
            && r[|r| - 1].end == fileSize - 1
            && TotalLength(r) == fileSize
  {
    var r := Tiling(fileSize, partSize);
    CutContiguous(|r|, fileSize, partSize);
    ContiguousLength(r);
  }

  /** Ranges cut at multiples of the part size follow one another. */
  lemma CutContiguous(k: nat, fileSize: int, partSize: int)
    ensures Contiguous(Cut(k, fileSize, partSize))
  {
    var r := Cut(k, fileSize, partSize);
    forall i | 0 <= i < k - 1 ensures r[i + 1].offset == r[i].end + 1 {
      NextMultiple(i, partSize);
    }
  }

  lemma NextMultiple(i: int, partSize: int)
    ensures (i + 1) * partSize == i * partSize + partSize
  {
  }

  /** The `WriterAt` loop's `>=` test is true exactly at the last range. */
  lemma WriterAtStops(fileSize: int, partSize: int, i: nat)
    requires partSize >= 1 && i < PartCount(fileSize, partSize)
    ensures i * partSize + partSize - 1 >= fileSize - 1 <==> i == PartCount(fileSize, partSize) - 1
  {
    var k := PartCount(fileSize, partSize);
    if fileSize > 0 && i < k - 1 {
      MulMonotone(i + 1, k - 1, partSize);
    }
  }

  /** The reader loop's `>` test is true exactly at the last range. */
  lemma ReaderStops(fileSize: int, partSize: int, i: nat)
    requires partSize >= 1 && i < ReaderCount(fileSize, partSize)
    ensures i * partSize + partSize - 1 > fileSize - 1 <==> i == ReaderCount(fileSize, partSize) - 1
  {
    var k := ReaderCount(fileSize, partSize);
    if fileSize >= 0 && i < k - 1 {
      MulMonotone(i + 1, k - 1, partSize);
    }
  }

  lemma MulMonotone(a: int, b: int, p: int)
    requires a <= b && p >= 0
    ensures a * p <= b * p
  {
    assert b * p - a * p == (b - a) * p;
  }

  /** The number of parts whose last one holds byte `n-1` is unique. */
  lemma CountUnique(k: int, j: int, partSize: int, n: int)
    requires partSize >= 1
    requires (k - 1) * partSize < n <= k * partSize
    requires (j - 1) * partSize < n <= j * partSize
    ensures k == j
  {
    if k < j {
      MulMonotone(k, j - 1, partSize);
    } else if j < k {
      MulMonotone(j, k - 1, partSize);
    }
  }

  lemma ReaderCountAgrees(fileSize: int, partSize: int)
    requires partSize >= 1
    ensures fileSize > 0 && fileSize % partSize == 0 ==>
              ReaderCount(fileSize, partSize) == PartCount(fileSize, partSize) + 1
              && PartCount(fileSize, partSize) * partSize == fileSize
    ensures !(fileSize > 0 && fileSize % partSize == 0) ==>
              ReaderCount(fileSize, partSize) == PartCount(fileSize, partSize)
  {
    if fileSize > 0 {
      var q := fileSize / partSize;
      var k := PartCount(fileSize, partSize);
      assert fileSize == q * partSize + fileSize % partSize;
      assert (q + 1) * partSize == q * partSize + partSize;
      assert (q - 1) * partSize == q * partSize - partSize;
      if fileSize % partSize == 0 {
        CountUnique(k, q, partSize, fileSize);
      } else {
        CountUnique(k, q + 1, partSize, fileSize);
      }
    }
  }

  /** When `k` full parts end exactly at the last byte, one more cut adds
      only the empty range just past the end. */
  lemma CutExtend(k: nat, fileSize: int, partSize: int)
    requires k >= 1 && k * partSize == fileSize
    ensures Cut(k + 1, fileSize, partSize) == Cut(k, fileSize, partSize) + [Range(fileSize, fileSize - 1)]
  {
    var a, b := Cut(k + 1, fileSize, partSize), Cut(k, fileSize, partSize);
    assert (k - 1) * partSize + partSize == k * partSize;
    forall i | 0 <= i < k ensures a[i] == b[i] {
    }
  }

  /** The reader plan is the `WriterAt` plan exactly when the size is not
      a positive multiple of the part size; otherwise it is that plan with
      one more range, of length 0, just past the end. Either way, for a
      positive size it is contiguous from 0 and covers exactly the file's
      bytes. */
  lemma ReaderTilingShape(fileSize: int, partSize: int)
    requires partSize >= 1
    ensures fileSize > 0 && fileSize % partSize == 0 ==>
              ReaderTiling(fileSize, partSize) == Tiling(fileSize, partSize) + [Range(fileSize, fileSize - 1)]
    ensures !(fileSize > 0 && fileSize % partSize == 0) ==>
              ReaderTiling(fileSize, partSize) == Tiling(fileSize, partSize)
    ensures fileSize > 0 ==>
              var r := ReaderTiling(fileSize, partSize);
              r[0].offset == 0 && Contiguous(r) && TotalLength(r) == fileSize
  {
    ReaderCountAgrees(fileSize, partSize);
    if fileSize > 0 {
      TilingShape(fileSize, partSize);
      if fileSize % partSize == 0 {
        var t := Tiling(fileSize, partSize);
        CutExtend(|t|, fileSize, partSize);
        var r := ReaderTiling(fileSize, partSize);
        assert r == t + [Range(fileSize, fileSize - 1)];
        assert Contiguous(r) by {
          forall i | 0 <= i < |r| - 1 ensures r[i + 1].offset == r[i].end + 1 {
            if i < |t| - 1 {
              assert r[i] == t[i] && r[i + 1] == t[i + 1];
            }
          }
        }
        ContiguousLength(r);
      }
    }
  }

  /** A size of zero or less gives the single range `{0, fileSize-1}` in
      both plans. */
  lemma EmptyFilePlan(fileSize: int, partSize: int)
    requires partSize >= 1 && fileSize <= 0
    ensures Tiling(fileSize, partSize) == [Range(0, fileSize - 1)]
    ensures ReaderTiling(fileSize, partSize) == [Range(0, fileSize - 1)]
  {
  }

  // ---------------------------------------------------------------------------
  // Fail-fast submission

  /** The index of the first refused submission among the first `n`. */
  function FirstFailure(run: nat -> Outcome, n: nat): (r: Option<nat>)
    ensures r.Some? ==> r.value < n && run(r.value).Fail? && forall j :: 0 <= j < r.value ==> run(j).Pass?
    ensures r.None? ==> forall j :: 0 <= j < n ==> run(j).Pass?
  {
    if n == 0 then None
    else
      match FirstFailure(run, n - 1)
      case Some(i) => Some(i)
      case None => if run(n - 1).Fail? then Some(n - 1) else None
  }

  /** What submitting a plan to the worker pool does: `run(i)` is the
      pool's answer to the `i`-th submission, `wait` its final answer. The
      ranges handed over are those up to and including the first refused
      one, and that refusal is the outcome; with none refused, every range
      is handed over and the outcome is `wait`'s. */
  datatype Submission = Submission(submitted: seq<Range>, outcome: Outcome)

  function Submit(plan: seq<Range>, run: nat -> Outcome, wait: Outcome): (s: Submission)
    ensures |s.submitted| <= |plan| && s.submitted == plan[..|s.submitted|]
    ensures s.outcome.Pass? ==> s.submitted == plan && wait.Pass?
  {
    match FirstFailure(run, |plan|)
    case Some(i) => Submission(plan[..i + 1], run(i))
    case None => Submission(plan, wait)
  }

  /** `downloadToWriterAt`'s loop, as written: the end of the current
      range is cut to the last byte once it reaches it (`>=`). */
  method WriterAtLoop(fileSize: int, partSize: int, run: nat -> Outcome, wait: Outcome)
    returns (submitted: seq<Range>, outcome: Outcome)
    requires partSize >= 1
    ensures Submission(submitted, outcome) == Submit(Tiling(fileSize, partSize), run, wait)
  {
    var plan := Tiling(fileSize, partSize);
    var k := |plan|;
    var offset, end, next := 0, partSize - 1, true;
    submitted := [];
    while next
      invariant next ==> |submitted| < k && offset == |submitted| * partSize && end == offset + partSize - 1
      invariant !next ==> |submitted| == k
      invariant submitted == plan[..|submitted|]
      invariant forall j :: 0 <= j < |submitted| ==> run(j).Pass?
      decreases k - |submitted|
    {
      var i := |submitted|;
      WriterAtStops(fileSize, partSize, i);
      if end >= fileSize - 1 {
        end := fileSize - 1;
        next := false;
      }
      assert Range(offset, end) == plan[i];
      submitted := submitted + [Range(offset, end)];
      if run(i).Fail? {
        assert FirstFailure(run, k) == Some(i) by { FirstFailureAt(run, k, i); }
        return submitted, run(i);
      }
      NextMultiple(i, partSize);
      offset := offset + partSize;
      end := offset + partSize - 1;
    }
    assert FirstFailure(run, k) == None;
    outcome := wait;
  }

  /** `multiDownloadToReader`'s loop, as written: the end is cut only once
      it passes the last byte (`>`). The outcome is what the stream is
      closed with. */
  method ReaderLoop(fileSize: int, partSize: int, run: nat -> Outcome, wait: Outcome)
    returns (submitted: seq<Range>, outcome: Outcome)
    requires partSize >= 1
    ensures Submission(submitted, outcome) == Submit(ReaderTiling(fileSize, partSize), run, wait)
  {
    var plan := ReaderTiling(fileSize, partSize);
    var k := |plan|;
    var offset, end, next := 0, partSize - 1, true;
    submitted := [];
    while next
      invariant next ==> |submitted| < k && offset == |submitted| * partSize && end == offset + partSize - 1
      invariant !next ==> |submitted| == k
      invariant submitted == plan[..|submitted|]
      invariant forall j :: 0 <= j < |submitted| ==> run(j).Pass?
      decreases k - |submitted|
    {
      var i := |submitted|;
      ReaderStops(fileSize, partSize, i);
      if end > fileSize - 1 {
        end := fileSize - 1;
        next := false;
      }
      assert Range(offset, end) == plan[i];
      submitted := submitted + [Range(offset, end)];
      if run(i).Fail? {
        assert FirstFailure(run, k) == Some(i) by { FirstFailureAt(run, k, i); }
        return submitted, run(i);
      }
      NextMultiple(i, partSize);
      offset := offset + partSize;
      end := offset + partSize - 1;
    }
    assert FirstFailure(run, k) == None;
    outcome := wait;
  }

  lemma {:induction false} FirstFailureAt(run: nat -> Outcome, n: nat, i: nat)
    requires i < n && run(i).Fail? && forall j :: 0 <= j < i ==> run(j).Pass?
    ensures FirstFailure(run, n) == Some(i)
    decreases n
  {
    if n - 1 > i {
      FirstFailureAt(run, n - 1, i);
    } else {
      assert FirstFailure(run, n - 1) == None;
    }
  }

  // ---------------------------------------------------------------------------
  // One ranged GET

  /** The `Range` header value, `bytes=<offset>-<end>`. */
  function RangeHeader(r: Range): Bytes
  {
    "bytes=" + Itoa(r.offset) + "-" + Itoa(r.end)
  }

  /** For a non-empty range inside the int64 range, the header names the
      two inclusive bounds: after `bytes=`, it splits at '-' into the
      decimal offset and end, which parse back. */
  lemma RangeHeaderParses(r: Range)
    requires 0 <= r.offset && 0 <= r.end <= MaxInt64 && r.offset <= MaxInt64
    ensures var h := RangeHeader(r);
            && h[..6] == "bytes="
            && Split(h[6..], '-') == [Itoa(r.offset), Itoa(r.end)]
            && ParseInt(Split(h[6..], '-')[0]) == Parsed(r.offset)
            && ParseInt(Split(h[6..], '-')[1]) == Parsed(r.end)
  {
    var h := RangeHeader(r);
    var a, b := Itoa(r.offset), Itoa(r.end);
    NatToDecimalDigits(r.offset);
    NatToDecimalDigits(r.end);
    assert '-' !in a && '-' !in b;
    assert h[6..] == a + ['-'] + b;
    SplitPeel(a, '-', b);
    SplitWithoutSeparator(b, '-');
    ParseItoa(r.offset);
    ParseItoa(r.end);
  }

  /** The request for one part: a GET of the object with the `Range`
      header. */
  function PartRequest(c: Http.Client, fileId: Bytes, r: Range): Http.Request
  {
    Http.GenReq(c, "GET", fileId, [], [Signing.Entry("Range", [RangeHeader(r)])], [])
  }

  /** `downloadPartToWriterAt`: the classified answer to the ranged GET,
      then the outcome of copying its body (the number of bytes written, or
      the copy's error), then the length check. */
  function DownloadPart(fileId: Bytes, r: Range, reply: Http.Reply, copied: Result<int>): (o: Outcome)
    ensures o.Pass? <==> reply.Response? && Http.IsSuccess(reply.status) && copied == Ok(r.Length())
    ensures reply.Response? && Http.IsSuccess(reply.status) && copied.Ok? && copied.value != r.Length() ==>
              o == Fail(PartSizeMismatch(copied.value, r.Length(), r.offset, r.end))
    ensures !(reply.Response? && Http.IsSuccess(reply.status)) ==>
              o == Fail(Http.SendHttp("GET", Http.RequestPath(fileId), reply).error)
  {
    match Http.SendHttp("GET", Http.RequestPath(fileId), reply)
    case Err(e) => Fail(e)
    case Ok(_) =>
      match copied
      case Err(e) => Fail(e)
      case Ok(n) => if n != r.Length() then Fail(PartSizeMismatch(n, r.Length(), r.offset, r.end)) else Pass
  }

  /** The extra range of the reader plan asks for `bytes=N-(N-1)`, which
      section 14.1.1 of RFC 9110 calls invalid; it succeeds only if the
      server answers 2xx with an empty body. */
  lemma ExtraRangeNeedsEmptyBody(fileId: Bytes, fileSize: int, reply: Http.Reply, copied: Result<int>)
    ensures DownloadPart(fileId, Range(fileSize, fileSize - 1), reply, copied).Pass? ==> copied == Ok(0)
  {
  }
}
