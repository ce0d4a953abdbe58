/** Uploading (upload_impl.go): the choice between one PUT and a multipart
    session, the two part loops that cut the source into numbered parts,
    and the way a session is closed — completed, or aborted when waiting or
    completing fails.

    The source reader, the worker pool and the multipart requests are
    collaborators: what they answer is given in a `Collaborators` value,
    and what the client asks of them is recorded as a trace of `Step`s. */
module Upload {
  import opened Text
  import opened Outcomes
  import Paths
  import Sizing
  import Http
  import opened Cutting

  // ---------------------------------------------------------------------------
  // The source reader and `io.ReadFull`

  /** How a reader ends once its bytes are delivered: with `io.EOF`, or
      with some other error. */
  datatype Tail = EndOfStream | Broken(error: Error)

  /** A reader: the bytes it delivers, then how it ends. */
  datatype Source = Source(data: Bytes, tail: Tail)

  /** What `io.ReadFull` reports for a buffer. */
  datatype Read =
    | Full(chunk: Bytes)         // the buffer was filled
    | Short(chunk: Bytes)        // `io.ErrUnexpectedEOF` after some bytes
    | AtEof                      // `io.EOF` before any byte
    | ReadFailed(error: Error)   // the reader's own error

  /** `io.ReadFull` of an `n`-byte buffer, `pos` bytes into the source. */
  function ReadFull(src: Source, pos: nat, n: nat): (r: Read)
    requires pos <= |src.data| && n >= 1
    ensures r.Full? <==> pos + n <= |src.data|
    ensures r.Full? ==> r.chunk == src.data[pos..pos + n]
    ensures r.Short? ==> 0 < |r.chunk| < n && r.chunk == src.data[pos..] && src.tail == EndOfStream
    ensures r.AtEof? <==> pos == |src.data| && src.tail == EndOfStream
    ensures r.ReadFailed? ==> src.tail.Broken? && r.error == src.tail.error
  {
    if pos + n <= |src.data| then Full(src.data[pos..pos + n])
    else if src.tail.Broken? then ReadFailed(src.tail.error)
    else if pos == |src.data| then AtEof
    else Short(src.data[pos..])
  }

  // ---------------------------------------------------------------------------
  // The multipart session as an automaton

  /** What the client asks of the service during a multipart upload. The
      pool's `UploadPart` calls are recorded when a part is handed to it. */
  datatype Step =
    | InitCall(answer: Option<Bytes>)                  // `InitMultiUpload` and what it returned
    | PartSubmitted(number: int, body: Bytes)          // a part handed to the pool
    | CompleteCall(uploadId: Bytes, ok: bool)          // `CompleteMultiUpload` and whether it succeeded
    | AbortScheduled(uploadId: Bytes)                  // `AbortMultiUpload`, in the background

  /** Where a session stands. */
  datatype Phase =
    | Idle                                  // nothing sent yet
    | Open(uploadId: Bytes, next: int)      // initiated; `next` is the next part number
    | NoSession                             // initiation failed
    | Finished                              // completed
    | Abandoning(uploadId: Bytes)           // completion failed; an abort is owed
    | Aborted                               // an abort is scheduled

  /** The transitions of the session: parts are numbered from 1 without
      gaps, completion and abort name the session's own id, and a failed
      completion may only be followed by an abort. */
  function Next(p: Phase, s: Step): Option<Phase>
  {
    match (p, s)
    case (Idle, InitCall(None)) => Some(NoSession)
    case (Idle, InitCall(Some(id))) => Some(Open(id, 1))
    case (Open(id, k), PartSubmitted(n, _)) => if n == k then Some(Open(id, k + 1)) else None
    case (Open(id, _), CompleteCall(id', ok)) =>
      if id' != id then None else if ok then Some(Finished) else Some(Abandoning(id))
    case (Open(id, _), AbortScheduled(id')) => if id' == id then Some(Aborted) else None
    case (Abandoning(id), AbortScheduled(id')) => if id' == id then Some(Aborted) else None
    case _ => None
  }

  /** The phase a trace leads to, if the automaton accepts every step. */
  function RunFrom(p: Phase, steps: seq<Step>): Option<Phase>
    decreases |steps|
  {
    if |steps| == 0 then Some(p)
    else match Next(p, steps[0])
      case None => None
      case Some(q) => RunFrom(q, steps[1..])
  }

  lemma {:induction false} RunAppend(p: Phase, a: seq<Step>, b: seq<Step>)
    ensures RunFrom(p, a + b) ==
              (if RunFrom(p, a).Some? then RunFrom(RunFrom(p, a).value, b) else None)
    decreases |a|
  {
    if |a| == 0 {
      assert a + b == b;
    } else {
      assert (a + b)[0] == a[0];
      assert (a + b)[1..] == a[1..] + b;
      if Next(p, a[0]).Some? {
        RunAppend(Next(p, a[0]).value, a[1..], b);
      }
    }
  }

  /** The steps that hand `cs` to the pool, numbered from `first`. */
  function PartSteps(cs: seq<Bytes>, first: int): (r: seq<Step>)
    ensures |r| == |cs|
  {
    seq(|cs|, j requires 0 <= j < |cs| => PartSubmitted(first + j, cs[j]))
  }

  lemma PartStepsAppend(a: seq<Bytes>, b: seq<Bytes>, first: int)
    ensures PartSteps(a + b, first) == PartSteps(a, first) + PartSteps(b, first + |a|)
  {
  }

  /** Handing over parts numbered from the expected number keeps a session
      open and moves the expected number past them. */
  lemma {:induction false} RunParts(id: Bytes, k: int, cs: seq<Bytes>)
    ensures RunFrom(Open(id, k), PartSteps(cs, k)) == Some(Open(id, k + |cs|))
    decreases |cs|
  {
    if |cs| > 0 {
      assert PartSteps(cs, k)[1..] == PartSteps(cs[1..], k + 1);
      RunParts(id, k + 1, cs[1..]);
    }
  }

  /** A closed session accepts nothing more. */
  lemma ClosedStays(p: Phase, s: seq<Step>)
    requires p == NoSession || p == Finished || p == Aborted
    ensures RunFrom(p, s).Some? ==> s == []
  {
  }

  /** A session whose completion failed accepts only its abort. */
  lemma AbandoningStays(id: Bytes, s: seq<Step>)
    ensures RunFrom(Abandoning(id), s).Some? ==> s == [] || s == [AbortScheduled(id)]
  {
    if |s| > 0 && s[0] == AbortScheduled(id) {
      ClosedStays(Aborted, s[1..]);
      assert s == [s[0]] + s[1..];
    }
  }

  /** From an open session, every accepted continuation numbers its parts
      consecutively from the expected number, never initiates again, and
      closes only at its end: an abort is the last step, and a completion
      is the last step or a failed one followed by the abort. */
  lemma {:induction false} OpenRuns(id: Bytes, k: int, t: seq<Step>)
    requires RunFrom(Open(id, k), t).Some?
    ensures forall j :: 0 <= j < |t| && t[j].PartSubmitted? ==> t[j].number == k + j
    ensures forall j :: 0 <= j < |t| ==> !t[j].InitCall?
    ensures forall j :: 0 <= j < |t| && t[j].AbortScheduled? ==> j == |t| - 1 && t[j].uploadId == id
    ensures forall j :: 0 <= j < |t| && t[j].CompleteCall? ==>
              t[j].uploadId == id
              && (j == |t| - 1 || (j == |t| - 2 && !t[j].ok && t[j + 1] == AbortScheduled(id)))
    decreases |t|
  {
    if |t| > 0 {
      match t[0]
      case PartSubmitted(n, _) =>
        OpenRuns(id, k + 1, t[1..]);
        forall j | 1 <= j < |t|
          ensures t[j] == t[1..][j - 1]
        {
        }
        forall j | 1 <= j < |t| && t[j].CompleteCall?
          ensures j == |t| - 1 || (j == |t| - 2 && !t[j].ok && t[j + 1] == AbortScheduled(id))
        {
          assert t[1..][j - 1].CompleteCall?;
          if j < |t| - 1 {
            assert t[j + 1] == t[1..][j];
          }
        }
      case CompleteCall(_, ok) =>
        if ok {
          ClosedStays(Finished, t[1..]);
        } else {
          AbandoningStays(id, t[1..]);
          if |t| > 1 {
            assert t[1] == t[1..][0];
          }
        }
      case AbortScheduled(_) =>
        ClosedStays(Aborted, t[1..]);
      case InitCall(_) =>
        assert false;
    }
  }

  /** Every accepted session trace starts with the initiation, numbers its
      parts 1, 2, … by position, and closes only at its end; so a session
      is completed at most once and aborted at most once. */
  lemma SessionShape(t: seq<Step>)
    requires |t| > 0 && RunFrom(Idle, t).Some?
    ensures t[0].InitCall?
    ensures t[0].answer.None? ==> |t| == 1
    ensures forall j :: 0 <= j < |t| && t[j].PartSubmitted? ==> t[j].number == j
    ensures forall j :: 1 <= j < |t| ==> !t[j].InitCall?
    ensures forall j :: 0 <= j < |t| && t[j].AbortScheduled? ==> j == |t| - 1
    ensures forall j :: 0 <= j < |t| && t[j].CompleteCall? ==>
              j == |t| - 1 || (j == |t| - 2 && !t[j].ok && t[j + 1].AbortScheduled?)
  {
    match t[0]
    case InitCall(None) =>
      ClosedStays(NoSession, t[1..]);
    case InitCall(Some(id)) =>
      OpenRuns(id, 1, t[1..]);
      forall j | 1 <= j < |t|
        ensures t[j] == t[1..][j - 1]
      {
      }
      forall j | 1 <= j < |t| && t[j].CompleteCall?
        ensures j == |t| - 1 || (j == |t| - 2 && !t[j].ok && t[j + 1].AbortScheduled?)
      {
        assert t[1..][j - 1].CompleteCall?;
        if j < |t| - 1 {
          assert t[j + 1] == t[1..][j];
        }
      }
    case _ =>
      assert false;
  }

  /** A session trace is legal: the automaton accepts it, it never stops
      owing an abort, and the call succeeded exactly when it ended
      completed. */
  predicate Legal(trace: seq<Step>, outcome: Outcome)
  {
    var p := RunFrom(Idle, trace);
    p.Some? && !p.value.Abandoning? && (outcome.Pass? <==> p.value == Finished)
  }

  // ---------------------------------------------------------------------------
  // Closing a session

  /** What the collaborators answer during one multipart upload. */
  datatype Collaborators = Collaborators(
    init: Result<Bytes>,      // `InitMultiUpload`: the upload id, or its error
    run: nat -> Outcome,      // the pool's answer when handed the i-th part (from 0)
    wait: Outcome,            // `wait(true)`
    complete: Outcome)        // `CompleteMultiUpload`

  /** After the parts: a failed wait schedules an abort and returns the
      wait's error; otherwise completion is asked for, and a failed
      completion schedules an abort and returns completion's error. */
  function Close(id: Bytes, w: Collaborators): (r: (seq<Step>, Outcome))
    ensures |r.0| > 0
    ensures r.1.Pass? <==> w.wait.Pass? && w.complete.Pass?
    ensures r.0[0].CompleteCall? <==> w.wait.Pass?
    ensures r.1.Fail? <==> r.0[|r.0| - 1] == AbortScheduled(id)
    ensures r.1.Fail? ==> r.1 == (if w.wait.Fail? then w.wait else w.complete)
  {
    if w.wait.Fail? then ([AbortScheduled(id)], w.wait)
    else if w.complete.Fail? then ([CompleteCall(id, false), AbortScheduled(id)], w.complete)
    else ([CompleteCall(id, true)], Pass)
  }

  /** Closing an open session always leaves a legal trace, whatever the
      pool and the service answer. */
  lemma CloseLegal(id: Bytes, prefix: seq<Step>, k: int, w: Collaborators)
    requires RunFrom(Idle, prefix) == Some(Open(id, k))
    ensures Legal(prefix + Close(id, w).0, Close(id, w).1)
  {
    var steps := Close(id, w).0;
    RunAppend(Idle, prefix, steps);
    if w.wait.Fail? {
      assert RunFrom(Open(id, k), steps) == RunFrom(Aborted, []);
    } else if w.complete.Fail? {
      assert RunFrom(Open(id, k), steps) == RunFrom(Abandoning(id), steps[1..]);
      assert RunFrom(Abandoning(id), steps[1..]) == RunFrom(Aborted, []);
    } else {
      assert RunFrom(Open(id, k), steps) == RunFrom(Finished, []);
    }
  }

  /** The opening of a session: the initiation and the parts handed over. */
  lemma OpenedLegal(id: Bytes, cs: seq<Bytes>)
    ensures RunFrom(Idle, [InitCall(Some(id))] + PartSteps(cs, 1)) == Some(Open(id, 1 + |cs|))
  {
    RunAppend(Idle, [InitCall(Some(id))], PartSteps(cs, 1));
    RunParts(id, 1, cs);
  }

  /** Every pool answer for the first `n` parts is a success. */
  ghost predicate RunsPass(run: nat -> Outcome, n: nat)
  {
    forall j :: 0 <= j < n ==> run(j).Pass?
  }

  /** The pool accepts every whole `ps`-byte part of `data`. */
  ghost predicate WholePartsPass(run: nat -> Outcome, data: Bytes, ps: nat)
    requires ps >= 1
  {
    RunsPass(run, |data| / ps)
  }

  // ---------------------------------------------------------------------------
  // The two part loops

  /** The session so far: initiated with `id`, the parts `done` handed over
      and accepted by the pool, and the automaton open for the next part. */
  ghost predicate Submitted(id: Bytes, run: nat -> Outcome, done: seq<Bytes>, trace: seq<Step>)
  {
    && trace == [InitCall(Some(id))] + PartSteps(done, 1)
    && RunFrom(Idle, trace) == Some(Open(id, |done| + 1))
    && RunsPass(run, |done|)
  }

  /** Handing over one more part leaves the session open for the part
      after it, and once the pool accepts it the account grows by it. */
  lemma PartAppended(id: Bytes, run: nat -> Outcome, done: seq<Bytes>, b: Bytes, trace: seq<Step>)
    requires Submitted(id, run, done, trace)
    ensures RunFrom(Idle, trace + [PartSubmitted(|done| + 1, b)]) == Some(Open(id, |done| + 2))
    ensures run(|done|).Pass? ==> Submitted(id, run, done + [b], trace + [PartSubmitted(|done| + 1, b)])
  {
    var step := PartSubmitted(|done| + 1, b);
    PartStepsAppend(done, [b], 1);
    assert PartSteps([b], 1 + |done|) == [step];
    ConcatAssoc([InitCall(Some(id))], PartSteps(done, 1), [step]);
    OpenedLegal(id, done + [b]);
  }

  /** A piece read at a whole number of pieces into the bytes extends the
      cut of the bytes read so far, and stays within the cut of all of
      them. */
  lemma PieceRead(data: Bytes, pos: nat, k: nat, b: Bytes, ps: nat)
    requires ps >= 1 && pos == k * ps && 1 <= |b| <= ps && pos + |b| <= |data|
    requires b == data[pos..pos + |b|] && (|b| < ps ==> pos + |b| == |data|)
    ensures Chunks(data[..pos + |b|], ps) == Chunks(data[..pos], ps) + [b]
    ensures |Chunks(data[..pos + |b|], ps)| <= |Chunks(data, ps)|
    ensures |b| == ps ==> pos + |b| == (k + 1) * ps && k + 1 <= |data| / ps
  {
    ChunksStep(data, pos, |b|, ps, k);
    if |b| == ps {
      DivAtLeast(|data|, ps, k + 1);
    }
    if |b| == ps {
      ChunksOfPrefix(data, pos + ps, ps, k + 1);
    } else {
      assert data[..pos + |b|] == data;
    }
  }

  /** The unknown-length loop's account of the reader: `done` is the cut
      of the `pos` bytes read so far; while reading goes on, `pos` is a
      whole number of pieces, and once it stops every byte was read and
      the reader ended with `io.EOF`. */
  ghost predicate Reading(src: Source, ps: nat, pos: nat, done: seq<Bytes>, next: bool)
  {
    && ps >= 1
    && pos <= |src.data|
    && (next ==> pos == |done| * ps)
    && (!next ==> pos == |src.data| && src.tail == EndOfStream)
    && done == Chunks(src.data[..pos], ps)
  }

  /** A full or short read extends the account by the piece read; a short
      one ends it. The pieces never outnumber those of all the bytes, nor,
      for a broken reader, the whole pieces. */
  lemma ReadStep(src: Source, ps: nat, pos: nat, done: seq<Bytes>, r: Read)
    requires Reading(src, ps, pos, done, true)
    requires r == ReadFull(src, pos, ps) && (r.Full? || r.Short?)
    ensures Reading(src, ps, pos + |r.chunk|, done + [r.chunk], r.Full?)
    ensures |done| + 1 <= |Chunks(src.data, ps)|
    ensures src.tail.Broken? ==> |done| + 1 <= |src.data| / ps
  {
    PieceRead(src.data, pos, |done|, r.chunk, ps);
  }

  /** Once reading stops, the account covers every byte. */
  lemma ReadAll(src: Source, ps: nat, pos: nat, done: seq<Bytes>)
    requires Reading(src, ps, pos, done, false)
    ensures done == Chunks(src.data, ps) && src.tail == EndOfStream
  {
    assert src.data[..pos] == src.data;
  }

  /** The bytes that fill whole `ps`-byte parts: everything before the
      partial part at the end, if any. */
  function WholeParts(data: Bytes, ps: nat): (r: Bytes)
    requires ps >= 1
    ensures |r| == |data| / ps * ps && |data| - ps < |r| <= |data|
    ensures r == data[..|r|]
  {
    assert |data| == |data| / ps * ps + |data| % ps;
    data[..|data| - |data| % ps]
  }

  /** `k` whole pieces and a remainder shorter than a piece. */
  lemma WholePieces(data: Bytes, pos: nat, k: nat, ps: nat)
    requires ps >= 1 && pos == k * ps <= |data| < pos + ps
    ensures |data| / ps == k && WholeParts(data, ps) == data[..pos]
  {
    DivBetween(|data|, ps, k);
  }

  /** The error `io.ReadFull` returns for the read that runs past the end
      of a source cut into `ps`-byte parts: the reader's own error, `io.EOF`
      when the read starts exactly at the end of the bytes, and
      `io.ErrUnexpectedEOF` when it starts inside them. */
  function ShortSourceError(src: Source, ps: nat): Error
    requires ps >= 1
  {
    match src.tail
    case Broken(e) => e
    case EndOfStream => if |src.data| % ps == 0 then Eof else UnexpectedEof
  }

  /** A read from a whole number of parts that the bytes cannot fill
      starts at the last whole part, and `io.ReadFull` reports the
      source's short error. */
  lemma ShortRead(src: Source, pos: nat, k: nat, ps: nat, n: nat)
    requires ps >= 1 && pos == k * ps <= |src.data| < pos + n && 1 <= n <= ps
    ensures |src.data| / ps == k && WholeParts(src.data, ps) == src.data[..pos]
    ensures match ReadFull(src, pos, n)
            case ReadFailed(e) => e == ShortSourceError(src, ps)
            case AtEof => Eof == ShortSourceError(src, ps)
            case Short(_) => UnexpectedEof == ShortSourceError(src, ps)
            case Full(_) => false
  {
    WholePieces(src.data, pos, k, ps);
    assert |src.data| == k * ps + |src.data| % ps;
  }

  /** How far into the bytes the known-length loop has cut: its offset,
      capped by the length. */
  function Reached(total: int, contentLength: int): int
  {
    if total < contentLength then total else contentLength
  }

  /** The known-length loop's account after `total` bytes: `done` holds
      whole parts; when the source has `contentLength` bytes, it is the cut
      of the bytes reached so far; when it has fewer, it is the cut of the
      `total` bytes read, all of them inside the source. */
  ghost predicate Known(src: Source, ps: nat, contentLength: int, total: int, done: seq<Bytes>)
  {
    && ps >= 1 && 0 <= total && total == |done| * ps
    && (total < contentLength || |src.data| < contentLength ==> total <= |src.data|)
    && (0 <= contentLength <= |src.data| ==> done == Chunks(src.data[..Reached(total, contentLength)], ps))
    && (|src.data| < contentLength ==> done == Chunks(src.data[..total], ps))
  }

  /** A read that fills its buffer extends the account by the part read;
      for a source too short, that part is one of its whole parts. */
  lemma KnownStep(src: Source, ps: nat, contentLength: int, total: int, done: seq<Bytes>, n: nat)
    requires Known(src, ps, contentLength, total, done) && total < contentLength
    requires n == (if total + ps > contentLength then contentLength - total else ps)
    requires ReadFull(src, total, n).Full?
    ensures Known(src, ps, contentLength, total + ps, done + [ReadFull(src, total, n).chunk])
    ensures 0 <= contentLength <= |src.data| ==> |done| + 1 <= |Chunks(src.data[..contentLength], ps)|
    ensures |src.data| < contentLength ==> |done| + 1 <= |src.data| / ps
  {
    var b := ReadFull(src, total, n).chunk;
    if contentLength <= |src.data| {
      KnownPiece(src.data, total, n, ps, |done|, contentLength);
    } else {
      PieceRead(src.data, total, |done|, b, ps);
    }
    assert (|done| + 1) * ps == |done| * ps + ps;
  }

  /** A read that cannot fill its buffer happens only when the source is
      too short, after exactly its whole parts, and reports the source's
      short error. */
  lemma KnownShort(src: Source, ps: nat, contentLength: int, total: int, done: seq<Bytes>, n: nat)
    requires Known(src, ps, contentLength, total, done) && total < contentLength
    requires n == (if total + ps > contentLength then contentLength - total else ps)
    requires !ReadFull(src, total, n).Full?
    ensures |src.data| < contentLength && done == Chunks(WholeParts(src.data, ps), ps)
    ensures match ReadFull(src, total, n)
            case ReadFailed(e) => e == ShortSourceError(src, ps)
            case AtEof => Eof == ShortSourceError(src, ps)
            case Short(_) => UnexpectedEof == ShortSourceError(src, ps)
            case Full(_) => false
  {
    ShortRead(src, total, |done|, ps, n);
  }

  /** A full part read at a whole number of parts into the first
      `contentLength` bytes extends the cut of the bytes read so far; the
      last part ends exactly at `contentLength`. */
  lemma KnownPiece(data: Bytes, total: nat, n: nat, ps: nat, k: nat, contentLength: int)
    requires ps >= 1 && total == k * ps && total < contentLength <= |data|
    requires n == (if total + ps > contentLength then contentLength - total else ps)
    ensures Reached(total + ps, contentLength) == total + n
    ensures Chunks(data[..total + n], ps) == Chunks(data[..total], ps) + [data[total..total + n]]
    ensures |Chunks(data[..total + n], ps)| <= |Chunks(data[..contentLength], ps)|
  {
    ChunksStep(data, total, n, ps, k);
    if total + n < contentLength {
      var whole := data[..contentLength];
      assert whole[..total + n] == data[..total + n];
      ChunksOfPrefix(whole, total + n, ps, k + 1);
    }
  }

  /** `UploadFromReader`'s loop (length unknown): `ps`-byte buffers are read
      until `io.EOF`; a short read is the last part; any other read error
      or a refused part ends the call at once, leaving the session open. */
  method UploadUnknownLength(ps: int, src: Source, w: Collaborators)
    returns (trace: seq<Step>, outcome: Outcome)
    requires ps >= 1
    ensures Legal(trace, outcome)
    ensures w.init.Err? ==> trace == [InitCall(None)] && outcome == Fail(w.init.error)
    ensures w.init.Ok? && src.tail == EndOfStream && RunsPass(w.run, |Chunks(src.data, ps)|) ==>
              var close := Close(w.init.value, w);
              trace == [InitCall(Some(w.init.value))] + PartSteps(Chunks(src.data, ps), 1) + close.0
              && outcome == close.1
    ensures w.init.Ok? && src.tail.Broken? && WholePartsPass(w.run, src.data, ps) ==>
              trace == [InitCall(Some(w.init.value))] + PartSteps(Chunks(WholeParts(src.data, ps), ps), 1)
              && outcome == Fail(src.tail.error)
  {
    if w.init.Err? {
      return [InitCall(None)], Fail(w.init.error);
    }
    var id := w.init.value;
    trace := [InitCall(Some(id))];
    ghost var done: seq<Bytes> := [];
    var pos := 0;
    var i := 1;
    var next := true;
    OpenedLegal(id, done);
    while next
      invariant i == |done| + 1
      invariant Reading(src, ps, pos, done, next)
      invariant Submitted(id, w.run, done, trace)
      decreases |src.data| - pos, if next then 1 else 0
    {
      var r := ReadFull(src, pos, ps);
      if r.AtEof? {
        break;
      }
      if r.ReadFailed? {
        WholePieces(src.data, pos, |done|, ps);
        return trace, Fail(r.error);
      }
      var b := r.chunk;
      ReadStep(src, ps, pos, done, r);
      PartAppended(id, w.run, done, b, trace);
      if r.Short? {
        next := false;
      }
      trace := trace + [PartSubmitted(i, b)];
      done := done + [b];
      var answer := w.run(i - 1);
      if answer.Fail? {
        return trace, answer;
      }
      pos := pos + |b|;
      i := i + 1;
    }
    ReadAll(src, ps, pos, done);
    var close := Close(id, w);
    CloseLegal(id, trace, i, w);
    trace := trace + close.0;
    outcome := close.1;
  }

  /** `multiUploadFromReaderWithSize`'s loop (length known): parts of `ps`
      bytes, the last one sized to reach `contentLength`; every read must
      fill its buffer, and any read error or a refused part ends the call
      at once, leaving the session open. */
  method UploadKnownLength(ps: int, contentLength: int, src: Source, w: Collaborators)
    returns (trace: seq<Step>, outcome: Outcome)
    requires ps >= 1
    ensures Legal(trace, outcome)
    ensures w.init.Err? ==> trace == [InitCall(None)] && outcome == Fail(w.init.error)
    ensures w.init.Ok? && 0 <= contentLength <= |src.data| && RunsPass(w.run, |Chunks(src.data[..contentLength], ps)|) ==>
              var close := Close(w.init.value, w);
              trace == [InitCall(Some(w.init.value))] + PartSteps(Chunks(src.data[..contentLength], ps), 1) + close.0
              && outcome == close.1
    ensures w.init.Ok? && |src.data| < contentLength ==>
              RunFrom(Idle, trace).value.Open? && outcome.Fail?
    ensures w.init.Ok? && |src.data| < contentLength && WholePartsPass(w.run, src.data, ps) ==>
              trace == [InitCall(Some(w.init.value))] + PartSteps(Chunks(WholeParts(src.data, ps), ps), 1)
              && outcome == Fail(ShortSourceError(src, ps))
  {
    if w.init.Err? {
      return [InitCall(None)], Fail(w.init.error);
    }
    var id := w.init.value;
    trace := [InitCall(Some(id))];
    ghost var done: seq<Bytes> := [];
    var total := 0;
    var i := 1;
    OpenedLegal(id, done);
    while total < contentLength
      invariant Known(src, ps, contentLength, total, done)
      invariant i == |done| + 1
      invariant Submitted(id, w.run, done, trace)
      decreases contentLength - total
    {
      var n := if total + ps > contentLength then contentLength - total else ps;
      var r := ReadFull(src, total, n);
      if !r.Full? {
        KnownShort(src, ps, contentLength, total, done, n);
        outcome := match r
          case ReadFailed(e) => Fail(e)
          case AtEof => Fail(Eof)
          case _ => Fail(UnexpectedEof);
        return;
      }
      var b := r.chunk;
      KnownStep(src, ps, contentLength, total, done, n);
      PartAppended(id, w.run, done, b, trace);
      trace := trace + [PartSubmitted(i, b)];
      done := done + [b];
      var answer := w.run(i - 1);
      if answer.Fail? {
        return trace, answer;
      }
      total := total + ps;
      i := i + 1;
    }
    var close := Close(id, w);
    CloseLegal(id, trace, i, w);
    trace := trace + close.0;
    outcome := close.1;
  }

  // ---------------------------------------------------------------------------
  // What a trace uploads

  /** The bodies of the parts a trace hands over, in order. */
  function PartsOf(trace: seq<Step>): seq<Bytes>
  {
    if |trace| == 0 then []
    else (if trace[0].PartSubmitted? then [trace[0].body] else []) + PartsOf(trace[1..])
  }

  lemma {:induction false} PartsOfAppend(a: seq<Step>, b: seq<Step>)
    ensures PartsOf(a + b) == PartsOf(a) + PartsOf(b)
    decreases |a|
  {
    if |a| == 0 {
      assert a + b == b;
    } else {
      assert (a + b)[0] == a[0] && (a + b)[1..] == a[1..] + b;
      PartsOfAppend(a[1..], b);
      ConcatAssoc(if a[0].PartSubmitted? then [a[0].body] else [], PartsOf(a[1..]), PartsOf(b));
    }
  }

  lemma {:induction false} PartsOfSteps(cs: seq<Bytes>, first: int)
    ensures PartsOf(PartSteps(cs, first)) == cs
    decreases |cs|
  {
    if |cs| > 0 {
      assert PartSteps(cs, first)[1..] == PartSteps(cs[1..], first + 1);
      PartsOfSteps(cs[1..], first + 1);
    }
  }

  /** The closing steps hand over no part. */
  lemma CloseAddsNoParts(id: Bytes, w: Collaborators)
    ensures PartsOf(Close(id, w).0) == []
  {
    var tail := Close(id, w).0;
    if |tail| == 2 {
      assert tail[1..][1..] == [];
      assert PartsOf(tail[1..]) == [] + PartsOf(tail[1..][1..]);
    } else {
      assert tail[1..] == [];
    }
  }

  /** A session that opens, hands over `cs` and closes uploads `cs`, in
      order. */
  lemma SessionParts(id: Bytes, cs: seq<Bytes>, w: Collaborators)
    ensures PartsOf([InitCall(Some(id))] + PartSteps(cs, 1) + Close(id, w).0) == cs
  {
    PartsOfAppend([InitCall(Some(id))] + PartSteps(cs, 1), Close(id, w).0);
    PartsOfAppend([InitCall(Some(id))], PartSteps(cs, 1));
    PartsOfSteps(cs, 1);
    CloseAddsNoParts(id, w);
    assert PartsOf([InitCall(Some(id))]) == [] + PartsOf([]);
  }

  /** A session that hands over the cut of `data` uploads exactly `data`:
      the parts put back together in their numbering order are the bytes. */
  lemma SessionUploads(id: Bytes, data: Bytes, ps: nat, w: Collaborators)
    requires ps >= 1
    ensures Flatten(PartsOf([InitCall(Some(id))] + PartSteps(Chunks(data, ps), 1) + Close(id, w).0)) == data
  {
    SessionParts(id, Chunks(data, ps), w);
    ChunksFlatten(data, ps);
  }

  /** A session stopped after handing over the cut of `data` has uploaded
      exactly `data`. */
  lemma StoppedUploads(id: Bytes, data: Bytes, ps: nat)
    requires ps >= 1
    ensures Flatten(PartsOf([InitCall(Some(id))] + PartSteps(Chunks(data, ps), 1))) == data
  {
    PartsOfAppend([InitCall(Some(id))], PartSteps(Chunks(data, ps), 1));
    PartsOfSteps(Chunks(data, ps), 1);
    assert [InitCall(Some(id))][1..] == [];
    assert PartsOf([InitCall(Some(id))]) == [];
    assert PartsOf([InitCall(Some(id))] + PartSteps(Chunks(data, ps), 1)) == [] + Chunks(data, ps) == Chunks(data, ps);
    ChunksFlatten(data, ps);
  }

  // ---------------------------------------------------------------------------
  // The public upload operations

  /** What an upload call did: nothing (rejected before any request), one
      PUT of the given length, or a multipart session. */
  datatype Transfer =
    | NotStarted(error: Error)
    | SinglePut(contentLength: int, result: Outcome)
    | Multipart(trace: seq<Step>, result: Outcome)
  {
    function Outcome(): Outcome
    {
      match this
      case NotStarted(e) => Fail(e)
      case SinglePut(_, o) => o
      case Multipart(_, o) => o
    }
  }

  /** `upload` and `uploadFromReaderWithSize`: one PUT, classified by
      `sendHttp`. */
  function Put(id: Bytes, reply: Http.Reply): (r: Outcome)
    ensures r.Pass? <==> Http.SendHttp("PUT", Http.RequestPath(id), reply).Ok?
    ensures r.Fail? ==> r.error == Http.SendHttp("PUT", Http.RequestPath(id), reply).error
  {
    match Http.SendHttp("PUT", Http.RequestPath(id), reply)
    case Ok(_) => Pass
    case Err(e) => Fail(e)
  }

  /** The upload of `contentLength` bytes from `src` once the id is valid:
      multipart when `useMultipart` holds, else one PUT. */
  method SizedUpload(c: Sizing.Config, id: Bytes, contentLength: int, src: Source,
                     put: Http.Reply, w: Collaborators) returns (r: Transfer)
    ensures r.SinglePut? <==> !Sizing.UseMultipart(c, contentLength)
    ensures r.SinglePut? ==> r.contentLength == contentLength && r.result == Put(id, put)
    ensures r.Multipart? ==> Legal(r.trace, r.result)
    ensures r.Multipart? && w.init.Ok? && 0 <= contentLength <= |src.data|
            && RunsPass(w.run, |Chunks(src.data[..contentLength], Sizing.PartSize(c))|) ==>
              Flatten(PartsOf(r.trace)) == src.data[..contentLength]
              && r.result == Close(w.init.value, w).1
    ensures r.Multipart? && w.init.Ok? && |src.data| < contentLength ==> r.result.Fail?
    ensures var ps := Sizing.PartSize(c);
            r.Multipart? && w.init.Ok? && |src.data| < contentLength && WholePartsPass(w.run, src.data, ps) ==>
              Flatten(PartsOf(r.trace)) == WholeParts(src.data, ps)
              && r.result == Fail(ShortSourceError(src, ps))
    ensures !r.NotStarted?
  {
    if Sizing.UseMultipart(c, contentLength) {
      r := KnownLengthSession(Sizing.PartSize(c), contentLength, src, w);
      return;
    }
    return SinglePut(contentLength, Put(id, put));
  }

  /** A multipart upload of `contentLength` bytes in `ps`-byte parts, and
      what it uploads: the first `contentLength` bytes when the source has
      them, otherwise the whole parts before the failing read. */
  method KnownLengthSession(ps: int, contentLength: int, src: Source, w: Collaborators) returns (r: Transfer)
    requires ps >= 1
    ensures r.Multipart? && Legal(r.trace, r.result)
    ensures w.init.Ok? && 0 <= contentLength <= |src.data|
            && RunsPass(w.run, |Chunks(src.data[..contentLength], ps)|) ==>
              Flatten(PartsOf(r.trace)) == src.data[..contentLength]
              && r.result == Close(w.init.value, w).1
    ensures w.init.Ok? && |src.data| < contentLength ==> r.result.Fail?
    ensures w.init.Ok? && |src.data| < contentLength && WholePartsPass(w.run, src.data, ps) ==>
              Flatten(PartsOf(r.trace)) == WholeParts(src.data, ps)
              && r.result == Fail(ShortSourceError(src, ps))
  {
    var trace, outcome := UploadKnownLength(ps, contentLength, src, w);
    if w.init.Ok? && 0 <= contentLength <= |src.data| {
      SessionUploads(w.init.value, src.data[..contentLength], ps, w);
    }
    if w.init.Ok? && |src.data| < contentLength {
      StoppedUploads(w.init.value, WholeParts(src.data, ps), ps);
    }
    return Multipart(trace, outcome);
  }

  /** `Upload`: a body held in memory, multipart when its length calls for
      it. */
  method Upload(c: Sizing.Config, fileId: Bytes, body: Bytes, put: Http.Reply, w: Collaborators)
    returns (r: Transfer)
    ensures Paths.SuitFileId(fileId) == [] ==> r == NotStarted(InvalidFileId)
    ensures r.SinglePut? <==> Paths.SuitFileId(fileId) != [] && !Sizing.UseMultipart(c, |body|)
    ensures Paths.SuitFileId(fileId) != [] ==> !r.NotStarted?
    ensures r.SinglePut? ==> r.contentLength == |body| && r.result == Put(Paths.SuitFileId(fileId), put)
    ensures r.Multipart? ==> Legal(r.trace, r.result)
    ensures r.Multipart? && w.init.Ok? && RunsPass(w.run, |Chunks(body, Sizing.PartSize(c))|) ==>
              Flatten(PartsOf(r.trace)) == body && r.result == Close(w.init.value, w).1
  {
    var id := Paths.SuitFileId(fileId);
    if id == [] {
      return NotStarted(InvalidFileId);
    }
    assert body[..|body|] == body;
    r := SizedUpload(c, id, |body|, Source(body, EndOfStream), put, w);
  }

  /** `UploadFromReaderWithSize`: the caller's length decides the mode; a
      multipart upload sends exactly that many bytes of the reader. */
  method UploadFromReaderWithSize(c: Sizing.Config, fileId: Bytes, contentLength: int, src: Source,
                                  put: Http.Reply, w: Collaborators) returns (r: Transfer)
    ensures Paths.SuitFileId(fileId) == [] ==> r == NotStarted(InvalidFileId)
    ensures r.SinglePut? <==> Paths.SuitFileId(fileId) != [] && !Sizing.UseMultipart(c, contentLength)
    ensures Paths.SuitFileId(fileId) != [] ==> !r.NotStarted?
    ensures r.SinglePut? ==> r.contentLength == contentLength && r.result == Put(Paths.SuitFileId(fileId), put)
    ensures r.Multipart? ==> Legal(r.trace, r.result)
    ensures r.Multipart? && w.init.Ok? && 0 <= contentLength <= |src.data|
            && RunsPass(w.run, |Chunks(src.data[..contentLength], Sizing.PartSize(c))|) ==>
              Flatten(PartsOf(r.trace)) == src.data[..contentLength]
              && r.result == Close(w.init.value, w).1
    ensures r.Multipart? && w.init.Ok? && |src.data| < contentLength ==> r.result.Fail?
    ensures r.Multipart? && w.init.Ok? && |src.data| < contentLength
            && WholePartsPass(w.run, src.data, Sizing.PartSize(c)) ==>
              Flatten(PartsOf(r.trace)) == WholeParts(src.data, Sizing.PartSize(c))
              && r.result == Fail(ShortSourceError(src, Sizing.PartSize(c)))
  {
    var id := Paths.SuitFileId(fileId);
    if id == [] {
      return NotStarted(InvalidFileId);
    }
    r := SizedUpload(c, id, contentLength, src, put, w);
  }

  /** `UploadFromDisk`: the file's size from `stat` decides the mode; a
      failing `stat` or `open` ends the call before any request. */
  method UploadFromDisk(c: Sizing.Config, fileId: Bytes, stat: Result<int>, open: Outcome, src: Source,
                        put: Http.Reply, w: Collaborators) returns (r: Transfer)
    ensures Paths.SuitFileId(fileId) == [] ==> r == NotStarted(InvalidFileId)
    ensures Paths.SuitFileId(fileId) != [] && stat.Err? ==> r == NotStarted(stat.error)
    ensures Paths.SuitFileId(fileId) != [] && stat.Ok? && open.Fail? ==> r == NotStarted(open.error)
    ensures !r.NotStarted? ==> stat.Ok? && open.Pass? && (r.SinglePut? <==> !Sizing.UseMultipart(c, stat.value))
    ensures Paths.SuitFileId(fileId) != [] && stat.Ok? && open.Pass? ==> !r.NotStarted?
    ensures r.SinglePut? ==> r.contentLength == stat.value && r.result == Put(Paths.SuitFileId(fileId), put)
    ensures r.Multipart? ==> Legal(r.trace, r.result)
    ensures r.Multipart? && w.init.Ok? && stat.value == |src.data|
            && RunsPass(w.run, |Chunks(src.data, Sizing.PartSize(c))|) ==>
              Flatten(PartsOf(r.trace)) == src.data && r.result == Close(w.init.value, w).1
    ensures r.Multipart? && w.init.Ok? && |src.data| < stat.value
            && WholePartsPass(w.run, src.data, Sizing.PartSize(c)) ==>
              Flatten(PartsOf(r.trace)) == WholeParts(src.data, Sizing.PartSize(c))
              && r.result == Fail(ShortSourceError(src, Sizing.PartSize(c)))
  {
    var id := Paths.SuitFileId(fileId);
    if id == [] {
      return NotStarted(InvalidFileId);
    }
    if stat.Err? {
      return NotStarted(stat.error);
    }
    if open.Fail? {
      return NotStarted(open.error);
    }
    assert src.data[..|src.data|] == src.data;
    r := SizedUpload(c, id, stat.value, src, put, w);
  }

  /** `UploadFromReader`: always a multipart session, whatever the length;
      with a reader that ends in `io.EOF` the parts uploaded are exactly
      the reader's bytes — none at all for an empty reader. */
  method UploadFromReader(c: Sizing.Config, fileId: Bytes, src: Source, w: Collaborators)
    returns (r: Transfer)
    ensures Paths.SuitFileId(fileId) == [] ==> r == NotStarted(InvalidFileId)
    ensures Paths.SuitFileId(fileId) != [] ==> r.Multipart? && Legal(r.trace, r.result)
    ensures r.Multipart? && w.init.Ok? && src.tail == EndOfStream
            && RunsPass(w.run, |Chunks(src.data, Sizing.PartSize(c))|) ==>
              Flatten(PartsOf(r.trace)) == src.data && r.result == Close(w.init.value, w).1
    ensures r.Multipart? && w.init.Ok? && src.tail == EndOfStream && |src.data| == 0 ==>
              PartsOf(r.trace) == []
  {
    var id := Paths.SuitFileId(fileId);
    if id == [] {
      return NotStarted(InvalidFileId);
    }
    var trace, outcome := UploadUnknownLength(Sizing.PartSize(c), src, w);
    if w.init.Ok? && src.tail == EndOfStream {
      SessionUploads(w.init.value, src.data, Sizing.PartSize(c), w);
      if |src.data| == 0 {
        SessionParts(w.init.value, [], w);
      }
    }
    return Multipart(trace, outcome);
  }
}
