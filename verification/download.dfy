/** The public download operations (download_impl.go): id validation,
    the HEAD size probe, the choice between one whole-object GET and ranged
    GETs through the worker pool, and the clean-up of `DownloadToDisk`.

    The transport, the pool, the destination writer and the filesystem are
    collaborators whose answers are given in a `World`. */
module Download {
  import opened Text
  import opened Outcomes
  import Paths
  import Sizing
  import Http
  import RangePlan

  /** The answers the collaborators give during one call. */
  datatype World = World(
    head: Http.Reply,          // the HEAD size probe
    get: Http.Reply,           // the whole-object GET
    copy: Outcome,             // copying the body or stream to the destination
    run: nat -> Outcome,       // the pool's answer to the i-th submitted range
    wait: Outcome,             // the pool's final answer
    mkdir: Outcome,            // creating the destination directory
    open: Outcome)             // creating the destination file

  /** How the object was fetched: not at all, by one GET, or by ranged GETs
      (those submitted, and the pool's outcome). */
  datatype Fetch = NoFetch | Whole | Ranged(submitted: seq<RangePlan.Range>, pool: Outcome)

  /** What one call did: whether it sent the HEAD probe, the size it
      worked with, how it fetched, and what it returned. */
  datatype Run = Run(probed: bool, size: int, fetch: Fetch, outcome: Outcome)

  function Rejected(): Run
  {
    Run(false, 0, NoFetch, Fail(InvalidFileId))
  }

  /** Fetching an object of known size into a stream (`Download`,
      `DownloadToWriter`, `DownloadToWriterWithSize`): ranged through the
      reader loop when `useMultipart` holds, else one GET. */
  function ToStream(c: Sizing.Config, id: Bytes, size: int, probed: bool, w: World): (r: Run)
    ensures r.fetch != NoFetch && r.size == size && r.probed == probed
    ensures ModeFollowsSize(c, r)
    ensures r.fetch.Ranged? ==> r.outcome.Pass?
    ensures r.fetch.Whole? ==> (r.outcome.Pass? <==> Http.SendHttp("GET", Http.RequestPath(id), w.get).Ok?)
    ensures r.fetch.Whole? && Http.SendHttp("GET", Http.RequestPath(id), w.get).Err? ==>
              r.outcome == Fail(Http.SendHttp("GET", Http.RequestPath(id), w.get).error)
  {
    if Sizing.UseMultipart(c, size) then
      var s := RangePlan.Submit(RangePlan.ReaderTiling(size, Sizing.PartSize(c)), w.run, w.wait);
      Run(probed, size, Ranged(s.submitted, s.outcome), Pass)
    else
      match Http.SendHttp("GET", Http.RequestPath(id), w.get)
      case Err(e) => Run(probed, size, Whole, Fail(e))
      case Ok(_) => Run(probed, size, Whole, Pass)
  }

  /** Fetching into a `WriterAt` (`DownloadToWriterAt`, `DownloadToDisk`):
      ranged through the `WriterAt` loop, whose outcome is the call's, or
      one GET whose body is copied. */
  function ToWriterAt(c: Sizing.Config, id: Bytes, size: int, w: World): (r: Run)
    ensures r.fetch != NoFetch && r.size == size && r.probed
    ensures ModeFollowsSize(c, r)
    ensures r.fetch.Ranged? ==> r.outcome == r.fetch.pool
    ensures r.fetch.Whole? ==>
              (r.outcome.Pass? <==> Http.SendHttp("GET", Http.RequestPath(id), w.get).Ok? && w.copy.Pass?)
    ensures var get := Http.SendHttp("GET", Http.RequestPath(id), w.get);
            r.fetch.Whole? ==> (get.Err? ==> r.outcome == Fail(get.error)) && (get.Ok? ==> r.outcome == w.copy)
  {
    if Sizing.UseMultipart(c, size) then
      var s := RangePlan.Submit(RangePlan.Tiling(size, Sizing.PartSize(c)), w.run, w.wait);
      Run(true, size, Ranged(s.submitted, s.outcome), s.outcome)
    else
      match Http.SendHttp("GET", Http.RequestPath(id), w.get)
      case Err(e) => Run(true, size, Whole, Fail(e))
      case Ok(_) => Run(true, size, Whole, w.copy)
  }

  /** The mode rule shared by every download: ranged exactly when
      `useMultipart` holds for the size in hand. */
  predicate ModeFollowsSize(c: Sizing.Config, r: Run)
  {
    r.fetch != NoFetch ==> (r.fetch.Ranged? <==> Sizing.UseMultipart(c, r.size))
  }

  /** `Download`: the stream is returned at once; with ranged GETs a failure
      surfaces when the stream is read. The size comes from the HEAD. */
  function Download(c: Sizing.Config, fileId: Bytes, w: World): (r: Run)
    ensures Paths.SuitFileId(fileId) == [] ==> r == Rejected()
    ensures Paths.SuitFileId(fileId) != [] ==> r.probed
    ensures r.fetch != NoFetch <==> Paths.SuitFileId(fileId) != [] && Http.GetFileSize(Paths.SuitFileId(fileId), w.head).Ok?
    ensures r.fetch != NoFetch ==> r.size == Http.GetFileSize(Paths.SuitFileId(fileId), w.head).value
    ensures ModeFollowsSize(c, r)
    ensures r.fetch.Ranged? ==> r.outcome.Pass?
    ensures var id := Paths.SuitFileId(fileId);
            id != [] && Http.GetFileSize(id, w.head).Err? ==> r.outcome == Fail(Http.GetFileSize(id, w.head).error)
    ensures var get := Http.SendHttp("GET", Http.RequestPath(Paths.SuitFileId(fileId)), w.get);
            r.fetch.Whole? ==> (r.outcome.Pass? <==> get.Ok?) && (get.Err? ==> r.outcome == Fail(get.error))
  {
    var id := Paths.SuitFileId(fileId);
    if id == [] then Rejected()
    else
      match Http.GetFileSize(id, w.head)
      case Err(e) => Run(true, 0, NoFetch, Fail(e))
      case Ok(size) => ToStream(c, id, size, true, w)
  }

  /** The copy ends a stream download that got its stream. `copy` is what
      the destination writer makes of the bytes it is handed. With ranged
      GETs the stream is the pool's: a failed range closes it with that
      error (`CloseByError`), which the copy then returns unless the writer
      failed first. */
  function CopyStream(r: Run, w: World): Run
  {
    if r.outcome.Fail? || r.fetch == NoFetch then r
    else if r.fetch.Ranged? && w.copy.Pass? then r.(outcome := r.fetch.pool)
    else r.(outcome := w.copy)
  }

  /** `DownloadToWriter`: `Download`, then the stream copied to the writer. */
  function DownloadToWriter(c: Sizing.Config, fileId: Bytes, w: World): (r: Run)
    ensures Paths.SuitFileId(fileId) == [] ==> r == Rejected()
    ensures r.fetch == Download(c, fileId, w).fetch && r.probed == Download(c, fileId, w).probed
    ensures r.outcome.Pass? ==> w.copy.Pass? && r.fetch != NoFetch
    ensures r.fetch.Ranged? ==> (r.outcome.Pass? <==> w.copy.Pass? && r.fetch.pool.Pass?)
    ensures r.fetch.Ranged? && w.copy.Pass? ==> r.outcome == r.fetch.pool
    ensures ModeFollowsSize(c, r)
    ensures var id := Paths.SuitFileId(fileId);
            id != [] && Http.GetFileSize(id, w.head).Err? ==> r.outcome == Fail(Http.GetFileSize(id, w.head).error)
    ensures var get := Http.SendHttp("GET", Http.RequestPath(Paths.SuitFileId(fileId)), w.get);
            r.fetch.Whole? ==> (r.outcome.Pass? <==> get.Ok? && w.copy.Pass?)
                               && (get.Err? ==> r.outcome == Fail(get.error))
                               && (get.Ok? ==> r.outcome == w.copy)
  {
    CopyStream(Download(c, fileId, w), w)
  }

  /** `DownloadToWriterWithSize`: like `DownloadToWriter` with the caller's
      length in place of the probe; no HEAD is sent. */
  function DownloadToWriterWithSize(c: Sizing.Config, fileId: Bytes, contentLength: int, w: World): (r: Run)
    ensures Paths.SuitFileId(fileId) == [] ==> r == Rejected()
    ensures !r.probed
    ensures Paths.SuitFileId(fileId) != [] ==> r.fetch != NoFetch && r.size == contentLength
    ensures r.outcome.Pass? ==> w.copy.Pass? && r.fetch != NoFetch
    ensures r.fetch.Ranged? ==> (r.outcome.Pass? <==> w.copy.Pass? && r.fetch.pool.Pass?)
    ensures r.fetch.Ranged? && w.copy.Pass? ==> r.outcome == r.fetch.pool
    ensures ModeFollowsSize(c, r)
    ensures var get := Http.SendHttp("GET", Http.RequestPath(Paths.SuitFileId(fileId)), w.get);
            r.fetch.Whole? ==> (r.outcome.Pass? <==> get.Ok? && w.copy.Pass?)
                               && (get.Err? ==> r.outcome == Fail(get.error))
                               && (get.Ok? ==> r.outcome == w.copy)
  {
    var id := Paths.SuitFileId(fileId);
    if id == [] then Rejected()
    else CopyStream(ToStream(c, id, contentLength, false, w), w)
  }

  /** `DownloadToWriterAt`. */
  function DownloadToWriterAt(c: Sizing.Config, fileId: Bytes, w: World): (r: Run)
    ensures Paths.SuitFileId(fileId) == [] ==> r == Rejected()
    ensures r.fetch != NoFetch <==> Paths.SuitFileId(fileId) != [] && Http.GetFileSize(Paths.SuitFileId(fileId), w.head).Ok?
    ensures ModeFollowsSize(c, r)
    ensures r.fetch.Ranged? ==> r.outcome == r.fetch.pool
    ensures var id := Paths.SuitFileId(fileId);
            id != [] && Http.GetFileSize(id, w.head).Err? ==> r.outcome == Fail(Http.GetFileSize(id, w.head).error)
    ensures var get := Http.SendHttp("GET", Http.RequestPath(Paths.SuitFileId(fileId)), w.get);
            r.fetch.Whole? ==> (r.outcome.Pass? <==> get.Ok? && w.copy.Pass?)
                               && (get.Err? ==> r.outcome == Fail(get.error))
                               && (get.Ok? ==> r.outcome == w.copy)
  {
    var id := Paths.SuitFileId(fileId);
    if id == [] then Rejected()
    else
      match Http.GetFileSize(id, w.head)
      case Err(e) => Run(true, 0, NoFetch, Fail(e))
      case Ok(size) => ToWriterAt(c, id, size, w)
  }

  /** `DownloadToDisk`'s result: the run, whether the destination file was
      created, and whether it was removed again. */
  datatype DiskRun = DiskRun(run: Run, created: bool, removed: bool)

  /** `DownloadToDisk`: after the probe, the directory and the file are
      created; any failure after that removes the file. */
  function DownloadToDisk(c: Sizing.Config, fileId: Bytes, w: World): (r: DiskRun)
    ensures Paths.SuitFileId(fileId) == [] ==> r.run == Rejected() && !r.created
    ensures r.removed <==> r.created && r.run.outcome.Fail?
    ensures r.created <==> r.run.fetch != NoFetch
    ensures r.created ==> w.mkdir.Pass? && w.open.Pass?
    ensures ModeFollowsSize(c, r.run)
    ensures var id := Paths.SuitFileId(fileId);
            id != [] ==>
              match Http.GetFileSize(id, w.head)
              case Err(e) => r.run.outcome == Fail(e) && !r.created
              case Ok(_) =>
                && (w.mkdir.Fail? ==> r.run.outcome == w.mkdir && !r.created)
                && (w.mkdir.Pass? && w.open.Fail? ==> r.run.outcome == w.open && !r.created)
                && (w.mkdir.Pass? && w.open.Pass? ==> r.created)
  {
    var id := Paths.SuitFileId(fileId);
    if id == [] then DiskRun(Rejected(), false, false)
    else
      match Http.GetFileSize(id, w.head)
      case Err(e) => DiskRun(Run(true, 0, NoFetch, Fail(e)), false, false)
      case Ok(size) =>
        if w.mkdir.Fail? then DiskRun(Run(true, size, NoFetch, w.mkdir), false, false)
        else if w.open.Fail? then DiskRun(Run(true, size, NoFetch, w.open), false, false)
        else
          var run := ToWriterAt(c, id, size, w);
          DiskRun(run, true, run.outcome.Fail?)
  }

  // ---------------------------------------------------------------------------
  // Relations between the operations

  /** Given the length the probe would report, `DownloadToWriterWithSize`
      fetches exactly as `DownloadToWriter` does and returns the same, only
      without the probe. */
  lemma WithSizeMatchesProbe(c: Sizing.Config, fileId: Bytes, w: World)
    requires Paths.SuitFileId(fileId) != []
    requires Http.GetFileSize(Paths.SuitFileId(fileId), w.head).Ok?
    ensures var size := Http.GetFileSize(Paths.SuitFileId(fileId), w.head).value;
            var a := DownloadToWriterWithSize(c, fileId, size, w);
            var b := DownloadToWriter(c, fileId, w);
            a.fetch == b.fetch && a.outcome == b.outcome && a.size == b.size && !a.probed && b.probed
  {
  }

  /** When the pool accepts every range and the size is positive, a ranged
      `DownloadToWriterAt` hands over ranges that start at 0, are
      contiguous and cover exactly the object's bytes. */
  lemma RangedWriterAtCovers(c: Sizing.Config, fileId: Bytes, w: World)
    requires DownloadToWriterAt(c, fileId, w).fetch.Ranged?
    requires forall i :: 0 <= i < |RangePlan.Tiling(DownloadToWriterAt(c, fileId, w).size, Sizing.PartSize(c))| ==> w.run(i).Pass?
    requires DownloadToWriterAt(c, fileId, w).size > 0
    ensures var r := DownloadToWriterAt(c, fileId, w);
            var sub := r.fetch.submitted;
            && sub == RangePlan.Tiling(r.size, Sizing.PartSize(c))
            && sub[0].offset == 0 && RangePlan.Contiguous(sub)
            && RangePlan.TotalLength(sub) == r.size
            && r.outcome == w.wait
  {
    var r := DownloadToWriterAt(c, fileId, w);
    var plan := RangePlan.Tiling(r.size, Sizing.PartSize(c));
    assert RangePlan.FirstFailure(w.run, |plan|).None?;
    RangePlan.TilingShape(r.size, Sizing.PartSize(c));
  }

  /** A failed `DownloadToDisk` that had created its file never leaves it
      behind, whichever way the transfer failed. */
  lemma DiskFailureRemovesFile(c: Sizing.Config, fileId: Bytes, w: World)
    requires DownloadToDisk(c, fileId, w).created
    ensures DownloadToDisk(c, fileId, w).run.outcome.Fail? ==> DownloadToDisk(c, fileId, w).removed
    ensures DownloadToDisk(c, fileId, w).run == DownloadToWriterAt(c, fileId, w)
  {
  }
}
