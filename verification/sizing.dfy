/** Sizing and mode rules (common.go): the effective part size, the
    single-request versus multipart decision, and the admission rule of
    the part-buffer pool.

    The process-wide tuning variables `PartSize` and `MultiThreshold` are
    an explicit `Config` value here. */
module Sizing {

  const MiB: int := 1024 * 1024
  const GiB: int := 1024 * MiB

  /** Bounds on a part, and the size substituted for one that is too small. */
  const MinPartSize: int := MiB
  const MaxPartSize: int := 5 * GiB
  const FallbackPartSize: int := 8 * MiB

  /** Largest body the service takes in one PUT. */
  const SingleRequestLimit: int := 5 * GiB

  datatype Config = Config(partSize: int, multiThreshold: int)

  /** `getPartSize`: the configured part size clamped to [1 MiB, 5 GiB],
      except that a size below 1 MiB is replaced by 8 MiB. */
  function PartSize(c: Config): (r: int)
    ensures MinPartSize <= r <= MaxPartSize
  {
    if c.partSize < MinPartSize then FallbackPartSize
    else if c.partSize > MaxPartSize then MaxPartSize
    else c.partSize
  }

  /** What `getPartSize` promises for each configured value: within bounds
      it is kept; below 1 MiB the result is 8 MiB (not the 1 MiB minimum);
      above 5 GiB it is 5 GiB. */
  lemma PartSizeClamp(c: Config)
    ensures MinPartSize <= c.partSize <= MaxPartSize ==> PartSize(c) == c.partSize
    ensures c.partSize < MinPartSize ==> PartSize(c) == FallbackPartSize != MinPartSize
    ensures c.partSize > MaxPartSize ==> PartSize(c) == MaxPartSize
  {
  }

  /** Feeding the effective part size back as the configuration changes
      nothing: the clamp is a projection. */
  lemma PartSizeStable(c: Config)
    ensures PartSize(Config(PartSize(c), c.multiThreshold)) == PartSize(c)
  {
  }

  // ---------------------------------------------------------------------------
  // Multipart threshold

  const TwoTo63: int := 0x8000_0000_0000_0000
  const TwoTo64: int := 0x1_0000_0000_0000_0000

  /** Two's-complement wrap-around of an int64 computation. */
  function Wrap64(x: int): (r: int)
    ensures -TwoTo63 <= r < TwoTo63
    ensures (r - x) % TwoTo64 == 0
  {
    var m := x % TwoTo64;
    if m >= TwoTo63 then m - TwoTo64 else m
  }

  /** `useMultipart`: the product `int64(MultiThreshold)*partSize` is an
      int64 multiplication and wraps. */
  predicate UseMultipart(c: Config, size: int)
  {
    size > Wrap64(c.multiThreshold * PartSize(c)) || size > SingleRequestLimit
  }

  /** Whenever the threshold product fits in an int64, multipart is chosen
      exactly for sizes above `MultiThreshold` parts or above 5 GiB; a size
      of exactly `MultiThreshold` parts (and at most 5 GiB) goes in one
      request. */
  lemma UseMultipartBoundary(c: Config, size: int)
    requires -TwoTo63 <= c.multiThreshold * PartSize(c) < TwoTo63
    ensures UseMultipart(c, size) <==> size > c.multiThreshold * PartSize(c) || size > SingleRequestLimit
    ensures size == c.multiThreshold * PartSize(c) && size <= SingleRequestLimit ==> !UseMultipart(c, size)
    ensures size == c.multiThreshold * PartSize(c) + 1 ==> UseMultipart(c, size)
  {
    var p := c.multiThreshold * PartSize(c);
    assert Wrap64(p) == p by {
      var r := Wrap64(p);
      assert (r - p) % TwoTo64 == 0;
      assert -TwoTo64 < r - p < TwoTo64;
    }
  }

  /** Above 5 GiB the multipart path is taken whatever the threshold,
      wrapped or not. */
  lemma UseMultipartAboveLimit(c: Config, size: int)
    requires size > SingleRequestLimit
    ensures UseMultipart(c, size)
  {
  }

  /** The decision is monotone in the size. */
  lemma UseMultipartMonotone(c: Config, size: int, larger: int)
    requires size <= larger && UseMultipart(c, size)
    ensures UseMultipart(c, larger)
  {
  }

  // ---------------------------------------------------------------------------
  // Part-buffer pool

  /** A Go byte slice, by length and capacity (its bytes do not matter to
      the pool). */
  datatype Slice = Slice(len: nat, cap: nat)

  /** `makeBytes`: take a pooled buffer, or allocate one of the part size
      when the pool is empty. Returns the buffer and the remaining pool. */
  function MakeBytes(pool: seq<Slice>, c: Config): (r: (Slice, seq<Slice>))
    ensures |pool| == 0 ==> r.0 == Slice(PartSize(c), PartSize(c)) && r.1 == []
    ensures |pool| > 0 ==> r.0 in pool && |r.1| == |pool| - 1
  {
    if |pool| == 0 then (Slice(PartSize(c), PartSize(c)), [])
    else (pool[|pool| - 1], pool[..|pool| - 1])
  }

  /** What handing a buffer back does. */
  datatype Rollback = Dropped | Pooled(pool: seq<Slice>) | Panicked

  /** `rollbackBytes`: a buffer whose capacity differs from the part size is
      dropped; any other is pooled with its length restored to its
      capacity. Restoring goes through `&data[0]`, which panics on an empty
      slice that still has capacity. */
  function RollbackBytes(pool: seq<Slice>, buf: Slice, c: Config): (r: Rollback)
    requires buf.len <= buf.cap
    ensures r.Pooled? <==> buf.cap == PartSize(c) && (buf.len > 0 || buf.cap == 0)
    ensures r.Pooled? ==> r.pool == pool + [Slice(buf.cap, buf.cap)]
    ensures r.Dropped? <==> buf.cap != PartSize(c)
  {
    if buf.cap != PartSize(c) then Dropped
    else if buf.cap > buf.len && buf.len == 0 then Panicked
    else Pooled(pool + [Slice(buf.cap, buf.cap)])
  }

  /** Every pooled buffer is a full buffer of the current part size. */
  ghost predicate PoolSized(pool: seq<Slice>, c: Config)
  {
    forall i :: 0 <= i < |pool| ==> pool[i] == Slice(PartSize(c), PartSize(c))
  }

  /** While the configuration does not change, the pool only ever holds
      full part-size buffers, so every buffer `makeBytes` hands out has
      exactly the part size. */
  lemma PoolStaysSized(pool: seq<Slice>, buf: Slice, c: Config)
    requires PoolSized(pool, c) && buf.len <= buf.cap
    ensures RollbackBytes(pool, buf, c).Pooled? ==> PoolSized(RollbackBytes(pool, buf, c).pool, c)
    ensures MakeBytes(pool, c).0 == Slice(PartSize(c), PartSize(c))
    ensures PoolSized(MakeBytes(pool, c).1, c)
  {
  }

  /** After the part size is reconfigured, a stale buffer handed back is
      dropped rather than pooled, so a pool that held only new-size buffers
      still does. */
  lemma StaleBufferDropped(pool: seq<Slice>, buf: Slice, before: Config, now: Config)
    requires PoolSized(pool, now) && buf.len <= buf.cap
    requires buf.cap == PartSize(before) && PartSize(before) != PartSize(now)
    ensures RollbackBytes(pool, buf, now) == Dropped
  {
  }
}
