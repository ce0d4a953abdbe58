/** Cutting a sequence into consecutive pieces of a fixed size, the last
    one shorter: how the client cuts an upload into parts and a batch
    delete into requests. */
module Cutting {

  /** The reference cut: consecutive pieces of `ps` elements, the last one
      shorter when the length is not a multiple; no piece is empty. */
  function Chunks<T>(data: seq<T>, ps: nat): seq<seq<T>>
    requires ps >= 1
    decreases |data|
  {
    if |data| == 0 then []
    else if |data| <= ps then [data]
    else [data[..ps]] + Chunks(data[ps..], ps)
  }

  function Flatten<T>(cs: seq<seq<T>>): seq<T>
  {
    if |cs| == 0 then [] else cs[0] + Flatten(cs[1..])
  }

  lemma {:induction false} FlattenAppend<T>(a: seq<seq<T>>, b: seq<seq<T>>)
    ensures Flatten(a + b) == Flatten(a) + Flatten(b)
    decreases |a|
  {
    if |a| == 0 {
      assert a + b == b;
    } else {
      assert (a + b)[1..] == a[1..] + b;
      FlattenAppend(a[1..], b);
    }
  }

  /** The pieces put back together are the sequence. */
  lemma {:induction false} ChunksFlatten<T>(data: seq<T>, ps: nat)
    requires ps >= 1
    ensures Flatten(Chunks(data, ps)) == data
    decreases |data|
  {
    if |data| > ps {
      ChunksFlatten(data[ps..], ps);
      assert Chunks(data, ps)[1..] == Chunks(data[ps..], ps);
      assert data == data[..ps] + data[ps..];
    } else if |data| > 0 {
      assert Flatten(Chunks(data, ps)) == data + Flatten([]);
    }
  }

  /** There are ⌈|data| / ps⌉ pieces. */
  lemma {:induction false} ChunksCount<T>(data: seq<T>, ps: nat)
    requires ps >= 1
    ensures |Chunks(data, ps)| == (|data| + ps - 1) / ps
    decreases |data|
  {
    if |data| > ps {
      var x := |data[ps..]| + ps - 1;
      ChunksCount(data[ps..], ps);
      DivShift(x, ps);
    } else if |data| > 0 {
      DivBetween(|data| + ps - 1, ps, 1);
    }
  }

  lemma DivShift(x: nat, ps: nat)
    requires ps >= 1
    ensures (x + ps) / ps == x / ps + 1
  {
    DivBetween(x + ps, ps, x / ps + 1);
  }

  /** All pieces but the last have `ps` elements; the last has between 1 and
      `ps`. */
  lemma {:induction false} ChunksSizes<T>(data: seq<T>, ps: nat)
    requires ps >= 1
    ensures var cs := Chunks(data, ps);
            && (forall j :: 0 <= j < |cs| - 1 ==> |cs[j]| == ps)
            && (|cs| > 0 ==> 1 <= |cs[|cs| - 1]| <= ps)
    decreases |data|
  {
    if |data| > ps {
      var cs := Chunks(data, ps);
      var rest := Chunks(data[ps..], ps);
      ChunksSizes(data[ps..], ps);
      assert cs == [data[..ps]] + rest;
      forall j | 0 <= j < |cs| - 1
        ensures |cs[j]| == ps
      {
        if j > 0 { assert cs[j] == rest[j - 1]; }
      }
      assert |rest| > 0;
      assert cs[|cs| - 1] == rest[|rest| - 1];
    }
  }

  /** Cutting after a whole number of pieces cuts each side on its own. */
  lemma {:induction false} ChunksAppend<T>(a: seq<T>, b: seq<T>, ps: nat, k: nat)
    requires ps >= 1 && |a| == k * ps
    ensures Chunks(a + b, ps) == Chunks(a, ps) + Chunks(b, ps)
    decreases k
  {
    if k == 0 {
      assert a + b == b;
    } else if |b| == 0 {
      assert a + b == a;
    } else {
      assert |a| >= ps;
      assert (a + b)[..ps] == a[..ps];
      assert (a + b)[ps..] == a[ps..] + b;
      assert |a[ps..]| == (k - 1) * ps;
      ChunksAppend(a[ps..], b, ps, k - 1);
      if |a| == ps {
        assert Chunks(a[ps..], ps) == [];
        assert a[..ps] == a;
      }
    }
  }

  /** Cutting at a whole number of pieces splits the cut in two. */
  lemma ChunksOfPrefix<T>(data: seq<T>, cut: nat, ps: nat, k: nat)
    requires ps >= 1 && cut == k * ps <= |data|
    ensures Chunks(data, ps) == Chunks(data[..cut], ps) + Chunks(data[cut..], ps)
  {
    assert data == data[..cut] + data[cut..];
    ChunksAppend(data[..cut], data[cut..], ps, k);
  }

  /** One more piece: a prefix that is a whole number of pieces, extended
      by a piece of at most `ps` elements. */
  lemma ChunksStep<T>(data: seq<T>, pos: nat, len: nat, ps: nat, k: nat)
    requires ps >= 1 && pos == k * ps && 1 <= len <= ps && pos + len <= |data|
    ensures Chunks(data[..pos + len], ps) == Chunks(data[..pos], ps) + [data[pos..pos + len]]
  {
    assert data[..pos + len] == data[..pos] + data[pos..pos + len];
    ChunksAppend(data[..pos], data[pos..pos + len], ps, k);
  }

  /** A value absent from the sequence is absent from every piece. */
  lemma {:induction false} ChunksAvoid<T>(data: seq<T>, ps: nat, x: T)
    requires ps >= 1 && x !in data
    ensures forall j :: 0 <= j < |Chunks(data, ps)| ==> x !in Chunks(data, ps)[j]
    decreases |data|
  {
    if |data| > ps {
      ChunksAvoid(data[ps..], ps, x);
      assert x !in data[..ps] && x !in data[ps..] by {
        assert data == data[..ps] + data[ps..];
      }
      var cs := Chunks(data, ps);
      assert forall j :: 1 <= j < |cs| ==> cs[j] == Chunks(data[ps..], ps)[j - 1];
    }
  }

  /** When `k` pieces end between `k*ps` and `(k+1)*ps` elements, `k` is the
      number of whole pieces. */
  lemma DivBetween(len: nat, ps: nat, k: nat)
    requires ps >= 1 && k * ps <= len < k * ps + ps
    ensures len / ps == k
  {
    var q := len / ps;
    assert len == q * ps + len % ps;
    if q < k {
      MulLess(q + 1, k, ps);
    } else if q > k {
      MulLess(k + 1, q, ps);
    }
  }

  lemma DivAtLeast(len: nat, ps: nat, k: nat)
    requires ps >= 1 && k * ps <= len
    ensures k <= len / ps
  {
    var q := len / ps;
    assert len == q * ps + len % ps;
    if q < k {
      MulLess(q + 1, k, ps);
    }
  }

  lemma MulLess(a: nat, b: nat, ps: nat)
    requires a <= b
    ensures a * ps <= b * ps
  {
  }
}
