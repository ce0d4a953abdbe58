/** Slash-separated paths: Go's lexical `filepath.Clean` and
    `filepath.Join` with Unix semantics, and the client's file-id
    normalisation built on them (common.go, `suitFileId`).

    `Clean` is modelled at the level of path segments: the path is split
    at '/', and the segments are resolved left to right onto a stack of
    kept names ("" and "." are dropped, ".." pops a kept name, climbs above
    the start of a relative path, and is dropped at the root). This is the
    same result Go's byte-buffer algorithm computes. */
module Paths {
  import opened Text

  /** A name that `Clean` keeps verbatim. */
  predicate IsName(e: Bytes)
  {
    e != [] && e != "." && e != ".." && '/' !in e
  }

  /** Resolve one segment onto the stack of kept segments. */
  function Step(stack: seq<Bytes>, e: Bytes, rooted: bool): seq<Bytes>
  {
    if e == [] || e == "." then stack
    else if e == ".." then
      if |stack| > 0 && stack[|stack| - 1] != ".." then stack[..|stack| - 1]
      else if rooted then stack
      else stack + [".."]
    else stack + [e]
  }

  function Resolve(stack: seq<Bytes>, segs: seq<Bytes>, rooted: bool): seq<Bytes>
    decreases |segs|
  {
    if |segs| == 0 then stack else Resolve(Step(stack, segs[0], rooted), segs[1..], rooted)
  }

  /** Go's `filepath.Clean` on a Unix system. */
  function Clean(p: Bytes): Bytes
  {
    if |p| == 0 then "."
    else
      var rooted := p[0] == '/';
      var kept := Resolve([], Split(p, '/'), rooted);
      if rooted then ['/'] + Join(kept, '/')
      else if |kept| == 0 then "."
      else Join(kept, '/')
  }

  /** Go's `filepath.Join(a, b)`: clean the two joined with '/', ignoring
      leading empty elements; all-empty joins to "". */
  function JoinPath(a: Bytes, b: Bytes): Bytes
  {
    if a != [] then Clean(a + ['/'] + b)
    else if b != [] then Clean(b)
    else []
  }

  /** `suitFileId`: trim '/' from both ends, clean, then trim leading '.'
      and leading '/'. */
  function SuitFileId(fileId: Bytes): Bytes
  {
    TrimLeft(TrimLeft(Clean(Trim(fileId, '/')), '.'), '/')
  }

  // ---------------------------------------------------------------------------
  // Shape of cleaned paths

  predicate NoDoubleSlash(s: Bytes)
  {
    forall i :: 0 <= i < |s| - 1 ==> !(s[i] == '/' && s[i + 1] == '/')
  }

  /** The shape every normalised file id has: no '/' at either end and no
      empty segment. */
  predicate SlashTidy(s: Bytes)
  {
    && (|s| > 0 ==> s[0] != '/' && s[|s| - 1] != '/')
    && NoDoubleSlash(s)
  }

  /** Stack elements are non-empty, slash-free and never ".". */
  predicate KeptPieces(stack: seq<Bytes>)
  {
    forall i :: 0 <= i < |stack| ==> stack[i] != [] && stack[i] != "." && '/' !in stack[i]
  }

  lemma {:induction false} ResolveKeepsPieces(stack: seq<Bytes>, segs: seq<Bytes>, rooted: bool)
    requires KeptPieces(stack)
    requires forall i :: 0 <= i < |segs| ==> '/' !in segs[i]
    ensures KeptPieces(Resolve(stack, segs, rooted))
    decreases |segs|
  {
    if |segs| > 0 {
      ResolveKeepsPieces(Step(stack, segs[0], rooted), segs[1..], rooted);
    }
  }

  lemma {:induction false} JoinTidy(xs: seq<Bytes>)
    requires |xs| >= 1
    requires forall i :: 0 <= i < |xs| ==> xs[i] != [] && '/' !in xs[i]
    ensures |Join(xs, '/')| > 0 && SlashTidy(Join(xs, '/'))
    decreases |xs|
  {
    if |xs| > 1 {
      JoinTidy(xs[1..]);
      var a, b := xs[0], Join(xs[1..], '/');
      assert Join(xs, '/') == a + ['/'] + b;
      var j := a + ['/'] + b;
      forall i | 0 <= i < |j| - 1 ensures !(j[i] == '/' && j[i + 1] == '/') {
        if i < |a| {
          assert j[i] == a[i];
        } else if i > |a| {
          assert j[i] == b[i - |a| - 1] && j[i + 1] == b[i - |a|];
        }
      }
    }
  }

  /** A suffix of a tidy string without a leading '/' is tidy. */
  lemma SuffixTidy(s: Bytes, k: nat)
    requires k <= |s| && SlashTidy(s)
    requires |s[k..]| > 0 ==> s[k..][0] != '/'
    ensures SlashTidy(s[k..])
  {
    var t := s[k..];
    forall i | 0 <= i < |t| - 1 ensures !(t[i] == '/' && t[i + 1] == '/') {
      assert t[i] == s[k + i] && t[i + 1] == s[k + i + 1];
    }
  }

  /** A relative path cleans to "." or to a tidy join of kept pieces. */
  lemma CleanRelativeTidy(p: Bytes)
    requires |p| > 0 ==> p[0] != '/'
    ensures Clean(p) == "." || (|Clean(p)| > 0 && SlashTidy(Clean(p)))
  {
    if |p| > 0 {
      var kept := Resolve([], Split(p, '/'), false);
      SplitPiecesFree(p, '/');
      ResolveKeepsPieces([], Split(p, '/'), false);
      if |kept| > 0 {
        JoinTidy(kept);
      }
    }
  }

  /** A normalised file id never starts or ends with '/' and never holds an
      empty segment. */
  lemma SuitFileIdTidy(fileId: Bytes)
    ensures SlashTidy(SuitFileId(fileId))
  {
    var t := Trim(fileId, '/');
    assert |t| > 0 ==> t[0] != '/' by {
      var l := TrimLeft(fileId, '/');
      TrimLeftShape(fileId, '/');
      TrimRightShape(l, '/');
      assert t == l[..|t|];
    }
    var c := Clean(t);
    CleanRelativeTidy(t);
    var d := TrimLeft(c, '.');
    var r := TrimLeft(d, '/');
    TrimLeftShape(c, '.');
    TrimLeftShape(d, '/');
    assert r == c[|c| - |r|..];
    if c == "." {
      assert d == [];
    } else {
      SuffixTidy(c, |c| - |r|);
    }
  }

  // ---------------------------------------------------------------------------
  // Canonical ids are left alone

  /** A relative path already in the form the service stores: one or more
      names separated by single slashes, not starting with '.'. */
  predicate Canonical(s: Bytes)
  {
    && |s| > 0
    && s[0] != '.'
    && forall i :: 0 <= i < |Split(s, '/')| ==> IsName(Split(s, '/')[i])
  }

  lemma {:induction false} ResolveNames(stack: seq<Bytes>, segs: seq<Bytes>, rooted: bool)
    requires forall i :: 0 <= i < |segs| ==> IsName(segs[i])
    ensures Resolve(stack, segs, rooted) == stack + segs
    decreases |segs|
  {
    if |segs| > 0 {
      ResolveNames(stack + [segs[0]], segs[1..], rooted);
      assert stack + [segs[0]] + segs[1..] == stack + segs;
    }
  }

  /** Normalisation leaves a canonical id unchanged. */
  lemma SuitFileIdCanonical(s: Bytes)
    requires Canonical(s)
    ensures SuitFileId(s) == s
  {
    var segs := Split(s, '/');
    JoinSplit(s, '/');
    assert IsName(segs[0]) && IsName(segs[|segs| - 1]);
    assert s[0] != '/';
    SplitLastEmpty(s, '/');
    assert Trim(s, '/') == s;
    ResolveNames([], segs, false);
    assert [] + segs == segs;
    assert Resolve([], segs, false) == segs;
  }

  lemma SplitLastEmpty(s: Bytes, sep: Byte)
    ensures |s| > 0 && s[|s| - 1] == sep ==> Split(s, sep)[|Split(s, sep)| - 1] == []
  {
    if |s| > 0 && s[|s| - 1] == sep {
      assert s == s[..|s| - 1] + [sep] + [];
      SplitAround(s[..|s| - 1], sep, []);
    }
  }

  // ---------------------------------------------------------------------------
  // Cleaning in stages

  /** Resolving segment lists one after the other is resolving them
      joined. */
  lemma {:induction false} ResolveAppend(stack: seq<Bytes>, xs: seq<Bytes>, ys: seq<Bytes>, rooted: bool)
    ensures Resolve(stack, xs + ys, rooted) == Resolve(Resolve(stack, xs, rooted), ys, rooted)
    decreases |xs|
  {
    if |xs| > 0 {
      assert (xs + ys)[1..] == xs[1..] + ys;
      ResolveAppend(Step(stack, xs[0], rooted), xs[1..], ys, rooted);
    } else {
      assert xs + ys == ys;
    }
  }

  /** What a relative path resolves to: some ".." followed by names. */
  predicate Climbing(stack: seq<Bytes>)
  {
    && (forall i :: 0 <= i < |stack| ==> IsName(stack[i]) || stack[i] == "..")
    && (forall i, j :: 0 <= j < i < |stack| && stack[i] == ".." ==> stack[j] == "..")
  }

  /** What a rooted path resolves to: names only. */
  predicate AllNames(stack: seq<Bytes>)
  {
    forall i :: 0 <= i < |stack| ==> IsName(stack[i])
  }

  lemma {:induction false} ResolveClimbing(stack: seq<Bytes>, segs: seq<Bytes>)
    requires Climbing(stack)
    requires forall i :: 0 <= i < |segs| ==> '/' !in segs[i]
    ensures Climbing(Resolve(stack, segs, false))
    decreases |segs|
  {
    if |segs| > 0 {
      var next := Step(stack, segs[0], false);
      assert Climbing(next) by {
        var e := segs[0];
        if e == ".." && !(|stack| > 0 && stack[|stack| - 1] != "..") {
          assert next == stack + [e];
          assert forall j :: 0 <= j < |stack| ==> stack[j] == "..";
        }
      }
      ResolveClimbing(next, segs[1..]);
    }
  }

  lemma {:induction false} ResolveAllNames(stack: seq<Bytes>, segs: seq<Bytes>)
    requires AllNames(stack)
    requires forall i :: 0 <= i < |segs| ==> '/' !in segs[i]
    ensures AllNames(Resolve(stack, segs, true))
    decreases |segs|
  {
    if |segs| > 0 {
      ResolveAllNames(Step(stack, segs[0], true), segs[1..]);
    }
  }

  /** A resolved relative stack resolves to itself. */
  lemma {:induction false} ResolveClimbingFixed(stack: seq<Bytes>, xs: seq<Bytes>)
    requires Climbing(stack + xs)
    ensures Resolve(stack, xs, false) == stack + xs
    decreases |xs|
  {
    if |xs| > 0 {
      var all := stack + xs;
      assert all[|stack|] == xs[0];
      if xs[0] == ".." {
        assert forall j :: 0 <= j < |stack| ==> stack[j] == all[j] == "..";
      }
      assert Step(stack, xs[0], false) == stack + [xs[0]];
      assert stack + [xs[0]] + xs[1..] == all;
      ResolveClimbingFixed(stack + [xs[0]], xs[1..]);
    } else {
      assert stack + xs == stack;
    }
  }

  /** `Clean` is never empty and is rooted exactly when its input is. */
  lemma CleanFirst(p: Bytes)
    ensures |Clean(p)| > 0
    ensures Clean(p)[0] == '/' <==> |p| > 0 && p[0] == '/'
  {
    if |p| > 0 && p[0] != '/' {
      var kept := Resolve([], Split(p, '/'), false);
      if |kept| > 0 {
        SplitPiecesFree(p, '/');
        ResolveKeepsPieces([], Split(p, '/'), false);
        assert Join(kept, '/')[0] == kept[0][0];
      }
    }
  }

  /** A cleaned path resolves to the same segments as the path. */
  lemma CleanSegments(p: Bytes)
    requires |p| > 0
    ensures Resolve([], Split(Clean(p), '/'), p[0] == '/') == Resolve([], Split(p, '/'), p[0] == '/')
  {
    var rooted := p[0] == '/';
    var segs := Split(p, '/');
    var kept := Resolve([], segs, rooted);
    SplitPiecesFree(p, '/');
    if rooted {
      RootedRejoin(segs, kept);
    } else if |kept| == 0 {
      SplitWithoutSeparator(".", '/');
      assert Resolve([], ["."], false) == [];
    } else {
      RelativeRejoin(segs, kept);
    }
  }

  /** Rejoining what a rooted path resolves to, behind the root, resolves
      to the same stack. */
  lemma RootedRejoin(segs: seq<Bytes>, kept: seq<Bytes>)
    requires forall i :: 0 <= i < |segs| ==> '/' !in segs[i]
    requires kept == Resolve([], segs, true)
    ensures Resolve([], Split(['/'] + Join(kept, '/'), '/'), true) == kept
  {
    ResolveKeepsPieces([], segs, true);
    var j := Join(kept, '/');
    SplitCons('/', j, '/');
    assert Resolve([], [[]] + Split(j, '/'), true) == Resolve([], Split(j, '/'), true);
    if |kept| > 0 {
      SplitJoin(kept, '/');
      ResolveAllNames([], segs);
      ResolveNames([], kept, true);
      assert [] + kept == kept;
    }
  }

  /** Rejoining what a relative path resolves to, when that is not empty,
      resolves to the same stack. */
  lemma RelativeRejoin(segs: seq<Bytes>, kept: seq<Bytes>)
    requires forall i :: 0 <= i < |segs| ==> '/' !in segs[i]
    requires kept == Resolve([], segs, false) && |kept| > 0
    ensures Resolve([], Split(Join(kept, '/'), '/'), false) == kept
  {
    ResolveKeepsPieces([], segs, false);
    SplitJoin(kept, '/');
    ResolveClimbing([], segs);
    assert [] + kept == kept;
    ResolveClimbingFixed([], kept);
  }

  /** Cleaning the left part of a join first does not change the result:
      `Clean(Clean(x) + "/" + y) == Clean(x + "/" + y)`. */
  lemma CleanAbsorb(x: Bytes, y: Bytes)
    requires |x| > 0
    ensures Clean(Clean(x) + ['/'] + y) == Clean(x + ['/'] + y)
  {
    var c := Clean(x);
    CleanFirst(x);
    var rooted := x[0] == '/';
    assert (c + ['/'] + y)[0] == c[0];
    assert (x + ['/'] + y)[0] == x[0];
    SplitAround(c, '/', y);
    SplitAround(x, '/', y);
    ResolveAppend([], Split(c, '/'), Split(y, '/'), rooted);
    ResolveAppend([], Split(x, '/'), Split(y, '/'), rooted);
    CleanSegments(x);
  }

  /** A doubled separator cleans like a single one. */
  lemma CleanDoubleSlash(x: Bytes, y: Bytes)
    requires |x| > 0
    ensures Clean(x + ['/'] + (['/'] + y)) == Clean(x + ['/'] + y)
  {
    var rooted := x[0] == '/';
    assert (x + ['/'] + (['/'] + y))[0] == x[0];
    assert (x + ['/'] + y)[0] == x[0];
    SplitAround(x, '/', ['/'] + y);
    SplitAround(x, '/', y);
    assert Split(['/'] + y, '/') == [[]] + Split(y, '/') by {
      assert (['/'] + y)[1..] == y;
    }
    ResolveAppend([], Split(x, '/'), [[]] + Split(y, '/'), rooted);
    ResolveAppend([], Split(x, '/'), Split(y, '/'), rooted);
    var s := Resolve([], Split(x, '/'), rooted);
    assert Resolve(s, [[]] + Split(y, '/'), rooted) == Resolve(s, Split(y, '/'), rooted) by {
      assert ([[]] + Split(y, '/'))[1..] == Split(y, '/');
    }
  }

  /** Joining in two steps, the second part starting with '/', is joining
      once. */
  lemma JoinPathNested(d: Bytes, a: Bytes, rest: Bytes)
    requires d != []
    ensures JoinPath(JoinPath(d, a), ['/'] + rest) == JoinPath(d, a + ['/'] + rest)
  {
    var x := d + ['/'] + a;
    CleanFirst(x);
    CleanAbsorb(x, ['/'] + rest);
    CleanDoubleSlash(x, rest);
    SlashAssoc(d, a, rest);
  }

  lemma SlashAssoc(d: Bytes, a: Bytes, rest: Bytes)
    ensures d + ['/'] + a + ['/'] + rest == d + ['/'] + (a + ['/'] + rest)
  {
  }

  /** Names joined with single slashes clean to themselves. */
  lemma CleanNames(xs: seq<Bytes>)
    requires |xs| >= 1 && forall i :: 0 <= i < |xs| ==> IsName(xs[i])
    ensures Clean(Join(xs, '/')) == Join(xs, '/')
  {
    SplitJoin(xs, '/');
    ResolveNames([], xs, false);
    JoinTidy(xs);
    assert [] + xs == xs;
  }

  // ---------------------------------------------------------------------------
  // Edge cases

  /** The empty id, the root and the parent directory all normalise to the
      empty id, which every operation rejects. */
  lemma SuitFileIdEmptyCases()
    ensures SuitFileId("") == []
    ensures SuitFileId("/") == []
    ensures SuitFileId(".") == []
    ensures SuitFileId("..") == []
  {
    assert Trim("", '/') == [];
    assert TrimLeft("/", '/') == [];
    assert Trim("/", '/') == [];
    assert TrimLeft(".", '.') == [];
    assert TrimLeft("..", '.') == [];
    SplitWithoutSeparator("..", '/');
    SplitWithoutSeparator(".", '/');
    assert Trim(".", '/') == ".";
    assert Trim("..", '/') == "..";
    assert Resolve([], ["."], false) == [];
    assert Resolve([], [".."], false) == [".."];
    assert Clean("..") == "..";
    assert Clean(".") == ".";
  }

  lemma SplitClimb()
    ensures Split("../../a", '/') == ["..", "..", "a"]
    ensures Split("../a", '/') == ["..", "a"]
  {
    SplitWithoutSeparator("a", '/');
    assert "../a" == ".." + ['/'] + "a";
    SplitPeel("..", '/', "a");
    assert "../../a" == ".." + ['/'] + "../a";
    SplitPeel("..", '/', "../a");
  }

  lemma ResolveClimb()
    ensures Resolve([], ["..", "a"], false) == ["..", "a"]
    ensures Resolve([], ["..", "..", "a"], false) == ["..", "..", "a"]
  {
    var dd: Bytes := "..";
    var a: Bytes := "a";
    assert Step([], dd, false) == [dd];
    assert Step([dd], dd, false) == [dd, dd];
    assert Step([dd], a, false) == [dd, a];
    assert Step([dd, dd], a, false) == [dd, dd, a];
    assert Resolve([dd, a], [], false) == [dd, a];
    assert Resolve([dd, dd, a], [], false) == [dd, dd, a];
    assert [a][1..] == [];
    assert [dd, a][1..] == [a];
    assert [dd, dd, a][1..] == [dd, a];
    assert Resolve([dd], [a], false) == [dd, a];
    assert Resolve([dd, dd], [a], false) == [dd, dd, a];
    assert Resolve([dd], [dd, a], false) == [dd, dd, a];
  }

  lemma CleanClimb()
    ensures Clean("../../a") == "../../a"
    ensures Clean("../a") == "../a"
  {
    SplitClimb();
    ResolveClimb();
    JoinClimb();
    var p: Bytes := "../a";
    var q: Bytes := "../../a";
    assert p[0] != '/' && q[0] != '/';
  }

  lemma JoinClimb()
    ensures Join(["..", "a"], '/') == "../a"
    ensures Join(["..", "..", "a"], '/') == "../../a"
  {
    var dd: Bytes := "..";
    var a: Bytes := "a";
    assert [dd, a][1..] == [a];
    assert [dd, dd, a][1..] == [dd, a];
    assert Join([a], '/') == a;
    assert Join([dd, a], '/') == dd + ['/'] + a;
    assert Join([dd, dd, a], '/') == dd + ['/'] + Join([dd, a], '/');
  }

  /** Normalisation is not idempotent: a second pass strips what the first
      left of a leading climb. */
  lemma SuitFileIdNotIdempotent()
    ensures SuitFileId("../../a") == "../a"
    ensures SuitFileId("../a") == "a"
  {
    CleanClimb();
    assert Trim("../../a", '/') == "../../a";
    assert Trim("../a", '/') == "../a";
    assert TrimLeft("../../a", '.') == "/../a";
    assert TrimLeft("/../a", '/') == "../a";
    assert TrimLeft("../a", '.') == "/a";
    assert TrimLeft("/a", '/') == "a";
  }
}
