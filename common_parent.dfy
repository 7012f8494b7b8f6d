/** common_parent of lib.rs: the deepest directory shared by a set of
    paths, kept only when it lies inside the repository root. Paths are
    taken as the sequences of components `Path::components` yields; a
    `PathBuf` rebuilt by pushing components has those components again. */
module CommonParent {

  type Components = seq<string>

  /** `Path::starts_with`: `prefix` is a whole-component prefix of `path`. */
  predicate StartsWith(path: Components, prefix: Components)
  {
    |prefix| <= |path| && path[..|prefix|] == prefix
  }

  /** `c` is a prefix of every path. */
  predicate SharedBy(c: Components, paths: seq<Components>)
  {
    forall p <- paths :: StartsWith(p, c)
  }

  /** The longest common prefix of two paths. */
  function Lcp2(a: Components, b: Components): (r: Components)
    ensures StartsWith(a, r) && StartsWith(b, r)
  {
    if a == [] || b == [] || a[0] != b[0] then []
    else
      var rest := Lcp2(a[1..], b[1..]);
      assert a == [a[0]] + a[1..] && b == [b[0]] + b[1..];
      [a[0]] + rest
  }

  /** Any prefix both paths share is a prefix of their Lcp2. */
  lemma {:induction false} Lcp2Longest(a: Components, b: Components, c: Components)
    requires StartsWith(a, c) && StartsWith(b, c)
    ensures StartsWith(Lcp2(a, b), c)
  {
    if c != [] {
      assert a[0] == c[0] && b[0] == c[0];
      assert a[1..][..|c| - 1] == c[1..] && b[1..][..|c| - 1] == c[1..];
      Lcp2Longest(a[1..], b[1..], c[1..]);
    }
  }

  /** The reference definition: the paths' longest common prefix, folded
      pairwise from the first path on. */
  function Lcp(paths: seq<Components>): Components
    requires |paths| > 0
    decreases |paths|
  {
    if |paths| == 1 then paths[0]
    else Lcp2(Lcp(paths[..|paths| - 1]), paths[|paths| - 1])
  }

  lemma StartsWithTrans(a: Components, b: Components, c: Components)
    requires StartsWith(a, b) && StartsWith(b, c)
    ensures StartsWith(a, c)
  {
    assert a[..|c|] == a[..|b|][..|c|];
  }

  /** Lcp is shared by every path, and every shared prefix is a prefix of
      it: it is the longest. */
  lemma {:induction false} LcpShared(paths: seq<Components>, c: Components)
    requires |paths| > 0
    ensures SharedBy(Lcp(paths), paths)
    ensures SharedBy(c, paths) ==> StartsWith(Lcp(paths), c)
    decreases |paths|
  {
    if |paths| > 1 {
      var init, last := paths[..|paths| - 1], paths[|paths| - 1];
      assert forall p <- paths :: p in init || p == last;
      assert forall p <- init :: p in paths;
      LcpShared(init, c);
      var l := Lcp(init);
      forall p <- init ensures StartsWith(p, Lcp2(l, last)) {
        StartsWithTrans(p, l, Lcp2(l, last));
      }
      if SharedBy(c, paths) {
        Lcp2Longest(l, last, c);
      }
    }
  }

  /** The loop stops at a column where the first path has ended, or some
      path has ended or differs from the first. */
  predicate StopsAt(c: Components, paths: seq<Components>)
    requires |paths| > 0
  {
    || |paths[0]| <= |c|
    || exists p <- paths :: |p| <= |c| || p[|c|] != paths[0][|c|]
  }

  /** A prefix of two paths ends at or before a column where they differ. */
  lemma PrefixBeforeMismatch(p: Components, q: Components, l: Components, i: nat)
    requires StartsWith(p, l) && StartsWith(q, l) && i < |q|
    requires |p| <= i || p[i] != q[i]
    ensures |l| <= i
  {
    if i < |p| {
      assert p[..|l|] == q[..|l|];
    }
  }

  /** A shared prefix at which the column scan stops is the longest one. */
  lemma StopsAtLcp(c: Components, paths: seq<Components>)
    requires |paths| > 0 && SharedBy(c, paths) && StopsAt(c, paths)
    ensures c == Lcp(paths)
  {
    LcpShared(paths, c);
    var l := Lcp(paths);
    assert paths[0] in paths;
    if |c| < |paths[0]| {
      var p :| p in paths && (|p| <= |c| || p[|c|] != paths[0][|c|]);
      PrefixBeforeMismatch(p, paths[0], l, |c|);
    }
    assert l[..|c|] == c;
  }

  /** What common_parent returns: the repository root when there are no
      paths, or when the paths' longest common prefix is not inside it;
      otherwise that prefix. */
  function CommonParentOf(repoRoot: Components, paths: seq<Components>): (r: Components)
    ensures StartsWith(r, repoRoot)
    ensures r == repoRoot || (|paths| > 0 && r == Lcp(paths))
  {
    if |paths| == 0 then repoRoot
    else if StartsWith(Lcp(paths), repoRoot) then Lcp(paths)
    else repoRoot
  }

  /** The result is always the repository root or a path below it that
      every given path lies under, and no deeper such path exists. */
  lemma CommonParentShared(repoRoot: Components, paths: seq<Components>, c: Components)
    requires |paths| > 0
    ensures SharedBy(CommonParentOf(repoRoot, paths), paths) || CommonParentOf(repoRoot, paths) == repoRoot
    ensures SharedBy(c, paths) && StartsWith(c, repoRoot) ==> StartsWith(CommonParentOf(repoRoot, paths), c)
  {
    LcpShared(paths, c);
    if SharedBy(c, paths) && StartsWith(c, repoRoot) {
      StartsWithTrans(Lcp(paths), c, repoRoot);
    }
  }

  /** common_parent, with its labelled column loop and the rebuilding of
      the result by pushing components. */
  method CommonParent(repoRoot: Components, paths: seq<Components>) returns (r: Components)
    ensures r == CommonParentOf(repoRoot, paths)
  {
    if |paths| == 0 {
      return repoRoot;
    }
    var common: Components := [];
    var i := 0;
    label outer:
    while true
      invariant i == |common| <= |paths[0]| && common == paths[0][..i]
      invariant SharedBy(common, paths)
      decreases |paths[0]| - i
    {
      if i >= |paths[0]| {
        break;
      }
      var first := paths[0][i];
      var k := 0;
      while k < |paths|
        invariant k <= |paths|
        invariant forall j | 0 <= j < k :: i < |paths[j]| && paths[j][i] == first
      {
        if |paths[k]| <= i || paths[k][i] != first {
          assert paths[k] in paths;
          assert StopsAt(common, paths);
          StopsAtLcp(common, paths);
          break outer;
        }
        k := k + 1;
      }
      forall p <- paths ensures StartsWith(p, common + [first]) {
        var j :| 0 <= j < |paths| && paths[j] == p;
        assert p[..i + 1] == p[..i] + [p[i]];
      }
      assert paths[0][..i + 1] == common + [first];
      common := common + [first];
      i := i + 1;
    }
    if i == |paths[0]| {
      StopsAtLcp(common, paths);
    }
    var result: Components := [];
    for j := 0 to |common|
      invariant result == common[..j]
    {
      assert common[..j + 1] == common[..j] + [common[j]];
      result := result + [common[j]];
    }
    assert common[..|common|] == common;
    if StartsWith(result, repoRoot) {
      return result;
    } else {
      return repoRoot;
    }
  }
}
