/** How the immediate post-dominators of a function's basic blocks are computed (src/cuda-sim/ptx_ir.cc:
    find_postdominators, find_ipostdominators). The last block is the distinguished exit. */
module PostDominators {
  import opened Basics
  import opened SimtStack
  import opened PostDominance

  /** The successors of every basic block. */
  type Blocks = seq<set<Pc>>

  ghost predicate Valid(g: Blocks) {
    2 <= |g| <= NULL_PC && forall b, s :: 0 <= b < |g| && s in g[b] ==> s < |g|
  }

  function Exit(g: Blocks): (e: Pc)
    requires Valid(g)
  {
    |g| - 1
  }

  /** The blocks as a control-flow graph that ends in the exit block. */
  ghost function Graph(g: Blocks): (c: Cfg)
    requires Valid(g)
  {
    Cfg(map b: Pc | b < |g| :: g[b], {Exit(g)}, NULL_PC, map[])
  }

  predicate IsBlock(g: Blocks, b: Pc) {
    b < |g|
  }

  function All(g: Blocks): (s: set<Pc>) {
    set b: Pc | b < |g| && IsBlock(g, b)
  }

  // ---------- the equations ----------

  type Sets = seq<set<Pc>>

  /** The right-hand side of the equation of block `h`. */
  function Flow(g: Blocks, pd: Sets, h: nat): (t: set<Pc>)
    requires Valid(g) && |pd| == |g| && h < |g|
  {
    set r | r in All(g) && (r == h || forall s :: s in g[h] ==> r in pd[s])
  }

  /** The sets are still too large or right: they hold all post-dominators and shrink towards a solution. */
  ghost predicate Above(g: Blocks, pd: Sets)
    requires Valid(g)
  {
    && |pd| == |g| && pd[Exit(g)] == {Exit(g)}
    && (forall h :: 0 <= h < |g| - 1 ==> Flow(g, pd, h) <= pd[h])
    && forall b: Pc, r: Pc :: b < |g| && r < |g| && PostDom(Graph(g), r, b) ==> r in pd[b]
  }

  ghost predicate Solved(g: Blocks, pd: Sets)
    requires Valid(g)
  {
    |pd| == |g| && pd[Exit(g)] == {Exit(g)} && forall h :: 0 <= h < |g| - 1 ==> pd[h] == Flow(g, pd, h)
  }

  /** The post-dominators of a block solve its equation. */
  lemma FlowKeepsPostDoms(g: Blocks, pd: Sets, h: Pc, r: Pc)
    requires Valid(g) && Above(g, pd) && h < |g| && r < |g| && PostDom(Graph(g), r, h)
    ensures r in Flow(g, pd, h)
  {
    if r != h {
      forall s | s in g[h] ensures r in pd[s] {
        StrictAtSuccessor(Graph(g), r, h, s);
        assert r == s ==> PostDom(Graph(g), r, s);
      }
    }
  }

  lemma ReplaceKeepsAbove(g: Blocks, pd: Sets, h: nat)
    requires Valid(g) && Above(g, pd) && h < |g| - 1
    ensures Above(g, pd[h := Flow(g, pd, h)])
  {
    var pd' := pd[h := Flow(g, pd, h)];
    forall k | 0 <= k < |g| - 1 ensures Flow(g, pd', k) <= pd'[k] {
    }
    forall b: Pc, r: Pc | b < |g| && r < |g| && PostDom(Graph(g), r, b) ensures r in pd'[b] {
      FlowKeepsPostDoms(g, pd, b, r);
    }
  }

  /** A solution holds nothing but post-dominators. */
  lemma {:induction false} SolutionOnPaths(g: Blocks, pd: Sets, b: Pc, path: seq<Pc>, r: Pc)
    requires Valid(g) && Solved(g, pd) && b < |g| && ExitPathFrom(Graph(g), b, path) && r in pd[b]
    ensures r in path
    decreases |path|
  {
    if b < |g| - 1 && r != b {
      SolutionOnPaths(g, pd, path[1], path[1..], r);
    }
  }

  ghost predicate ArePostDoms(g: Blocks, pd: Sets)
    requires Valid(g)
  {
    |pd| == |g| && forall b: Pc, r: Pc :: b < |g| ==> (r in pd[b] <==> r < |g| && PostDom(Graph(g), r, b))
  }

  lemma SolvedAbove(g: Blocks, pd: Sets)
    requires Valid(g) && Above(g, pd) && Solved(g, pd)
    ensures ArePostDoms(g, pd)
  {
    forall b: Pc, r: Pc | b < |g| && r in pd[b] ensures r < |g| && PostDom(Graph(g), r, b) {
      forall path | ExitPathFrom(Graph(g), b, path) ensures r in path {
        SolutionOnPaths(g, pd, b, path, r);
      }
    }
  }

  // ---------- find_postdominators ----------

  /** The intersection over the successors, and the block itself. */
  method Intersect(g: Blocks, pd: Sets, h: nat) returns (t: set<Pc>)
    requires Valid(g) && |pd| == |g| && h < |g|
    ensures t == Flow(g, pd, h)
  {
    t := All(g);
    var left := g[h];
    while left != {}
      invariant left <= g[h] && t == set r | r in All(g) && forall s :: s in g[h] - left ==> r in pd[s]
    {
      var s := LeastMember(left);
      t := t * pd[s];
      left := left - {s};
    }
    assert g[h] - left == g[h];
    t := t + {h};
  }

  ghost function Sizes(pd: Sets): (r: seq<nat>)
    ensures |r| == |pd| && forall b :: 0 <= b < |pd| ==> r[b] == |pd[b]|
  {
    seq(|pd|, b requires 0 <= b < |pd| => |pd[b]|)
  }

  lemma SmallerSets(pd: Sets, h: nat, t: set<Pc>)
    requires h < |pd| && t <= pd[h] && t != pd[h]
    ensures Sum(Sizes(pd[h := t])) < Sum(Sizes(pd))
  {
    SubsetSize(t, pd[h]);
    SumDrops(Sizes(pd[h := t]), Sizes(pd));
    assert Sizes(pd[h := t])[h] < Sizes(pd)[h];
  }

  /** One sweep over the blocks, from the last before the exit to the first. */
  method Sweep(g: Blocks, before: Sets) returns (pd: Sets, change: bool)
    requires Valid(g) && Above(g, before)
    ensures Above(g, pd)
    ensures change ==> Sum(Sizes(pd)) < Sum(Sizes(before))
    ensures !change ==> pd == before && Solved(g, pd)
  {
    pd, change := before, false;
    var h := |g| - 1;
    while h > 0
      invariant 0 <= h <= |g| - 1 && Above(g, pd)
      invariant change ==> Sum(Sizes(pd)) < Sum(Sizes(before))
      invariant !change ==> pd == before && forall k :: h <= k < |g| - 1 ==> pd[k] == Flow(g, pd, k)
    {
      h := h - 1;
      var t := Intersect(g, pd, h);
      if t != pd[h] {
        ReplaceKeepsAbove(g, pd, h);
        SmallerSets(pd, h, t);
        pd, change := pd[h := t], true;
      }
    }
  }

  lemma StartAbove(g: Blocks, pd: Sets)
    requires Valid(g) && |pd| == |g| && pd[Exit(g)] == {Exit(g)} && forall h :: 0 <= h < |g| - 1 ==> pd[h] == All(g)
    ensures Above(g, pd)
  {
    var c := Graph(g);
    forall b: Pc, r: Pc | b < |g| && r < |g| && PostDom(c, r, b) ensures r in pd[b] {
      if b == Exit(g) {
        assert ExitPathFrom(c, b, [b]);
      }
    }
  }

  /** `find_postdominators`: the iteration ends, with exactly the post-dominators of every block. */
  method FindPostdominators(g: Blocks) returns (pd: Sets)
    requires Valid(g)
    ensures ArePostDoms(g, pd)
  {
    pd := seq(|g| - 1, _ => All(g)) + [{Exit(g)}];
    StartAbove(g, pd);
    var change := true;
    while change
      invariant Above(g, pd) && (!change ==> Solved(g, pd))
      decreases Sum(Sizes(pd)), change
    {
      pd, change := Sweep(g, pd);
    }
    SolvedAbove(g, pd);
  }

  // ---------- post-dominators of one block form a chain ----------

  ghost predicate Reaches(c: Cfg, b: Pc) {
    exists path :: ExitPathFrom(c, b, path)
  }

  /** A way out that avoids one of two blocks, spliced from ways out of each of them. */
  lemma {:induction false} Detour(c: Cfg, path: seq<Pc>, r: Pc, s: Pc, fromR: seq<Pc>, fromS: seq<Pc>)
      returns (q: seq<Pc>)
    requires ExitPath(c, path) && r in path
    requires ExitPathFrom(c, r, fromR) && s !in fromR && ExitPathFrom(c, s, fromS) && r !in fromS
    ensures ExitPathFrom(c, path[0], q) && (r !in q || s !in q)
  {
    if path[0] == r {
      q := fromR;
    } else if path[0] == s {
      q := fromS;
    } else {
      var rest := Detour(c, path[1..], r, s, fromR, fromS);
      q := [path[0]] + rest;
      assert q[1..] == rest;
    }
  }

  lemma PostDomsOrdered(c: Cfg, n: Pc, path: seq<Pc>, r: Pc, s: Pc)
    requires ExitPathFrom(c, n, path) && PostDom(c, r, n) && PostDom(c, s, n)
    ensures PostDom(c, r, s) || PostDom(c, s, r)
  {
    if !PostDom(c, r, s) && !PostDom(c, s, r) {
      var fromS :| ExitPathFrom(c, s, fromS) && r !in fromS;
      var fromR :| ExitPathFrom(c, r, fromR) && s !in fromR;
      var q := Detour(c, path, r, s, fromR, fromS);
    }
  }

  lemma PostDomTransitive(c: Cfg, r: Pc, s: Pc, n: Pc)
    requires PostDom(c, r, s) && PostDom(c, s, n)
    ensures PostDom(c, r, n)
  {
    forall path | ExitPathFrom(c, n, path) ensures r in path {
      var k :| 0 <= k < |path| && path[k] == s;
      ExitPathSuffix(c, path, k);
      assert ExitPathFrom(c, s, path[k..]);
    }
  }

  /** The nearest of some blocks: all the others post-dominate it. */
  ghost predicate IsNearest(c: Cfg, rs: set<Pc>, r: Pc) {
    r in rs && forall s :: s in rs ==> PostDom(c, s, r)
  }

  ghost predicate Ordered(c: Cfg, rs: set<Pc>) {
    forall r, s :: r in rs && s in rs ==> PostDom(c, r, s) || PostDom(c, s, r)
  }

  lemma {:induction false} NearestExists(c: Cfg, rs: set<Pc>) returns (r: Pc)
    requires rs != {} && Ordered(c, rs)
    ensures IsNearest(c, rs, r)
    decreases |rs|
  {
    var x := Pick(rs);
    var others := rs - {x};
    assert PostDom(c, x, x);
    if others == {} {
      r := x;
      assert rs == {x};
    } else {
      var m := NearestExists(c, others);
      r := if PostDom(c, x, m) then m else x;
      forall s | s in rs ensures PostDom(c, s, r) {
        if r == x && s != x {
          PostDomTransitive(c, s, m, x);
        }
      }
    }
  }

  // ---------- find_ipostdominators ----------

  /** The inner loop: erase what `s` makes redundant. */
  method EraseBehind(tmp: set<Pc>, s: Pc, behind: set<Pc>) returns (r: set<Pc>)
    ensures r == set t | t in tmp && (t == s || t !in behind)
  {
    r := tmp;
    var left := tmp;
    while left != {}
      invariant left <= tmp && r == set t | t in tmp && (t in left || t == s || t !in behind)
    {
      var t := LeastMember(left);
      if t != s && t in behind {
        r := r - {t};
      }
      left := left - {t};
    }
  }

  /** A block of `tmp` has `t` behind it. */
  ghost predicate Behind(pd: Sets, tmp: set<Pc>, t: Pc) {
    exists s :: s in tmp && s < |pd| && t in pd[s]
  }

  /** What is left of `all` when everything behind something else has gone: blocks none of which is behind another,
      and every block of `all` is behind one of them. */
  ghost predicate IsFront(pd: Sets, all: set<Pc>, tmp: set<Pc>) {
    && tmp <= all
    && (forall s, t :: s in tmp && t in tmp && t != s && s < |pd| ==> t !in pd[s])
    && forall t :: t in all ==> Behind(pd, tmp, t)
  }

  /** The sets are those of a reflexive and transitive relation. */
  ghost predicate Preorder(pd: Sets) {
    && (forall r: Pc :: r < |pd| ==> r in pd[r])
    && forall r: Pc, s: Pc, t: Pc :: r < |pd| && s < |pd| && s in pd[r] && t in pd[s] ==> t in pd[r]
  }

  lemma PostDomsPreorder(g: Blocks, pd: Sets)
    requires Valid(g) && ArePostDoms(g, pd)
    ensures Preorder(pd)
  {
    var c := Graph(g);
    forall r: Pc | r < |pd| ensures r in pd[r] {
      assert PostDom(c, r, r);
    }
    forall r: Pc, s: Pc, t: Pc | r < |pd| && s < |pd| && s in pd[r] && t in pd[s] ensures t in pd[r] {
      PostDomTransitive(c, t, s, r);
    }
  }

  lemma EraseKeepsBehind(pd: Sets, tmp: set<Pc>, s: Pc, less: set<Pc>, t: Pc)
    requires Preorder(pd) && s in tmp && s < |pd| && less == (set u | u in tmp && (u == s || u !in pd[s]))
    requires Behind(pd, tmp, t)
    ensures Behind(pd, less, t)
  {
    var u :| u in tmp && u < |pd| && t in pd[u];
    assert s in less;
    if u !in less {
      assert t in pd[s];
    }
  }

  /** The two loops for one block. */
  method Erase(pd: Sets, all: set<Pc>) returns (tmp: set<Pc>)
    requires Preorder(pd) && forall s :: s in all ==> s < |pd|
    ensures IsFront(pd, all, tmp)
  {
    tmp := all;
    var visited := {};
    forall t | t in all ensures Behind(pd, tmp, t) {
      assert t in pd[t];
    }
    while tmp - visited != {}
      invariant tmp <= all && visited <= all
      invariant forall s, t :: s in visited && t in tmp && t != s ==> t !in pd[s]
      invariant forall t :: t in all ==> Behind(pd, tmp, t)
      decreases all - visited
    {
      var s := LeastMember(tmp - visited);
      var less := EraseBehind(tmp, s, pd[s]);
      forall t | t in all ensures Behind(pd, less, t) {
        EraseKeepsBehind(pd, tmp, s, less, t);
      }
      tmp, visited := less, visited + {s};
    }
  }

  /** `find_ipostdominators`, up to its assertion. */
  method FindIpostdominators(g: Blocks, pd: Sets) returns (tmp: Sets)
    requires Valid(g) && ArePostDoms(g, pd)
    ensures |tmp| == |g| && tmp[Exit(g)] == {}
    ensures forall n: Pc :: n < |g| - 1 ==> IsFront(pd, pd[n] - {n}, tmp[n])
  {
    PostDomsPreorder(g, pd);
    ExitAlone(g, pd);
    tmp := pd[|g| - 1 := pd[|g| - 1] - {|g| - 1}];
    var n := |g| - 1;
    while n > 0
      invariant 0 <= n <= |g| - 1 && |tmp| == |g| && tmp[Exit(g)] == {}
      invariant forall k: Pc :: n <= k < |g| - 1 ==> IsFront(pd, pd[k] - {k}, tmp[k])
    {
      n := n - 1;
      var left := Erase(pd, pd[n] - {n});
      tmp := tmp[n := left];
    }
  }

  lemma ExitAlone(g: Blocks, pd: Sets)
    requires Valid(g) && ArePostDoms(g, pd)
    ensures pd[Exit(g)] == {Exit(g)}
  {
    var e := Exit(g);
    assert ExitPathFrom(Graph(g), e, [e]);
    assert PostDom(Graph(g), e, e);
  }

  // ---------- when its assertion holds ----------

  lemma {:induction false} ExitOnPath(g: Blocks, path: seq<Pc>)
    requires Valid(g) && ExitPath(Graph(g), path)
    ensures Exit(g) in path
  {
    if |path| > 1 {
      ExitOnPath(g, path[1..]);
    }
  }

  lemma ExitIsBehind(g: Blocks, pd: Sets, n: Pc)
    requires Valid(g) && ArePostDoms(g, pd) && n < |g| - 1
    ensures Exit(g) in pd[n] - {n}
  {
    forall path | ExitPathFrom(Graph(g), n, path) ensures Exit(g) in path {
      ExitOnPath(g, path);
    }
  }

  lemma AtMostOne(s: set<Pc>, x: Pc)
    requires x in s
    ensures |s| <= 1 <==> s == {x}
  {
    if |s| <= 1 {
      SingletonIs(s, x);
    }
  }

  /** All of `all` is behind `s`, one of them. */
  ghost predicate CoversAll(pd: Sets, all: set<Pc>, s: Pc) {
    s in all && s < |pd| && all <= pd[s]
  }

  lemma FrontIsSingle(pd: Sets, all: set<Pc>, tmp: set<Pc>, s: Pc) returns (m: Pc)
    requires Preorder(pd) && IsFront(pd, all, tmp) && CoversAll(pd, all, s)
    ensures tmp == {m}
  {
    assert Behind(pd, tmp, s);
    m :| m in tmp && m < |pd| && s in pd[m];
    forall t | t in tmp ensures t == m {
      assert t in pd[s];
      assert t in pd[m];
    }
  }

  lemma SingleCovers(pd: Sets, all: set<Pc>, s: Pc)
    requires IsFront(pd, all, {s}) && s < |pd|
    ensures CoversAll(pd, all, s)
  {
    forall t | t in all ensures t in pd[s] {
      assert Behind(pd, {s}, t);
    }
  }

  /** One block is left exactly when all are behind one of them. */
  lemma OneLeft(pd: Sets, all: set<Pc>, tmp: set<Pc>, x: Pc)
    requires Preorder(pd) && IsFront(pd, all, tmp) && x in all
    ensures tmp != {}
    ensures |tmp| <= 1 <==> exists s :: CoversAll(pd, all, s)
  {
    assert Behind(pd, tmp, x);
    var y :| y in tmp && y < |pd| && x in pd[y];
    AtMostOne(tmp, y);
    if tmp == {y} {
      SingleCovers(pd, all, y);
    } else if s :| CoversAll(pd, all, s) {
      var m := FrontIsSingle(pd, all, tmp, s);
    }
  }

  /** The block can reach the exit, or another one cannot either, or all other blocks are ordered. */
  ghost predicate Decided(g: Blocks, n: Pc)
    requires Valid(g)
  {
    || Reaches(Graph(g), n)
    || (exists m: Pc :: m < |g| && m != n && !Reaches(Graph(g), m))
    || Ordered(Graph(g), All(g) - {n})
  }

  lemma PostDomsOfReaching(g: Blocks, pd: Sets, n: Pc)
    requires Valid(g) && ArePostDoms(g, pd) && n < |g| && Reaches(Graph(g), n)
    ensures Ordered(Graph(g), pd[n])
  {
    var path :| ExitPathFrom(Graph(g), n, path);
    forall r, s | r in pd[n] && s in pd[n] ensures PostDom(Graph(g), r, s) || PostDom(Graph(g), s, r) {
      PostDomsOrdered(Graph(g), n, path, r, s);
    }
  }

  lemma DecidedIsNearest(g: Blocks, pd: Sets, n: Pc)
    requires Valid(g) && ArePostDoms(g, pd) && n < |g| - 1
    ensures Decided(g, n) <==> exists s :: CoversAll(pd, pd[n] - {n}, s)
  {
    var c, all := Graph(g), pd[n] - {n};
    ExitIsBehind(g, pd, n);
    if m: Pc :| m < |g| && m != n && !Reaches(c, n) && !Reaches(c, m) {
      assert CoversAll(pd, all, m);
    } else if Decided(g, n) {
      if Reaches(c, n) {
        PostDomsOfReaching(g, pd, n);
      }
      assert Ordered(c, all);
      var r := NearestExists(c, all);
      assert CoversAll(pd, all, r);
    } else if s :| CoversAll(pd, all, s) {
      PostDomsOfReaching(g, pd, s);
    }
  }

  /** The assertion of `find_ipostdominators` that at most one block is left holds for a block exactly when it is
      decided. */
  lemma AssertionExact(g: Blocks, pd: Sets, n: Pc, tmp: set<Pc>)
    requires Valid(g) && ArePostDoms(g, pd) && n < |g| - 1 && IsFront(pd, pd[n] - {n}, tmp)
    ensures tmp != {} && (|tmp| <= 1 <==> Decided(g, n))
  {
    PostDomsPreorder(g, pd);
    ExitIsBehind(g, pd, n);
    OneLeft(pd, pd[n] - {n}, tmp, Exit(g));
    DecidedIsNearest(g, pd, n);
  }

  /** What is left for a block that can reach the exit is its immediate post-dominator. */
  lemma FrontIsImmediate(g: Blocks, pd: Sets, n: Pc, tmp: set<Pc>) returns (r: Pc)
    requires Valid(g) && ArePostDoms(g, pd) && n < |g| - 1 && Reaches(Graph(g), n)
    requires IsFront(pd, pd[n] - {n}, tmp)
    ensures tmp == {r} && r < |g| && ImmediatePostDom(Graph(g), r, n)
  {
    var c := Graph(g);
    AssertionExact(g, pd, n, tmp);
    r := Pick(tmp);
    AtMostOne(tmp, r);
    forall s | StrictPostDom(c, s, n) ensures PostDom(c, s, r) {
      PostDomIsBlock(g, s, n);
      assert Behind(pd, tmp, s);
    }
  }

  lemma PostDomIsBlock(g: Blocks, r: Pc, b: Pc)
    requires Valid(g) && Reaches(Graph(g), b) && PostDom(Graph(g), r, b)
    ensures r < |g|
  {
    var path :| ExitPathFrom(Graph(g), b, path);
    var k :| 0 <= k < |path| && path[k] == r;
    ExitPathSuffix(Graph(g), path, k);
  }

  // ---------- a function on which it fails ----------

  /** Block 3 loops for ever, and neither of blocks 1 and 2 post-dominates the other. */
  const UNDECIDED: Blocks := [{1, 2}, {4}, {3, 4}, {3}, {}]

  lemma {:induction false} NoWayOut(g: Blocks, path: seq<Pc>)
    requires g == UNDECIDED && Valid(g) && path != [] && path[0] == 3
    ensures !ExitPath(Graph(g), path)
  {
    if |path| > 1 && ExitPath(Graph(g), path) {
      assert path[1] in g[3];
      NoWayOut(g, path[1..]);
    }
  }

  /** On this function the assertion fails, for block 3. */
  lemma Undecided(g: Blocks)
    requires g == UNDECIDED
    ensures Valid(g) && !Decided(g, 3)
  {
    var c := Graph(g);
    forall path ensures !ExitPathFrom(c, 3, path) {
      if path != [] && path[0] == 3 {
        NoWayOut(g, path);
      }
    }
    forall m: Pc | m < |g| && m != 3 ensures Reaches(c, m) {
      assert m == 0 || m == 1 || m == 2 || m == 4;
      assert ExitPathFrom(c, m, if m == 4 then [4] else if m == 0 then [0, 1, 4] else [m, 4]);
    }
    assert ExitPathFrom(c, 1, [1, 4]) && ExitPathFrom(c, 2, [2, 4]);
    assert !PostDom(c, 2, 1) && !PostDom(c, 1, 2);
    assert 1 in All(g) - {3} && 2 in All(g) - {3};
  }
}
