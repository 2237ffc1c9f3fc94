/** From basic blocks to instructions: the reconvergence table that the program makes from immediate post-dominators of
    blocks (src/cuda-sim/ptx_ir.cc: get_reconvergence_pairs) is right for the instructions in the blocks, and a program
    that uses it follows its control-flow graph. */
module BlockCode {
  import opened Basics
  import opened SimtStack
  import opened SimtLanes
  import opened SimtRun
  import opened PostDominance
  import opened PostDominators

  /** The pcs of the instructions of every block but the exit, which has none. */
  type Layout = seq<seq<Pc>>

  ghost predicate At(code: Layout, b: nat, k: nat) {
    b < |code| && k < |code[b]|
  }

  ghost function AllPcs(code: Layout): (s: set<Pc>) {
    set b: nat, k: nat | b < |code| && k < |code[b]| && At(code, b, k) :: code[b][k]
  }

  /** A block that holds the pc, and a place there. */
  ghost function BlockOf(code: Layout, pc: Pc): (b: nat)
    requires pc in AllPcs(code)
  {
    var b: nat :| b < |code| && pc in code[b];
    b
  }

  ghost function PlaceOf(code: Layout, pc: Pc): (k: nat)
    requires pc in AllPcs(code)
  {
    var k: nat :| k < |code[BlockOf(code, pc)]| && code[BlockOf(code, pc)][k] == pc;
    k
  }

  lemma PlaceIs(code: Layout, pc: Pc)
    requires pc in AllPcs(code)
    ensures At(code, BlockOf(code, pc), PlaceOf(code, pc)) && code[BlockOf(code, pc)][PlaceOf(code, pc)] == pc
  {
  }

  /** No block but the exit is empty, the exit leads nowhere, and no pc is in two places. */
  ghost predicate Places(g: Blocks, code: Layout) {
    && Valid(g) && g[Exit(g)] == {} && |code| == |g| - 1
    && (forall b: nat :: b < |code| ==> At(code, b, 0))
    && forall b: nat, k: nat :: At(code, b, k) ==>
         && code[b][k] != NULL_PC && code[b][k] in AllPcs(code)
         && BlockOf(code, code[b][k]) == b && PlaceOf(code, code[b][k]) == k
  }

  // ---------- the control-flow graph of the instructions ----------

  /** The next instruction of the block, or the first ones of its successors. */
  ghost function SuccAt(g: Blocks, code: Layout, b: nat, k: nat): (s: set<Pc>)
    requires Places(g, code) && At(code, b, k)
  {
    if k + 1 < |code[b]| then {code[b][k + 1]} else Firsts(g, code, g[b])
  }

  ghost function Firsts(g: Blocks, code: Layout, bs: set<Pc>): (s: set<Pc>)
    requires Places(g, code)
  {
    set c | c in bs && c < |code| && At(code, c, 0) :: code[c][0]
  }

  ghost function PcGraph(g: Blocks, code: Layout, beyond: Pc): (c: Cfg)
    requires Places(g, code)
  {
    Cfg(map pc | pc in AllPcs(code) :: PlaceIs(code, pc); SuccAt(g, code, BlockOf(code, pc), PlaceOf(code, pc)),
        set b: nat | b < |code| && At(code, b, 0) && Exit(g) in g[b] :: Last(code[b]), beyond, map[])
  }

  lemma Node(g: Blocks, code: Layout, beyond: Pc, b: nat, k: nat)
    requires Places(g, code) && At(code, b, k)
    ensures var c, pc := PcGraph(g, code, beyond), code[b][k];
            && pc in c.succ && c.succ[pc] == SuccAt(g, code, b, k)
            && (pc in c.exits <==> k == |code[b]| - 1 && Exit(g) in g[b])
  {
    var pc := code[b][k];
    assert pc in AllPcs(code) && BlockOf(code, pc) == b && PlaceOf(code, pc) == k;
    var c := PcGraph(g, code, beyond);
    if pc in c.exits {
      var d: nat :| d < |code| && At(code, d, 0) && Exit(g) in g[d] && Last(code[d]) == pc;
      assert At(code, d, |code[d]| - 1);
    }
  }

  // ---------- paths of blocks and paths of instructions ----------

  /** The instructions of a path of blocks, from the `k`-th of its first block on. */
  ghost function Expand(code: Layout, blocks: seq<Pc>, k: nat): (path: seq<Pc>) {
    if blocks == [] || blocks[0] >= |code| then []
    else (if k <= |code[blocks[0]]| then code[blocks[0]][k..] else []) + Expand(code, blocks[1..], 0)
  }

  lemma ExpandStep(code: Layout, blocks: seq<Pc>, k: nat)
    requires blocks != [] && At(code, blocks[0], k)
    ensures Expand(code, blocks, k) == [code[blocks[0]][k]] + Expand(code, blocks, k + 1)
  {
    var pcs, rest := code[blocks[0]], Expand(code, blocks[1..], 0);
    assert pcs[k..] == [pcs[k]] + pcs[k + 1..];
    assert Expand(code, blocks, k) == pcs[k..] + rest;
    assert Expand(code, blocks, k + 1) == pcs[k + 1..] + rest;
  }

  lemma ExpandLast(code: Layout, blocks: seq<Pc>, k: nat)
    requires blocks != [] && At(code, blocks[0], k) && k == |code[blocks[0]]| - 1
    ensures Expand(code, blocks, k) == [code[blocks[0]][k]] + Expand(code, blocks[1..], 0)
  {
    assert code[blocks[0]][k..] == [code[blocks[0]][k]];
  }

  lemma {:induction false} ExpandIsPath(g: Blocks, code: Layout, beyond: Pc, blocks: seq<Pc>, k: nat)
    requires Places(g, code) && ExitPath(Graph(g), blocks) && At(code, blocks[0], k)
    ensures ExitPathFrom(PcGraph(g, code, beyond), code[blocks[0]][k], Expand(code, blocks, k))
    decreases |blocks|, |code[blocks[0]]| - k
  {
    var c, b := PcGraph(g, code, beyond), blocks[0];
    Node(g, code, beyond, b, k);
    if k + 1 < |code[b]| {
      ExpandIsPath(g, code, beyond, blocks, k + 1);
      ExpandStep(code, blocks, k);
      PathStep(c, code[b][k], code[b][k + 1], Expand(code, blocks, k + 1));
    } else {
      ExpandLast(code, blocks, k);
      var d := blocks[1];
      if d < |code| {
        assert At(code, d, 0);
        ExpandIsPath(g, code, beyond, blocks[1..], 0);
        PathStep(c, code[b][k], code[d][0], Expand(code, blocks[1..], 0));
      }
    }
  }

  /** A block put in front of a path of blocks. */
  lemma ExpandFront(g: Blocks, code: Layout, b: Pc, k: nat, d: Pc, rest: seq<Pc>)
    requires Places(g, code) && At(code, b, k) && k == |code[b]| - 1
    requires d in g[b] && ExitPathFrom(Graph(g), d, rest)
    ensures ExitPathFrom(Graph(g), b, [b] + rest)
    ensures Expand(code, [b] + rest, k) == [code[b][k]] + Expand(code, rest, 0)
  {
    PathStep(Graph(g), b, d, rest);
    ExpandLast(code, [b] + rest, k);
    assert ([b] + rest)[1..] == rest;
  }

  /** How a way out goes on from an instruction. */
  lemma NextOnPath(g: Blocks, code: Layout, beyond: Pc, path: seq<Pc>, b: Pc, k: nat) returns (d: Pc)
    requires Places(g, code) && At(code, b, k) && ExitPathFrom(PcGraph(g, code, beyond), code[b][k], path)
    ensures |path| == 1 ==> k == |code[b]| - 1 && Exit(g) in g[b]
    ensures |path| > 1 && k + 1 < |code[b]| ==> path[1] == code[b][k + 1]
    ensures |path| > 1 && k + 1 == |code[b]| ==> d in g[b] && At(code, d, 0) && path[1] == code[d][0]
  {
    Node(g, code, beyond, b, k);
    d := 0;
    if |path| > 1 && k + 1 == |code[b]| {
      d :| d in g[b] && d < |code| && At(code, d, 0) && code[d][0] == path[1];
    }
  }

  /** Every way out through the instructions is the expansion of a way out through the blocks. */
  lemma {:induction false} PathIsExpand(g: Blocks, code: Layout, beyond: Pc, path: seq<Pc>, b: Pc, k: nat)
      returns (blocks: seq<Pc>)
    requires Places(g, code) && At(code, b, k) && ExitPathFrom(PcGraph(g, code, beyond), code[b][k], path)
    ensures ExitPathFrom(Graph(g), b, blocks) && path == Expand(code, blocks, k)
    decreases |path|
  {
    var d := NextOnPath(g, code, beyond, path, b, k);
    assert path == [code[b][k]] + path[1..];
    if |path| == 1 {
      var e := Exit(g);
      assert ExitPathFrom(Graph(g), e, [e]);
      ExpandFront(g, code, b, k, e, [e]);
      blocks := [b] + [e];
    } else if k + 1 < |code[b]| {
      blocks := PathIsExpand(g, code, beyond, path[1..], b, k + 1);
      ExpandStep(code, blocks, k);
    } else {
      var rest := PathIsExpand(g, code, beyond, path[1..], d, 0);
      ExpandFront(g, code, b, k, d, rest);
      blocks := [b] + rest;
    }
  }

  /** What is on an expanded path is in the rest of the first block or in a later one. */
  lemma {:induction false} InExpand(code: Layout, blocks: seq<Pc>, k: nat, x: Pc) returns (i: nat, m: nat)
    requires blocks != [] && x in Expand(code, blocks, k)
    ensures i < |blocks| && At(code, blocks[i], m) && code[blocks[i]][m] == x && (i == 0 ==> k <= m)
    decreases |blocks|
  {
    var b, rest := blocks[0], Expand(code, blocks[1..], 0);
    if x in rest {
      i, m := InExpand(code, blocks[1..], 0, x);
      i := i + 1;
    } else {
      var j :| 0 <= j < |code[b][k..]| && code[b][k..][j] == x;
      i, m := 0, k + j;
    }
  }

  /** An expanded path holds every instruction of every later block. */
  lemma {:induction false} ExpandHolds(g: Blocks, code: Layout, blocks: seq<Pc>, k: nat, i: nat, m: nat)
    requires Places(g, code) && ExitPath(Graph(g), blocks) && 0 < i < |blocks| && At(code, blocks[i], m)
    ensures code[blocks[i]][m] in Expand(code, blocks, k)
    decreases i
  {
    assert blocks[0] < |code|;
    if i == 1 {
      assert code[blocks[1]][0..] == code[blocks[1]];
      assert code[blocks[1]][m] in Expand(code, blocks[1..], 0);
    } else {
      ExpandHolds(g, code, blocks[1..], 0, i - 1, m);
    }
  }

  // ---------- post-dominators of blocks and of instructions ----------

  /** A later instruction of a block post-dominates an earlier one. */
  lemma SameBlockPostDom(g: Blocks, code: Layout, beyond: Pc, b: Pc, k: nat, m: nat)
    requires Places(g, code) && At(code, b, m) && k <= m
    ensures PostDom(PcGraph(g, code, beyond), code[b][m], code[b][k])
  {
    forall path | ExitPathFrom(PcGraph(g, code, beyond), code[b][k], path) ensures code[b][m] in path {
      var blocks := PathIsExpand(g, code, beyond, path, b, k);
      assert code[b][m] == code[b][k..][m - k];
    }
  }

  /** All instructions of a post-dominating block post-dominate. */
  lemma LiftPostDom(g: Blocks, code: Layout, beyond: Pc, r: Pc, m: nat, b: Pc, k: nat)
    requires Places(g, code) && At(code, b, k) && At(code, r, m) && r != b && PostDom(Graph(g), r, b)
    ensures PostDom(PcGraph(g, code, beyond), code[r][m], code[b][k])
  {
    forall path | ExitPathFrom(PcGraph(g, code, beyond), code[b][k], path) ensures code[r][m] in path {
      var blocks := PathIsExpand(g, code, beyond, path, b, k);
      var i :| 0 <= i < |blocks| && blocks[i] == r;
      ExpandHolds(g, code, blocks, k, i, m);
    }
  }

  /** What strictly post-dominates the end of a block is in another block, one that post-dominates it. */
  lemma LowerPostDom(g: Blocks, code: Layout, beyond: Pc, x: Pc, b: Pc) returns (r: Pc, m: nat)
    requires Places(g, code) && At(code, b, 0) && Reaches(Graph(g), b)
    requires StrictPostDom(PcGraph(g, code, beyond), x, Last(code[b]))
    ensures At(code, r, m) && code[r][m] == x && r != b && PostDom(Graph(g), r, b)
  {
    var c, k := PcGraph(g, code, beyond), |code[b]| - 1;
    var blocks :| ExitPathFrom(Graph(g), b, blocks);
    ExpandIsPath(g, code, beyond, blocks, k);
    var i;
    i, m := InExpand(code, blocks, k, x);
    r := blocks[i];
    if r == b {
      SameBlockPostDom(g, code, beyond, b, m, k);
      NoMutualPostDom(c, x, code[b][k], Expand(code, blocks, k));
    }
    forall other | ExitPathFrom(Graph(g), b, other) ensures r in other {
      ExpandIsPath(g, code, beyond, other, k);
      var j, n := InExpand(code, other, k, x);
    }
  }

  /** The first instruction of the block, or `beyond` for the exit. */
  function TargetOf(code: Layout, beyond: Pc, r: Pc): (pc: Pc) {
    if r < |code| && code[r] != [] then code[r][0] else beyond
  }

  /** The target of the immediate post-dominator of a block is the reconvergence pc of its last instruction. */
  lemma TargetIsReconvergence(g: Blocks, code: Layout, beyond: Pc, b: Pc, r: Pc)
    requires Places(g, code) && b < |code| && Reaches(Graph(g), b)
    requires r < |g| && ImmediatePostDom(Graph(g), r, b)
    ensures At(code, b, 0) && IsReconvergence(PcGraph(g, code, beyond), TargetOf(code, beyond, r), Last(code[b]))
  {
    assert At(code, b, 0);
    var c, e := PcGraph(g, code, beyond), Last(code[b]);
    assert At(code, b, |code[b]| - 1);
    if r == Exit(g) {
      forall s ensures !StrictPostDom(c, s, e) {
        if StrictPostDom(c, s, e) {
          var q, m := LowerPostDom(g, code, beyond, s, b);
          assert StrictPostDom(Graph(g), q, b);
          assert ExitPathFrom(Graph(g), r, [r]);
        }
      }
    } else {
      assert At(code, r, 0);
      LiftPostDom(g, code, beyond, r, 0, b, |code[b]| - 1);
      forall s | StrictPostDom(c, s, e) ensures PostDom(c, s, code[r][0]) {
        var q, m := LowerPostDom(g, code, beyond, s, b);
        if q == r {
          SameBlockPostDom(g, code, beyond, r, 0, m);
        } else {
          LiftPostDom(g, code, beyond, q, m, r, 0);
        }
      }
    }
  }

  // ---------- the table ----------

  ghost predicate IsTable(g: Blocks, code: Layout, beyond: Pc, table: seq<Pc>)
    requires Places(g, code)
  {
    |table| == |code| && RightSoFar(g, code, beyond, table)
  }

  ghost predicate RightSoFar(g: Blocks, code: Layout, beyond: Pc, table: seq<Pc>)
    requires Places(g, code)
  {
    forall b: Pc :: b < |table| ==> EntryRight(g, code, beyond, b, table[b])
  }

  lemma TableGrows(g: Blocks, code: Layout, beyond: Pc, table: seq<Pc>, pc: Pc)
    requires Places(g, code) && RightSoFar(g, code, beyond, table)
    requires |table| < |code| && EntryRight(g, code, beyond, |table|, pc)
    ensures RightSoFar(g, code, beyond, table + [pc])
  {
    var more := table + [pc];
    forall b: Pc | b < |more| ensures EntryRight(g, code, beyond, b, more[b]) {
      assert more[b] == if b < |table| then table[b] else pc;
    }
  }

  /** The table is right for block `b`, if that can reach the exit. */
  ghost predicate EntryRight(g: Blocks, code: Layout, beyond: Pc, b: Pc, pc: Pc)
    requires Places(g, code)
  {
    Reaches(Graph(g), b) ==> At(code, b, 0) && IsReconvergence(PcGraph(g, code, beyond), pc, Last(code[b]))
  }

  lemma TableEntry(g: Blocks, code: Layout, beyond: Pc, pd: Sets, b: Pc, tmp: set<Pc>, r: Pc)
    requires Places(g, code) && b < |code| && ArePostDoms(g, pd)
    requires IsFront(pd, pd[b] - {b}, tmp) && r in tmp
    ensures EntryRight(g, code, beyond, b, TargetOf(code, beyond, r))
  {
    if Reaches(Graph(g), b) {
      var ip := FrontIsImmediate(g, pd, b, tmp);
      TargetIsReconvergence(g, code, beyond, b, ip);
      assert At(code, b, 0);
    }
  }

  /** The assertion loop at the end of `find_ipostdominators`. */
  method CheckSizes(g: Blocks, pd: Sets, tmp: Sets) returns (ok: bool)
    requires Valid(g) && ArePostDoms(g, pd) && |tmp| == |g| && tmp[Exit(g)] == {}
    requires forall n: Pc :: n < |g| - 1 ==> IsFront(pd, pd[n] - {n}, tmp[n])
    ensures ok <==> forall n: Pc :: n < |g| - 1 ==> Decided(g, n)
  {
    var n := |g| - 1;
    while n >= 0
      invariant -1 <= n < |g|
      invariant forall k: Pc :: n < k < |g| - 1 ==> Decided(g, k)
    {
      if n < |g| - 1 {
        AssertionExact(g, pd, n, tmp[n]);
      }
      if |tmp[n]| > 1 {
        return false;
      }
      n := n - 1;
    }
    ok := true;
  }

  /** `get_reconvergence_pairs`: the first instruction of the immediate post-dominator of every block. */
  method MakeTable(g: Blocks, code: Layout, beyond: Pc, ghost pd: Sets, tmp: Sets) returns (table: seq<Pc>)
    requires Places(g, code) && ArePostDoms(g, pd) && |tmp| == |g|
    requires forall n: Pc :: n < |g| - 1 ==> IsFront(pd, pd[n] - {n}, tmp[n]) && tmp[n] != {}
    ensures IsTable(g, code, beyond, table)
  {
    table := [];
    var b := 0;
    while b < |g| - 1
      invariant 0 <= b <= |code| && |table| == b
      invariant RightSoFar(g, code, beyond, table)
    {
      var r := LeastMember(tmp[b]);
      TableEntry(g, code, beyond, pd, b, tmp[b], r);
      TableGrows(g, code, beyond, table, TargetOf(code, beyond, r));
      table := table + [TargetOf(code, beyond, r)];
      b := b + 1;
    }
  }

  /** From blocks to the table of reconvergence pcs, as the program makes it; `None` is its failed assertion. */
  method ReconvergencePairs(g: Blocks, code: Layout, beyond: Pc) returns (table: Option<seq<Pc>>)
    requires Places(g, code)
    ensures table.Some? <==> forall n: Pc :: n < |g| - 1 ==> Decided(g, n)
    ensures table.Some? ==> IsTable(g, code, beyond, table.value)
  {
    var pd := FindPostdominators(g);
    var tmp := FindIpostdominators(g, pd);
    var ok := CheckSizes(g, pd, tmp);
    if !ok {
      return None;
    }
    forall n: Pc | n < |g| - 1 ensures tmp[n] != {} {
      AssertionExact(g, pd, n, tmp[n]);
    }
    var pcs := MakeTable(g, code, beyond, pd, tmp);
    table := Some(pcs);
  }

  // ---------- programs that use the table ----------

  lemma {:induction false} FirstsSize(g: Blocks, code: Layout, bs: set<Pc>)
    requires Places(g, code)
    ensures |Firsts(g, code, bs)| <= |bs|
    decreases |bs|
  {
    if bs != {} {
      var c := Pick(bs);
      var rest := bs - {c};
      FirstsSize(g, code, rest);
      var s, t := Firsts(g, code, bs), Firsts(g, code, rest);
      if c < |code| {
        assert At(code, c, 0);
        assert s == t + {code[c][0]};
      } else {
        assert s == t;
      }
    } else {
      assert Firsts(g, code, bs) == {};
    }
  }

  lemma SuccOk(g: Blocks, code: Layout, beyond: Pc, b: nat, k: nat, q: Pc)
    requires Places(g, code) && At(code, b, k) && q in SuccAt(g, code, b, k)
    ensures q in PcGraph(g, code, beyond).succ
  {
    if k + 1 < |code[b]| {
      assert At(code, b, k + 1);
      Node(g, code, beyond, b, k + 1);
    } else {
      var d :| d in g[b] && d < |code| && At(code, d, 0) && code[d][0] == q;
      Node(g, code, beyond, d, 0);
    }
  }

  lemma NodeOk(g: Blocks, code: Layout, beyond: Pc, pc: Pc)
    requires Places(g, code) && pc in AllPcs(code)
    requires forall b: Pc :: b < |code| ==> Reaches(Graph(g), b) && |g[b]| <= 2
    ensures var c := PcGraph(g, code, beyond);
            && pc != NULL_PC && pc in c.succ && |c.succ[pc]| <= 2 && Reaches(c, pc)
            && forall q :: q in c.succ[pc] ==> q in c.succ
  {
    var b, k := BlockOf(code, pc), PlaceOf(code, pc);
    PlaceIs(code, pc);
    Node(g, code, beyond, b, k);
    FirstsSize(g, code, g[b]);
    assert Reaches(Graph(g), b);
    var blocks :| ExitPathFrom(Graph(g), b, blocks);
    ExpandIsPath(g, code, beyond, blocks, k);
    forall q | q in SuccAt(g, code, b, k) ensures q in PcGraph(g, code, beyond).succ {
      SuccOk(g, code, beyond, b, k, q);
    }
  }

  /** The two-way branches of the function have their reconvergence pcs from the table. */
  ghost predicate UsesTable<L>(p: Program<L>, g: Blocks, code: Layout, table: seq<Pc>)
    requires Places(g, code)
  {
    forall b: nat :: b < |code| && b < |table| && At(code, b, 0) && |Firsts(g, code, g[b])| == 2 ==>
      p.inst(Last(code[b])).recvg == table[b]
  }

  /** A call-free program whose lanes move along the instructions and whose branches use the table. */
  ghost predicate Uses<L(!new)>(p: Program<L>, g: Blocks, code: Layout, beyond: Pc, table: seq<Pc>)
    requires Places(g, code)
  {
    && (forall l: L :: Moves(p, PcGraph(g, code, beyond), NoFrames, l))
    && (forall pc :: pc in AllPcs(code) ==> p.inst(pc).pc == pc && !p.inst(pc).op.CallOps?)
    && UsesTable(p, g, code, table)
  }

  lemma PcGraphWellFormed(g: Blocks, code: Layout, beyond: Pc)
    requires Places(g, code)
    requires forall b: Pc :: b < |code| ==> Reaches(Graph(g), b) && |g[b]| <= 2
    ensures WellFormed(PcGraph(g, code, beyond))
  {
    var c := PcGraph(g, code, beyond);
    forall pc | pc in c.succ
      ensures pc != NULL_PC && |c.succ[pc]| <= 2 && Reaches(c, pc)
      ensures forall q :: q in c.succ[pc] ==> q in c.succ
    {
      NodeOk(g, code, beyond, pc);
    }
  }

  lemma LastRight(g: Blocks, code: Layout, beyond: Pc, table: seq<Pc>, b: Pc)
    requires Places(g, code) && IsTable(g, code, beyond, table) && b < |code| && Reaches(Graph(g), b)
    ensures At(code, b, 0) && IsReconvergence(PcGraph(g, code, beyond), table[b], Last(code[b]))
  {
    assert EntryRight(g, code, beyond, b, table[b]);
  }

  lemma BranchRight(g: Blocks, code: Layout, beyond: Pc, table: seq<Pc>, r: Pc, b: Pc, k: nat)
    requires Places(g, code) && IsTable(g, code, beyond, table) && At(code, b, k) && Reaches(Graph(g), b)
    requires k == |code[b]| - 1 && |Firsts(g, code, g[b])| == 2 ==> r == table[b]
    ensures var c, pc := PcGraph(g, code, beyond), code[b][k];
            pc in c.succ && (|c.succ[pc]| == 2 ==> IsReconvergence(c, r, pc))
  {
    LastRight(g, code, beyond, table, b);
    Node(g, code, beyond, b, k);
  }

  /** Every instruction with two successors has the right reconvergence pc. */
  lemma TableRight<L>(p: Program<L>, g: Blocks, code: Layout, beyond: Pc, table: seq<Pc>, pc: Pc)
    requires Places(g, code) && IsTable(g, code, beyond, table) && UsesTable(p, g, code, table) && pc in AllPcs(code)
    requires forall b: Pc :: b < |code| ==> Reaches(Graph(g), b)
    ensures var c := PcGraph(g, code, beyond);
            pc in c.succ && (|c.succ[pc]| == 2 ==> IsReconvergence(c, p.inst(pc).recvg, pc))
  {
    var b, k := BlockOf(code, pc), PlaceOf(code, pc);
    PlaceIs(code, pc);
    assert At(code, b, 0);
    BranchRight(g, code, beyond, table, p.inst(pc).recvg, b, k);
  }

  /** Such a program follows the control-flow graph of its instructions. */
  lemma TableFollows<L(!new)>(p: Program<L>, g: Blocks, code: Layout, beyond: Pc, table: seq<Pc>)
    requires Places(g, code) && IsTable(g, code, beyond, table)
    requires forall b: Pc :: b < |code| ==> Reaches(Graph(g), b) && |g[b]| <= 2
    requires Uses(p, g, code, beyond, table)
    ensures Follows(p, PcGraph(g, code, beyond), NoFrames)
  {
    var c := PcGraph(g, code, beyond);
    PcGraphWellFormed(g, code, beyond);
    forall pc | pc in c.succ ensures TableOk(p, c, pc) {
      TableRight(p, g, code, beyond, table, pc);
    }
  }
}
