/** How deep the SIMT stack of a warp can grow, and what calls do to it. */
module SimtDepth {
  import opened Basics
  import opened SimtStack
  import opened SimtLanes
  import opened SimtRun
  import opened PostDominance

  ghost function Calls(s: seq<Entry>): (n: nat) {
    if s == [] then 0 else Calls(Front(s)) + if Last(s).kind.Call? then 1 else 0
  }

  /** Twice the lanes of an entry plus its depth, CALL entries not counted, never exceed twice the warp. */
  ghost predicate Shallow(s: seq<Entry>, width: nat) {
    s == [] || (Shallow(Front(s), width) && |s| - 1 + 2 * |Last(s).mask| <= 2 * width + Calls(s))
  }

  lemma PushShallow(s: seq<Entry>, e: Entry, width: nat)
    ensures Calls(s + [e]) == Calls(s) + if e.kind.Call? then 1 else 0
    ensures Shallow(s + [e], width) == (Shallow(s, width) && |s| + 2 * |e.mask| <= 2 * width + Calls(s + [e]))
  {
    assert Front(s + [e]) == s;
  }

  lemma {:induction false} PushBranches(s: seq<Entry>, t: seq<Entry>, size: nat, width: nat)
    requires Shallow(s, width) && |s| + |t| - 1 + 2 * size <= 2 * width + Calls(s)
    requires forall k :: 0 <= k < |t| ==> t[k].kind.Normal? && |t[k].mask| <= size
    ensures Shallow(s + t, width) && Calls(s + t) == Calls(s)
  {
    if t == [] {
      assert s + t == s;
    } else {
      PushBranches(s, Front(t), size, width);
      PushShallow(s + Front(t), Last(t), width);
      assert s + t == s + Front(t) + [Last(t)];
    }
  }

  lemma DivergeShallow(rest: seq<Entry>, top: Entry, recvg: Pc, cycle: nat, p: Pc, pMask: Mask, q: Pc, qMask: Mask,
                       width: nat)
    requires Shallow(rest + [top], width) && p != q && pMask < top.mask && qMask < top.mask
    ensures Shallow(rest + Diverge(top, recvg, cycle, p, pMask, q, qMask), width)
  {
    SubsetSize(pMask, top.mask);
    SubsetSize(qMask, top.mask);
    ShallowParts(rest, top, Diverge(top, recvg, cycle, p, pMask, q, qMask), width);
  }

  lemma ShallowParts(rest: seq<Entry>, top: Entry, t: seq<Entry>, width: nat)
    requires Shallow(rest + [top], width) && |top.mask| > 0
    requires 1 <= |t| <= 3 && t[0].kind == top.kind && |t[0].mask| <= |top.mask|
    requires forall k :: 0 <= k < |t| - 1 ==> t[1..][k].kind.Normal? && |t[1..][k].mask| <= |top.mask| - 1
    ensures Shallow(rest + t, width)
  {
    PushShallow(rest, top, width);
    PushShallow(rest, t[0], width);
    PushBranches(rest + [t[0]], t[1..], |top.mask| - 1, width);
    assert rest + t == (rest + [t[0]]) + t[1..];
  }

  lemma UpdateKeepsShallow(s: seq<Entry>, done: Mask, next: seq<Pc>, inst: Inst, cycle: nat, width: nat)
    requires UpdateOk(s, done, next, inst) && Shallow(s, width)
    ensures Shallow(Updated(s, done, next, inst, cycle), width)
  {
    var rest, top := Front(s), Last(s);
    var s', live := Updated(s, done, next, inst, cycle), top.mask - done;
    var targets := Targets(live, next);
    if targets != {} {
      var p := FirstPath(targets, NotTaken(inst));
      SubsetSize(Group(live, next, p), top.mask);
      assert s == rest + [top];
      PushShallow(rest, top, width);
      if inst.op.CallOps? {
        PushShallow(s, Last(s'), width);
      } else if inst.op.RetOps? && top.kind.Call? {
        var caller := Last(rest);
        assert rest == Front(rest) + [caller];
        PushShallow(Front(rest), caller, width);
        PushShallow(Front(rest), caller.(pc := p), width);
      } else if |targets| == 1 {
        SingletonIs(targets, p);
        PushShallow(rest, top.(pc := p, mask := Group(live, next, p)), width);
      } else {
        OtherMember(targets, p);
        var q := FirstPath(targets - {p}, NotTaken(inst));
        var i :| i in live && next[i] == p;
        var j :| j in live && next[j] == q;
        assert i in top.mask && i !in Group(live, next, q);
        assert j in top.mask && j !in Group(live, next, p);
        DivergeShallow(rest, top, inst.recvg, cycle, p, Group(live, next, p), q, Group(live, next, q), width);
      }
    }
  }

  /** In every run of a warp of W lanes the stack has at most 2W - 1 entries and one more per outstanding call. */
  lemma {:induction false} DepthBound<L>(p: Program<L>, ws: seq<Warp<L>>, cycles: nat -> nat, pc: Pc, launched: Mask,
                                         n: nat)
    requires IsRun(p, ws, cycles, pc, launched) && n < |ws|
    ensures Shallow(ws[n].stack, |launched|)
    ensures |ws[n].stack| <= 2 * |launched| - 1 + Calls(ws[n].stack)
  {
    if n == 0 {
      PushShallow([], ws[0].stack[0], |launched|);
      assert ws[0].stack == [] + [ws[0].stack[0]];
    } else {
      DepthBound(p, ws, cycles, pc, launched, n - 1);
      assert StepsAt(p, ws, cycles, n - 1);
      var w, lanes := ws[n - 1], ws[n].lanes;
      UpdateKeepsShallow(w.stack, DoneMask(p, lanes), NextPcs(p, lanes), p.inst(Last(w.stack).pc), cycles(n - 1),
          |launched|);
    }
    RunInv(p, ws, cycles, pc, launched, n);
    if ws[n].stack != [] {
      assert Last(ws[n].stack) in ws[n].stack;
    }
  }

  // ---------- the bound is attained ----------

  /** A lane of the deepest program: its number, its pc, and whether it has finished. */
  datatype Peeler = Peeler(id: nat, pc: Pc, done: bool)

  /** Nested ifs: at pc 3j lane j falls through to 3j + 1 and every other lane goes on to 3(j + 1); both sides meet at
      3j + 2, which leads out to the enclosing if. The innermost pc is 3(width - 1); lanes leave at 2. */
  function PeelStep(width: nat, pc: Pc, l: Peeler): (r: Peeler)
    requires 1 <= width <= MAX_WARP_SIZE
  {
    if pc > 3 * (width - 1) then l.(done := true)
    else if pc == 3 * (width - 1) then (if pc == 0 then l.(done := true) else l.(pc := pc - 1))
    else if pc % 3 == 0 then l.(pc := if l.id == pc / 3 then pc + 1 else pc + 3)
    else if pc % 3 == 1 then l.(pc := pc + 1)
    else if pc == 2 then l.(done := true)
    else l.(pc := pc - 3)
  }

  function PeelInst(pc: Pc): (i: Inst) {
    Inst(pc, OtherOps, 1, if pc + 2 < NULL_PC then pc + 2 else NULL_PC)
  }

  function Peeling(width: nat): (p: Program<Peeler>)
    requires 1 <= width <= MAX_WARP_SIZE
  {
    Program((pc: Pc, l: Peeler) => PeelStep(width, pc, l), (l: Peeler) => l.pc, (l: Peeler) => l.done, PeelInst)
  }

  // ---------- its control-flow graph ----------

  function PeelSucc(width: nat, x: Pc): (s: set<Pc>)
    requires 1 <= width <= MAX_WARP_SIZE && x <= 3 * (width - 1)
  {
    if x == 3 * (width - 1) then (if x == 0 then {} else {x - 1})
    else if x % 3 == 0 then {x + 1, x + 3}
    else if x % 3 == 1 then {x + 1}
    else if x == 2 then {}
    else {x - 3}
  }

  ghost function PeelGraph(width: nat): (g: Cfg)
    requires 1 <= width <= MAX_WARP_SIZE
  {
    Cfg(map x: Pc | x <= 3 * (width - 1) :: PeelSucc(width, x), {if width == 1 then 0 else 2}, NULL_PC, map[])
  }

  /** The way out from 3j + 2. */
  function Out(j: nat): (path: seq<Pc>)
    requires j < MAX_WARP_SIZE
  {
    if j == 0 then [2] else [3 * j + 2] + Out(j - 1)
  }

  lemma {:induction false} OutIsPath(width: nat, j: nat)
    requires j + 1 < width <= MAX_WARP_SIZE
    ensures ExitPathFrom(PeelGraph(width), 3 * j + 2, Out(j)) && forall x :: x in Out(j) ==> x % 3 == 2
  {
    if j > 0 {
      OutIsPath(width, j - 1);
      assert Out(j)[1..] == Out(j - 1);
    }
  }

  lemma PeelReaches(width: nat, x: Pc) returns (path: seq<Pc>)
    requires 1 <= width <= MAX_WARP_SIZE && x <= 3 * (width - 1)
    ensures ExitPathFrom(PeelGraph(width), x, path)
  {
    var g := PeelGraph(width);
    if width == 1 {
      path := [0];
    } else if x == 3 * (width - 1) {
      OutIsPath(width, width - 2);
      PathStep(g, x, x - 1, Out(width - 2));
      path := [x] + Out(width - 2);
    } else {
      var j := x / 3;
      OutIsPath(width, j);
      path := Out(j);
      if x % 3 != 2 {
        PathStep(g, 3 * j + 1, 3 * j + 2, path);
        path := [3 * j + 1] + path;
        if x % 3 == 0 {
          PathStep(g, x, 3 * j + 1, path);
          path := [x] + path;
        }
      }
    }
  }

  /** Inside the if at 3j. */
  predicate Inside(j: nat, x: Pc) {
    x == 3 * j || x == 3 * j + 1 || x >= 3 * j + 3
  }

  lemma {:induction false} LeavesThrough(width: nat, j: nat, path: seq<Pc>)
    requires j + 1 < width <= MAX_WARP_SIZE && ExitPath(PeelGraph(width), path) && Inside(j, path[0])
    ensures 3 * j + 2 in path
  {
    assert |path| > 1;
    assert path[1] in PeelSucc(width, path[0]);
    if path[1] != 3 * j + 2 {
      LeavesThrough(width, j, path[1..]);
    }
  }

  /** Past the if at 3j, or on the way out of it. */
  predicate Past(j: nat, x: Pc) {
    x >= 3 * j + 3 || x % 3 == 2
  }

  lemma {:induction false} NeverBack(width: nat, j: nat, path: seq<Pc>)
    requires 1 <= width <= MAX_WARP_SIZE && ExitPath(PeelGraph(width), path) && Past(j, path[0])
    ensures 3 * j + 1 !in path
  {
    if |path| > 1 {
      assert path[1] in PeelSucc(width, path[0]);
      NeverBack(width, j, path[1..]);
    }
  }

  /** A way out of the if at 3j that does not fall through. */
  lemma Around(width: nat, j: nat) returns (path: seq<Pc>)
    requires j + 1 < width <= MAX_WARP_SIZE
    ensures ExitPathFrom(PeelGraph(width), 3 * j, path) && 3 * j + 1 !in path
  {
    var rest := PeelReaches(width, 3 * j + 3);
    NeverBack(width, j, rest);
    PathStep(PeelGraph(width), 3 * j, 3 * j + 3, rest);
    path := [3 * j] + rest;
  }

  /** The two sides of the if at 3j reconverge at 3j + 2. */
  lemma PeelReconverges(width: nat, j: nat)
    requires j + 1 < width <= MAX_WARP_SIZE
    ensures IsReconvergence(PeelGraph(width), 3 * j + 2, 3 * j)
  {
    var g, p, r := PeelGraph(width), 3 * j, 3 * j + 2;
    forall path | ExitPathFrom(g, p, path) ensures r in path {
      LeavesThrough(width, j, path);
    }
    forall s | StrictPostDom(g, s, p) ensures PostDom(g, s, r) {
      var around := Around(width, j);
      forall path | ExitPathFrom(g, r, path) ensures s in path {
        PathStep(g, p + 1, r, path);
        PathStep(g, p, p + 1, [p + 1] + path);
        assert s in [p] + ([p + 1] + path);
      }
    }
  }

  lemma PeelWellFormed(width: nat)
    requires 1 <= width <= MAX_WARP_SIZE
    ensures WellFormed(PeelGraph(width))
  {
    var g := PeelGraph(width);
    forall x | x in g.succ ensures NodeIn(g, x) {
      PeelNode(width, x);
    }
    NodesIn(g);
  }

  lemma PeelNode(width: nat, x: Pc)
    requires 1 <= width <= MAX_WARP_SIZE && x in PeelGraph(width).succ
    ensures NodeIn(PeelGraph(width), x)
  {
    var path := PeelReaches(width, x);
  }

  lemma PeelTable(width: nat, x: Pc)
    requires 1 <= width <= MAX_WARP_SIZE && x <= 3 * (width - 1)
    ensures TableOk(Peeling(width), PeelGraph(width), x)
  {
    if x != 3 * (width - 1) && x % 3 == 0 {
      PeelReconverges(width, x / 3);
    }
  }

  lemma PeelMoves(width: nat, l: Peeler)
    requires 1 <= width <= MAX_WARP_SIZE
    ensures Moves(Peeling(width), PeelGraph(width), NoFrames, l)
  {
    if l.pc <= 3 * (width - 1) {
      var r := PeelStep(width, l.pc, l);
      assert !l.done && r.done ==> l.pc == if width == 1 then 0 else 2;
      assert !l.done && !r.done ==> r.pc in PeelSucc(width, l.pc);
    }
  }

  /** The deepest program follows its graph. */
  lemma PeelFollows(width: nat)
    requires 1 <= width <= MAX_WARP_SIZE
    ensures Follows(Peeling(width), PeelGraph(width), NoFrames)
  {
    var p, g := Peeling(width), PeelGraph(width);
    PeelWellFormed(width);
    forall x | x in g.succ ensures TableOk(p, g, x) {
      PeelTable(width, x);
    }
    forall l: Peeler ensures Moves(p, g, NoFrames, l) {
      PeelMoves(width, l);
    }
  }

  // ---------- its run ----------

  predicate AtLeast(j: nat, i: nat) {
    j <= i
  }

  function Upwards(j: nat, width: nat): (m: Mask) {
    set i: nat | i < width && AtLeast(j, i)
  }

  function NoCycles(k: nat): (cycle: nat) {
    0
  }

  /** The warp after `j` branches: a reconvergence entry and a one-lane entry for each of them. */
  function PeelStack(width: nat, j: nat): (s: seq<Entry>)
    requires j <= width <= MAX_WARP_SIZE
  {
    if j == 0 then []
    else
      var b := 3 * (j - 1);
      PeelStack(width, j - 1)
      + [Entry(b + 2, if j == 1 then 1 else 0, Upwards(j - 1, width), if j == 1 then NULL_PC else b - 1, 0, Normal),
         Branch(b + 1, {j - 1}, b + 2)]
  }

  function PeelTop(width: nat, j: nat): (e: Entry)
    requires j < width <= MAX_WARP_SIZE
  {
    Entry(3 * j, if j == 0 then 1 else 0, Upwards(j, width), if j == 0 then NULL_PC else 3 * j - 1, 0, Normal)
  }

  function PeelPc(id: nat, j: nat): (pc: Pc)
    requires j < MAX_WARP_SIZE
  {
    if id < j then 3 * id + 1 else 3 * j
  }

  function PeelWarp(width: nat, j: nat): (w: Warp<Peeler>)
    requires j < width <= MAX_WARP_SIZE
  {
    Warp(PeelStack(width, j) + [PeelTop(width, j)],
        seq(width, i requires 0 <= i < width => Peeler(i, PeelPc(i, j), false)))
  }

  lemma PeelTargets(width: nat, j: nat, next: seq<Pc>)
    requires j + 1 < width <= MAX_WARP_SIZE && |next| == width
    requires forall i :: 0 <= i < width ==> next[i] == PeelPc(i, j + 1)
    ensures var top, mask, inst := PeelTop(width, j), Upwards(j, width), PeelInst(3 * j);
            && Targets(mask, next) == {3 * j + 1, 3 * (j + 1)}
            && FirstPath(Targets(mask, next), NotTaken(inst)) == 3 * j + 1
            && Targets(mask, next) - {3 * j + 1} == {3 * (j + 1)}
            && Group(mask, next, 3 * j + 1) == {j}
            && Group(mask, next, 3 * (j + 1)) == Upwards(j + 1, width)
  {
    var mask := Upwards(j, width);
    assert j in mask && j + 1 in mask;
    assert next[j] == 3 * j + 1 && next[j + 1] == 3 * (j + 1);
    assert next[j] in Targets(mask, next) && next[j + 1] in Targets(mask, next);
    assert Targets(mask, next) == {3 * j + 1, 3 * (j + 1)};
  }

  lemma PeelExecutes(width: nat, j: nat)
    requires j + 1 < width <= MAX_WARP_SIZE
    ensures Execute(Peeling(width), PeelTop(width, j), PeelWarp(width, j).lanes) == PeelWarp(width, j + 1).lanes
    ensures DoneMask(Peeling(width), PeelWarp(width, j + 1).lanes) == {}
  {
  }

  lemma PeelOnce(width: nat, j: nat)
    requires j + 1 < width <= MAX_WARP_SIZE
    ensures StepOk(Peeling(width), PeelWarp(width, j))
    ensures Step(Peeling(width), PeelWarp(width, j), 0) == PeelWarp(width, j + 1)
  {
    var w, top := PeelWarp(width, j), PeelTop(width, j);
    assert Front(w.stack) == PeelStack(width, j) && Last(w.stack) == top;
    PeelExecutes(width, j);
    var next, inst := NextPcs(Peeling(width), PeelWarp(width, j + 1).lanes), PeelInst(3 * j);
    PeelTargets(width, j, next);
    PeelUpdates(width, j, next);
  }

  lemma PeelUpdates(width: nat, j: nat, next: seq<Pc>)
    requires j + 1 < width <= MAX_WARP_SIZE && |next| == width
    requires forall i :: 0 <= i < width ==> next[i] == PeelPc(i, j + 1)
    ensures var s, inst := PeelStack(width, j) + [PeelTop(width, j)], PeelInst(3 * j);
            && UpdateOk(s, {}, next, inst) && Reconverges(s, {}, next, inst)
            && Updated(s, {}, next, inst, 0) == PeelStack(width, j + 1) + [PeelTop(width, j + 1)]
  {
    PeelTargets(width, j, next);
    PeelOk(width, j, next);
    PeelSplits(PeelStack(width, j), PeelTop(width, j), next, PeelInst(3 * j), 3 * j + 1, 3 * (j + 1));
    PeelGrows(width, j);
  }

  lemma PeelGrows(width: nat, j: nat)
    requires j + 1 < width <= MAX_WARP_SIZE
    ensures var above := Diverge(PeelTop(width, j), PeelInst(3 * j).recvg, 0, 3 * j + 1, {j}, 3 * (j + 1),
                                 Upwards(j + 1, width));
            PeelStack(width, j) + above == PeelStack(width, j + 1) + [PeelTop(width, j + 1)]
  {
  }

  /** A split of lanes none of which is done. */
  lemma PeelSplits(rest: seq<Entry>, top: Entry, next: seq<Pc>, inst: Inst, p: Pc, q: Pc)
    requires UpdateOk(rest + [top], {}, next, inst) && inst.op.OtherOps? && p != q && MaskFits(top.mask, |next|)
    requires Targets(top.mask, next) == {p, q} && FirstPath({p, q}, NotTaken(inst)) == p
    ensures Updated(rest + [top], {}, next, inst, 0)
         == rest + Diverge(top, inst.recvg, 0, p, Group(top.mask, next, p), q, Group(top.mask, next, q))
  {
    var s := rest + [top];
    assert s[|s| - 1] == top && s[..|s| - 1] == rest && top.mask - {} == top.mask;
    UpdatedTwo(s, {}, next, inst, 0, p, q);
  }

  lemma PeelOk(width: nat, j: nat, next: seq<Pc>)
    requires j + 1 < width <= MAX_WARP_SIZE && |next| == width
    requires forall i :: 0 <= i < width ==> next[i] == PeelPc(i, j + 1)
    ensures var s, inst := PeelStack(width, j) + [PeelTop(width, j)], PeelInst(3 * j);
            UpdateOk(s, {}, next, inst) && Reconverges(s, {}, next, inst)
  {
    var s := PeelStack(width, j) + [PeelTop(width, j)];
    assert j in Upwards(j, width) && Upwards(j, width) - {} == Upwards(j, width);
    assert Last(s) == PeelTop(width, j);
    PeelTargets(width, j, next);
  }

  lemma {:induction false} PeelDepth(width: nat, j: nat)
    requires j <= width <= MAX_WARP_SIZE
    ensures |PeelStack(width, j)| == 2 * j
  {
    if j > 0 {
      PeelDepth(width, j - 1);
    }
  }

  function PeelRun(width: nat): (ws: seq<Warp<Peeler>>)
    requires width <= MAX_WARP_SIZE
    ensures |ws| == width && forall j :: 0 <= j < width ==> ws[j] == PeelWarp(width, j)
  {
    seq(width, j requires 0 <= j < width => PeelWarp(width, j))
  }

  lemma PeelLaunch(width: nat)
    requires 1 <= width <= MAX_WARP_SIZE
    ensures IsLaunch(Peeling(width), PeelWarp(width, 0), 0, Upwards(0, width))
  {
    assert 0 in Upwards(0, width);
    assert PeelStack(width, 0) + [PeelTop(width, 0)] == [PeelTop(width, 0)];
  }

  lemma PeelStepsAt(width: nat, k: nat)
    requires k + 1 < width <= MAX_WARP_SIZE
    ensures StepsAt(Peeling(width), PeelRun(width), NoCycles, k)
  {
    PeelOnce(width, k);
  }

  /** For every warp width some call-free run, of a program whose branches reconverge at their immediate
      post-dominators, reaches exactly 2W - 1 entries. */
  lemma DepthBoundAttained(width: nat)
    requires 1 <= width <= MAX_WARP_SIZE
    ensures Follows(Peeling(width), PeelGraph(width), NoFrames)
    ensures IsRun(Peeling(width), PeelRun(width), NoCycles, 0, Upwards(0, width))
    ensures |PeelRun(width)[width - 1].stack| == 2 * width - 1
  {
    PeelFollows(width);
    PeelLaunch(width);
    forall k: nat {:trigger StepsAt(Peeling(width), PeelRun(width), NoCycles, k)} | k + 1 < width
      ensures StepsAt(Peeling(width), PeelRun(width), NoCycles, k)
    {
      PeelStepsAt(width, k);
    }
    PeelDepth(width, width - 1);
  }

  // ---------- calls ----------

  lemma UpdateKeepsBelow(s: seq<Entry>, done: Mask, next: seq<Pc>, inst: Inst, cycle: nat, d: nat)
    requires UpdateOk(s, done, next, inst) && d < |s| && s[d].kind.Call?
    requires d < |Updated(s, done, next, inst, cycle)|
    ensures var s' := Updated(s, done, next, inst, cycle); s'[..d] == s[..d] && s'[d].kind.Call?
  {
  }

  /** As long as the CALL entry at depth `d` has not been left, every entry below it is unchanged. */
  lemma {:induction false} CallFrame<L>(p: Program<L>, ws: seq<Warp<L>>, cycles: nat -> nat, pc: Pc, launched: Mask,
                                        a: nat, b: nat, d: nat)
    requires IsRun(p, ws, cycles, pc, launched) && a <= b < |ws|
    requires forall k :: a <= k <= b ==> d < |ws[k].stack|
    requires ws[a].stack[d].kind.Call?
    ensures ws[b].stack[..d] == ws[a].stack[..d] && ws[b].stack[d].kind.Call?
  {
    if a < b {
      CallFrame(p, ws, cycles, pc, launched, a, b - 1, d);
      assert StepsAt(p, ws, cycles, b - 1);
      var w, lanes := ws[b - 1], ws[b].lanes;
      UpdateKeepsBelow(w.stack, DoneMask(p, lanes), NextPcs(p, lanes), p.inst(Last(w.stack).pc), cycles(b - 1), d);
    }
  }

  /** The return from a CALL entry: the caller entry resumes at the return pc, or is popped exactly when that is
      its reconvergence pc; either way every live lane of the caller is owned at the return pc. */
  lemma ReturnToCaller<L>(p: Program<L>, w: Warp<L>, cycle: nat, launched: Mask, i: nat)
    requires Inv(p, w, launched) && StepOk(p, w) && |w.stack| > 1
    requires Last(w.stack).kind.Call? && p.inst(Last(w.stack).pc).op.RetOps?
    requires i in Live(p, Step(p, w, cycle), launched) && i in Last(Front(w.stack)).mask
    ensures var w', rest := Step(p, w, cycle), Front(w.stack);
            var r := p.pcOf(w'.lanes[i]);
            && OwnerPc(w'.stack, i) == r
            && w'.stack == if Last(rest).kind.Normal? && Last(rest).recvg == r then Front(rest)
                           else Front(rest) + [Last(rest).(pc := r)]
  {
    var w' := Step(p, w, cycle);
    StepKeepsInv(p, w, cycle, launched);
    assert LaneOk(w'.stack, i, p.pcOf(w'.lanes[i]));
    var next, done := NextPcs(p, w'.lanes), DoneMask(p, w'.lanes);
    var targets := Targets(Last(w.stack).mask - done, next);
    assert i in Live(p, w, launched) && i in Last(w.stack).mask;
    assert next[i] in targets;
    SingletonIs(targets, next[i]);
  }
}
