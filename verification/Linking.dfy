/** A program of several functions: the tables that are made for each function by itself are right for the whole
    program with its calls and returns. */
module Linking {
  import opened Basics
  import opened SimtStack
  import opened SimtLanes
  import opened SimtRun
  import opened PostDominance
  import opened PostDominators
  import opened BlockCode

  // ---------- a graph inside a larger one ----------

  /** `g` has the pcs of `c`, with the same successors and exits. */
  ghost predicate Holds(g: Cfg, c: Cfg) {
    && c.beyond == g.beyond
    && forall pc :: pc in c.succ ==> pc in g.succ && g.succ[pc] == c.succ[pc] && (pc in g.exits <==> pc in c.exits)
  }

  lemma {:induction false} SamePath(g: Cfg, c: Cfg, path: seq<Pc>)
    requires Holds(g, c) && WellFormed(c) && path != [] && path[0] in c.succ
    ensures ExitPath(g, path) <==> ExitPath(c, path)
  {
    if |path| > 1 && path[1] in c.succ[path[0]] {
      SamePath(g, c, path[1..]);
    }
  }

  lemma SamePostDom(g: Cfg, c: Cfg, r: Pc, p: Pc)
    requires Holds(g, c) && WellFormed(c) && p in c.succ
    ensures PostDom(g, r, p) <==> PostDom(c, r, p)
  {
    forall path ensures ExitPathFrom(g, p, path) <==> ExitPathFrom(c, p, path) {
      if path != [] && path[0] == p {
        SamePath(g, c, path);
      }
    }
  }

  /** A function's branches reconverge in the whole program where they do in the function. */
  lemma SameReconvergence(g: Cfg, c: Cfg, r: Pc, p: Pc)
    requires Holds(g, c) && WellFormed(c) && p in c.succ
    ensures IsReconvergence(g, r, p) <==> IsReconvergence(c, r, p)
  {
    forall s ensures StrictPostDom(g, s, p) <==> StrictPostDom(c, s, p) {
      SamePostDom(g, c, s, p);
    }
    if StrictPostDom(c, r, p) {
      StrictIsNode(c, r, p);
      forall s ensures PostDom(g, s, r) <==> PostDom(c, s, r) {
        SamePostDom(g, c, s, r);
      }
    }
  }

  lemma HeldNode(g: Cfg, c: Cfg, pc: Pc)
    requires Holds(g, c) && WellFormed(c) && pc in c.succ
    ensures NodeIn(g, pc)
  {
    var path :| ExitPathFrom(c, pc, path);
    SamePath(g, c, path);
    assert ExitPathFrom(g, pc, path);
  }

  // ---------- functions ----------

  /** A function as it is assembled: its basic blocks, their instructions, and its reconvergence table. */
  datatype Function = Function(blocks: Blocks, code: Layout, table: seq<Pc>)

  ghost predicate Built(fn: Function, beyond: Pc) {
    && Places(fn.blocks, fn.code) && IsTable(fn.blocks, fn.code, beyond, fn.table)
    && forall b: Pc :: b < |fn.code| ==> Reaches(Graph(fn.blocks), b) && |fn.blocks[b]| <= 2
  }

  ghost function GraphOf(fn: Function, beyond: Pc): (c: Cfg)
    requires Built(fn, beyond)
  {
    PcGraph(fn.blocks, fn.code, beyond)
  }

  ghost predicate Part(g: Cfg, fn: Function) {
    Built(fn, g.beyond) && Holds(g, GraphOf(fn, g.beyond))
  }

  /** The function of `fns` that `pc` is in. */
  ghost predicate Owner(g: Cfg, fns: seq<Function>, pc: Pc, f: nat) {
    f < |fns| && Part(g, fns[f]) && pc in GraphOf(fns[f], g.beyond).succ
  }

  /** `g` is the graphs of the functions, side by side. */
  ghost predicate Links(g: Cfg, fns: seq<Function>) {
    (forall fn :: fn in fns ==> Part(g, fn)) && forall pc :: pc in g.succ ==> exists f: nat :: Owner(g, fns, pc, f)
  }

  /** The instructions are what the graph says, and the branches of every function use its own table. */
  ghost predicate Assembled<L>(p: Program<L>, g: Cfg, fns: seq<Function>)
    requires Links(g, fns)
  {
    && (forall pc :: pc in g.succ ==> CodeOk(g, p.inst(pc), pc))
    && forall fn :: fn in fns ==> UsesTable(p, fn.blocks, fn.code, fn.table)
  }

  ghost predicate CodeOk(g: Cfg, inst: Inst, pc: Pc) {
    && inst.pc == pc && (inst.op.CallOps? <==> pc in g.calls)
    && (Inner(g, pc) ==> (inst.op.RetOps? <==> pc in g.exits))
  }

  lemma LinkedNode(g: Cfg, fns: seq<Function>, pc: Pc)
    requires Links(g, fns) && pc in g.succ
    ensures NodeIn(g, pc)
  {
    var f: nat :| Owner(g, fns, pc, f);
    PcGraphWellFormed(fns[f].blocks, fns[f].code, g.beyond);
    HeldNode(g, GraphOf(fns[f], g.beyond), pc);
  }

  lemma LinkedWellFormed(g: Cfg, fns: seq<Function>)
    requires Links(g, fns)
    ensures WellFormed(g)
  {
    forall pc | pc in g.succ ensures NodeIn(g, pc) {
      LinkedNode(g, fns, pc);
    }
    NodesIn(g);
  }

  lemma LinkedTable<L>(p: Program<L>, g: Cfg, fns: seq<Function>, pc: Pc)
    requires Links(g, fns) && Assembled(p, g, fns) && pc in g.succ
    ensures TableOk(p, g, pc)
  {
    var f: nat :| Owner(g, fns, pc, f);
    var fn, c := fns[f], GraphOf(fns[f], g.beyond);
    PcGraphWellFormed(fn.blocks, fn.code, g.beyond);
    assert CodeOk(g, p.inst(pc), pc) && fn in fns;
    TableRight(p, fn.blocks, fn.code, g.beyond, fn.table, pc);
    SameReconvergence(g, c, p.inst(pc).recvg, pc);
  }

  /** A program of such functions follows the graph of them all, so all that is said of such programs is true of it:
      its runs are safe, and lockstep is sequential. */
  lemma LinkedFollows<L(!new)>(p: Program<L>, g: Cfg, fns: seq<Function>, frames: L -> seq<Pc>)
    requires Links(g, fns) && CallsOk(g) && Assembled(p, g, fns) && forall l: L :: Moves(p, g, frames, l)
    ensures Follows(p, g, frames)
  {
    LinkedWellFormed(g, fns);
    forall pc | pc in g.succ ensures TableOk(p, g, pc) {
      LinkedTable(p, g, fns, pc);
    }
  }
}
