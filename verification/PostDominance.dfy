/** Post-dominators of a control-flow graph, and why a warp whose branches reconverge at immediate
    post-dominators never violates an assertion of `update`. PostDominators shows that the table the
    program computes (src/cuda-sim/ptx_ir.cc) is of that kind. */
module PostDominance {
  import opened Basics
  import opened SimtStack
  import opened SimtLanes
  import opened SimtRun
  import opened CallFrames

  /** The control-flow graphs of the functions of a program, side by side: successors of every pc, the pcs at which a
      lane can finish or return, and the pc that branches of the kernel get as their reconvergence pc when only the end
      post-dominates them, which is the return pc of the outermost call frame. A call leads to the pc after it in the
      graph, and to the first pc of the function called in `calls`. */
  datatype Cfg = Cfg(succ: map<Pc, set<Pc>>, exits: set<Pc>, beyond: Pc, calls: map<Pc, Pc>)

  ghost predicate ExitPath(g: Cfg, path: seq<Pc>) {
    && path != [] && path[0] in g.succ
    && if |path| == 1 then path[0] in g.exits else path[1] in g.succ[path[0]] && ExitPath(g, path[1..])
  }

  ghost predicate ExitPathFrom(g: Cfg, p: Pc, path: seq<Pc>) {
    ExitPath(g, path) && path[0] == p
  }

  /** `r` lies on every path from `p` to the end of the program. */
  ghost predicate PostDom(g: Cfg, r: Pc, p: Pc) {
    forall path :: ExitPathFrom(g, p, path) ==> r in path
  }

  ghost predicate StrictPostDom(g: Cfg, r: Pc, p: Pc) {
    r != p && PostDom(g, r, p)
  }

  /** The strict post-dominator of `p` that every other one post-dominates. */
  ghost predicate ImmediatePostDom(g: Cfg, r: Pc, p: Pc) {
    StrictPostDom(g, r, p) && forall s :: StrictPostDom(g, s, p) ==> PostDom(g, s, r)
  }

  ghost predicate WellFormed(g: Cfg) {
    && NULL_PC !in g.succ
    && (forall p, q :: p in g.succ && q in g.succ[p] ==> q in g.succ)
    && (forall p :: p in g.succ ==> |g.succ[p]| <= 2)
    && forall p :: p in g.succ ==> exists path :: ExitPathFrom(g, p, path)
  }

  /** What makes a graph well formed at `p`. */
  ghost predicate NodeIn(g: Cfg, p: Pc) {
    && p in g.succ && p != NULL_PC && |g.succ[p]| <= 2 && (exists path :: ExitPathFrom(g, p, path))
    && forall q :: q in g.succ[p] ==> q in g.succ
  }

  lemma NodesIn(g: Cfg)
    requires forall p :: p in g.succ ==> NodeIn(g, p)
    ensures WellFormed(g)
  {
  }

  /** Nothing but the end of the program post-dominates `p`. */
  ghost predicate Loose(g: Cfg, p: Pc) {
    forall s :: !StrictPostDom(g, s, p)
  }

  /** The reconvergence pc of a branch: its immediate post-dominator, or `beyond` when only the end of the
      program post-dominates it. */
  ghost predicate IsReconvergence(g: Cfg, r: Pc, p: Pc) {
    ImmediatePostDom(g, r, p) || (r == g.beyond && Loose(g, p))
  }

  // ---------- ways through the graph ----------

  ghost predicate Way(g: Cfg, path: seq<Pc>) {
    path != [] && path[0] in g.succ && (|path| == 1 || (path[1] in g.succ[path[0]] && Way(g, path[1..])))
  }

  ghost predicate IsWay(g: Cfg, p: Pc, q: Pc, path: seq<Pc>) {
    Way(g, path) && path[0] == p && path[|path| - 1] == q
  }

  /** Some way, perhaps of no steps, leads from `p` to `q`. */
  ghost predicate Leads(g: Cfg, p: Pc, q: Pc) {
    exists path :: IsWay(g, p, q, path)
  }

  /** One or more steps lead from `b` to `beyond`. */
  ghost predicate CanReturn(g: Cfg, b: Pc)
    requires b in g.succ
  {
    exists s :: s in g.succ[b] && Leads(g, s, g.beyond)
  }

  /** A branch that the program can reach, and that only the end post-dominates, leads to `beyond`. */
  ghost predicate Returns(g: Cfg, start: Pc, b: Pc) {
    b in g.succ && |g.succ[b]| == 2 && Loose(g, b) && Leads(g, start, b) && CanReturn(g, b)
  }

  ghost predicate Safe(g: Cfg, start: Pc) {
    forall b :: !Returns(g, start, b)
  }

  /** No way leads from `x` to `beyond`. */
  ghost predicate Free(g: Cfg, x: Pc) {
    x in g.succ && !Leads(g, x, g.beyond)
  }

  /** `pc` lies in a function that is called. */
  ghost predicate Inner(g: Cfg, pc: Pc) {
    exists c :: c in g.calls && Leads(g, g.calls[c], pc)
  }

  /** A function that is called returns without a condition, and its branches reconverge inside. */
  ghost predicate InnerOk(g: Cfg, pc: Pc)
    requires pc in g.succ
  {
    Inner(g, pc) ==> (pc in g.exits ==> g.succ[pc] == {}) && (|g.succ[pc]| == 2 ==> !Loose(g, pc))
  }

  ghost predicate CallOk(g: Cfg, c: Pc)
    requires c in g.calls
  {
    c in g.succ && c !in g.exits && |g.succ[c]| == 1 && g.calls[c] in g.succ
  }

  ghost predicate CallsOk(g: Cfg) {
    (forall c :: c in g.calls ==> CallOk(g, c)) && forall pc :: pc in g.succ ==> InnerOk(g, pc)
  }

  lemma LeadsHere(g: Cfg, x: Pc)
    requires x in g.succ
    ensures Leads(g, x, x)
  {
    assert IsWay(g, x, x, [x]);
  }

  lemma LeadsBefore(g: Cfg, p: Pc, q: Pc, y: Pc)
    requires p in g.succ && q in g.succ[p] && Leads(g, q, y)
    ensures Leads(g, p, y)
  {
    var path :| IsWay(g, q, y, path);
    var longer := [p] + path;
    assert longer[1..] == path;
    assert IsWay(g, p, y, longer);
  }

  lemma {:induction false} WayOn(g: Cfg, path: seq<Pc>, q: Pc)
    requires Way(g, path) && q in g.succ && path[|path| - 1] in g.succ && q in g.succ[path[|path| - 1]]
    ensures Way(g, path + [q])
  {
    if |path| > 1 {
      WayOn(g, path[1..], q);
      assert (path + [q])[1..] == path[1..] + [q];
    } else {
      assert (path + [q])[1..] == [q];
    }
  }

  lemma LeadsOn(g: Cfg, start: Pc, p: Pc, q: Pc)
    requires WellFormed(g) && Leads(g, start, p) && p in g.succ && q in g.succ[p]
    ensures Leads(g, start, q)
  {
    var path :| IsWay(g, start, p, path);
    WayOn(g, path, q);
    assert IsWay(g, start, q, path + [q]);
  }

  lemma FreeOn(g: Cfg, p: Pc, q: Pc)
    requires WellFormed(g) && Free(g, p) && q in g.succ[p]
    ensures Free(g, q) && q != g.beyond
  {
    if Leads(g, q, g.beyond) {
      LeadsBefore(g, p, q, g.beyond);
    }
    LeadsHere(g, q);
  }

  /** What lies on a way out from a free pc is free. */
  lemma {:induction false} FreeOnPath(g: Cfg, path: seq<Pc>, k: nat)
    requires WellFormed(g) && ExitPath(g, path) && Free(g, path[0]) && k < |path|
    ensures Free(g, path[k])
  {
    if k > 0 {
      FreeOn(g, path[0], path[1]);
      FreeOnPath(g, path[1..], k - 1);
    }
  }

  lemma FreePostDom(g: Cfg, r: Pc, p: Pc)
    requires WellFormed(g) && Free(g, p) && PostDom(g, r, p)
    ensures Free(g, r) && r != g.beyond
  {
    var path :| ExitPathFrom(g, p, path);
    var k :| 0 <= k < |path| && path[k] == r;
    FreeOnPath(g, path, k);
    LeadsHere(g, r);
  }

  lemma InnerOn(g: Cfg, p: Pc, q: Pc)
    requires WellFormed(g) && Inner(g, p) && p in g.succ && q in g.succ[p]
    ensures Inner(g, q)
  {
    var c :| c in g.calls && Leads(g, g.calls[c], p);
    LeadsOn(g, g.calls[c], p, q);
  }

  lemma {:induction false} InnerOnPath(g: Cfg, path: seq<Pc>, k: nat)
    requires WellFormed(g) && ExitPath(g, path) && Inner(g, path[0]) && k < |path|
    ensures Inner(g, path[k])
  {
    if k > 0 {
      InnerOn(g, path[0], path[1]);
      InnerOnPath(g, path[1..], k - 1);
    }
  }

  lemma InnerPostDom(g: Cfg, r: Pc, p: Pc)
    requires WellFormed(g) && Inner(g, p) && p in g.succ && PostDom(g, r, p)
    ensures Inner(g, r)
  {
    var path :| ExitPathFrom(g, p, path);
    var k :| 0 <= k < |path| && path[k] == r;
    InnerOnPath(g, path, k);
  }

  // ---------- graph lemmas ----------

  lemma PathStep(g: Cfg, p: Pc, q: Pc, path: seq<Pc>)
    requires p in g.succ && q in g.succ[p] && ExitPathFrom(g, q, path)
    ensures ExitPathFrom(g, p, [p] + path)
  {
    assert ([p] + path)[1..] == path;
  }

  lemma StrictAtSuccessor(g: Cfg, r: Pc, p: Pc, q: Pc)
    requires StrictPostDom(g, r, p) && p in g.succ && q in g.succ[p]
    ensures r == q || StrictPostDom(g, r, q)
  {
    forall path | ExitPathFrom(g, q, path) ensures r in path {
      PathStep(g, p, q, path);
    }
  }

  lemma StrictMeansNoExit(g: Cfg, r: Pc, p: Pc)
    requires StrictPostDom(g, r, p) && p in g.succ
    ensures p !in g.exits
  {
    if p in g.exits {
      assert ExitPathFrom(g, p, [p]);
    }
  }

  lemma {:induction false} ExitPathSuffix(g: Cfg, path: seq<Pc>, k: nat)
    requires ExitPath(g, path) && k < |path|
    ensures ExitPath(g, path[k..]) && path[k] in g.succ
  {
    if k > 0 {
      ExitPathSuffix(g, path[1..], k - 1);
      assert path[1..][k - 1..] == path[k..];
    }
  }

  /** Two different pcs cannot post-dominate each other: an exit path from one would hold ever shorter
      exit paths from itself. */
  lemma {:induction false} NoMutualPostDom(g: Cfg, a: Pc, b: Pc, path: seq<Pc>)
    requires a != b && PostDom(g, a, b) && PostDom(g, b, a) && ExitPathFrom(g, b, path)
    ensures false
    decreases |path|
  {
    var k :| 0 <= k < |path| && path[k] == a;
    ExitPathSuffix(g, path, k);
    var fromA := path[k..];
    assert ExitPathFrom(g, a, fromA);
    var j :| 0 <= j < |fromA| && fromA[j] == b;
    ExitPathSuffix(g, fromA, j);
    NoMutualPostDom(g, a, b, fromA[j..]);
  }

  lemma StrictIsNode(g: Cfg, r: Pc, p: Pc)
    requires WellFormed(g) && p in g.succ && StrictPostDom(g, r, p)
    ensures r in g.succ
  {
    var path :| ExitPathFrom(g, p, path);
    var k :| 0 <= k < |path| && path[k] == r;
    ExitPathSuffix(g, path, k);
  }

  /** A branch one of whose successors is a strict post-dominator reconverges right there. */
  lemma SuccessorIsReconvergence(g: Cfg, p: Pc, r: Pc, i: Pc)
    requires WellFormed(g) && p in g.succ && r in g.succ[p]
    requires StrictPostDom(g, r, p) && IsReconvergence(g, i, p)
    ensures i == r
  {
    if i != r {
      StrictAtSuccessor(g, i, p, r);
      assert r in g.succ;
      var path :| ExitPathFrom(g, r, path);
      NoMutualPostDom(g, i, r, path);
    }
  }

  // ---------- programs that follow a graph ----------

  /** A lane can be at `pc` with the outstanding calls `f`. */
  ghost predicate CanStand(g: Cfg, pc: Pc, f: seq<Pc>) {
    pc in g.succ && (f != [] ==> Inner(g, pc) && Last(f) in g.calls)
  }

  /** A lane at `pc` with the outstanding calls `f` can go to `q` with the outstanding calls `f'`: into the function it
      calls, on, or back behind the call that its function was called by. */
  ghost predicate Goes(g: Cfg, pc: Pc, f: seq<Pc>, q: Pc, f': seq<Pc>)
    requires pc in g.succ
  {
    if pc in g.calls then q == g.calls[pc] && f' == f + [pc]
    else || (q in g.succ[pc] && f' == f)
         || (f != [] && pc in g.exits && Last(f) in g.succ && q in g.succ[Last(f)] && f' == Front(f))
  }

  /** The lane moves along the graphs; `frames` tells its outstanding calls. It finishes only in the kernel. */
  ghost predicate Moves<L>(p: Program<L>, g: Cfg, frames: L -> seq<Pc>, l: L) {
    !p.isDone(l) && CanStand(g, p.pcOf(l), frames(l)) ==>
      var pc, f, r := p.pcOf(l), frames(l), p.exec(p.pcOf(l), l);
      if p.isDone(r) then pc in g.exits && f == [] else Goes(g, pc, f, p.pcOf(r), frames(r))
  }

  /** What the graphs say of the instruction at `pc`. */
  ghost predicate InstOk(g: Cfg, inst: Inst, pc: Pc)
    requires pc in g.succ
  {
    && inst.pc == pc && (inst.op.CallOps? <==> pc in g.calls)
    && (Inner(g, pc) ==> (inst.op.RetOps? <==> pc in g.exits))
    && (|g.succ[pc]| == 2 ==> IsReconvergence(g, inst.recvg, pc))
  }

  ghost predicate TableOk<L>(p: Program<L>, g: Cfg, pc: Pc)
    requires pc in g.succ
  {
    InstOk(g, p.inst(pc), pc)
  }

  /** A program whose lanes move along `g`, with its calls and returns, and whose branches reconverge as `g` says. */
  ghost predicate Follows<L(!new)>(p: Program<L>, g: Cfg, frames: L -> seq<Pc>) {
    && WellFormed(g) && CallsOk(g)
    && (forall l: L :: Moves(p, g, frames, l))
    && forall pc :: pc in g.succ ==> TableOk(p, g, pc)
  }

  /** The outstanding calls of a lane of a program without calls. */
  function NoFrames<L>(l: L): (f: seq<Pc>) {
    []
  }

  /** Where a lane can go when functions return without a condition. */
  ghost function Nexts(g: Cfg, pc: Pc, f: seq<Pc>): (q: set<Pc>)
    requires pc in g.succ
  {
    if pc in g.calls then {g.calls[pc]}
    else if f != [] && pc in g.exits && Last(f) in g.succ then g.succ[Last(f)]
    else g.succ[pc]
  }

  /** The outstanding calls after that. */
  ghost function After(g: Cfg, pc: Pc, f: seq<Pc>): (r: seq<Pc>) {
    if pc in g.calls then f + [pc] else if f != [] && pc in g.exits then Front(f) else f
  }

  lemma GoesNext(g: Cfg, pc: Pc, f: seq<Pc>, q: Pc, f': seq<Pc>)
    requires CallsOk(g) && CanStand(g, pc, f) && Goes(g, pc, f, q, f')
    ensures q in Nexts(g, pc, f) && f' == After(g, pc, f)
  {
    assert InnerOk(g, pc);
    assert f != [] ==> CallOk(g, Last(f));
  }

  // ---------- the invariant ----------

  ghost predicate EntryOk(g: Cfg, e: Entry, done: Mask) {
    e.pc in g.succ && e.mask !! done
  }

  /** Where an entry of the kernel above the bottom one may reconverge. */
  ghost predicate RecvgOk(g: Cfg, e: Entry, parked: bool) {
    || StrictPostDom(g, e.recvg, e.pc)
    || (parked && e.recvg == g.beyond)
    || (e.recvg == g.beyond == NULL_PC)
  }

  /** The entry may stand at height `k` of a stack. The bottom entry has no reconvergence pc, and may have been parked
      at `beyond` by a loose branch, with whatever lanes it held; all entries of the kernel above it are then at free
      pcs. The entries of a function that was called reconverge inside it. */
  ghost predicate StandsAt(g: Cfg, e: Entry, done: Mask, parked: bool, k: nat, inner: bool) {
    if k == 0 then
      e.recvg == NULL_PC && e.kind.Normal? && !inner && if parked then e.pc == g.beyond else EntryOk(g, e, done)
    else
      && EntryOk(g, e, done)
      && if inner then Inner(g, e.pc) && if e.kind.Call? then e.recvg == NULL_PC else StrictPostDom(g, e.recvg, e.pc)
         else e.kind.Normal? && RecvgOk(g, e, parked) && (parked ==> Free(g, e.pc))
  }

  /** A CALL entry stands on an entry at a call, not on the parked one. */
  ghost predicate CallerOk(g: Cfg, rest: seq<Entry>, parked: bool) {
    rest != [] && Last(rest).pc in g.calls && (parked ==> |rest| > 1)
  }

  ghost predicate StackOk(g: Cfg, s: seq<Entry>, done: Mask, parked: bool) {
    s == [] ||
    (&& StackOk(g, Front(s), done, parked)
     && StandsAt(g, Last(s), done, parked, |s| - 1, CallPcs(s) != [])
     && (Last(s).kind.Call? ==> CallerOk(g, Front(s), parked)))
  }

  /** A lane at `pc` with the outstanding calls `f`: in the kernel it is where the kernel can get from its start, and at
      a free pc if the bottom is parked. */
  ghost predicate TraceOk(g: Cfg, start: Pc, f: seq<Pc>, pc: Pc, parked: bool)
    decreases |f|
  {
    && pc in g.succ
    && if f == [] then Leads(g, start, pc) && (parked ==> Free(g, pc))
       else Inner(g, pc) && Last(f) in g.calls && TraceOk(g, start, Front(f), Last(f), parked)
  }

  ghost predicate LaneAt<L>(p: Program<L>, g: Cfg, frames: L -> seq<Pc>, start: Pc, s: seq<Entry>, l: L, i: nat,
                            parked: bool) {
    TraceOk(g, start, frames(l), p.pcOf(l), parked) && InFrame(s, i, frames(l))
  }

  ghost predicate CfgState<L>(p: Program<L>, g: Cfg, frames: L -> seq<Pc>, start: Pc, w: Warp<L>, launched: Mask,
                              parked: bool) {
    && Inv(p, w, launched) && (parked ==> g.beyond != NULL_PC)
    && (forall i :: i in Live(p, w, launched) ==> LaneAt(p, g, frames, start, w.stack, w.lanes[i], i, parked))
    && StackOk(g, w.stack, DoneMask(p, w.lanes), parked)
  }

  ghost predicate CfgInv<L>(p: Program<L>, g: Cfg, frames: L -> seq<Pc>, start: Pc, w: Warp<L>, launched: Mask) {
    CfgState(p, g, frames, start, w, launched, false) || CfgState(p, g, frames, start, w, launched, true)
  }

  /** What the top entry satisfies at height `k`. */
  ghost predicate TopAt(g: Cfg, top: Entry, done: Mask, parked: bool, k: nat, inner: bool) {
    StandsAt(g, top, done, parked, k, inner) && (k == 0 ==> !parked)
  }

  /** While a lane is live the top entry is an entry of the program, not the parked one, and holds no finished lane. */
  lemma TopOk<L>(p: Program<L>, g: Cfg, frames: L -> seq<Pc>, start: Pc, w: Warp<L>, launched: Mask, parked: bool)
    requires CfgState(p, g, frames, start, w, launched, parked) && Live(p, w, launched) != {}
    ensures w.stack != [] && EntryOk(g, Last(w.stack), DoneMask(p, w.lanes))
    ensures TopAt(g, Last(w.stack), DoneMask(p, w.lanes), parked, |w.stack| - 1, CallPcs(w.stack) != [])
  {
    var i :| i in Live(p, w, launched);
    var l := w.lanes[i];
    assert LaneOk(w.stack, i, p.pcOf(l)) && LaneAt(p, g, frames, start, w.stack, l, i, parked);
    if |w.stack| == 1 && parked {
      assert w.stack == [] + [w.stack[0]];
      Pushed([], w.stack[0], i);
      LeadsHere(g, p.pcOf(l));
    }
  }

  /** Where a lane of the top entry goes in one step. */
  lemma TopLaneMoves<L(!new)>(p: Program<L>, g: Cfg, frames: L -> seq<Pc>, start: Pc, w: Warp<L>, launched: Mask,
                              parked: bool, i: nat)
    requires Follows(p, g, frames) && CfgState(p, g, frames, start, w, launched, parked) && Live(p, w, launched) != {}
    requires w.stack != [] && i in Last(w.stack).mask
    ensures var top, l, f := Last(w.stack), Execute(p, Last(w.stack), w.lanes)[i], CallPcs(w.stack);
            && TraceOk(g, start, f, top.pc, parked) && i in launched && frames(w.lanes[i]) == f
            && if p.isDone(l) then top.pc in g.exits && f == []
               else p.pcOf(l) in Nexts(g, top.pc, f) && frames(l) == After(g, top.pc, f)
  {
    TopOk(p, g, frames, start, w, launched, parked);
    assert Last(w.stack) in w.stack;
    assert LaneOk(w.stack, i, p.pcOf(w.lanes[i]));
    assert LaneAt(p, g, frames, start, w.stack, w.lanes[i], i, parked);
    assert Moves(p, g, frames, w.lanes[i]);
    var l := Execute(p, Last(w.stack), w.lanes)[i];
    if !p.isDone(l) {
      GoesNext(g, Last(w.stack).pc, CallPcs(w.stack), p.pcOf(l), frames(l));
    }
  }

  lemma NextsFit(g: Cfg, start: Pc, f: seq<Pc>, pc: Pc, parked: bool)
    requires WellFormed(g) && CallsOk(g) && TraceOk(g, start, f, pc, parked)
    ensures Nexts(g, pc, f) <= g.succ.Keys && |Nexts(g, pc, f)| <= 2
    ensures pc in g.calls || (f != [] && pc in g.exits) ==> |Nexts(g, pc, f)| == 1
  {
    if pc in g.calls {
      assert CallOk(g, pc);
    } else if f != [] && pc in g.exits {
      assert CallOk(g, Last(f));
    }
  }

  /** What the top entry does next. */
  lemma TopNexts<L(!new)>(p: Program<L>, g: Cfg, frames: L -> seq<Pc>, start: Pc, w: Warp<L>, launched: Mask,
                          parked: bool)
    requires Follows(p, g, frames) && CfgState(p, g, frames, start, w, launched, parked) && Live(p, w, launched) != {}
    requires w.stack != []
    ensures var top, f, lanes := Last(w.stack), CallPcs(w.stack), Execute(p, Last(w.stack), w.lanes);
            && TraceOk(g, start, f, top.pc, parked) && MaskFits(top.mask, |lanes|) && top.mask != {}
            && Targets(top.mask - DoneMask(p, lanes), NextPcs(p, lanes)) <= Nexts(g, top.pc, f)
            && ((top.pc in g.exits && f == []) || top.mask !! DoneMask(p, lanes))
  {
    var top, lanes := Last(w.stack), Execute(p, Last(w.stack), w.lanes);
    assert top in w.stack;
    var i :| i in top.mask;
    TopLaneMoves(p, g, frames, start, w, launched, parked, i);
    forall i | i in top.mask
      ensures if p.isDone(lanes[i]) then top.pc in g.exits && CallPcs(w.stack) == []
              else NextPc(p, lanes[i]) in Nexts(g, top.pc, CallPcs(w.stack))
    {
      TopLaneMoves(p, g, frames, start, w, launched, parked, i);
    }
  }

  /** The assertions of `update` for an entry whose lanes go where the graphs say. */
  lemma NextsOk(g: Cfg, s: seq<Entry>, start: Pc, done: Mask, done': Mask, next: seq<Pc>, inst: Inst, parked: bool)
    requires WellFormed(g) && CallsOk(g) && s != [] && MaskFits(Last(s).mask, |next|) && Last(s).mask != {}
    requires TopAt(g, Last(s), done, parked, |s| - 1, CallPcs(s) != [])
    requires var top := Last(s);
             && TraceOk(g, start, CallPcs(s), top.pc, parked)
             && Targets(top.mask - done', next) <= Nexts(g, top.pc, CallPcs(s)) && InstOk(g, inst, top.pc)
    ensures UpdateOk(s, done', next, inst) && Reconverges(s, done', next, inst)
  {
    var top, f := Last(s), CallPcs(s);
    var targets := Targets(top.mask - done', next);
    NextsFit(g, start, f, top.pc, parked);
    SubsetSize(targets, Nexts(g, top.pc, f));
    forall i | i in top.mask - done' ensures next[i] != NULL_PC {
      assert next[i] in targets;
    }
    if |targets| == 2 {
      BranchReconverges(g, top, done, parked, |s| - 1, f != [], inst.recvg);
    }
  }

  /** A branch to the reconvergence pc of its entry reconverges there, and one in a CALL entry reconverges somewhere. */
  lemma BranchReconverges(g: Cfg, top: Entry, done: Mask, parked: bool, k: nat, inner: bool, r: Pc)
    requires WellFormed(g) && CallsOk(g) && TopAt(g, top, done, parked, k, inner)
    requires |g.succ[top.pc]| == 2 && IsReconvergence(g, r, top.pc)
    ensures if top.kind.Normal? then top.recvg in g.succ[top.pc] ==> r == top.recvg else r != top.recvg
  {
    if top.kind.Call? {
      assert InnerOk(g, top.pc);
      StrictIsNode(g, r, top.pc);
    } else if top.recvg in g.succ[top.pc] {
      if StrictPostDom(g, top.recvg, top.pc) {
        SuccessorIsReconvergence(g, top.pc, top.recvg, r);
      } else if parked {
        FreeOn(g, top.pc, top.recvg);
      }
    }
  }

  /** Every assertion of `update`, and the reconvergence condition, hold. */
  lemma CfgStepOk<L(!new)>(p: Program<L>, g: Cfg, frames: L -> seq<Pc>, start: Pc, w: Warp<L>, launched: Mask,
                           parked: bool)
    requires Follows(p, g, frames) && CfgState(p, g, frames, start, w, launched, parked) && Live(p, w, launched) != {}
    ensures StepOk(p, w)
  {
    TopOk(p, g, frames, start, w, launched, parked);
    TopNexts(p, g, frames, start, w, launched, parked);
    var top, lanes := Last(w.stack), Execute(p, Last(w.stack), w.lanes);
    assert TableOk(p, g, top.pc);
    NextsOk(g, w.stack, start, DoneMask(p, w.lanes), DoneMask(p, lanes), NextPcs(p, lanes), p.inst(top.pc), parked);
  }

  /** In the kernel, what owns a lane at the null pc, or at `beyond` once that is parked, is the bottom entry, and no
      entry above holds the lane. */
  lemma {:induction false} OwnedAtEnd(g: Cfg, s: seq<Entry>, done: Mask, parked: bool, i: nat, k: nat)
    requires WellFormed(g) && StackOk(g, s, done, parked) && CallPcs(s) == [] && k < |s| && i in s[k].mask
    requires OwnerPc(s, i) == NULL_PC || (parked && OwnerPc(s, i) == g.beyond)
    ensures k == 0 && parked
  {
    if i !in Last(s).mask {
      OwnedAtEnd(g, Front(s), done, parked, i, k);
    } else if |s| > 1 && parked {
      LeadsHere(g, Last(s).pc);
    }
  }

  /** A lane finishes only where no lower entry waits for it, but for the parked one. */
  lemma ExitLeavesNoTrace<L(!new)>(p: Program<L>, g: Cfg, frames: L -> seq<Pc>, start: Pc, w: Warp<L>, launched: Mask,
                                   parked: bool, i: nat, k: nat)
    requires Follows(p, g, frames) && CfgState(p, g, frames, start, w, launched, parked) && Live(p, w, launched) != {}
    requires w.stack != [] && i in Last(w.stack).mask && k < |w.stack| - 1 && i in w.stack[k].mask
    requires p.isDone(Execute(p, Last(w.stack), w.lanes)[i])
    ensures k == 0 && parked
  {
    var top, rest := Last(w.stack), Front(w.stack);
    TopOk(p, g, frames, start, w, launched, parked);
    TopLaneMoves(p, g, frames, start, w, launched, parked, i);
    assert top in w.stack;
    assert LaneOk(w.stack, i, p.pcOf(w.lanes[i]));
    if StrictPostDom(g, top.recvg, top.pc) {
      StrictMeansNoExit(g, top.recvg, top.pc);
    }
    OwnedAtEnd(g, rest, DoneMask(p, w.lanes), parked, i, k);
  }

  /** Lanes that finish leave the entries as they should be if none of them waits there, but in the parked one. */
  lemma {:induction false} StackDone(g: Cfg, s: seq<Entry>, done: Mask, done': Mask, parked: bool)
    requires StackOk(g, s, done, parked)
    requires forall i, k: nat :: k < |s| && i in s[k].mask && i in done' ==> i in done || (k == 0 && parked)
    ensures StackOk(g, s, done', parked)
  {
    if s != [] {
      StackDone(g, Front(s), done, done', parked);
      assert Last(s) == s[|s| - 1];
    }
  }

  /** The entries below the top stay as they should be. */
  lemma WaitingEntries<L(!new)>(p: Program<L>, g: Cfg, frames: L -> seq<Pc>, start: Pc, w: Warp<L>, launched: Mask,
                                parked: bool)
    requires Follows(p, g, frames) && CfgState(p, g, frames, start, w, launched, parked) && Live(p, w, launched) != {}
    requires w.stack != []
    ensures StackOk(g, Front(w.stack), DoneMask(p, Execute(p, Last(w.stack), w.lanes)), parked)
  {
    var lanes, rest := Execute(p, Last(w.stack), w.lanes), Front(w.stack);
    var done, done' := DoneMask(p, w.lanes), DoneMask(p, lanes);
    forall i, k: nat | k < |rest| && i in rest[k].mask && i in done' ensures i in done || (k == 0 && parked) {
      if i !in done {
        ExitLeavesNoTrace(p, g, frames, start, w, launched, parked, i, k);
      }
    }
    StackDone(g, rest, done, done', parked);
  }

  // ---------- one step ----------

  lemma StackPushed(g: Cfg, s: seq<Entry>, e: Entry, done: Mask, parked: bool)
    requires StackOk(g, s, done, parked) && (e.kind.Call? ==> CallerOk(g, s, parked))
    requires StandsAt(g, e, done, parked, |s|, CallPcs(s + [e]) != [])
    ensures StackOk(g, s + [e], done, parked)
  {
    assert Front(s + [e]) == s;
  }

  lemma {:induction false} StackPushAll(g: Cfg, s: seq<Entry>, t: seq<Entry>, done: Mask, parked: bool)
    requires StackOk(g, s, done, parked)
    requires forall k: nat :: k < |t| ==>
               t[k].kind.Normal? && StandsAt(g, t[k], done, parked, |s| + k, CallPcs(s) != [])
    ensures StackOk(g, s + t, done, parked)
  {
    if t == [] {
      assert s + t == s;
    } else {
      LastOfAll(s, t);
      StackPushAll(g, s, Front(t), done, parked);
      NormalsInFrame(s, t);
      StackPushed(g, s + Front(t), Last(t), done, parked);
    }
  }

  /** A pushed entry for one side of a branch. */
  lemma BranchOk(g: Cfg, top: Entry, r: Pc, q: Pc, mask: Mask, done: Mask, done': Mask, parked: bool, k: nat,
                 inner: bool)
    requires WellFormed(g) && TopAt(g, top, done, parked, k, inner) && ImmediatePostDom(g, r, top.pc)
    requires q in g.succ[top.pc] && mask !! done' && q != r
    ensures StandsAt(g, Branch(q, mask, r), done', parked, k + 1, inner)
  {
    StrictAtSuccessor(g, r, top.pc, q);
    if inner {
      InnerOn(g, top.pc, q);
    } else if parked {
      FreeOn(g, top.pc, q);
    }
  }

  /** The top entry rewritten to wait at the immediate post-dominator of its branch. */
  lemma BaseOk(g: Cfg, top: Entry, r: Pc, cycle: nat, done: Mask, done': Mask, parked: bool, k: nat, inner: bool)
    requires WellFormed(g) && TopAt(g, top, done, parked, k, inner) && ImmediatePostDom(g, r, top.pc) && r != top.recvg
    requires top.pc !in g.exits ==> top.mask !! done'
    ensures StandsAt(g, top.(pc := r, divCycle := cycle), done', parked, k, inner)
  {
    StrictMeansNoExit(g, r, top.pc);
    StrictIsNode(g, r, top.pc);
    if inner {
      InnerPostDom(g, r, top.pc);
    } else if parked {
      FreePostDom(g, r, top.pc);
    }
  }

  /** The top entry moved to one of its successors. */
  lemma MovedOk(g: Cfg, top: Entry, q: Pc, mask: Mask, depth: nat, done: Mask, done': Mask, parked: bool, k: nat,
                inner: bool)
    requires WellFormed(g) && TopAt(g, top, done, parked, k, inner)
    requires q in g.succ[top.pc] && mask !! done' && q != top.recvg
    ensures StandsAt(g, top.(pc := q, mask := mask, calldepth := depth), done', parked, k, inner)
  {
    if StrictPostDom(g, top.recvg, top.pc) {
      StrictAtSuccessor(g, top.recvg, top.pc, q);
    }
    if inner {
      InnerOn(g, top.pc, q);
    } else if parked {
      FreeOn(g, top.pc, q);
    }
  }

  /** A branch that parks the bottom entry. */
  ghost predicate Parks(g: Cfg, top: Entry, r: Pc, k: nat) {
    k == 0 && r == g.beyond != NULL_PC && Loose(g, top.pc)
  }

  /** What replaces the top entry, at height `k`, after a branch that reconverges in its function. */
  lemma TightStack(g: Cfg, top: Entry, r: Pc, cycle: nat, p: Pc, pMask: Mask, q: Pc, qMask: Mask, done: Mask,
                   done': Mask, parked: bool, k: nat, inner: bool)
    requires WellFormed(g) && TopAt(g, top, done, parked, k, inner) && ImmediatePostDom(g, r, top.pc)
    requires {p, q} <= g.succ[top.pc] && p != q && pMask !! done' && qMask !! done'
    requires top.pc !in g.exits ==> top.mask !! done'
    ensures var t := Diverge(top, r, cycle, p, pMask, q, qMask);
            forall j: nat :: j < |t| ==> StandsAt(g, t[j], done', parked, k + j, inner)
  {
    if r != top.recvg {
      BaseOk(g, top, r, cycle, done, done', parked, k, inner);
    }
    if p != r {
      BranchOk(g, top, r, p, pMask, done, done', parked, k, inner);
    }
    if q != r {
      BranchOk(g, top, r, q, qMask, done, done', parked, k, inner);
    }
    if p != top.recvg {
      MovedOk(g, top, p, pMask, 0, done, done', parked, k, inner);
    }
    if q != top.recvg {
      MovedOk(g, top, q, qMask, 0, done, done', parked, k, inner);
    }
  }

  /** ... and after a loose branch of the kernel. */
  lemma LooseStack(g: Cfg, top: Entry, cycle: nat, p: Pc, pMask: Mask, q: Pc, qMask: Mask, done: Mask, done': Mask,
                   parked: bool, k: nat)
    requires WellFormed(g) && TopAt(g, top, done, parked, k, false) && Loose(g, top.pc)
    requires {p, q} <= g.succ[top.pc] && p != q && pMask !! done' && qMask !! done'
    requires Parks(g, top, g.beyond, k) ==> Free(g, p) && Free(g, q)
    ensures var t := Diverge(top, g.beyond, cycle, p, pMask, q, qMask);
            forall j: nat :: j < |t| ==>
              StandsAt(g, t[j], done', parked || Parks(g, top, g.beyond, k), k + j, false)
  {
    LooseSides(g, top, p, pMask, q, qMask, done, done', parked, k);
    if p != top.recvg {
      MovedOk(g, top, p, pMask, 0, done, done', parked, k, false);
    }
    if q != top.recvg {
      MovedOk(g, top, q, qMask, 0, done, done', parked, k, false);
    }
  }

  lemma NotLoose(g: Cfg, r: Pc, p: Pc)
    requires StrictPostDom(g, r, p)
    ensures !Loose(g, p)
  {
  }

  lemma LooseSides(g: Cfg, top: Entry, p: Pc, pMask: Mask, q: Pc, qMask: Mask, done: Mask, done': Mask, parked: bool,
                   k: nat)
    requires WellFormed(g) && TopAt(g, top, done, parked, k, false) && Loose(g, top.pc)
    requires {p, q} <= g.succ[top.pc] && pMask !! done' && qMask !! done'
    requires Parks(g, top, g.beyond, k) ==> Free(g, p) && Free(g, q)
    ensures k > 0 ==> top.recvg == g.beyond
    ensures var parked' := parked || Parks(g, top, g.beyond, k);
            && StandsAt(g, Branch(p, pMask, g.beyond), done', parked', k + 1, false)
            && StandsAt(g, Branch(q, qMask, g.beyond), done', parked', k + 1, false)
            && StandsAt(g, Branch(q, qMask, g.beyond), done', parked', k + 2, false)
            && (parked' ==> p != g.beyond && q != g.beyond)
  {
    if parked {
      FreeOn(g, top.pc, p);
      FreeOn(g, top.pc, q);
    } else if Parks(g, top, g.beyond, k) {
      LeadsHere(g, p);
      LeadsHere(g, q);
    }
  }

  /** The entries after a branch with two targets. */
  lemma SplitEntries(g: Cfg, rest: seq<Entry>, top: Entry, t: seq<Entry>, done: Mask, parked: bool)
    requires StackOk(g, rest, done, parked) && t != [] && t[0].kind == top.kind
    requires top.kind.Call? ==> CallerOk(g, rest, parked)
    requires forall k: nat :: 0 < k < |t| ==> t[k].kind.Normal?
    requires forall k: nat :: k < |t| ==> StandsAt(g, t[k], done, parked, |rest| + k, CallPcs(rest + [top]) != [])
    ensures StackOk(g, rest + t, done, parked)
  {
    var first := rest + [t[0]];
    CallPcsPushed(rest, top);
    CallPcsPushed(rest, t[0]);
    StackPushed(g, rest, t[0], done, parked);
    forall k: nat | k < |t[1..]|
      ensures t[1..][k].kind.Normal? && StandsAt(g, t[1..][k], done, parked, |first| + k, CallPcs(first) != [])
    {
      assert StandsAt(g, t[k + 1], done, parked, |rest| + (k + 1), CallPcs(rest + [top]) != []);
    }
    StackPushAll(g, first, t[1..], done, parked);
    FirstOfAll(rest, t);
  }

  /** An update for neither a call nor a return leaves the entries as they should be. */
  lemma PlainEntries(g: Cfg, s: seq<Entry>, done: Mask, done': Mask, next: seq<Pc>, inst: Inst, cycle: nat,
                     parked: bool)
      returns (parked': bool)
    requires WellFormed(g) && CallsOk(g) && UpdateOk(s, done', next, inst) && !IsCallOrReturn(inst, Last(s))
    requires StackOk(g, Front(s), done', parked) && TopAt(g, Last(s), done, parked, |s| - 1, CallPcs(s) != [])
    requires Last(s).kind.Call? ==> CallerOk(g, Front(s), parked)
    requires |g.succ[Last(s).pc]| == 2 ==> IsReconvergence(g, inst.recvg, Last(s).pc)
    requires Targets(Last(s).mask - done', next) <= g.succ[Last(s).pc]
    requires Last(s).pc !in g.exits ==> Last(s).mask !! done'
    requires |s| == 1 && |g.succ[Last(s).pc]| == 2 && Loose(g, Last(s).pc) ==> !CanReturn(g, Last(s).pc)
    ensures StackOk(g, Updated(s, done', next, inst, cycle), done', parked')
    ensures var parks := |Targets(Last(s).mask - done', next)| == 2 && Parks(g, Last(s), inst.recvg, |s| - 1);
            parked' == (parked || parks)
  {
    var rest, top := Front(s), Last(s);
    var live, targets := top.mask - done', Targets(top.mask - done', next);
    FrontAndLast(s);
    parked' := parked;
    if targets != {} {
      var a := FirstPath(targets, NotTaken(inst));
      if |targets| == 1 {
        SingletonIs(targets, a);
        if a != top.recvg {
          OneEntry(g, rest, top, a, Group(live, next, a), done, done', parked);
        }
      } else {
        OtherMember(targets, a);
        var b :| b in targets && b != a && targets == {a, b};
        SubsetSize(targets, g.succ[top.pc]);
        UpdatedTwo(s, done', next, inst, cycle, a, b);
        parked' := parked || Parks(g, top, inst.recvg, |rest|);
        TwoEntries(g, rest, top, inst.recvg, cycle, a, Group(live, next, a), b, Group(live, next, b), done, done',
                   parked);
      }
    }
  }

  /** The top entry moved on. */
  lemma OneEntry(g: Cfg, rest: seq<Entry>, top: Entry, q: Pc, mask: Mask, done: Mask, done': Mask, parked: bool)
    requires WellFormed(g) && StackOk(g, rest, done', parked) && mask !! done' && q != top.recvg
    requires TopAt(g, top, done, parked, |rest|, CallPcs(rest + [top]) != []) && q in g.succ[top.pc]
    requires top.kind.Call? ==> CallerOk(g, rest, parked)
    ensures StackOk(g, rest + [top.(pc := q, mask := mask)], done', parked)
  {
    var e := top.(pc := q, mask := mask);
    MovedOk(g, top, q, mask, top.calldepth, done, done', parked, |rest|, CallPcs(rest + [top]) != []);
    CallPcsPushed(rest, top);
    CallPcsPushed(rest, e);
    StackPushed(g, rest, e, done', parked);
  }

  lemma TwoEntries(g: Cfg, rest: seq<Entry>, top: Entry, r: Pc, cycle: nat, a: Pc, aMask: Mask, b: Pc, bMask: Mask,
                   done: Mask, done': Mask, parked: bool)
    requires WellFormed(g) && CallsOk(g) && StackOk(g, rest, done', parked)
    requires TopAt(g, top, done, parked, |rest|, CallPcs(rest + [top]) != [])
    requires top.kind.Call? ==> CallerOk(g, rest, parked)
    requires |g.succ[top.pc]| == 2 && IsReconvergence(g, r, top.pc) && {a, b} <= g.succ[top.pc] && a != b
    requires aMask !! done' && bMask !! done' && (top.pc !in g.exits ==> top.mask !! done')
    requires rest == [] && Loose(g, top.pc) ==> !CanReturn(g, top.pc)
    ensures StackOk(g, rest + Diverge(top, r, cycle, a, aMask, b, bMask), done', parked || Parks(g, top, r, |rest|))
  {
    var inner, parked' := CallPcs(rest + [top]) != [], parked || Parks(g, top, r, |rest|);
    var t := Diverge(top, r, cycle, a, aMask, b, bMask);
    if Parks(g, top, r, |rest|) {
      BranchesFree(g, top.pc, a);
      BranchesFree(g, top.pc, b);
      assert rest == [];
    }
    assert InnerOk(g, top.pc);
    BranchReconverges(g, top, done, parked, |rest|, inner, r);
    DivergeKinds(top, r, cycle, a, aMask, b, bMask);
    if ImmediatePostDom(g, r, top.pc) {
      NotLoose(g, r, top.pc);
      TightStack(g, top, r, cycle, a, aMask, b, bMask, done, done', parked, |rest|, inner);
    } else {
      LooseStack(g, top, cycle, a, aMask, b, bMask, done, done', parked, |rest|);
    }
    SplitEntries(g, rest, top, t, done', parked');
  }

  lemma BranchesFree(g: Cfg, b: Pc, q: Pc)
    requires WellFormed(g) && b in g.succ && q in g.succ[b] && !CanReturn(g, b)
    ensures Free(g, q)
  {
  }

  /** A call puts an entry of the function called on its caller. */
  lemma CallEntries(g: Cfg, s: seq<Entry>, e: Entry, done: Mask, done': Mask, parked: bool)
    requires WellFormed(g) && CallsOk(g) && s != []
    requires StackOk(g, s, done, parked) && StackOk(g, Front(s), done', parked)
    requires TopAt(g, Last(s), done, parked, |s| - 1, CallPcs(s) != []) && Last(s).mask !! done'
    requires Last(s).pc in g.calls && e.pc == g.calls[Last(s).pc] && e.mask !! done'
    requires e.kind.Call? && e.recvg == NULL_PC
    ensures StackOk(g, s + [e], done', parked)
  {
    CallPcsPushed(s, e);
    assert CallOk(g, Last(s).pc);
    LeadsHere(g, e.pc);
    StackPushed(g, s, e, done', parked);
  }

  /** A return moves the caller on, or takes it from the stack. */
  lemma ReturnEntries(g: Cfg, rest: seq<Entry>, q: Pc, done: Mask, parked: bool)
    requires WellFormed(g) && CallsOk(g) && StackOk(g, rest, done, parked) && CallerOk(g, rest, parked)
    requires q in g.succ[Last(rest).pc]
    ensures StackOk(g, Returned(rest, q), done, parked)
  {
    var caller, below := Last(rest), Front(rest);
    assert CallOk(g, caller.pc);
    FrontAndLast(rest);
    if q != caller.recvg {
      OneEntry(g, below, caller, q, caller.mask, done, done, parked);
    }
  }

  // ---------- the lanes ----------

  lemma TraceOn(g: Cfg, start: Pc, f: seq<Pc>, pc: Pc, parked: bool, q: Pc)
    requires WellFormed(g) && TraceOk(g, start, f, pc, parked) && q in g.succ[pc]
    ensures TraceOk(g, start, f, q, parked)
  {
    if f != [] {
      InnerOn(g, pc, q);
    } else {
      LeadsOn(g, start, pc, q);
      if parked {
        FreeOn(g, pc, q);
      }
    }
  }

  lemma TraceNext(g: Cfg, start: Pc, f: seq<Pc>, pc: Pc, parked: bool, q: Pc)
    requires WellFormed(g) && CallsOk(g) && TraceOk(g, start, f, pc, parked) && q in Nexts(g, pc, f)
    ensures TraceOk(g, start, After(g, pc, f), q, parked)
  {
    if pc in g.calls {
      assert CallOk(g, pc);
      LeadsHere(g, q);
      assert Front(f + [pc]) == f;
    } else if f != [] && pc in g.exits {
      assert CallOk(g, Last(f));
      TraceOn(g, start, Front(f), Last(f), parked, q);
    } else {
      TraceOn(g, start, f, pc, parked, q);
    }
  }

  /** Once the bottom is parked, a lane of the kernel that cannot return is where it should be. */
  lemma TraceParks(g: Cfg, start: Pc, pc: Pc, q: Pc)
    requires WellFormed(g) && TraceOk(g, start, [], pc, false) && q in g.succ[pc] && !CanReturn(g, pc)
    ensures TraceOk(g, start, [], q, true)
  {
    LeadsOn(g, start, pc, q);
    BranchesFree(g, pc, q);
  }

  /** What an update for a call or a return leaves. */
  lemma CalledEntries(g: Cfg, s: seq<Entry>, start: Pc, done: Mask, done': Mask, next: seq<Pc>, inst: Inst, cycle: nat,
                      parked: bool)
    requires WellFormed(g) && CallsOk(g) && UpdateOk(s, done', next, inst) && StackOk(g, s, done, parked)
    requires StackOk(g, Front(s), done', parked) && TopAt(g, Last(s), done, parked, |s| - 1, CallPcs(s) != [])
    requires TraceOk(g, start, CallPcs(s), Last(s).pc, parked) && InstOk(g, inst, Last(s).pc)
    requires Targets(Last(s).mask - done', next) <= Nexts(g, Last(s).pc, CallPcs(s))
    requires IsCallOrReturn(inst, Last(s)) && Targets(Last(s).mask - done', next) != {} && Last(s).mask !! done'
    ensures StackOk(g, Updated(s, done', next, inst, cycle), done', parked)
  {
    var rest, top := Front(s), Last(s);
    if inst.op.CallOps? {
      CallEntries(g, s, Last(Updated(s, done', next, inst, cycle)), done, done', parked);
    } else {
      CallPcsPushed(rest, top);
      FrontAndLast(s);
      ReturnEntries(g, rest, FirstPath(Targets(top.mask - done', next), NotTaken(inst)), done', parked);
    }
  }

  /** What an update leaves. */
  lemma UpdatedEntries(g: Cfg, s: seq<Entry>, start: Pc, done: Mask, done': Mask, next: seq<Pc>, inst: Inst, cycle: nat,
                       parked: bool)
      returns (parked': bool)
    requires WellFormed(g) && CallsOk(g) && UpdateOk(s, done', next, inst) && StackOk(g, s, done, parked)
    requires StackOk(g, Front(s), done', parked) && TopAt(g, Last(s), done, parked, |s| - 1, CallPcs(s) != [])
    requires TraceOk(g, start, CallPcs(s), Last(s).pc, parked) && InstOk(g, inst, Last(s).pc)
    requires Targets(Last(s).mask - done', next) <= Nexts(g, Last(s).pc, CallPcs(s))
    requires (Last(s).pc in g.exits && CallPcs(s) == []) || Last(s).mask !! done'
    requires |s| == 1 && |g.succ[Last(s).pc]| == 2 && Loose(g, Last(s).pc) ==> !CanReturn(g, Last(s).pc)
    ensures StackOk(g, Updated(s, done', next, inst, cycle), done', parked')
    ensures parked' && !parked ==>
              |s| == 1 && |g.succ[Last(s).pc]| == 2 && Loose(g, Last(s).pc) && g.beyond != NULL_PC
    ensures parked ==> parked'
  {
    var top, targets := Last(s), Targets(Last(s).mask - done', next);
    parked' := parked;
    if targets != {} && IsCallOrReturn(inst, top) {
      CalledEntries(g, s, start, done, done', next, inst, cycle, parked);
    } else if targets != {} {
      StaysInside(g, top, done, parked, |s| - 1, CallPcs(s), inst);
      parked' := PlainEntries(g, s, done, done', next, inst, cycle, parked);
      if parked' && !parked {
        SubsetSize(targets, g.succ[top.pc]);
      }
    }
  }

  /** What is neither a call nor a return stays in its function. */
  lemma StaysInside(g: Cfg, top: Entry, done: Mask, parked: bool, k: nat, f: seq<Pc>, inst: Inst)
    requires WellFormed(g) && CallsOk(g) && TopAt(g, top, done, parked, k, f != []) && InstOk(g, inst, top.pc)
    requires !IsCallOrReturn(inst, top)
    ensures Nexts(g, top.pc, f) == g.succ[top.pc] && After(g, top.pc, f) == f
  {
    if f != [] && top.kind.Normal? {
      StrictMeansNoExit(g, top.recvg, top.pc);
    }
  }

  /** The stack and the graphs agree on what a lane's outstanding calls become. */
  lemma FramesAgree(g: Cfg, top: Entry, done: Mask, parked: bool, k: nat, f: seq<Pc>, inst: Inst)
    requires WellFormed(g) && CallsOk(g) && TopAt(g, top, done, parked, k, f != []) && InstOk(g, inst, top.pc)
    ensures FramesAfter(top, inst, f) == After(g, top.pc, f)
  {
    if f != [] && top.kind.Normal? {
      StrictMeansNoExit(g, top.recvg, top.pc);
    }
  }

  /** After a step every live lane is where it should be. */
  lemma LanesMoveOn<L(!new)>(p: Program<L>, g: Cfg, frames: L -> seq<Pc>, start: Pc, w: Warp<L>, cycle: nat,
                             launched: Mask, parked: bool, parked': bool, i: nat)
    requires Follows(p, g, frames) && CfgState(p, g, frames, start, w, launched, parked) && StepOk(p, w)
    requires i in Live(p, Step(p, w, cycle), launched) && (parked ==> parked')
    requires parked' && !parked ==> |w.stack| == 1 && Last(w.stack).pc in g.succ && !CanReturn(g, Last(w.stack).pc)
    requires parked' && !parked ==> |g.succ[Last(w.stack).pc]| == 2
    ensures var w' := Step(p, w, cycle); LaneAt(p, g, frames, start, w'.stack, w'.lanes[i], i, parked')
  {
    var top, l, f := Last(w.stack), w.lanes[i], CallPcs(w.stack);
    assert i in Live(p, w, launched);
    assert LaneAt(p, g, frames, start, w.stack, l, i, parked) && LaneOk(w.stack, i, p.pcOf(l));
    LaneInFrame(p, g, frames, start, w, cycle, launched, parked, i);
    if i in top.mask {
      TopLaneMoves(p, g, frames, start, w, launched, parked, i);
      var q := p.pcOf(Execute(p, top, w.lanes)[i]);
      TraceNext(g, start, f, top.pc, parked, q);
      if parked' && !parked {
        BottomFrame(w.stack);
        TraceParks(g, start, top.pc, q);
      }
    } else if parked' && !parked {
      FrontAndLast(w.stack);
      Pushed([], w.stack[0], i);
    }
  }

  /** What the stack makes of a lane's outstanding calls. */
  lemma FrameStep<L>(p: Program<L>, w: Warp<L>, cycle: nat, launched: Mask, i: nat, f: seq<Pc>)
    requires Inv(p, w, launched) && StepOk(p, w) && InFrame(w.stack, i, f)
    requires i in Live(p, w, launched) && i in Live(p, Step(p, w, cycle), launched)
    ensures var top := Last(w.stack);
            var f' := if i in top.mask then FramesAfter(top, p.inst(top.pc), f) else f;
            InFrame(Step(p, w, cycle).stack, i, f')
  {
    var w', top := Step(p, w, cycle), Last(w.stack);
    var live, live' := Live(p, w, launched), Live(p, w', launched);
    assert live' <= live;
    CallsHoldPrefix(w.stack, live, live');
    UpdateKeepsFrame(w.stack, DoneMask(p, w'.lanes), NextPcs(p, w'.lanes), p.inst(top.pc), cycle, live', i, f);
  }

  lemma LaneInFrame<L(!new)>(p: Program<L>, g: Cfg, frames: L -> seq<Pc>, start: Pc, w: Warp<L>, cycle: nat,
                             launched: Mask, parked: bool, i: nat)
    requires Follows(p, g, frames) && CfgState(p, g, frames, start, w, launched, parked) && StepOk(p, w)
    requires i in Live(p, w, launched) && i in Live(p, Step(p, w, cycle), launched)
    ensures var w' := Step(p, w, cycle); InFrame(w'.stack, i, frames(w'.lanes[i]))
  {
    var top, f := Last(w.stack), CallPcs(w.stack);
    assert LaneAt(p, g, frames, start, w.stack, w.lanes[i], i, parked);
    FrameStep(p, w, cycle, launched, i, frames(w.lanes[i]));
    if i in top.mask {
      TopLaneMoves(p, g, frames, start, w, launched, parked, i);
      TopOk(p, g, frames, start, w, launched, parked);
      assert TableOk(p, g, top.pc);
      FramesAgree(g, top, DoneMask(p, w.lanes), parked, |w.stack| - 1, f, p.inst(top.pc));
    }
  }

  lemma CfgStepKeepsState<L(!new)>(p: Program<L>, g: Cfg, frames: L -> seq<Pc>, start: Pc, w: Warp<L>, cycle: nat,
                                   launched: Mask, parked: bool)
      returns (parked': bool)
    requires Follows(p, g, frames) && Safe(g, start) && CfgState(p, g, frames, start, w, launched, parked)
    requires Live(p, w, launched) != {}
    ensures StepOk(p, w) && CfgState(p, g, frames, start, Step(p, w, cycle), launched, parked')
  {
    CfgStepOk(p, g, frames, start, w, launched, parked);
    StepKeepsInv(p, w, cycle, launched);
    TopOk(p, g, frames, start, w, launched, parked);
    TopNexts(p, g, frames, start, w, launched, parked);
    WaitingEntries(p, g, frames, start, w, launched, parked);
    var w', top := Step(p, w, cycle), Last(w.stack);
    var done, done', next := DoneMask(p, w.lanes), DoneMask(p, w'.lanes), NextPcs(p, w'.lanes);
    assert TableOk(p, g, top.pc) && !Returns(g, start, top.pc);
    if |w.stack| == 1 {
      BottomFrame(w.stack);
    }
    parked' := UpdatedEntries(g, w.stack, start, done, done', next, p.inst(top.pc), cycle, parked);
    forall i | i in Live(p, w', launched)
      ensures LaneAt(p, g, frames, start, w'.stack, w'.lanes[i], i, parked')
    {
      LanesMoveOn(p, g, frames, start, w, cycle, launched, parked, parked', i);
    }
  }

  lemma BottomFrame(s: seq<Entry>)
    requires |s| == 1
    ensures CallPcs(s) == [] && forall i: nat :: InFrame(s, i, [])
  {
    assert Front(s) == [];
  }

  lemma CfgStepKeepsInv<L(!new)>(p: Program<L>, g: Cfg, frames: L -> seq<Pc>, start: Pc, w: Warp<L>, cycle: nat,
                                 launched: Mask)
    requires Follows(p, g, frames) && Safe(g, start) && CfgInv(p, g, frames, start, w, launched)
    requires Live(p, w, launched) != {}
    ensures StepOk(p, w) && CfgInv(p, g, frames, start, Step(p, w, cycle), launched)
  {
    var parked := CfgState(p, g, frames, start, w, launched, true);
    var parked' := CfgStepKeepsState(p, g, frames, start, w, cycle, launched, parked);
  }

  /** While the kernel executes, no live lane has an outstanding call, so that the return pc that a loose branch takes
      from the first live lane of the warp is the kernel's. */
  lemma KernelLanes<L>(p: Program<L>, g: Cfg, frames: L -> seq<Pc>, start: Pc, w: Warp<L>, launched: Mask, i: nat)
    requires CfgInv(p, g, frames, start, w, launched) && CallPcs(w.stack) == [] && i in Live(p, w, launched)
    ensures frames(w.lanes[i]) == []
  {
    var parked := CfgState(p, g, frames, start, w, launched, true);
    assert LaneOk(w.stack, i, p.pcOf(w.lanes[i]));
    assert LaneAt(p, g, frames, start, w.stack, w.lanes[i], i, parked);
    NoneOutstanding(w.stack, i, frames(w.lanes[i]));
  }

  /** When all lanes are done the stack is empty, but for an entry parked at `beyond`. */
  lemma StackWhenDone<L>(p: Program<L>, g: Cfg, frames: L -> seq<Pc>, start: Pc, w: Warp<L>, launched: Mask)
    requires CfgInv(p, g, frames, start, w, launched) && Live(p, w, launched) == {}
    ensures w.stack == [] || (|w.stack| == 1 && w.stack[0].pc == g.beyond != NULL_PC)
  {
    if w.stack != [] {
      var top := Last(w.stack);
      assert top in w.stack;
      var i :| i in top.mask;
      assert i in DoneMask(p, w.lanes);
    }
  }

  /** While a lane is live, no finished lane is in the mask that is executed. */
  ghost predicate NoneFinished<L>(p: Program<L>, w: Warp<L>, launched: Mask) {
    Live(p, w, launched) != {} ==> w.stack != [] && Last(w.stack).mask !! DoneMask(p, w.lanes)
  }

  /** A launch in the kernel. */
  ghost predicate Starts<L>(p: Program<L>, g: Cfg, frames: L -> seq<Pc>, w: Warp<L>, pc: Pc, launched: Mask) {
    pc in g.succ && IsLaunch(p, w, pc, launched) && forall i :: i in launched ==> frames(w.lanes[i]) == []
  }

  lemma {:induction false} CfgRunInv<L(!new)>(p: Program<L>, g: Cfg, frames: L -> seq<Pc>, ws: seq<Warp<L>>,
                                              cycles: nat -> nat, pc: Pc, launched: Mask, n: nat)
    requires Follows(p, g, frames) && Safe(g, pc) && IsRun(p, ws, cycles, pc, launched) && n < |ws|
    requires Starts(p, g, frames, ws[0], pc, launched)
    ensures CfgInv(p, g, frames, pc, ws[n], launched)
  {
    if n == 0 {
      LaunchCfgInv(p, g, frames, ws[0], pc, launched);
    } else {
      CfgRunInv(p, g, frames, ws, cycles, pc, launched, n - 1);
      assert StepsAt(p, ws, cycles, n - 1);
      AnyStepKeepsInv(p, g, frames, pc, ws[n - 1], cycles(n - 1), launched);
    }
  }

  /** Every run of a program that follows a safe graph, calls and returns included: while a lane is live no assertion of
      `update` fails and no finished lane is executed; each entry of the kernel reconverges nowhere, at `beyond` or at a
      strict post-dominator of its pc, and each entry of a function it calls at a strict post-dominator there. */
  lemma CfgRunSafe<L(!new)>(p: Program<L>, g: Cfg, frames: L -> seq<Pc>, ws: seq<Warp<L>>, cycles: nat -> nat, pc: Pc,
                            launched: Mask, n: nat)
    requires Follows(p, g, frames) && Safe(g, pc) && IsRun(p, ws, cycles, pc, launched) && n < |ws|
    requires Starts(p, g, frames, ws[0], pc, launched)
    ensures CfgInv(p, g, frames, pc, ws[n], launched) && NoneFinished(p, ws[n], launched)
    ensures Live(p, ws[n], launched) != {} ==> StepOk(p, ws[n])
  {
    CfgRunInv(p, g, frames, ws, cycles, pc, launched, n);
    InvIsSafe(p, g, frames, pc, ws[n], launched);
  }

  lemma InvIsSafe<L(!new)>(p: Program<L>, g: Cfg, frames: L -> seq<Pc>, start: Pc, w: Warp<L>, launched: Mask)
    requires Follows(p, g, frames) && CfgInv(p, g, frames, start, w, launched)
    ensures NoneFinished(p, w, launched) && (Live(p, w, launched) != {} ==> StepOk(p, w))
  {
    if Live(p, w, launched) != {} {
      var parked := CfgState(p, g, frames, start, w, launched, true);
      CfgStepOk(p, g, frames, start, w, launched, parked);
      TopOk(p, g, frames, start, w, launched, parked);
    }
  }

  lemma AnyStepKeepsInv<L(!new)>(p: Program<L>, g: Cfg, frames: L -> seq<Pc>, start: Pc, w: Warp<L>, cycle: nat,
                                 launched: Mask)
    requires Follows(p, g, frames) && Safe(g, start) && CfgInv(p, g, frames, start, w, launched) && StepOk(p, w)
    ensures CfgInv(p, g, frames, start, Step(p, w, cycle), launched)
  {
    if Live(p, w, launched) != {} {
      CfgStepKeepsInv(p, g, frames, start, w, cycle, launched);
    } else {
      DoneStep(p, g, frames, start, w, cycle, launched);
    }
  }

  lemma LaunchCfgInv<L>(p: Program<L>, g: Cfg, frames: L -> seq<Pc>, w: Warp<L>, pc: Pc, launched: Mask)
    requires Starts(p, g, frames, w, pc, launched)
    ensures CfgInv(p, g, frames, pc, w, launched)
  {
    LaunchInv(p, w, pc, launched);
    LeadsHere(g, pc);
    BottomFrame(w.stack);
    assert EntryOk(g, w.stack[0], DoneMask(p, w.lanes));
    assert w.stack == [] + [w.stack[0]];
    StackPushed(g, [], w.stack[0], DoneMask(p, w.lanes), false);
    assert CfgState(p, g, frames, pc, w, launched, false);
  }

  /** A step of a warp that has finished removes what is left of the stack. */
  lemma DoneStep<L>(p: Program<L>, g: Cfg, frames: L -> seq<Pc>, start: Pc, w: Warp<L>, cycle: nat, launched: Mask)
    requires CfgInv(p, g, frames, start, w, launched) && Live(p, w, launched) == {} && StepOk(p, w)
    ensures CfgInv(p, g, frames, start, Step(p, w, cycle), launched) && Step(p, w, cycle).stack == []
  {
    StepKeepsInv(p, w, cycle, launched);
    StackWhenDone(p, g, frames, start, w, launched);
    var w', top := Step(p, w, cycle), Last(w.stack);
    assert top in w.stack;
    assert top.mask - DoneMask(p, w'.lanes) == {};
    assert CfgState(p, g, frames, start, w', launched, false);
  }
}
