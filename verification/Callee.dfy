/** Which functions can be called: a function of which every two-way branch reconverges inside and every return is
    without a condition never makes the stack fail; every other function does, when two lanes of three call it. */
module Callee {
  import opened Basics
  import opened SimtStack
  import opened SimtLanes
  import opened SimtRun
  import opened PostDominance
  import opened PostDominators
  import opened Linking
  import opened Walkers
  import opened EndPc

  /** A kernel that branches at `fork` to a call or right to its end. */
  datatype Kernel = Kernel(fork: Pc, call: Pc, end: Pc)

  /** A function that calls no other and of which every pc can be reached from its first, and a kernel beside it. */
  ghost predicate Fits(c: Cfg, e: Pc, k: Kernel) {
    && WellFormed(c) && c.calls == map[] && e in c.succ && (forall pc :: pc in c.succ ==> Leads(c, e, pc))
    && Apart(c, k)
  }

  ghost predicate Apart(c: Cfg, k: Kernel) {
    && k.fork != k.call && k.call != k.end && k.end != k.fork
    && k.fork != NULL_PC && k.call != NULL_PC && k.end != NULL_PC
    && k.fork !in c.succ && k.call !in c.succ && k.end !in c.succ
  }

  ghost function Pcs(c: Cfg, k: Kernel): (s: set<Pc>) {
    c.succ.Keys + {k.fork, k.call, k.end}
  }

  ghost function SuccOf(c: Cfg, k: Kernel, pc: Pc): (s: set<Pc>) {
    if pc in c.succ then c.succ[pc]
    else if pc == k.fork then {k.call, k.end}
    else if pc == k.call then {k.end}
    else {}
  }

  /** The graphs of both. */
  ghost function Whole(c: Cfg, e: Pc, k: Kernel): (g: Cfg) {
    Cfg(map pc | pc in Pcs(c, k) :: SuccOf(c, k, pc), c.exits * c.succ.Keys + {k.end}, c.beyond, map[k.call := e])
  }

  ghost predicate FineAt(c: Cfg, pc: Pc)
    requires pc in c.succ
  {
    (pc in c.exits ==> c.succ[pc] == {}) && (|c.succ[pc]| == 2 ==> !Loose(c, pc))
  }

  ghost predicate Callable(c: Cfg) {
    forall pc :: pc in c.succ ==> FineAt(c, pc)
  }

  /** Two-way branches reconverge at their immediate post-dominators, and the loose ones of the function at the return
      pc. */
  ghost predicate BranchAt(c: Cfg, e: Pc, k: Kernel, inst: Inst, pc: Pc) {
    if pc in c.succ && Loose(c, pc) then inst.recvg == k.end else ImmediatePostDom(Whole(c, e, k), inst.recvg, pc)
  }

  ghost predicate InstFits(c: Cfg, e: Pc, k: Kernel, inst: Inst, pc: Pc)
    requires pc in Whole(c, e, k).succ
  {
    CodeOk(Whole(c, e, k), inst, pc) && (|Whole(c, e, k).succ[pc]| == 2 ==> BranchAt(c, e, k, inst, pc))
  }

  /** A program of the kernel and the function. */
  ghost predicate Obeys<L(!new)>(p: Program<L>, c: Cfg, e: Pc, k: Kernel, frames: L -> seq<Pc>) {
    && (forall l: L :: Moves(p, Whole(c, e, k), frames, l))
    && forall pc :: pc in Whole(c, e, k).succ ==> InstFits(c, e, k, p.inst(pc), pc)
  }

  // ---------- sufficiency ----------

  lemma WholeHolds(c: Cfg, e: Pc, k: Kernel)
    requires Fits(c, e, k)
    ensures Holds(Whole(c, e, k), c)
  {
  }

  lemma KernelNode(c: Cfg, e: Pc, k: Kernel, pc: Pc)
    requires Fits(c, e, k) && (pc == k.fork || pc == k.call || pc == k.end)
    ensures NodeIn(Whole(c, e, k), pc)
  {
    var g := Whole(c, e, k);
    assert ExitPathFrom(g, k.end, [k.end]);
    PathStep(g, k.call, k.end, [k.end]);
    PathStep(g, k.fork, k.end, [k.end]);
    TwoAtMost(k.call, k.end);
  }

  lemma TwoAtMost(a: Pc, b: Pc)
    ensures |{a, b}| <= 2
  {
    if a == b {
      assert {a, b} == {a};
    }
  }

  lemma WholeWellFormed(c: Cfg, e: Pc, k: Kernel)
    requires Fits(c, e, k)
    ensures WellFormed(Whole(c, e, k))
  {
    var g := Whole(c, e, k);
    WholeHolds(c, e, k);
    forall pc | pc in g.succ ensures NodeIn(g, pc) {
      if pc in c.succ {
        HeldNode(g, c, pc);
      } else {
        KernelNode(c, e, k, pc);
      }
    }
    NodesIn(g);
  }

  lemma {:induction false} StaysIn(g: Cfg, c: Cfg, way: seq<Pc>)
    requires Holds(g, c) && WellFormed(c) && Way(g, way) && way[0] in c.succ
    ensures way[|way| - 1] in c.succ
  {
    if |way| > 1 {
      StaysIn(g, c, way[1..]);
    }
  }

  lemma SameLoose(g: Cfg, c: Cfg, p: Pc)
    requires Holds(g, c) && WellFormed(c) && p in c.succ
    ensures Loose(g, p) <==> Loose(c, p)
  {
    forall s ensures StrictPostDom(g, s, p) <==> StrictPostDom(c, s, p) {
      SamePostDom(g, c, s, p);
    }
  }

  lemma WholeCalls(c: Cfg, e: Pc, k: Kernel)
    requires Fits(c, e, k) && Callable(c)
    ensures CallsOk(Whole(c, e, k))
  {
    var g := Whole(c, e, k);
    WholeHolds(c, e, k);
    forall pc | pc in g.succ && Inner(g, pc) ensures InnerOk(g, pc) {
      OnlyInside(c, e, k, pc);
      SameLoose(g, c, pc);
      assert FineAt(c, pc);
    }
  }

  lemma WholeSafe(c: Cfg, e: Pc, k: Kernel, r: Pc)
    requires Fits(c, e, k) && Callable(c) && ImmediatePostDom(Whole(c, e, k), r, k.fork)
    ensures Safe(Whole(c, e, k), k.fork)
  {
    var g := Whole(c, e, k);
    WholeHolds(c, e, k);
    forall b ensures !Returns(g, k.fork, b) {
      if b in c.succ {
        SameLoose(g, c, b);
        assert FineAt(c, b);
      } else if b == k.fork {
        NotLoose(g, r, b);
      }
    }
  }

  lemma ObeysFollows<L(!new)>(p: Program<L>, c: Cfg, e: Pc, k: Kernel, frames: L -> seq<Pc>)
    requires Fits(c, e, k) && Callable(c) && Obeys(p, c, e, k, frames)
    ensures Follows(p, Whole(c, e, k), frames) && Safe(Whole(c, e, k), k.fork)
  {
    var g := Whole(c, e, k);
    WholeWellFormed(c, e, k);
    WholeCalls(c, e, k);
    forall pc | pc in g.succ ensures TableOk(p, g, pc) {
      assert InstFits(c, e, k, p.inst(pc), pc);
      if pc in c.succ {
        assert FineAt(c, pc);
      }
    }
    ForkReconverges(c, e, k);
    WholeSafe(c, e, k, k.end);
  }

  /** A warp that can go on while a lane is live, and executes no finished lane then. */
  ghost predicate Healthy<L>(p: Program<L>, w: Warp<L>, launched: Mask) {
    NoneFinished(p, w, launched) && (Live(p, w, launched) != {} ==> StepOk(p, w))
  }

  /** State number `n` of the run is as it should be. */
  ghost predicate HealthyAt<L(!new)>(p: Program<L>, c: Cfg, e: Pc, k: Kernel, frames: L -> seq<Pc>, ws: seq<Warp<L>>,
                                     cycles: nat -> nat, launched: Mask, n: nat) {
    && Obeys(p, c, e, k, frames) && IsRun(p, ws, cycles, k.fork, launched) && n < |ws|
    && Starts(p, Whole(c, e, k), frames, ws[0], k.fork, launched)
    ==> Healthy(p, ws[n], launched)
  }

  lemma CallableIsHealthy<L(!new)>(p: Program<L>, c: Cfg, e: Pc, k: Kernel, frames: L -> seq<Pc>, ws: seq<Warp<L>>,
                                   cycles: nat -> nat, launched: Mask, n: nat)
    requires Fits(c, e, k) && Callable(c)
    ensures HealthyAt(p, c, e, k, frames, ws, cycles, launched, n)
  {
    if && Obeys(p, c, e, k, frames) && IsRun(p, ws, cycles, k.fork, launched) && n < |ws|
       && Starts(p, Whole(c, e, k), frames, ws[0], k.fork, launched) {
      ObeysFollows(p, c, e, k, frames);
      CfgRunSafe(p, Whole(c, e, k), frames, ws, cycles, k.fork, launched, n);
    }
  }

  // ---------- a program whose lanes walk through both ----------

  ghost function GoesTo(c: Cfg, e: Pc, k: Kernel, pc: Pc): (s: set<Pc>) {
    if pc in c.succ then c.succ[pc] + (if pc in c.exits then {k.end} else {})
    else if pc == k.call then {e}
    else SuccOf(c, k, pc)
  }

  /** Where a lane can go, calls and returns included. The end pc is where the kernel ends. */
  ghost function Inlined(c: Cfg, e: Pc, k: Kernel): (g: Cfg) {
    Cfg(map pc | pc in Pcs(c, k) :: GoesTo(c, e, k, pc), {k.end}, k.end, map[])
  }

  ghost function RecvgAt(c: Cfg, k: Kernel, pc: Pc): (r: Pc) {
    if pc == k.fork || (pc in c.succ && Loose(c, pc)) then k.end else RecvgOf(c, pc)
  }

  ghost function InstAt(c: Cfg, k: Kernel, pc: Pc): (inst: Inst) {
    Inst(pc, if pc == k.call then CallOps else if pc in c.succ && pc in c.exits then RetOps else OtherOps, 1,
         RecvgAt(c, k, pc))
  }

  ghost function Calling(c: Cfg, e: Pc, k: Kernel): (p: Program<Walker>) {
    WalkingBy(Inlined(c, e, k), (pc: Pc) => InstAt(c, k, pc))
  }

  /** The outstanding calls of a lane at `pc`. */
  ghost function FramesAt(c: Cfg, k: Kernel, pc: Pc): (f: seq<Pc>) {
    if pc in c.succ then [k.call] else []
  }

  ghost function FramesIn(c: Cfg, e: Pc, k: Kernel): (frames: Walker -> seq<Pc>) {
    (l: Walker) => FramesAt(c, k, PcOf(Inlined(c, e, k), l))
  }

  lemma CallingWalks(c: Cfg, e: Pc, k: Kernel)
    requires Apart(c, k) && NULL_PC !in c.succ
    ensures Walks(Calling(c, e, k), Inlined(c, e, k))
  {
    assert NULL_PC !in Pcs(c, k);
  }

  lemma KernelGoes(c: Cfg, e: Pc, k: Kernel, pc: Pc, q: Pc)
    requires Apart(c, k) && e in c.succ && pc in Pcs(c, k) && pc !in c.succ && q in GoesTo(c, e, k, pc)
    ensures Goes(Whole(c, e, k), pc, [], q, FramesAt(c, k, q))
  {
    var g := Whole(c, e, k);
    assert g.succ[pc] == SuccOf(c, k, pc);
    if pc == k.call {
      assert q == e && [] + [pc] == [k.call];
    } else {
      assert q in g.succ[pc] && q !in c.succ;
    }
  }

  lemma InnerGoes(c: Cfg, e: Pc, k: Kernel, pc: Pc, q: Pc)
    requires Apart(c, k) && WellFormed(c) && pc in c.succ && q in GoesTo(c, e, k, pc)
    ensures pc in Pcs(c, k) && Goes(Whole(c, e, k), pc, [k.call], q, FramesAt(c, k, q))
  {
    var g := Whole(c, e, k);
    assert pc in Pcs(c, k) && k.call in Pcs(c, k);
    assert g.succ[pc] == c.succ[pc] && g.succ[k.call] == {k.end};
    if q in c.succ[pc] {
      assert q in c.succ;
    } else {
      assert q == k.end && Last([k.call]) == k.call && Front([k.call]) == [];
    }
  }

  lemma CallingMoves(c: Cfg, e: Pc, k: Kernel, l: Walker)
    requires Fits(c, e, k)
    ensures Moves(Calling(c, e, k), Whole(c, e, k), FramesIn(c, e, k), l)
  {
    var gi := Inlined(c, e, k);
    CallingWalks(c, e, k);
    if !l.done && ExitPath(gi, l.plan) && |l.plan| > 1 {
      var pc, q := l.plan[0], l.plan[1];
      HeadsOn(gi, l, pc, q);
      assert gi.succ[pc] == GoesTo(c, e, k, pc);
      if pc in c.succ {
        InnerGoes(c, e, k, pc, q);
      } else {
        KernelGoes(c, e, k, pc, q);
      }
    }
  }

  lemma ForkReconverges(c: Cfg, e: Pc, k: Kernel)
    requires Fits(c, e, k)
    ensures ImmediatePostDom(Whole(c, e, k), k.end, k.fork)
  {
    var g := Whole(c, e, k);
    forall path | ExitPathFrom(g, k.fork, path) ensures k.end in path {
      assert path[1] == k.call || path[1] == k.end;
      if path[1] == k.call {
        assert ExitPathFrom(g, k.call, path[1..]);
        assert path[1..][1] == path[2] == k.end;
      }
    }
    assert ExitPathFrom(g, k.end, [k.end]);
    PathStep(g, k.fork, k.end, [k.end]);
    forall s | StrictPostDom(g, s, k.fork) ensures PostDom(g, s, k.end) {
      assert s in [k.fork] + [k.end];
    }
  }

  lemma CallingFits(c: Cfg, e: Pc, k: Kernel, pc: Pc)
    requires Fits(c, e, k) && pc in Whole(c, e, k).succ
    ensures InstFits(c, e, k, InstAt(c, k, pc), pc)
  {
    var g := Whole(c, e, k);
    WholeHolds(c, e, k);
    ForkReconverges(c, e, k);
    OnlyInside(c, e, k, pc);
    if pc in c.succ && !Loose(c, pc) {
      var r := ReconvergenceExists(c, pc);
      SameReconvergence(g, c, RecvgOf(c, pc), pc);
      SameLoose(g, c, pc);
    }
  }

  lemma OnlyInside(c: Cfg, e: Pc, k: Kernel, pc: Pc)
    requires Fits(c, e, k)
    ensures Inner(Whole(c, e, k), pc) ==> pc in c.succ
  {
    var g := Whole(c, e, k);
    WholeHolds(c, e, k);
    if Inner(g, pc) {
      var x :| x in g.calls && Leads(g, g.calls[x], pc);
      var way :| IsWay(g, e, pc, way);
      StaysIn(g, c, way);
    }
  }

  lemma CallingObeys(c: Cfg, e: Pc, k: Kernel)
    requires Fits(c, e, k)
    ensures Obeys(Calling(c, e, k), c, e, k, FramesIn(c, e, k))
  {
    var p, g := Calling(c, e, k), Whole(c, e, k);
    forall l: Walker ensures Moves(p, g, FramesIn(c, e, k), l) {
      CallingMoves(c, e, k, l);
    }
    forall pc | pc in g.succ ensures InstFits(c, e, k, p.inst(pc), pc) {
      CallingFits(c, e, k, pc);
    }
  }

  // ---------- two lanes call the function ----------

  /** The lanes that call. */
  const PAIR: Mask := {0, 1}

  /** What is below the CALL entry. */
  function Under(k: Kernel): (s: seq<Entry>) {
    [Entry(k.end, 1, ALL, NULL_PC, 0, Normal), Branch(k.call, PAIR, k.end)]
  }

  function CallEntry(pc: Pc): (e: Entry) {
    Entry(pc, 0, PAIR, NULL_PC, 0, Call)
  }

  /** One step of an entry whose lanes have all called. */
  lemma CallStep<L>(p: Program<L>, rest: seq<Entry>, top: Entry, lanes: seq<L>, lanes': seq<L>, n: Pc)
    requires top.mask != {} && MaskFits(top.mask, |lanes|) && n != NULL_PC && lanes' == Execute(p, top, lanes)
    requires p.inst(top.pc).pc == top.pc && p.inst(top.pc).op.CallOps?
    requires forall i :: i in top.mask ==> !p.isDone(lanes'[i]) && p.pcOf(lanes'[i]) == n
    ensures StepOk(p, Warp(rest + [top], lanes))
    ensures Step(p, Warp(rest + [top], lanes), 0)
         == Warp(rest + [top] + [Entry(n, 0, top.mask, NULL_PC, 0, Call)], lanes')
  {
    var s, inst, done, next := rest + [top], p.inst(top.pc), DoneMask(p, lanes'), NextPcs(p, lanes');
    assert Last(s) == top && Front(s) == rest && top.mask - done == top.mask;
    OneTarget(top.mask, next, n);
    StepIs(p, s, lanes, lanes', done, next, inst);
  }

  /** `g` holds the kernel, with the function called at its first pc `e`, and ends at its end. */
  ghost predicate HasKernel(g: Cfg, e: Pc, k: Kernel) {
    && k.fork in g.succ && g.succ[k.fork] == {k.call, k.end} && k.call in g.succ && g.succ[k.call] == {e}
    && k.end in g.succ && g.succ[k.end] == {} && k.end in g.exits && g.beyond == k.end
    && k.fork != NULL_PC && k.end != NULL_PC && k.call != k.end
  }

  /** A program whose lanes walk through it. */
  ghost predicate RunsKernel(p: Program<Walker>, g: Cfg, e: Pc, k: Kernel) {
    && HasKernel(g, e, k) && Walks(p, g)
    && p.inst(k.fork) == Inst(k.fork, OtherOps, 1, k.end) && p.inst(k.call).op.CallOps?
  }

  lemma CallingRuns(c: Cfg, e: Pc, k: Kernel)
    requires Fits(c, e, k)
    ensures RunsKernel(Calling(c, e, k), Inlined(c, e, k), e, k)
  {
    CallingWalks(c, e, k);
    assert k.end in Pcs(c, k) && k.call in Pcs(c, k) && k.fork in Pcs(c, k);
  }

  /** The lanes at the launch: lane 2 goes right to the end, and the others call and go on as `plans` say. */
  ghost predicate AtLaunch(k: Kernel, lanes: seq<Walker>, plans: seq<seq<Pc>>) {
    && |lanes| == 3 && |plans| == 3 && lanes[2] == Walker([k.fork] + [k.end], false)
    && forall i :: i in PAIR ==> lanes[i] == Walker([k.fork] + ([k.call] + plans[i]), false)
  }

  /** ... after the branch of the kernel ... */
  ghost predicate AtCall(k: Kernel, lanes: seq<Walker>, plans: seq<seq<Pc>>) {
    && |lanes| == 3 && |plans| == 3 && lanes[2] == Walker([k.end], false)
    && forall i :: i in PAIR ==> lanes[i] == Walker([k.call] + plans[i], false)
  }

  /** ... and inside the function. */
  ghost predicate AtEntry(k: Kernel, lanes: seq<Walker>, plans: seq<seq<Pc>>) {
    && |lanes| == 3 && |plans| == 3 && lanes[2] == Walker([k.end], false)
    && forall i :: i in PAIR ==> lanes[i] == Walker(plans[i], false)
  }

  ghost predicate PlansOk(g: Cfg, e: Pc, plans: seq<seq<Pc>>) {
    |plans| == 3 && forall i :: i in PAIR ==> ExitPathFrom(g, e, plans[i])
  }

  lemma PairFits()
    ensures PAIR != {} && MaskFits(PAIR, 3) && 0 in PAIR && 1 in PAIR && 2 !in PAIR
  {
  }

  lemma KernelPaths(g: Cfg, e: Pc, k: Kernel, plan: seq<Pc>)
    requires HasKernel(g, e, k) && ExitPathFrom(g, e, plan)
    ensures Heads(g, Walker([k.call] + plan, false), k.call, e)
    ensures Heads(g, Walker([k.fork] + ([k.call] + plan), false), k.fork, k.call)
  {
    PathStep(g, k.call, e, plan);
    PathStep(g, k.fork, k.call, [k.call] + plan);
  }

  /** At the branch of the kernel two lanes go to the call, and the third to the end. */
  ghost predicate AtFork(g: Cfg, k: Kernel, lanes: seq<Walker>) {
    && |lanes| == 3 && Heads(g, lanes[0], k.fork, k.call) && Heads(g, lanes[1], k.fork, k.call)
    && Heads(g, lanes[2], k.fork, k.end)
  }

  lemma LaunchHeads(g: Cfg, e: Pc, k: Kernel, lanes: seq<Walker>, plans: seq<seq<Pc>>)
    requires HasKernel(g, e, k) && AtLaunch(k, lanes, plans) && PlansOk(g, e, plans)
    ensures AtFork(g, k, lanes)
  {
    PairFits();
    assert ExitPathFrom(g, k.end, [k.end]);
    PathStep(g, k.fork, k.end, [k.end]);
    KernelPaths(g, e, k, plans[0]);
    KernelPaths(g, e, k, plans[1]);
  }

  lemma LaunchHere(p: Program<Walker>, g: Cfg, k: Kernel, lanes: seq<Walker>)
    requires Walks(p, g) && AtFork(g, k, lanes)
    ensures Reached(p, k.fork, ALL, Warp([] + [Entry(k.fork, 1, ALL, NULL_PC, 0, Normal)], lanes))
  {
    var w := Warp([] + [Entry(k.fork, 1, ALL, NULL_PC, 0, Normal)], lanes);
    AllFit();
    forall i | i in ALL ensures !lanes[i].done && PcOf(g, lanes[i]) == k.fork {
    }
    assert w.stack == [Entry(k.fork, 1, ALL, NULL_PC, 0, Normal)];
    assert IsLaunch(p, w, k.fork, ALL);
    assert IsRun(p, [w], Zero, k.fork, ALL);
  }

  lemma ForkTargets(next: seq<Pc>, u: Pc, v: Pc)
    requires |next| == 3 && u != v && next[0] == u && next[1] == u && next[2] == v
    ensures MaskFits(ALL, |next|) && Targets(ALL, next) == {u, v}
    ensures Group(ALL, next, u) == PAIR && Group(ALL, next, v) == {2}
  {
    AllFit();
    assert next[0] in Targets(ALL, next) && next[2] in Targets(ALL, next);
  }

  lemma ForkNext(p: Program<Walker>, g: Cfg, k: Kernel, top: Entry, lanes: seq<Walker>)
    requires Walks(p, g) && AtFork(g, k, lanes) && top.mask == ALL
    ensures var lanes' := Execute(p, top, lanes);
            var next := NextPcs(p, lanes');
            && lanes' == Stepped(lanes, ALL) && ALL - DoneMask(p, lanes') == ALL
            && next[0] == k.call && next[1] == k.call && next[2] == k.end && k.call != NULL_PC && k.end != NULL_PC
  {
    AllFit();
    assert !lanes[0].done && !lanes[1].done && !lanes[2].done;
    Executed(p, g, top, lanes);
    HeadsOn(g, lanes[0], k.fork, k.call);
    HeadsOn(g, lanes[1], k.fork, k.call);
    HeadsOn(g, lanes[2], k.fork, k.end);
  }

  lemma ForkSplits(p: Program<Walker>, g: Cfg, k: Kernel, top: Entry, lanes: seq<Walker>)
    requires Walks(p, g) && AtFork(g, k, lanes) && top.mask == ALL && k.call != k.end
    ensures MaskFits(ALL, |lanes|) && Splits(p, top, lanes, k.call, PAIR, k.end, {2})
  {
    ForkNext(p, g, k, top, lanes);
    ForkTargets(NextPcs(p, Execute(p, top, lanes)), k.call, k.end);
  }

  lemma ForkStack(g: Cfg, k: Kernel, s: seq<Entry>)
    requires g.beyond == k.end != k.call
    requires Parted(g, [], Entry(k.fork, 1, ALL, NULL_PC, 0, Normal), s, k.call, PAIR, k.end, {2})
    ensures s == Under(k)
  {
  }

  /** The branch of the kernel. */
  lemma ForkTaken(p: Program<Walker>, g: Cfg, e: Pc, k: Kernel, lanes: seq<Walker>)
    requires RunsKernel(p, g, e, k) && AtFork(g, k, lanes)
    ensures Reached(p, k.fork, ALL, Warp(Under(k), Stepped(lanes, ALL)))
  {
    var top := Entry(k.fork, 1, ALL, NULL_PC, 0, Normal);
    LaunchHere(p, g, k, lanes);
    ForkNext(p, g, k, top, lanes);
    ForkSplits(p, g, k, top, lanes);
    AllFit();
    var w := BranchTaken(p, g, k.fork, ALL, [], top, lanes, k.call, PAIR, k.end, {2});
    ForkStack(g, k, w.stack);
  }

  lemma AfterFork(k: Kernel, lanes: seq<Walker>, plans: seq<seq<Pc>>)
    requires AtLaunch(k, lanes, plans)
    ensures AtCall(k, Stepped(lanes, ALL), plans)
  {
    AllHolds(2);
    assert ([k.fork] + [k.end])[1..] == [k.end];
    forall i | i in PAIR ensures i in ALL && Walk(lanes[i]) == Walker([k.call] + plans[i], false) {
      AllHolds(i);
      assert ([k.fork] + ([k.call] + plans[i]))[1..] == [k.call] + plans[i];
    }
  }

  lemma AfterCall(g: Cfg, e: Pc, k: Kernel, lanes: seq<Walker>, plans: seq<seq<Pc>>)
    requires HasKernel(g, e, k) && AtCall(k, lanes, plans) && PlansOk(g, e, plans)
    ensures AtEntry(k, Stepped(lanes, PAIR), plans)
    ensures forall i :: i in PAIR ==> Heads(g, lanes[i], k.call, e)
  {
    PairFits();
    forall i | i in PAIR ensures Heads(g, lanes[i], k.call, e) && Walk(lanes[i]) == Walker(plans[i], false) {
      KernelPaths(g, e, k, plans[i]);
      assert ([k.call] + plans[i])[1..] == plans[i];
    }
  }

  /** The call. */
  lemma CallTaken(p: Program<Walker>, g: Cfg, e: Pc, k: Kernel, lanes: seq<Walker>)
    requires RunsKernel(p, g, e, k) && |lanes| == 3 && forall i :: i in PAIR ==> Heads(g, lanes[i], k.call, e)
    requires Reached(p, k.fork, ALL, Warp(Under(k), lanes))
    ensures Reached(p, k.fork, ALL, Warp(Under(k) + [CallEntry(e)], Stepped(lanes, PAIR)))
  {
    var after, base, top := Stepped(lanes, PAIR), Under(k)[0], Under(k)[1];
    PairFits();
    PairCalls(p, g, e, k, lanes);
    CallStep(p, [base], top, lanes, after, e);
    assert Under(k) == [base] + [top];
    ReachedOn(p, k.fork, ALL, Warp(Under(k), lanes));
  }

  lemma PairCalls(p: Program<Walker>, g: Cfg, e: Pc, k: Kernel, lanes: seq<Walker>)
    requires Walks(p, g) && |lanes| == 3 && forall i :: i in PAIR ==> Heads(g, lanes[i], k.call, e)
    ensures var after := Stepped(lanes, PAIR);
            && after == Execute(p, Branch(k.call, PAIR, k.end), lanes) && e != NULL_PC
            && forall i :: i in PAIR ==> !p.isDone(after[i]) && p.pcOf(after[i]) == e
  {
    PairFits();
    forall i | i in PAIR ensures Walk(lanes[i]) == Walker(lanes[i].plan[1..], false) && PcOf(g, Walk(lanes[i])) == e {
      HeadsOn(g, lanes[i], k.call, e);
    }
    HeadsOn(g, lanes[0], k.call, e);
    Executed(p, g, Branch(k.call, PAIR, k.end), lanes);
  }

  /** Two lanes are inside the function. */
  lemma EntryReached(p: Program<Walker>, g: Cfg, e: Pc, k: Kernel, plans: seq<seq<Pc>>) returns (lanes: seq<Walker>)
    requires RunsKernel(p, g, e, k) && PlansOk(g, e, plans)
    ensures Reached(p, k.fork, ALL, Warp(Under(k) + [CallEntry(e)], lanes)) && AtEntry(k, lanes, plans)
  {
    var first := [Walker([k.fork] + ([k.call] + plans[0]), false), Walker([k.fork] + ([k.call] + plans[1]), false),
                  Walker([k.fork] + [k.end], false)];
    assert AtLaunch(k, first, plans);
    LaunchHeads(g, e, k, first, plans);
    ForkTaken(p, g, e, k, first);
    AfterFork(k, first, plans);
    var second := Stepped(first, ALL);
    AfterCall(g, e, k, second, plans);
    CallTaken(p, g, e, k, second);
    lanes := Stepped(second, PAIR);
  }

  // ---------- inside the function ----------

  /** `g` holds the function, with its returns leading to the end. */
  ghost predicate HasFunction(g: Cfg, c: Cfg, k: Kernel) {
    forall pc :: pc in c.succ ==>
      pc in g.succ && pc != k.end && g.succ[pc] == c.succ[pc] + if pc in c.exits then {k.end} else {}
  }

  ghost predicate InstInside(p: Program<Walker>, c: Cfg, k: Kernel, pc: Pc) {
    && p.inst(pc).op == (if pc in c.exits then RetOps else OtherOps)
    && (Loose(c, pc) && pc !in c.exits ==> p.inst(pc) == Inst(pc, OtherOps, 1, k.end))
  }

  /** A program whose lanes walk through the kernel and the function. */
  ghost predicate RunsBoth(p: Program<Walker>, g: Cfg, c: Cfg, e: Pc, k: Kernel) {
    && RunsKernel(p, g, e, k) && HasFunction(g, c, k) && WellFormed(c)
    && forall pc :: pc in c.succ ==> InstInside(p, c, k, pc)
  }

  lemma InlinedHas(c: Cfg, e: Pc, k: Kernel)
    requires Apart(c, k)
    ensures HasFunction(Inlined(c, e, k), c, k)
  {
    assert forall pc :: pc in c.succ ==> pc in Pcs(c, k);
  }

  lemma CallingInside(c: Cfg, e: Pc, k: Kernel, pc: Pc)
    requires Apart(c, k) && pc in c.succ
    ensures InstInside(Calling(c, e, k), c, k, pc)
  {
    assert Calling(c, e, k).inst(pc) == InstAt(c, k, pc);
  }

  lemma CallingRunsBoth(c: Cfg, e: Pc, k: Kernel)
    requires Fits(c, e, k)
    ensures RunsBoth(Calling(c, e, k), Inlined(c, e, k), c, e, k)
  {
    CallingRuns(c, e, k);
    InlinedHas(c, e, k);
    forall pc | pc in c.succ ensures InstInside(Calling(c, e, k), c, k, pc) {
      CallingInside(c, e, k, pc);
    }
  }

  lemma {:induction false} WayInside(g: Cfg, c: Cfg, k: Kernel, way: seq<Pc>)
    requires HasFunction(g, c, k) && Way(c, way)
    ensures Way(g, way)
  {
    if |way| > 1 {
      WayInside(g, c, k, way[1..]);
    }
  }

  lemma {:induction false} OutInside(g: Cfg, c: Cfg, e: Pc, k: Kernel, path: seq<Pc>)
    requires HasKernel(g, e, k) && HasFunction(g, c, k) && ExitPath(c, path)
    ensures ExitPathFrom(g, path[0], path + [k.end])
  {
    if |path| == 1 {
      assert ExitPathFrom(g, k.end, [k.end]);
      PathStep(g, path[0], k.end, [k.end]);
      assert path + [k.end] == [path[0]] + [k.end];
    } else {
      OutInside(g, c, e, k, path[1..]);
      PathStep(g, path[0], path[1], path[1..] + [k.end]);
      assert path + [k.end] == [path[0]] + (path[1..] + [k.end]);
    }
  }

  /** A way out of the function and the program, with no call on it. */
  lemma OutFrom(p: Program<Walker>, g: Cfg, c: Cfg, e: Pc, k: Kernel, q: Pc) returns (out: seq<Pc>)
    requires RunsBoth(p, g, c, e, k) && q in c.succ && !p.inst(k.end).op.CallOps?
    ensures ExitPathFrom(g, q, out) && k.end in out && NoCalls(p, out)
  {
    var path :| ExitPathFrom(c, q, path);
    OutInside(g, c, e, k, path);
    out := path + [k.end];
    assert out[|path|] == k.end;
    NoCallOn(p, c, k, path);
  }

  lemma {:induction false} NoCallOn(p: Program<Walker>, c: Cfg, k: Kernel, path: seq<Pc>)
    requires ExitPath(c, path) && !p.inst(k.end).op.CallOps? && forall x :: x in c.succ ==> InstInside(p, c, k, x)
    ensures NoCalls(p, path + [k.end])
  {
    assert InstInside(p, c, k, path[0]);
    if |path| > 1 {
      NoCallOn(p, c, k, path[1..]);
      assert path + [k.end] == [path[0]] + (path[1..] + [k.end]);
    }
  }

  /** The first pc on a way that keeps the function from being called. */
  lemma {:induction false} FirstBad(c: Cfg, way: seq<Pc>) returns (first: seq<Pc>)
    requires WellFormed(c) && Way(c, way) && way[|way| - 1] in c.succ && !FineAt(c, way[|way| - 1])
    ensures Way(c, first) && first[0] == way[0]
    ensures first[|first| - 1] in c.succ && !FineAt(c, first[|first| - 1])
    ensures forall i :: 0 <= i < |first| - 1 ==> first[i] in c.succ && first[i] !in c.exits
    decreases |way|
  {
    if |way| == 1 || way[0] in c.exits {
      first := [way[0]];
    } else {
      var rest := FirstBad(c, way[1..]);
      first := [way[0]] + rest;
      assert first[1..] == rest;
    }
  }

  /** The plans of lanes that go along the way and then along their tails. */
  ghost function PlansOf(way: seq<Pc>, tails: seq<seq<Pc>>): (plans: seq<seq<Pc>>)
    requires way != [] && |tails| == 3
  {
    seq(3, i requires 0 <= i < 3 => way[..|way| - 1] + tails[i])
  }

  lemma PlansFit(g: Cfg, way: seq<Pc>, tails: seq<seq<Pc>>)
    requires Way(g, way) && PlansOk(g, way[|way| - 1], tails)
    ensures PlansOk(g, way[0], PlansOf(way, tails))
  {
    PairFits();
    forall i | i in PAIR ensures ExitPathFrom(g, way[0], PlansOf(way, tails)[i]) {
      WayThenOut(g, way, way[|way| - 1], tails[i]);
    }
  }

  lemma EntryOnWay(g: Cfg, k: Kernel, lanes: seq<Walker>, way: seq<Pc>, tails: seq<seq<Pc>>)
    requires Way(g, way) && PlansOk(g, way[|way| - 1], tails) && AtEntry(k, lanes, PlansOf(way, tails))
    ensures OnWay(g, lanes, PAIR, way, tails)
  {
    PairFits();
  }

  lemma PlainInside(p: Program<Walker>, c: Cfg, k: Kernel, top: Entry, way: seq<Pc>)
    requires forall pc :: pc in c.succ ==> InstInside(p, c, k, pc)
    requires forall i :: 0 <= i < |way| - 1 ==> way[i] in c.succ && way[i] !in c.exits
    ensures PlainWay(p, top, way)
  {
    forall i | 0 <= i < |way| - 1 ensures !IsCallOrReturn(p.inst(way[i]), top) {
      assert InstInside(p, c, k, way[i]);
    }
  }

  /** The two lanes are inside, with the way before them. */
  lemma WayReached(p: Program<Walker>, g: Cfg, e: Pc, k: Kernel, way: seq<Pc>, tails: seq<seq<Pc>>)
      returns (lanes: seq<Walker>)
    requires RunsKernel(p, g, e, k) && Way(g, way) && way[0] == e && PlansOk(g, way[|way| - 1], tails)
    ensures Reached(p, k.fork, ALL, Warp(Under(k) + [CallEntry(e)], lanes)) && OnWay(g, lanes, PAIR, way, tails)
    ensures |lanes| == 3 && lanes[2] == Walker([k.end], false)
  {
    PlansFit(g, way, tails);
    lanes := EntryReached(p, g, e, k, PlansOf(way, tails));
    EntryOnWay(g, k, lanes, way, tails);
  }

  /** The two lanes stand together at the end of the way, each with a way out of its own. */
  lemma BadReached(p: Program<Walker>, g: Cfg, c: Cfg, e: Pc, k: Kernel, way: seq<Pc>, tails: seq<seq<Pc>>)
      returns (lanes: seq<Walker>)
    requires RunsBoth(p, g, c, e, k) && Way(c, way) && way[0] == e && PlansOk(g, way[|way| - 1], tails)
    requires forall i :: 0 <= i < |way| - 1 ==> way[i] in c.succ && way[i] !in c.exits
    ensures Reached(p, k.fork, ALL, Warp(Under(k) + [CallEntry(way[|way| - 1])], lanes)) && AtEntry(k, lanes, tails)
  {
    WayInside(g, c, k, way);
    PlainInside(p, c, k, CallEntry(e), way);
    var first := WayReached(p, g, e, k, way, tails);
    PairFits();
    lanes := WalkTo(p, g, k.fork, ALL, Under(k), CallEntry(e), first, way, tails);
    StandAtEnd(g, k, first, lanes, way[|way| - 1], tails);
  }

  lemma StandAtEnd(g: Cfg, k: Kernel, first: seq<Walker>, lanes: seq<Walker>, b: Pc, tails: seq<seq<Pc>>)
    requires |tails| == 3 && OnWay(g, lanes, PAIR, [b], tails) && |first| == 3 && first[2] == Walker([k.end], false)
    requires forall i :: 0 <= i < |first| && i !in PAIR ==> lanes[i] == first[i]
    ensures AtEntry(k, lanes, tails)
  {
    PairFits();
    forall i | i in PAIR ensures lanes[i] == Walker(tails[i], false) {
      AtWaysEnd(g, lanes, PAIR, b, tails, i);
    }
  }

  // ---------- a return with a condition ----------

  lemma TwoTargets(next: seq<Pc>, u: Pc, v: Pc)
    requires |next| == 3 && u != v && next[0] == u && next[1] == v
    ensures MaskFits(PAIR, |next|) && Targets(PAIR, next) == {u, v} && |Targets(PAIR, next)| == 2
    ensures Group(PAIR, next, u) == {0} && Group(PAIR, next, v) == {1}
  {
    PairFits();
    assert next[0] in Targets(PAIR, next) && next[1] in Targets(PAIR, next);
    assert |{u, v}| == 2;
  }

  /** The two lanes head for different pcs. */
  ghost predicate PairParts(g: Cfg, lanes: seq<Walker>, b: Pc, u: Pc, v: Pc) {
    |lanes| == 3 && u != v && Heads(g, lanes[0], b, u) && Heads(g, lanes[1], b, v)
  }

  lemma PairNext(p: Program<Walker>, g: Cfg, lanes: seq<Walker>, b: Pc, u: Pc, v: Pc)
    requires Walks(p, g) && PairParts(g, lanes, b, u, v)
    ensures var lanes' := Execute(p, CallEntry(b), lanes);
            && lanes' == Stepped(lanes, PAIR) && PAIR - DoneMask(p, lanes') == PAIR
            && NextPcs(p, lanes')[0] == u && NextPcs(p, lanes')[1] == v && u != NULL_PC && v != NULL_PC
  {
    PairFits();
    Executed(p, g, CallEntry(b), lanes);
    HeadsOn(g, lanes[0], b, u);
    HeadsOn(g, lanes[1], b, v);
  }

  /** A return that only one of them takes fails an assertion of `update`. */
  lemma ReturnStuck(p: Program<Walker>, g: Cfg, k: Kernel, lanes: seq<Walker>, b: Pc, u: Pc, v: Pc)
    requires Walks(p, g) && PairParts(g, lanes, b, u, v) && p.inst(b).op.RetOps?
    ensures !StepOk(p, Warp(Under(k) + [CallEntry(b)], lanes))
  {
    var s, lanes' := Under(k) + [CallEntry(b)], Execute(p, CallEntry(b), lanes);
    assert Last(s) == CallEntry(b);
    PairNext(p, g, lanes, b, u, v);
    TwoTargets(NextPcs(p, lanes'), u, v);
  }

  lemma WaitingLives(p: Program<Walker>, g: Cfg, k: Kernel, s: seq<Entry>, lanes: seq<Walker>)
    requires Walks(p, g) && |lanes| == 3 && !lanes[2].done
    ensures 2 in Live(p, Warp(s, lanes), ALL)
  {
    AllHolds(2);
  }

  /** The lanes with these ways out part at `b`. */
  lemma TailsPart(g: Cfg, k: Kernel, lanes: seq<Walker>, tails: seq<seq<Pc>>, b: Pc, u: Pc, v: Pc)
    requires AtEntry(k, lanes, tails) && PlansOk(g, b, tails) && u != v
    requires |tails[0]| > 1 && tails[0][1] == u && |tails[1]| > 1 && tails[1][1] == v
    ensures PairParts(g, lanes, b, u, v) && lanes[0].plan == tails[0] && lanes[1].plan == tails[1]
  {
    PairFits();
  }

  lemma PairOfPlans(g: Cfg, b: Pc, x: seq<Pc>, y: seq<Pc>)
    requires ExitPathFrom(g, b, x) && ExitPathFrom(g, b, y)
    ensures PlansOk(g, b, [x, y, []])
  {
    PairFits();
  }

  /** One way out goes on at the return, the other returns. */
  lemma ReturnTails(p: Program<Walker>, g: Cfg, c: Cfg, e: Pc, k: Kernel, b: Pc) returns (q: Pc, tails: seq<seq<Pc>>)
    requires RunsBoth(p, g, c, e, k) && !p.inst(k.end).op.CallOps?
    requires b in c.succ && b in c.exits && c.succ[b] != {}
    ensures PlansOk(g, b, tails) && q != k.end
    ensures |tails[0]| > 1 && tails[0][1] == q && |tails[1]| > 1 && tails[1][1] == k.end
  {
    q :| q in c.succ[b];
    assert q in c.succ;
    var out := OutFrom(p, g, c, e, k, q);
    PathStep(g, b, q, out);
    assert ExitPathFrom(g, k.end, [k.end]);
    PathStep(g, b, k.end, [k.end]);
    tails := [[b] + out, [b] + [k.end], []];
    PairOfPlans(g, b, [b] + out, [b] + [k.end]);
  }

  lemma ReturnFails(p: Program<Walker>, g: Cfg, c: Cfg, e: Pc, k: Kernel, way: seq<Pc>) returns (w: Warp<Walker>)
    requires RunsBoth(p, g, c, e, k) && Way(c, way) && way[0] == e && !p.inst(k.end).op.CallOps?
    requires forall i :: 0 <= i < |way| - 1 ==> way[i] in c.succ && way[i] !in c.exits
    requires var b := way[|way| - 1]; b in c.succ && b in c.exits && c.succ[b] != {}
    ensures Reached(p, k.fork, ALL, w) && !Healthy(p, w, ALL)
  {
    var b := way[|way| - 1];
    var q, tails := ReturnTails(p, g, c, e, k, b);
    var lanes := BadReached(p, g, c, e, k, way, tails);
    TailsPart(g, k, lanes, tails, b, q, k.end);
    assert InstInside(p, c, k, b);
    ReturnStuck(p, g, k, lanes, b, q, k.end);
    w := Warp(Under(k) + [CallEntry(b)], lanes);
    WaitingLives(p, g, k, w.stack, lanes);
  }

  // ---------- a branch that does not reconverge inside ----------

  lemma PairSplits(p: Program<Walker>, g: Cfg, lanes: seq<Walker>, b: Pc, u: Pc, v: Pc)
    requires Walks(p, g) && PairParts(g, lanes, b, u, v)
    ensures MaskFits(PAIR, |lanes|) && Splits(p, CallEntry(b), lanes, u, {0}, v, {1})
  {
    PairNext(p, g, lanes, b, u, v);
    TwoTargets(NextPcs(p, Execute(p, CallEntry(b), lanes)), u, v);
  }

  /** The two lanes go different ways out of the function, and both come to the return pc. */
  lemma BothReturn(p: Program<Walker>, g: Cfg, e: Pc, k: Kernel, lanes: seq<Walker>, b: Pc, u: Pc, uOut: seq<Pc>, v: Pc,
                   vOut: seq<Pc>)
      returns (after: seq<Walker>)
    requires RunsKernel(p, g, e, k) && Reached(p, k.fork, ALL, Warp(Under(k) + [CallEntry(b)], lanes))
    requires PairParts(g, lanes, b, u, v) && p.inst(b) == Inst(b, OtherOps, 1, k.end)
    requires lanes[0].plan[1..] == uOut && lanes[1].plan[1..] == vOut
    requires k.end in uOut && k.end in vOut && NoCalls(p, uOut) && NoCalls(p, vOut)
    ensures |after| == 3 && after[2] == lanes[2] && Played(g, after[0], uOut) && Played(g, after[1], vOut)
    ensures Reached(p, k.fork, ALL, Warp(Under(k) + [CallEntry(k.end)], after))
  {
    PairFits();
    PairSplits(p, g, lanes, b, u, v);
    PairNext(p, g, lanes, b, u, v);
    var w := BranchTaken(p, g, k.fork, ALL, Under(k), CallEntry(b), lanes, u, {0}, v, {1});
    PairTogether(p, g, lanes, b, u, v);
    after := EitherPlayed(p, g, k.fork, ALL, Under(k), CallEntry(b), w, u, {0}, uOut, v, {1}, vOut);
  }

  lemma PairTogether(p: Program<Walker>, g: Cfg, lanes: seq<Walker>, b: Pc, u: Pc, v: Pc)
    requires Walks(p, g) && PairParts(g, lanes, b, u, v)
    ensures Together(g, Stepped(lanes, PAIR), {0}, lanes[0].plan[1..]) && lanes[0].plan[1..][0] == u
    ensures Together(g, Stepped(lanes, PAIR), {1}, lanes[1].plan[1..]) && lanes[1].plan[1..][0] == v
  {
    PairFits();
    HeadsOn(g, lanes[0], b, u);
    HeadsOn(g, lanes[1], b, v);
  }

  /** A lane at the end has nowhere to go. */
  lemma AtEnd(g: Cfg, e: Pc, k: Kernel, l: Walker, plan: seq<Pc>)
    requires HasKernel(g, e, k) && Played(g, l, plan) && k.end in plan
    ensures l == Walker([k.end], false)
  {
    assert ExitPath(g, l.plan) && l.plan[0] == k.end;
    assert l.plan == [k.end];
  }

  /** They finish in the CALL entry, and what called is executed again. */
  lemma FinishInside(p: Program<Walker>, g: Cfg, e: Pc, k: Kernel, lanes: seq<Walker>) returns (w: Warp<Walker>)
    requires RunsKernel(p, g, e, k) && Reached(p, k.fork, ALL, Warp(Under(k) + [CallEntry(k.end)], lanes))
    requires |lanes| == 3 && var l := Walker([k.end], false); lanes[2] == l && lanes[0] == l && lanes[1] == l
    ensures Reached(p, k.fork, ALL, w) && !NoneFinished(p, w, ALL)
  {
    PairFits();
    assert ExitPath(g, [k.end]);
    TogetherEnd(p, g, Under(k), CallEntry(k.end), lanes, [k.end]);
    ReachedOn(p, k.fork, ALL, Warp(Under(k) + [CallEntry(k.end)], lanes));
    w := Warp(Under(k), Stepped(lanes, PAIR));
    FinishedBelow(p, g, k, w.lanes);
  }

  lemma FinishedBelow(p: Program<Walker>, g: Cfg, k: Kernel, lanes: seq<Walker>)
    requires Walks(p, g) && |lanes| == 3 && lanes[0].done && !lanes[2].done
    ensures !NoneFinished(p, Warp(Under(k), lanes), ALL)
  {
    var w := Warp(Under(k), lanes);
    PairFits();
    WaitingLives(p, g, k, w.stack, w.lanes);
    assert Last(w.stack).mask == PAIR && 0 in DoneMask(p, w.lanes);
  }

  /** The ways out go to different sides of the branch. */
  lemma SideTails(p: Program<Walker>, g: Cfg, c: Cfg, e: Pc, k: Kernel, b: Pc)
      returns (u: Pc, uOut: seq<Pc>, v: Pc, vOut: seq<Pc>)
    requires RunsBoth(p, g, c, e, k) && !p.inst(k.end).op.CallOps? && b in c.succ && |c.succ[b]| == 2
    ensures u != v && PlansOk(g, b, [[b] + uOut, [b] + vOut, []])
    ensures uOut != [] && uOut[0] == u && k.end in uOut && NoCalls(p, uOut)
    ensures vOut != [] && vOut[0] == v && k.end in vOut && NoCalls(p, vOut)
  {
    u :| u in c.succ[b];
    OtherMember(c.succ[b], u);
    v :| v in c.succ[b] && v != u && c.succ[b] == {u, v};
    assert u in c.succ && v in c.succ;
    uOut := OutFrom(p, g, c, e, k, u);
    vOut := OutFrom(p, g, c, e, k, v);
    PathStep(g, b, u, uOut);
    PathStep(g, b, v, vOut);
    PairOfPlans(g, b, [b] + uOut, [b] + vOut);
  }

  lemma SidesFail(p: Program<Walker>, g: Cfg, e: Pc, k: Kernel, lanes: seq<Walker>, b: Pc, u: Pc, uOut: seq<Pc>, v: Pc,
                  vOut: seq<Pc>)
      returns (w: Warp<Walker>)
    requires RunsKernel(p, g, e, k) && Reached(p, k.fork, ALL, Warp(Under(k) + [CallEntry(b)], lanes))
    requires PairParts(g, lanes, b, u, v) && p.inst(b) == Inst(b, OtherOps, 1, k.end)
    requires lanes[0].plan == [b] + uOut && lanes[1].plan == [b] + vOut && lanes[2] == Walker([k.end], false)
    requires k.end in uOut && k.end in vOut && NoCalls(p, uOut) && NoCalls(p, vOut)
    ensures Reached(p, k.fork, ALL, w) && !NoneFinished(p, w, ALL)
  {
    assert ([b] + uOut)[1..] == uOut && ([b] + vOut)[1..] == vOut;
    var after := BothReturn(p, g, e, k, lanes, b, u, uOut, v, vOut);
    AtEnd(g, e, k, after[0], uOut);
    AtEnd(g, e, k, after[1], vOut);
    w := FinishInside(p, g, e, k, after);
  }

  lemma BranchFailsInside(p: Program<Walker>, g: Cfg, c: Cfg, e: Pc, k: Kernel, way: seq<Pc>) returns (w: Warp<Walker>)
    requires RunsBoth(p, g, c, e, k) && Way(c, way) && way[0] == e && !p.inst(k.end).op.CallOps?
    requires forall i :: 0 <= i < |way| - 1 ==> way[i] in c.succ && way[i] !in c.exits
    requires var b := way[|way| - 1]; b in c.succ && b !in c.exits && |c.succ[b]| == 2 && Loose(c, b)
    ensures Reached(p, k.fork, ALL, w) && !Healthy(p, w, ALL)
  {
    var b := way[|way| - 1];
    var u, uOut, v, vOut := SideTails(p, g, c, e, k, b);
    var tails := [[b] + uOut, [b] + vOut, []];
    var lanes := BadReached(p, g, c, e, k, way, tails);
    TailsPart(g, k, lanes, tails, b, u, v);
    assert InstInside(p, c, k, b);
    w := SidesFail(p, g, e, k, lanes, b, u, uOut, v, vOut);
  }

  // ---------- the theorem ----------

  lemma EitherFails(p: Program<Walker>, g: Cfg, c: Cfg, e: Pc, k: Kernel, path: seq<Pc>, b: Pc)
      returns (w: Warp<Walker>)
    requires RunsBoth(p, g, c, e, k) && IsWay(c, e, b, path) && !p.inst(k.end).op.CallOps?
    requires b in c.succ && !FineAt(c, b)
    ensures Reached(p, k.fork, ALL, w) && !Healthy(p, w, ALL)
  {
    var way := FirstBad(c, path);
    if way[|way| - 1] in c.exits && c.succ[way[|way| - 1]] != {} {
      w := ReturnFails(p, g, c, e, k, way);
    } else {
      w := BranchFailsInside(p, g, c, e, k, way);
    }
  }

  /** Necessity: a function that is not callable makes some run fail. */
  lemma UncallableFails(c: Cfg, e: Pc, k: Kernel, b: Pc) returns (w: Warp<Walker>)
    requires Fits(c, e, k) && b in c.succ && !FineAt(c, b)
    ensures Reached(Calling(c, e, k), k.fork, ALL, w) && !Healthy(Calling(c, e, k), w, ALL)
  {
    CallingRunsBoth(c, e, k);
    assert Leads(c, e, b);
    var path :| IsWay(c, e, b, path);
    assert Calling(c, e, k).inst(k.end) == InstAt(c, k, k.end);
    w := EitherFails(Calling(c, e, k), Inlined(c, e, k), c, e, k, path, b);
  }

  lemma CallingStarts(c: Cfg, e: Pc, k: Kernel, w: Warp<Walker>, launched: Mask)
    requires Fits(c, e, k) && IsLaunch(Calling(c, e, k), w, k.fork, launched)
    ensures Starts(Calling(c, e, k), Whole(c, e, k), FramesIn(c, e, k), w, k.fork, launched)
  {
    assert k.fork in Pcs(c, k);
    forall i | i in launched ensures FramesIn(c, e, k)(w.lanes[i]) == [] {
      assert Calling(c, e, k).pcOf(w.lanes[i]) == k.fork;
    }
  }

  lemma UnhealthyRun(c: Cfg, e: Pc, k: Kernel, b: Pc)
      returns (p: Program<Walker>, frames: Walker -> seq<Pc>, ws: seq<Warp<Walker>>)
    requires Fits(c, e, k) && b in c.succ && !FineAt(c, b)
    ensures ws != [] && !HealthyAt(p, c, e, k, frames, ws, Zero, ALL, |ws| - 1)
  {
    p, frames := Calling(c, e, k), FramesIn(c, e, k);
    var w := UncallableFails(c, e, k, b);
    CallingObeys(c, e, k);
    ws :| IsRun(p, ws, Zero, k.fork, ALL) && ws[|ws| - 1] == w;
    CallingStarts(c, e, k, ws[0], ALL);
  }

  /** However its lanes are launched and whatever they do, no program of the kernel and the function ever gets stuck or
      executes a finished lane while a lane is live. */
  ghost predicate AlwaysHealthy(c: Cfg, e: Pc, k: Kernel) {
    forall p: Program<Walker>, frames: Walker -> seq<Pc>, ws: seq<Warp<Walker>>, cycles: nat -> nat, launched: Mask,
      n: nat :: HealthyAt(p, c, e, k, frames, ws, cycles, launched, n)
  }

  lemma UncallableIsNot(c: Cfg, e: Pc, k: Kernel, b: Pc)
    requires Fits(c, e, k) && b in c.succ && !FineAt(c, b)
    ensures !AlwaysHealthy(c, e, k)
  {
    var p, frames, ws := UnhealthyRun(c, e, k, b);
  }

  lemma CallableAlways(c: Cfg, e: Pc, k: Kernel)
    requires Fits(c, e, k) && Callable(c)
    ensures AlwaysHealthy(c, e, k)
  {
    forall p: Program<Walker>, frames: Walker -> seq<Pc>, ws: seq<Warp<Walker>>, cycles: nat -> nat, launched: Mask,
      n: nat ensures HealthyAt(p, c, e, k, frames, ws, cycles, launched, n)
    {
      CallableIsHealthy(p, c, e, k, frames, ws, cycles, launched, n);
    }
  }

  /** The iff: that is so if and only if all branches of the function reconverge inside and it returns without a
      condition. */
  lemma CallableExactly(c: Cfg, e: Pc, k: Kernel)
    requires Fits(c, e, k)
    ensures Callable(c) <==> AlwaysHealthy(c, e, k)
  {
    if Callable(c) {
      CallableAlways(c, e, k);
    } else {
      var b :| b in c.succ && !FineAt(c, b);
      UncallableIsNot(c, e, k, b);
    }
  }
}
