/** A warp whose lanes would all halt on their own also halts in lockstep, with every lane in the state its
    own run ends in. */
module SimtTermination {
  import opened Basics
  import opened SimtStack
  import opened SimtLanes
  import opened SimtRun
  import opened PostDominance

  /** Running `n` steps is one step and then `n - 1` steps. */
  lemma {:induction false} OwnRunFirst<L>(p: Program<L>, l: L, n: nat)
    requires n > 0
    ensures OwnRun(p, l, n) == OwnRun(p, OwnStep(p, l), n - 1)
  {
    if n > 1 {
      OwnRunFirst(p, l, n - 1);
    }
  }

  lemma {:induction false} OwnRunDone<L>(p: Program<L>, l: L, n: nat)
    requires p.isDone(l)
    ensures OwnRun(p, l, n) == l
  {
    if n > 0 {
      OwnRunDone(p, l, n - 1);
    }
  }

  /** How many of its own steps each lane still has, after the lanes of the top entry have run. */
  ghost function Spent<L>(p: Program<L>, w: Warp<L>, left: seq<nat>): (r: seq<nat>)
    requires |left| == |w.lanes|
    ensures |r| == |left|
    ensures forall i :: 0 <= i < |r| ==> r[i] == if Runs(p, w, i) && left[i] > 0 then left[i] - 1 else left[i]
  {
    seq(|left|, i requires 0 <= i < |left| => if Runs(p, w, i) && left[i] > 0 then left[i] - 1 else left[i])
  }

  /** Each launched lane, run alone for its remaining steps, is done. */
  ghost predicate Halting<L>(p: Program<L>, lanes: seq<L>, left: seq<nat>, launched: Mask) {
    && |left| == |lanes| && MaskFits(launched, |lanes|)
    && forall i :: i in launched ==> p.isDone(OwnRun(p, lanes[i], left[i]))
  }

  /** Every step drops the pair (remaining own steps of all lanes, stack depth) lexicographically and leaves
      the outcome of every lane's own run unchanged. */
  lemma StepDrops<L>(p: Program<L>, w: Warp<L>, cycle: nat, launched: Mask, left: seq<nat>)
    requires Inv(p, w, launched) && StepOk(p, w) && Halting(p, w.lanes, left, launched)
    ensures var w', left' := Step(p, w, cycle), Spent(p, w, left);
            && Halting(p, w'.lanes, left', launched)
            && (forall i :: i in launched ==> OwnRun(p, w'.lanes[i], left'[i]) == OwnRun(p, w.lanes[i], left[i]))
            && (Sum(left') < Sum(left) || (Sum(left') == Sum(left) && |w'.stack| < |w.stack|))
  {
    var w', left' := Step(p, w, cycle), Spent(p, w, left);
    forall i | i in launched ensures OwnRun(p, w'.lanes[i], left'[i]) == OwnRun(p, w.lanes[i], left[i]) {
      LaneMoves(p, w, cycle, launched, i);
      if Runs(p, w, i) {
        OwnRunFirst(p, w.lanes[i], left[i]);
      }
    }
    SumDrops(left', left);
    var top := Last(w.stack);
    assert top in w.stack;
    if i :| i in top.mask && Runs(p, w, i) {
      assert left'[i] < left[i];
    } else {
      forall i | i in top.mask ensures i in DoneMask(p, w'.lanes) {
        assert !Runs(p, w, i);
      }
      assert top.mask - DoneMask(p, w'.lanes) == {};
      assert left' == left;
    }
  }

  /** One round of the driver: fetch, execute, update the stack. */
  method StepWarp<L>(p: Program<L>, stack: Stack, lanes: seq<L>, cycle: nat) returns (r: seq<L>)
    requires stack.Valid() && |lanes| == stack.warpSize && StepOk(p, Warp(stack.entries, lanes))
    modifies stack
    ensures stack.Valid()
    ensures Warp(stack.entries, r) == Step(p, Warp(old(stack.entries), lanes), cycle)
  {
    var top := stack.entries[|stack.entries| - 1];
    r := Execute(p, top, lanes);
    stack.Update(DoneMask(p, r), NextPcs(p, r), p.inst(top.pc), cycle);
  }

  /** A warp on its way from `start`: its invariant holds, and its lanes have the outcome they started with. */
  ghost predicate Underway<L>(p: Program<L>, g: Cfg, frames: L -> seq<Pc>, pc: Pc, w: Warp<L>, left: seq<nat>,
                              start: seq<L>, budget: seq<nat>, launched: Mask) {
    && |w.lanes| == |start| && CfgInv(p, g, frames, pc, w, launched)
    && Halting(p, start, budget, launched) && Halting(p, w.lanes, left, launched)
    && (forall i :: i in launched ==> OwnRun(p, w.lanes[i], left[i]) == OwnRun(p, start[i], budget[i]))
    && forall i :: 0 <= i < |start| && i !in launched ==> w.lanes[i] == start[i]
  }

  lemma StaysUnderway<L(!new)>(p: Program<L>, g: Cfg, frames: L -> seq<Pc>, pc: Pc, w: Warp<L>, cycle: nat,
                               left: seq<nat>, start: seq<L>, budget: seq<nat>, launched: Mask)
    requires Follows(p, g, frames) && Safe(g, pc)
    requires Underway(p, g, frames, pc, w, left, start, budget, launched) && Live(p, w, launched) != {}
    ensures StepOk(p, w) && Underway(p, g, frames, pc, Step(p, w, cycle), Spent(p, w, left), start, budget, launched)
    ensures var w', left' := Step(p, w, cycle), Spent(p, w, left);
            Sum(left') < Sum(left) || (Sum(left') == Sum(left) && |w'.stack| < |w.stack|)
  {
    CfgStepKeepsInv(p, g, frames, pc, w, cycle, launched);
    StepDrops(p, w, cycle, launched, left);
    forall i | 0 <= i < |start| && i !in launched ensures Step(p, w, cycle).lanes[i] == start[i] {
      LaneMoves(p, w, cycle, launched, i);
    }
  }

  lemma Arrived<L>(p: Program<L>, g: Cfg, frames: L -> seq<Pc>, pc: Pc, w: Warp<L>, left: seq<nat>, start: seq<L>,
                   budget: seq<nat>, launched: Mask, i: nat)
    requires Underway(p, g, frames, pc, w, left, start, budget, launched) && Live(p, w, launched) == {} && i in launched
    ensures p.isDone(w.lanes[i]) && w.lanes[i] == OwnRun(p, start[i], budget[i])
  {
    assert i !in Live(p, w, launched);
    OwnRunDone(p, w.lanes[i], left[i]);
  }

  /** Run a warp until none of its lanes is live. Every launched lane ends in the state its own run reaches after
      `budget` steps, by which time it has halted; no other lane is touched. What is left of the stack is at most one
      entry, at the pc that stands for the end of the program. */
  method RunWarp<L(!new)>(p: Program<L>, ghost g: Cfg, ghost frames: L -> seq<Pc>, stack: Stack, start: seq<L>,
                          pc: Pc, launched: Mask, cycles: nat -> nat, ghost budget: seq<nat>)
      returns (lanes: seq<L>)
    requires Follows(p, g, frames) && Safe(g, pc) && stack.Valid() && |start| == stack.warpSize
    requires Starts(p, g, frames, Warp([Entry(pc, 1, launched, NULL_PC, 0, Normal)], start), pc, launched)
    requires Halting(p, start, budget, launched)
    modifies stack
    ensures |lanes| == |start|
    ensures forall i :: i in launched ==> p.isDone(lanes[i]) && lanes[i] == OwnRun(p, start[i], budget[i])
    ensures forall i :: 0 <= i < |start| && i !in launched ==> lanes[i] == start[i]
    ensures stack.entries == [] || (|stack.entries| == 1 && stack.entries[0].pc == g.beyond != NULL_PC)
  {
    stack.Launch(pc, launched);
    lanes := start;
    ghost var left := budget;
    var n := 0;
    LaunchCfgInv(p, g, frames, Warp(stack.entries, lanes), pc, launched);
    while launched - DoneMask(p, lanes) != {}
      invariant stack.Valid() && |lanes| == stack.warpSize
      invariant Underway(p, g, frames, pc, Warp(stack.entries, lanes), left, start, budget, launched)
      decreases Sum(left), |stack.entries|
    {
      ghost var w := Warp(stack.entries, lanes);
      assert Live(p, w, launched) != {};
      StaysUnderway(p, g, frames, pc, w, cycles(n), left, start, budget, launched);
      lanes := StepWarp(p, stack, lanes, cycles(n));
      left := Spent(p, w, left);
      n := n + 1;
    }
    ghost var w := Warp(stack.entries, lanes);
    assert Live(p, w, launched) == {};
    StackWhenDone(p, g, frames, pc, w, launched);
    forall i | i in launched ensures p.isDone(lanes[i]) && lanes[i] == OwnRun(p, start[i], budget[i]) {
      Arrived(p, g, frames, pc, w, left, start, budget, launched, i);
    }
  }
}
