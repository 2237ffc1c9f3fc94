/** A run that goes wrong at the pc that stands for the end of the program. In the function that is assembled first that
    pc, 0, is the pc of the first instruction; here a branch that nothing post-dominates jumps back to it, and a lane
    that has finished is fetched again, which the program stops on. */
module SimtRestart {
  import opened Basics
  import opened SimtStack
  import opened SimtLanes
  import opened SimtRun
  import opened PostDominance

  datatype Lane = Lane(id: nat, pc: Pc, back: bool, done: bool)

  /** 0: leave if back, else go on to 1. 1: lane 0 goes back to 0, the others go on to 2. 2: leave. */
  function Exec(pc: Pc, l: Lane): (r: Lane) {
    if pc == 0 then (if l.back then l.(done := true) else l.(pc := 1))
    else if pc == 1 then (if l.id == 0 then l.(pc := 0, back := true) else l.(pc := 2))
    else l.(done := true)
  }

  function PcOf(l: Lane): (pc: Pc) {
    l.pc
  }

  function IsDone(l: Lane): (b: bool) {
    l.done
  }

  /** The branch at 1 reconverges at 0, the return pc of the outermost frame. */
  function InstAt(pc: Pc): (i: Inst) {
    Inst(pc, OtherOps, 1, 0)
  }

  const RESTART: Program<Lane> := Program(Exec, PcOf, IsDone, InstAt)

  const GRAPH: Cfg := Cfg(map[0 := {1}, 1 := {0, 2}, 2 := {}], {0, 2}, 0, map[])

  const START: seq<Lane> := [Lane(0, 0, false, false), Lane(1, 0, false, false)]

  const AT_BRANCH: seq<Lane> := [Lane(0, 1, false, false), Lane(1, 1, false, false)]

  const SPLIT: seq<Lane> := [Lane(0, 0, true, false), Lane(1, 2, false, false)]

  const LEFT: seq<Lane> := [Lane(0, 0, true, false), Lane(1, 2, false, true)]

  const BOTH: Mask := {0, 1}

  function Base(pc: Pc): (e: Entry) {
    Entry(pc, 1, BOTH, NULL_PC, 0, Normal)
  }

  const RUN: seq<Warp<Lane>> :=
    [Warp([Base(0)], START), Warp([Base(1)], AT_BRANCH), Warp([Base(0), Branch(2, {1}, 0)], SPLIT),
        Warp([Base(0)], LEFT)]

  function Cycle(k: nat): (c: nat) {
    0
  }

  /** Nothing but the end of the program post-dominates the branch. */
  lemma NothingPostDominates(s: Pc)
    ensures !StrictPostDom(GRAPH, s, 1)
  {
    var short, back: seq<Pc> := [1, 2], [1, 0];
    assert short[1..] == [2] && back[1..] == [0];
    assert ExitPath(GRAPH, [2]) && ExitPath(GRAPH, [0]);
    assert ExitPathFrom(GRAPH, 1, short) && ExitPathFrom(GRAPH, 1, back);
  }

  lemma FirstStep()
    ensures StepOk(RESTART, RUN[0]) && Step(RESTART, RUN[0], 0) == RUN[1]
  {
    var next := NextPcs(RESTART, AT_BRANCH);
    assert Execute(RESTART, Base(0), START) == AT_BRANCH;
    assert BOTH - {} == BOTH && DoneMask(RESTART, AT_BRANCH) == {};
    assert next == [1, 1];
    assert next[0] in Targets(BOTH, next);
    assert Targets(BOTH, next) == {1};
    assert Group(BOTH, next, 1) == BOTH;
  }

  lemma SplitTargets(next: seq<Pc>)
    requires next == [0, 2]
    ensures Targets(BOTH, next) == {0, 2} && Targets(BOTH, next) - {2} == {0}
    ensures Group(BOTH, next, 2) == {1} && Group(BOTH, next, 0) == {0} && |Targets(BOTH, next)| == 2
  {
    assert next[0] in Targets(BOTH, next) && next[1] in Targets(BOTH, next);
    assert Targets(BOTH, next) == {0, 2};
  }

  lemma SplitUpdate(s: seq<Entry>, next: seq<Pc>)
    requires s == [Base(1)] && next == [0, 2]
    ensures UpdateOk(s, {}, next, InstAt(1)) && Reconverges(s, {}, next, InstAt(1))
    ensures Updated(s, {}, next, InstAt(1), 0) == [Base(0), Branch(2, {1}, 0)]
  {
    SplitTargets(next);
    assert BOTH - {} == BOTH;
    UpdatedTwo(s, {}, next, InstAt(1), 0, 2, 0);
    assert s[..0] == [];
  }

  lemma SecondStep()
    ensures StepOk(RESTART, RUN[1]) && Step(RESTART, RUN[1], 0) == RUN[2]
  {
    var next := NextPcs(RESTART, SPLIT);
    assert Execute(RESTART, Base(1), AT_BRANCH) == SPLIT;
    assert DoneMask(RESTART, SPLIT) == {};
    assert next == [0, 2];
    SplitUpdate([Base(1)], next);
  }

  lemma ThirdStep()
    ensures StepOk(RESTART, RUN[2]) && Step(RESTART, RUN[2], 0) == RUN[3]
  {
    var next := NextPcs(RESTART, LEFT);
    assert Execute(RESTART, Branch(2, {1}, 0), SPLIT) == LEFT;
    assert DoneMask(RESTART, LEFT) == {1};
    var live: Mask := {1} - {1};
    assert live == {} && Targets(live, next) == {};
  }

  lemma StepsInRun(run: seq<Warp<Lane>>, k: nat)
    requires run == RUN && k + 1 < |run|
    ensures StepsAt(RESTART, run, Cycle, k)
  {
    if k == 0 {
      FirstStep();
    } else if k == 1 {
      SecondStep();
    } else {
      ThirdStep();
    }
  }

  lemma RunIsRun(run: seq<Warp<Lane>>)
    requires run == RUN
    ensures IsRun(RESTART, run, Cycle, 0, BOTH)
  {
    forall k: nat {:trigger StepsAt(RESTART, run, Cycle, k)} | k + 1 < |run| ensures StepsAt(RESTART, run, Cycle, k) {
      StepsInRun(run, k);
    }
    assert IsLaunch(RESTART, run[0], 0, BOTH);
  }

  /** A run that obeys every assertion of `update`, with a branch that nothing post-dominates, fetches an
      instruction for a finished lane. */
  lemma FinishedLaneFetched(run: seq<Warp<Lane>>)
    requires run == RUN
    ensures IsRun(RESTART, run, Cycle, 0, BOTH)
    ensures forall s :: !StrictPostDom(GRAPH, s, 1)
    ensures 0 in Live(RESTART, run[3], BOTH) && RESTART.isDone(run[3].lanes[1]) && 1 in Last(run[3].stack).mask
  {
    RunIsRun(run);
    forall s ensures !StrictPostDom(GRAPH, s, 1) {
      NothingPostDominates(s);
    }
  }
}
