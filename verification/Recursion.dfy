/** A program with a recursive function in which every lane recurses as deep as it likes. It follows its graph, so the
    theorems on runs and termination apply to it. */
module Recursion {
  import opened Basics
  import opened SimtStack
  import opened SimtLanes
  import opened SimtRun
  import opened PostDominance

  /** The kernel calls at 0 and ends at 1; the function branches at 2, calls itself at 3 and returns at 4. */
  const GRAPH: Cfg := Cfg(map[0 := {1}, 1 := {}, 2 := {3, 4}, 3 := {4}, 4 := {}], {1, 4}, NULL_PC, map[0 := 2, 3 := 2])

  datatype Lane = Lane(pc: Pc, frames: seq<Pc>, depth: nat, done: bool)

  function Run(pc: Pc, l: Lane): (r: Lane) {
    if pc == 0 || pc == 3 then l.(pc := 2, frames := l.frames + [pc])
    else if pc == 2 then if l.depth == 0 then l.(pc := 4) else l.(pc := 3, depth := l.depth - 1)
    else if l.frames == [] then l.(done := true)
    else l.(pc := if l.frames[|l.frames| - 1] == 0 then 1 else 4, frames := l.frames[..|l.frames| - 1])
  }

  function InstAt(pc: Pc): (inst: Inst) {
    Inst(pc, if pc == 0 || pc == 3 then CallOps else if pc == 1 || pc == 4 then RetOps else OtherOps, 1, 4)
  }

  const PROGRAM: Program<Lane> := Program(Run, (l: Lane) => l.pc, (l: Lane) => l.done, InstAt)

  function FramesOf(l: Lane): (f: seq<Pc>) {
    l.frames
  }

  lemma ThroughFour(path: seq<Pc>)
    requires ExitPathFrom(GRAPH, 2, path)
    ensures 4 in path
  {
    var rest := path[1..];
    assert path[1] == 3 || path[1] == 4;
    assert ExitPath(GRAPH, rest) && rest[0] == path[1];
    if path[1] == 3 {
      assert 3 !in GRAPH.exits;
      assert rest[1] in GRAPH.succ[3];
      assert rest[1] == path[2];
    }
  }

  /** The branch reconverges at the return. */
  lemma BranchAtReturn()
    ensures ImmediatePostDom(GRAPH, 4, 2)
  {
    forall path | ExitPathFrom(GRAPH, 2, path) ensures 4 in path {
      ThroughFour(path);
    }
    WaysOut();
    forall s | StrictPostDom(GRAPH, s, 2) ensures PostDom(GRAPH, s, 4) {
      assert s in [2, 4];
    }
  }

  lemma WaysOut()
    ensures ExitPathFrom(GRAPH, 0, [0, 1]) && ExitPathFrom(GRAPH, 1, [1]) && ExitPathFrom(GRAPH, 2, [2, 4])
    ensures ExitPathFrom(GRAPH, 3, [3, 4]) && ExitPathFrom(GRAPH, 4, [4])
  {
    assert [0, 1][1..] == [1] && [2, 4][1..] == [4] && [3, 4][1..] == [4];
    assert ExitPath(GRAPH, [1]) && ExitPath(GRAPH, [4]);
  }

  lemma NodeOk(pc: Pc)
    requires pc in GRAPH.succ
    ensures |GRAPH.succ[pc]| <= 2 && !Returns(GRAPH, 0, pc) && exists path :: ExitPathFrom(GRAPH, pc, path)
  {
    WaysOut();
    BranchAtReturn();
    NotLoose(GRAPH, 4, 2);
    assert pc == 0 || pc == 1 || pc == 2 || pc == 3 || pc == 4;
    assert |{3, 4}| == 2 && |{1}| == 1 && |{4}| == 1;
  }

  lemma GraphOk()
    ensures WellFormed(GRAPH) && Safe(GRAPH, 0)
  {
    forall pc | pc in GRAPH.succ
      ensures |GRAPH.succ[pc]| <= 2 && !Returns(GRAPH, 0, pc) && exists path :: ExitPathFrom(GRAPH, pc, path)
    {
      NodeOk(pc);
    }
    forall b ensures !Returns(GRAPH, 0, b) {
      assert b in GRAPH.succ || !Returns(GRAPH, 0, b);
    }
  }

  lemma CallsFit()
    ensures CallsOk(GRAPH)
  {
    BranchAtReturn();
    NotLoose(GRAPH, 4, 2);
    assert |{1}| == 1 && |{4}| == 1;
    forall pc | pc in GRAPH.succ ensures InnerOk(GRAPH, pc) {
      assert pc == 0 || pc == 1 || pc == 2 || pc == 3 || pc == 4;
    }
  }

  lemma TableFits(pc: Pc)
    requires pc in GRAPH.succ
    ensures TableOk(PROGRAM, GRAPH, pc)
  {
    BranchAtReturn();
    assert pc == 0 || pc == 1 || pc == 2 || pc == 3 || pc == 4;
    assert |{1}| == 1 && |{4}| == 1;
  }

  lemma LaneFits(l: Lane)
    ensures Moves(PROGRAM, GRAPH, FramesOf, l)
  {
  }

  /** The program follows its graph, and the graph is safe. */
  lemma RecursionFollows()
    ensures Follows(PROGRAM, GRAPH, FramesOf) && Safe(GRAPH, 0)
  {
    GraphOk();
    CallsFit();
    forall pc | pc in GRAPH.succ ensures TableOk(PROGRAM, GRAPH, pc) {
      TableFits(pc);
    }
    forall l: Lane ensures Moves(PROGRAM, GRAPH, FramesOf, l) {
      LaneFits(l);
    }
  }
}
