/** Exactly when finished lanes stay out of execution. A loose branch, one that only the end of the program
    post-dominates, parks the bottom entry at the pc that stands for the end, with the lanes it holds. If such a branch
    can lead to that pc, a lane can wait there beside one that has finished; if none can, that never happens. */
module EndPc {
  import opened Basics
  import opened SimtStack
  import opened SimtLanes
  import opened SimtRun
  import opened PostDominance
  import opened PostDominators
  import opened Walkers

  // ---------- a program in which every lane takes a way out of its choice ----------

  ghost function RecvgOf(g: Cfg, p: Pc): (r: Pc) {
    if r: Pc :| IsReconvergence(g, r, p) then r else NULL_PC
  }

  ghost function Walking(g: Cfg): (p: Program<Walker>) {
    WalkingBy(g, (pc: Pc) => Inst(pc, OtherOps, 1, RecvgOf(g, pc)))
  }

  lemma ReconvergenceExists(g: Cfg, p: Pc) returns (r: Pc)
    requires WellFormed(g) && p in g.succ
    ensures IsReconvergence(g, r, p)
  {
    var strict := set s | s in g.succ && StrictPostDom(g, s, p);
    forall s | StrictPostDom(g, s, p) ensures s in strict {
      StrictIsNode(g, s, p);
    }
    if strict == {} {
      r := g.beyond;
    } else {
      var path :| ExitPathFrom(g, p, path);
      forall s, t | s in strict && t in strict ensures PostDom(g, s, t) || PostDom(g, t, s) {
        PostDomsOrdered(g, p, path, s, t);
      }
      r := NearestExists(g, strict);
    }
  }

  lemma WalkingFollows(g: Cfg)
    requires WellFormed(g) && g.calls == map[]
    ensures Follows(Walking(g), g, NoFrames)
  {
    var p := Walking(g);
    forall pc | pc in g.succ ensures TableOk(p, g, pc) {
      var r := ReconvergenceExists(g, pc);
    }
    forall l: Walker ensures Moves(p, g, NoFrames, l) {
    }
  }

  // ---------- the loose branch ----------

  /** The lanes of the launch. */
  const ALL: Mask := {0, 1, 2}

  lemma AllHolds(i: nat)
    requires i < 3
    ensures i in ALL
  {
  }

  lemma AllFit()
    ensures ALL != {} && MaskFits(ALL, 3)
  {
    assert 0 in ALL;
  }

  lemma LooseRecvg(g: Cfg, b: Pc)
    requires WellFormed(g) && b in g.succ && Loose(g, b)
    ensures Walking(g).inst(b) == Inst(b, OtherOps, 1, g.beyond)
  {
    var r := ReconvergenceExists(g, b);
  }

  /** What the lanes of the launch do at the loose branch: lane 0 goes to `u`, lane 1 to `v`, and lane 2 goes with
      lane 1 or finishes. */
  ghost predicate AtBranch(g: Cfg, lanes: seq<Walker>, b: Pc, u: Pc, v: Pc) {
    && |lanes| == 3 && Heads(g, lanes[0], b, u) && Heads(g, lanes[1], b, v)
    && (Heads(g, lanes[2], b, v) || (!lanes[2].done && lanes[2].plan == [b] && ExitPath(g, [b])))
  }

  ghost function VMask(g: Cfg, lanes: seq<Walker>): (m: Mask)
    requires |lanes| == 3
  {
    if |lanes[2].plan| > 1 then {1, 2} else {1}
  }

  lemma ThreeTargets(next: seq<Pc>, done: Mask, u: Pc, v: Pc)
    requires |next| == 3 && u != v && next[0] == u && next[1] == v && 0 !in done && 1 !in done
    requires 2 in done || next[2] == v
    ensures Targets(ALL - done, next) == {u, v} && Group(ALL - done, next, u) == {0}
    ensures Group(ALL - done, next, v) == if 2 in done then {1} else {1, 2}
  {
    assert next[0] in Targets(ALL - done, next) && next[1] in Targets(ALL - done, next);
  }

  lemma AfterBranch(p: Program<Walker>, g: Cfg, lanes: seq<Walker>, b: Pc, u: Pc, v: Pc)
    requires Walks(p, g) && AtBranch(g, lanes, b, u, v)
    ensures var lanes' := Stepped(lanes, ALL);
            var done, next := DoneMask(p, lanes'), NextPcs(p, lanes');
            && u != NULL_PC && v != NULL_PC && next[0] == u && next[1] == v && 0 !in done && 1 !in done
            && (if |lanes[2].plan| > 1 then 2 !in done && next[2] == v else 2 in done)
  {
    var lanes' := Stepped(lanes, ALL);
    HeadsOn(g, lanes[0], b, u);
    HeadsOn(g, lanes[1], b, v);
    if |lanes[2].plan| > 1 {
      HeadsOn(g, lanes[2], b, v);
    }
    assert lanes'[0] == Walk(lanes[0]) && lanes'[1] == Walk(lanes[1]) && lanes'[2] == Walk(lanes[2]);
  }

  lemma BranchExecuted(p: Program<Walker>, g: Cfg, top: Entry, lanes: seq<Walker>, u: Pc, v: Pc)
    requires Walks(p, g) && AtBranch(g, lanes, top.pc, u, v) && top.mask == ALL
    ensures Execute(p, top, lanes) == Stepped(lanes, ALL)
  {
    assert !lanes[0].done && !lanes[1].done && !lanes[2].done;
    Executed(p, g, top, lanes);
  }

  lemma BranchSplits(p: Program<Walker>, g: Cfg, top: Entry, lanes: seq<Walker>, u: Pc, v: Pc)
    requires Walks(p, g) && AtBranch(g, lanes, top.pc, u, v) && u != v && top.mask == ALL
    ensures Splits(p, top, lanes, u, {0}, v, VMask(g, lanes))
  {
    var lanes' := Stepped(lanes, ALL);
    BranchExecuted(p, g, top, lanes, u, v);
    AfterBranch(p, g, lanes, top.pc, u, v);
    ThreeTargets(NextPcs(p, lanes'), DoneMask(p, lanes'), u, v);
  }

  // ---------- choosing the sides ----------

  /** A branch all whose successors it post-dominates has no way out. */
  lemma {:induction false} NoEscape(g: Cfg, b: Pc, path: seq<Pc>)
    requires ExitPathFrom(g, b, path) && b !in g.exits && forall s :: s in g.succ[b] ==> PostDom(g, b, s)
    ensures false
    decreases |path|
  {
    var rest := path[1..];
    assert ExitPathFrom(g, path[1], rest);
    var k :| 0 <= k < |rest| && rest[k] == b;
    ExitPathSuffix(g, rest, k);
    NoEscape(g, b, rest[k..]);
  }

  /** The end pc does not post-dominate both successors of a loose branch that is no exit. */
  lemma NotBoth(g: Cfg, b: Pc)
    requires WellFormed(g) && b in g.succ && b !in g.exits && Loose(g, b)
    ensures exists s :: s in g.succ[b] && !PostDom(g, g.beyond, s)
  {
    var z := g.beyond;
    if forall s :: s in g.succ[b] ==> PostDom(g, z, s) {
      if z == b {
        var path :| ExitPathFrom(g, b, path);
        NoEscape(g, b, path);
      } else {
        forall path | ExitPathFrom(g, b, path) ensures z in path {
          assert ExitPathFrom(g, path[1], path[1..]);
        }
        assert StrictPostDom(g, z, b);
      }
    }
  }

  lemma PostDomLeads(g: Cfg, r: Pc, p: Pc)
    requires WellFormed(g) && p in g.succ && PostDom(g, r, p)
    ensures Leads(g, p, r)
  {
    var path :| ExitPathFrom(g, p, path);
    var k :| 0 <= k < |path| && path[k] == r;
    PathIsWay(g, path, k);
  }

  /** One side of the branch leads to the end pc, and the other has a way out that avoids it. */
  lemma ChooseSides(g: Cfg, b: Pc) returns (u: Pc, v: Pc, out: seq<Pc>)
    requires WellFormed(g) && b in g.succ && b !in g.exits && Loose(g, b) && CanReturn(g, b) && |g.succ[b]| == 2
    ensures g.succ[b] == {u, v} && u != v && Leads(g, u, g.beyond) && ExitPathFrom(g, v, out) && g.beyond !in out
  {
    var s :| s in g.succ[b] && Leads(g, s, g.beyond);
    OtherMember(g.succ[b], s);
    var t :| t in g.succ[b] && t != s && g.succ[b] == {s, t};
    NotBoth(g, b);
    if PostDom(g, g.beyond, t) {
      PostDomLeads(g, g.beyond, t);
      u, v := t, s;
    } else {
      u, v := s, t;
    }
    out :| ExitPathFrom(g, v, out) && g.beyond !in out;
  }

  /** A way out from `u` through the end pc. */
  lemma OutThrough(g: Cfg, u: Pc) returns (out: seq<Pc>)
    requires WellFormed(g) && Leads(g, u, g.beyond)
    ensures ExitPathFrom(g, u, out) && g.beyond in out
  {
    var way :| IsWay(g, u, g.beyond, way);
    WayEnds(g, way);
    var last :| ExitPathFrom(g, g.beyond, last);
    WayThenOut(g, way, g.beyond, last);
    out := way[..|way| - 1] + last;
    assert out[|way| - 1] == g.beyond;
  }

  lemma {:induction false} WayEnds(g: Cfg, way: seq<Pc>)
    requires Way(g, way)
    ensures way[|way| - 1] in g.succ
  {
    if |way| > 1 {
      WayEnds(g, way[1..]);
    }
  }

  /** The ways out of the three lanes from the branch on. */
  lemma ChooseTails(g: Cfg, b: Pc) returns (u: Pc, v: Pc, tails: seq<seq<Pc>>)
    requires WellFormed(g) && b in g.succ && Loose(g, b) && CanReturn(g, b) && |g.succ[b]| == 2
    ensures AreTails(g, b, u, v, tails)
  {
    var out;
    if b in g.exits {
      u :| u in g.succ[b] && Leads(g, u, g.beyond);
      OtherMember(g.succ[b], u);
      v :| v in g.succ[b] && v != u && g.succ[b] == {u, v};
      assert v in g.succ;
      out :| ExitPathFrom(g, v, out);
    } else {
      u, v, out := ChooseSides(g, b);
    }
    var through := OutThrough(g, u);
    PathStep(g, b, u, through);
    PathStep(g, b, v, out);
    tails := [[b] + through, [b] + out, if b in g.exits then [b] else [b] + out];
    assert ([b] + through)[1..] == through && ([b] + out)[1..] == out;
  }

  // ---------- the theorem ----------

  /** The three ways out from the branch `b`: the first by `u` and through the end pc, the second by `v`, and the third
      the same one, past the end pc, or none at all. */
  ghost predicate AreTails(g: Cfg, b: Pc, u: Pc, v: Pc, tails: seq<seq<Pc>>) {
    && u != v && |tails| == 3 && (forall i :: 0 <= i < 3 ==> ExitPathFrom(g, b, tails[i]))
    && |tails[0]| > 1 && tails[0][1] == u && g.beyond in tails[0][1..] && |tails[1]| > 1 && tails[1][1] == v
    && (tails[2] == [b] || (tails[2] == tails[1] && g.beyond !in tails[1][1..]))
  }

  /** The lanes after the branch. */
  lemma SidesTogether(g: Cfg, lanes: seq<Walker>, b: Pc, u: Pc, v: Pc, tails: seq<seq<Pc>>)
    requires AreTails(g, b, u, v, tails) && |lanes| == 3
    requires forall i :: 0 <= i < 3 ==> lanes[i] == Walker(tails[i], false)
    ensures AtBranch(g, lanes, b, u, v)
    ensures var after := Stepped(lanes, ALL);
            && Together(g, after, {0}, tails[0][1..]) && Together(g, after, VMask(g, lanes), tails[1][1..])
            && (2 in VMask(g, lanes) || after[2].done)
  {
  }

  /** Lane 0 waits at the end pc, and lane 2 has finished. */
  lemma WaitsBeside(g: Cfg, base: Entry, lanes: seq<Walker>)
    requires |lanes| == 3 && base.mask == ALL && !lanes[0].done && lanes[2].done
    ensures !NoneFinished(Walking(g), Warp([] + [base], lanes), ALL)
  {
    var w := Warp([] + [base], lanes);
    assert Last(w.stack) == base;
    assert 0 in Live(Walking(g), w, ALL) && 2 in DoneMask(Walking(g), w.lanes) && 2 in base.mask;
  }

  /** The lanes of the launch part. */
  lemma LanesPart(p: Program<Walker>, g: Cfg, start: Pc, top: Entry, lanes: seq<Walker>, u: Pc, v: Pc)
      returns (w: Warp<Walker>)
    requires Walks(p, g) && p.inst(top.pc) == Inst(top.pc, OtherOps, 1, g.beyond) && g.beyond != NULL_PC
    requires Reached(p, start, ALL, Warp([] + [top], lanes)) && AtBranch(g, lanes, top.pc, u, v) && u != v
    requires top.recvg == NULL_PC && top.mask == ALL
    ensures Reached(p, start, ALL, w) && w.lanes == Stepped(lanes, ALL)
    ensures Parted(g, [], top, w.stack, u, {0}, v, VMask(g, lanes))
  {
    BranchExecuted(p, g, top, lanes, u, v);
    BranchSplits(p, g, top, lanes, u, v);
    AllFit();
    w := BranchTaken(p, g, start, ALL, [], top, lanes, u, {0}, v, VMask(g, lanes));
  }

  /** A lane waits at the end pc beside one that has finished. */
  lemma BranchFails(g: Cfg, start: Pc, top: Entry, lanes: seq<Walker>, u: Pc, v: Pc, tails: seq<seq<Pc>>)
      returns (w: Warp<Walker>)
    requires WellFormed(g) && top.pc in g.succ && Loose(g, top.pc) && g.beyond in g.succ && |lanes| == 3
    requires Reached(Walking(g), start, ALL, Warp([] + [top], lanes)) && AreTails(g, top.pc, u, v, tails)
    requires forall i :: 0 <= i < 3 ==> lanes[i] == Walker(tails[i], false)
    requires top.kind.Normal? && top.recvg == NULL_PC && top.mask == ALL
    ensures Reached(Walking(g), start, ALL, w) && !NoneFinished(Walking(g), w, ALL)
  {
    SidesTogether(g, lanes, top.pc, u, v, tails);
    var vMask := VMask(g, lanes);
    LooseRecvg(g, top.pc);
    var after := LanesPart(Walking(g), g, start, top, lanes, u, v);
    var lanes' := EitherPlayed(Walking(g), g, start, ALL, [], top, after, u, {0}, tails[0][1..], v, vMask,
                               tails[1][1..]);
    assert Played(g, lanes'[0], tails[0][1..]);
    assert 2 in vMask ==> Played(g, lanes'[2], tails[1][1..]);
    var base := top.(pc := g.beyond, divCycle := 0);
    w := Warp([] + [base], lanes');
    WaitsBeside(g, base, lanes');
  }

  /** Necessity: if a loose branch that the program can reach leads to the end pc, some run has a finished lane among
      those it executes while a lane is live. */
  lemma UnsafeFails(g: Cfg, start: Pc, b: Pc) returns (w: Warp<Walker>)
    requires WellFormed(g) && start in g.succ && Returns(g, start, b)
    ensures Reached(Walking(g), start, ALL, w) && !NoneFinished(Walking(g), w, ALL)
  {
    var u, v, tails := ChooseTails(g, b);
    var way :| IsWay(g, start, b, way);
    var at := AllWalk(g, start, way, tails);
    ReturnIsNode(g, b);
    w := BranchFails(g, start, Entry(b, 1, ALL, NULL_PC, 0, Normal), at, u, v, tails);
  }

  /** All lanes of the launch walk to the end of the way. */
  lemma AllWalk(g: Cfg, start: Pc, way: seq<Pc>, tails: seq<seq<Pc>>) returns (at: seq<Walker>)
    requires WellFormed(g) && start in g.succ && Way(g, way) && way[0] == start && |tails| == 3
    requires forall i :: 0 <= i < 3 ==> ExitPathFrom(g, way[|way| - 1], tails[i])
    ensures Reached(Walking(g), start, ALL, Warp([] + [Entry(way[|way| - 1], 1, ALL, NULL_PC, 0, Normal)], at))
    ensures |at| == 3 && forall i :: 0 <= i < 3 ==> at[i] == Walker(tails[i], false)
  {
    var lanes := seq(3, i requires 0 <= i < 3 => Walker(way[..|way| - 1] + tails[i], false));
    AllFit();
    LaunchReached(g, start, lanes, way, tails);
    at := WalkTo(Walking(g), g, start, ALL, [], Entry(start, 1, ALL, NULL_PC, 0, Normal), lanes, way, tails);
    forall i: nat | i < 3 ensures at[i] == Walker(tails[i], false) {
      AllHolds(i);
      AtWaysEnd(g, at, ALL, way[|way| - 1], tails, i);
    }
  }

  lemma ReturnIsNode(g: Cfg, b: Pc)
    requires b in g.succ && CanReturn(g, b)
    ensures g.beyond in g.succ
  {
    var s :| s in g.succ[b] && Leads(g, s, g.beyond);
    var way :| IsWay(g, s, g.beyond, way);
    WayEnds(g, way);
  }

  lemma LaunchReached(g: Cfg, start: Pc, lanes: seq<Walker>, way: seq<Pc>, tails: seq<seq<Pc>>)
    requires WellFormed(g) && start in g.succ && OnWay(g, lanes, ALL, way, tails) && way[0] == start && |lanes| == 3
    ensures Reached(Walking(g), start, ALL, Warp([] + [Entry(start, 1, ALL, NULL_PC, 0, Normal)], lanes))
  {
    var w := Warp([Entry(start, 1, ALL, NULL_PC, 0, Normal)], lanes);
    forall i | i in ALL ensures !lanes[i].done && PcOf(g, lanes[i]) == start {
      WayThenOut(g, way, way[|way| - 1], tails[i]);
    }
    assert IsLaunch(Walking(g), w, start, ALL);
    assert IsRun(Walking(g), [w], Zero, start, ALL);
  }

  /** No run of a program without calls that follows `g` executes a finished lane in its state number `n` while a lane
      is live. */
  ghost predicate CleanAt<L(!new)>(p: Program<L>, g: Cfg, start: Pc, ws: seq<Warp<L>>, cycles: nat -> nat,
                                   launched: Mask, n: nat) {
    Follows(p, g, NoFrames) && IsRun(p, ws, cycles, start, launched) && n < |ws| ==> NoneFinished(p, ws[n], launched)
  }

  /** Sufficiency, for lanes of any kind. */
  lemma SafeIsClean<L(!new)>(p: Program<L>, g: Cfg, start: Pc, ws: seq<Warp<L>>, cycles: nat -> nat, launched: Mask,
                             n: nat)
    requires start in g.succ && Safe(g, start)
    ensures CleanAt(p, g, start, ws, cycles, launched, n)
  {
    if Follows(p, g, NoFrames) && IsRun(p, ws, cycles, start, launched) && n < |ws| {
      CfgRunSafe(p, g, NoFrames, ws, cycles, start, launched, n);
    }
  }

  /** Some run of a program that follows `g` is not clean. */
  lemma UnsafeIsNot(g: Cfg, start: Pc, b: Pc) returns (p: Program<Walker>, ws: seq<Warp<Walker>>)
    requires WellFormed(g) && g.calls == map[] && start in g.succ && Returns(g, start, b)
    ensures ws != [] && !CleanAt(p, g, start, ws, Zero, ALL, |ws| - 1)
  {
    var w := UnsafeFails(g, start, b);
    WalkingFollows(g);
    p := Walking(g);
    ws :| IsRun(p, ws, Zero, start, ALL) && ws[|ws| - 1] == w;
  }

  /** However its lanes are launched and whatever ways they take, no such program ever executes a finished lane while a
      lane is live. */
  ghost predicate AlwaysClean(g: Cfg, start: Pc) {
    forall p: Program<Walker>, ws: seq<Warp<Walker>>, cycles: nat -> nat, launched: Mask, n: nat ::
      CleanAt(p, g, start, ws, cycles, launched, n)
  }

  /** The iff: that is so if and only if no loose branch within reach of the launch leads to the end pc. */
  lemma SafeExactly(g: Cfg, start: Pc)
    requires WellFormed(g) && g.calls == map[] && start in g.succ
    ensures Safe(g, start) <==> AlwaysClean(g, start)
  {
    if Safe(g, start) {
      forall p: Program<Walker>, ws: seq<Warp<Walker>>, cycles: nat -> nat, launched: Mask, n: nat
        ensures CleanAt(p, g, start, ws, cycles, launched, n)
      {
        SafeIsClean(p, g, start, ws, cycles, launched, n);
      }
    } else {
      var b :| Returns(g, start, b);
      var p, ws := UnsafeIsNot(g, start, b);
    }
  }
}
