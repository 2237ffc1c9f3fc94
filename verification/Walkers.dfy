/** Lanes that walk through a control-flow graph, each along a way out of its choice: what a warp of such lanes does at
    every kind of step, and runs put together from such steps. */
module Walkers {
  import opened Basics
  import opened SimtStack
  import opened SimtLanes
  import opened SimtRun
  import opened PostDominance

  /** A lane with the way out that it is going to take. */
  datatype Walker = Walker(plan: seq<Pc>, done: bool)

  function Walk(l: Walker): (r: Walker) {
    if |l.plan| <= 1 then l.(done := true) else l.(plan := l.plan[1..])
  }

  /** A lane without a way out is nowhere. */
  ghost function PcOf(g: Cfg, l: Walker): (pc: Pc) {
    if ExitPath(g, l.plan) then l.plan[0] else NULL_PC
  }

  /** A program with the given instructions whose lanes walk through `g`. */
  ghost function WalkingBy(g: Cfg, inst: Pc -> Inst): (p: Program<Walker>) {
    Program((pc: Pc, l: Walker) => Walk(l), (l: Walker) => PcOf(g, l), (l: Walker) => l.done, inst)
  }

  ghost predicate Walks(p: Program<Walker>, g: Cfg) {
    p == WalkingBy(g, p.inst) && NULL_PC !in g.succ && forall pc :: p.inst(pc).pc == pc
  }

  // ---------- runs, step by step ----------

  function Zero(k: nat): (cycle: nat) {
    0
  }

  /** Some run from the launch ends in `w`. */
  ghost predicate Reached<L(!new)>(p: Program<L>, start: Pc, launched: Mask, w: Warp<L>) {
    exists ws: seq<Warp<L>> :: IsRun(p, ws, Zero, start, launched) && ws[|ws| - 1] == w
  }

  lemma ReachedOn<L(!new)>(p: Program<L>, start: Pc, launched: Mask, w: Warp<L>)
    requires Reached(p, start, launched, w) && StepOk(p, w)
    ensures Reached(p, start, launched, Step(p, w, 0))
  {
    var ws: seq<Warp<L>> :| IsRun(p, ws, Zero, start, launched) && ws[|ws| - 1] == w;
    RunOn(p, ws, Zero, start, launched);
    var more := ws + [Step(p, w, Zero(|ws| - 1))];
    assert more[|more| - 1] == Step(p, w, 0);
  }

  /** All lanes of the mask are live and have the same way out before them. */
  ghost predicate Together(g: Cfg, lanes: seq<Walker>, mask: Mask, plan: seq<Pc>) {
    MaskFits(mask, |lanes|) && ExitPath(g, plan) && forall i :: i in mask ==> lanes[i] == Walker(plan, false)
  }

  /** The lanes after those of the mask have taken one step. */
  ghost function Stepped(lanes: seq<Walker>, mask: Mask): (r: seq<Walker>)
    ensures |r| == |lanes| && forall i :: 0 <= i < |r| ==> r[i] == if i in mask then Walk(lanes[i]) else lanes[i]
  {
    seq(|lanes|, i requires 0 <= i < |lanes| => if i in mask then Walk(lanes[i]) else lanes[i])
  }

  lemma Executed(p: Program<Walker>, g: Cfg, top: Entry, lanes: seq<Walker>)
    requires Walks(p, g) && MaskFits(top.mask, |lanes|) && forall i :: i in top.mask ==> !lanes[i].done
    ensures Execute(p, top, lanes) == Stepped(lanes, top.mask)
  {
  }

  /** A step in terms of what the lanes have become. */
  lemma StepIs<L>(p: Program<L>, s: seq<Entry>, lanes: seq<L>, lanes': seq<L>, done: Mask, next: seq<Pc>, inst: Inst)
    requires s != [] && lanes' == Execute(p, Last(s), lanes) && inst == p.inst(Last(s).pc)
    requires done == DoneMask(p, lanes') && next == NextPcs(p, lanes')
    requires UpdateOk(s, done, next, inst) && Reconverges(s, done, next, inst)
    ensures StepOk(p, Warp(s, lanes)) && Step(p, Warp(s, lanes), 0) == Warp(Updated(s, done, next, inst, 0), lanes')
  {
  }

  lemma OneTarget(mask: Mask, next: seq<Pc>, n: Pc)
    requires mask != {} && MaskFits(mask, |next|) && forall i :: i in mask ==> next[i] == n
    ensures Targets(mask, next) == {n} && Group(mask, next, n) == mask
  {
    var i :| i in mask;
    assert next[i] in Targets(mask, next);
  }

  /** The lane is live, at `pc`, and goes on to `n`. */
  ghost predicate Heads(g: Cfg, l: Walker, pc: Pc, n: Pc) {
    !l.done && ExitPath(g, l.plan) && |l.plan| > 1 && l.plan[0] == pc && l.plan[1] == n
  }

  lemma HeadsOn(g: Cfg, l: Walker, pc: Pc, n: Pc)
    requires NULL_PC !in g.succ && Heads(g, l, pc, n)
    ensures Walk(l) == Walker(l.plan[1..], false) && ExitPath(g, l.plan[1..]) && PcOf(g, Walk(l)) == n != NULL_PC
  {
  }

  /** One step of an entry whose lanes have all gone on to `n`, neither into a function nor out of one. */
  lemma UniformStep<L>(p: Program<L>, rest: seq<Entry>, top: Entry, lanes: seq<L>, lanes': seq<L>, n: Pc)
    requires top.mask != {} && MaskFits(top.mask, |lanes|) && n != NULL_PC && lanes' == Execute(p, top, lanes)
    requires p.inst(top.pc).pc == top.pc && !IsCallOrReturn(p.inst(top.pc), top)
    requires forall i :: i in top.mask ==> !p.isDone(lanes'[i]) && p.pcOf(lanes'[i]) == n
    ensures StepOk(p, Warp(rest + [top], lanes))
    ensures var s := if n == top.recvg && top.kind.Normal? then rest else rest + [top.(pc := n)];
            Step(p, Warp(rest + [top], lanes), 0) == Warp(s, lanes')
  {
    var s, inst, done, next := rest + [top], p.inst(top.pc), DoneMask(p, lanes'), NextPcs(p, lanes');
    assert Last(s) == top && Front(s) == rest && top.mask - done == top.mask;
    OneTarget(top.mask, next, n);
    StepIs(p, s, lanes, lanes', done, next, inst);
  }

  /** One step of lanes that all go on to the same pc. */
  lemma AlikeStep(p: Program<Walker>, g: Cfg, rest: seq<Entry>, top: Entry, lanes: seq<Walker>, n: Pc)
    requires Walks(p, g) && MaskFits(top.mask, |lanes|) && forall i :: i in top.mask ==> Heads(g, lanes[i], top.pc, n)
    requires !IsCallOrReturn(p.inst(top.pc), top) && top.mask != {}
    ensures StepOk(p, Warp(rest + [top], lanes))
    ensures var s := if n == top.recvg && top.kind.Normal? then rest else rest + [top.(pc := n)];
            Step(p, Warp(rest + [top], lanes), 0) == Warp(s, Stepped(lanes, top.mask))
  {
    var lanes' := Stepped(lanes, top.mask);
    Executed(p, g, top, lanes);
    forall i | i in top.mask ensures !lanes'[i].done && PcOf(g, lanes'[i]) == n != NULL_PC {
      HeadsOn(g, lanes[i], top.pc, n);
    }
    var i :| i in top.mask;
    UniformStep(p, rest, top, lanes, lanes', n);
  }

  /** One step of lanes that stay together and do not finish. */
  lemma TogetherStep(p: Program<Walker>, g: Cfg, rest: seq<Entry>, top: Entry, lanes: seq<Walker>, plan: seq<Pc>)
    requires Walks(p, g) && Together(g, lanes, top.mask, plan) && |plan| > 1 && top.pc == plan[0]
    requires !IsCallOrReturn(p.inst(top.pc), top) && top.mask != {}
    ensures StepOk(p, Warp(rest + [top], lanes))
    ensures var s := if plan[1] == top.recvg && top.kind.Normal? then rest else rest + [top.(pc := plan[1])];
            Step(p, Warp(rest + [top], lanes), 0) == Warp(s, Stepped(lanes, top.mask))
    ensures Together(g, Stepped(lanes, top.mask), top.mask, plan[1..])
  {
    AlikeStep(p, g, rest, top, lanes, plan[1]);
  }

  /** The last step of lanes that stay together. */
  lemma TogetherEnd(p: Program<Walker>, g: Cfg, rest: seq<Entry>, top: Entry, lanes: seq<Walker>, plan: seq<Pc>)
    requires Walks(p, g) && Together(g, lanes, top.mask, plan) && |plan| == 1 && top.pc == plan[0]
    requires (top.kind.Call? ==> rest != []) && top.mask != {}
    ensures StepOk(p, Warp(rest + [top], lanes))
    ensures Step(p, Warp(rest + [top], lanes), 0) == Warp(rest, Stepped(lanes, top.mask))
    ensures forall i :: i in top.mask ==> Stepped(lanes, top.mask)[i].done
  {
    var s, lanes' := rest + [top], Stepped(lanes, top.mask);
    Executed(p, g, top, lanes);
    var done, next := DoneMask(p, lanes'), NextPcs(p, lanes');
    assert Last(s) == top && Front(s) == rest && top.mask - done == {};
    assert Targets(top.mask - done, next) == {};
    StepIs(p, s, lanes, lanes', done, next, p.inst(top.pc));
  }

  // ---------- playing out one side of a loose branch ----------

  /** The lane has finished, or waits at the end pc if its way out led through it. */
  ghost predicate Played(g: Cfg, l: Walker, plan: seq<Pc>) {
    if g.beyond in plan then !l.done && PcOf(g, l) == g.beyond else l.done
  }

  /** The lanes of the mask have been played out; no other lane moved. */
  ghost predicate PlayedOut(g: Cfg, before: seq<Walker>, lanes: seq<Walker>, mask: Mask, plan: seq<Pc>) {
    && |lanes| == |before| && (forall i :: 0 <= i < |lanes| && i !in mask ==> lanes[i] == before[i])
    && forall i :: i in mask && i < |lanes| ==> Played(g, lanes[i], plan)
  }

  lemma PlayedStep(g: Cfg, lanes: seq<Walker>, after: seq<Walker>, mask: Mask, plan: seq<Pc>)
    requires Together(g, lanes, mask, plan) && |plan| > 1 && plan[0] != g.beyond
    requires PlayedOut(g, Stepped(lanes, mask), after, mask, plan[1..])
    ensures PlayedOut(g, lanes, after, mask, plan)
  {
    assert plan == [plan[0]] + plan[1..];
  }

  /** Lanes that have come to the end pc wait there. */
  lemma PlayedWaiting(g: Cfg, lanes: seq<Walker>, mask: Mask, plan: seq<Pc>)
    requires Together(g, lanes, mask, plan) && plan[0] == g.beyond
    ensures PlayedOut(g, lanes, lanes, mask, plan)
  {
  }

  lemma PlayedAtEnd(g: Cfg, lanes: seq<Walker>, mask: Mask, plan: seq<Pc>)
    requires Together(g, lanes, mask, plan) && |plan| == 1 && plan[0] != g.beyond
    ensures PlayedOut(g, lanes, Stepped(lanes, mask), mask, plan)
  {
  }

  /** The side on top finishes. */
  lemma SideEnd(p: Program<Walker>, g: Cfg, start: Pc, launched: Mask, rest: seq<Entry>, e: Entry, lanes: seq<Walker>,
                plan: seq<Pc>)
    requires Walks(p, g) && Together(g, lanes, e.mask, plan) && Reached(p, start, launched, Warp(rest + [e], lanes))
    requires e.kind.Normal? && e.mask != {} && e.pc == plan[0] && |plan| == 1
    ensures Reached(p, start, launched, Warp(rest, Stepped(lanes, e.mask)))
  {
    TogetherEnd(p, g, rest, e, lanes, plan);
    ReachedOn(p, start, launched, Warp(rest + [e], lanes));
  }

  /** The side on top goes on. */
  lemma SideStep(p: Program<Walker>, g: Cfg, start: Pc, launched: Mask, rest: seq<Entry>, e: Entry, lanes: seq<Walker>,
                 plan: seq<Pc>)
    requires Walks(p, g) && Together(g, lanes, e.mask, plan) && Reached(p, start, launched, Warp(rest + [e], lanes))
    requires e.kind.Normal? && e.mask != {} && e.pc == plan[0] && |plan| > 1 && !p.inst(e.pc).op.CallOps?
    ensures var stack := if plan[1] == e.recvg then rest else rest + [e.(pc := plan[1])];
            Reached(p, start, launched, Warp(stack, Stepped(lanes, e.mask)))
    ensures Together(g, Stepped(lanes, e.mask), e.mask, plan[1..])
  {
    TogetherStep(p, g, rest, e, lanes, plan);
    ReachedOn(p, start, launched, Warp(rest + [e], lanes));
  }

  ghost predicate NoCalls(p: Program<Walker>, plan: seq<Pc>) {
    forall pc :: pc in plan ==> !p.inst(pc).op.CallOps?
  }

  lemma {:induction false} PlayOut(p: Program<Walker>, g: Cfg, start: Pc, launched: Mask, rest: seq<Entry>, e: Entry,
                                   lanes: seq<Walker>, plan: seq<Pc>)
      returns (lanes': seq<Walker>)
    requires Walks(p, g) && Together(g, lanes, e.mask, plan) && Reached(p, start, launched, Warp(rest + [e], lanes))
    requires e.kind.Normal? && e.mask != {} && e.recvg == g.beyond && e.pc == plan[0] != g.beyond && NoCalls(p, plan)
    ensures Reached(p, start, launched, Warp(rest, lanes')) && PlayedOut(g, lanes, lanes', e.mask, plan)
    decreases |plan|
  {
    lanes' := Stepped(lanes, e.mask);
    assert e.pc in plan;
    if |plan| == 1 {
      SideEnd(p, g, start, launched, rest, e, lanes, plan);
      PlayedAtEnd(g, lanes, e.mask, plan);
    } else {
      SideStep(p, g, start, launched, rest, e, lanes, plan);
      if plan[1] == g.beyond {
        PlayedWaiting(g, lanes', e.mask, plan[1..]);
      } else {
        lanes' := PlayOut(p, g, start, launched, rest, e.(pc := plan[1]), lanes', plan[1..]);
      }
      PlayedStep(g, lanes, lanes', e.mask, plan);
    }
  }

  // ---------- walking together ----------

  lemma {:induction false} WayThenOut(g: Cfg, way: seq<Pc>, q: Pc, out: seq<Pc>)
    requires Way(g, way) && way[|way| - 1] == q && ExitPathFrom(g, q, out)
    ensures ExitPathFrom(g, way[0], way[..|way| - 1] + out)
  {
    if |way| == 1 {
      assert way[..0] + out == out;
    } else {
      WayThenOut(g, way[1..], q, out);
      var rest := way[1..][..|way| - 2] + out;
      assert way[..|way| - 1] + out == [way[0]] + rest;
      PathStep(g, way[0], way[1], rest);
    }
  }

  lemma {:induction false} PathIsWay(g: Cfg, path: seq<Pc>, k: nat)
    requires ExitPath(g, path) && k < |path|
    ensures IsWay(g, path[0], path[k], path[..k + 1])
  {
    if k > 0 {
      PathIsWay(g, path[1..], k - 1);
      assert path[..k + 1][1..] == path[1..][..k];
    }
  }

  /** Every lane of the mask has the rest of the way before it, and then a way out of its own. */
  ghost predicate OnWay(g: Cfg, lanes: seq<Walker>, mask: Mask, way: seq<Pc>, tails: seq<seq<Pc>>) {
    && Way(g, way) && |lanes| == |tails| && MaskFits(mask, |lanes|)
    && forall i :: i in mask ==>
         lanes[i] == Walker(way[..|way| - 1] + tails[i], false) && ExitPathFrom(g, way[|way| - 1], tails[i])
  }

  lemma PlanStep(g: Cfg, way: seq<Pc>, tail: seq<Pc>)
    requires Way(g, way) && |way| > 1 && ExitPathFrom(g, way[|way| - 1], tail)
    ensures var plan := way[..|way| - 1] + tail;
            && Heads(g, Walker(plan, false), way[0], way[1])
            && plan[1..] == way[1..][..|way[1..]| - 1] + tail
  {
    var plan := way[..|way| - 1] + tail;
    WayThenOut(g, way, way[|way| - 1], tail);
    assert plan[1..] == way[1..][..|way| - 2] + tail;
  }

  lemma OnWayHeads(g: Cfg, lanes: seq<Walker>, mask: Mask, way: seq<Pc>, tails: seq<seq<Pc>>, i: nat)
    requires OnWay(g, lanes, mask, way, tails) && |way| > 1 && i in mask
    ensures Heads(g, lanes[i], way[0], way[1])
    ensures Walk(lanes[i]) == Walker(way[1..][..|way[1..]| - 1] + tails[i], false)
  {
    PlanStep(g, way, tails[i]);
  }

  lemma OnWayStep(g: Cfg, lanes: seq<Walker>, mask: Mask, way: seq<Pc>, tails: seq<seq<Pc>>)
    requires OnWay(g, lanes, mask, way, tails) && |way| > 1
    ensures OnWay(g, Stepped(lanes, mask), mask, way[1..], tails)
  {
    var lanes', rest := Stepped(lanes, mask), way[1..];
    forall i | i in mask ensures lanes'[i] == Walker(rest[..|rest| - 1] + tails[i], false) {
      OnWayHeads(g, lanes, mask, way, tails, i);
    }
  }

  lemma AllHead(g: Cfg, lanes: seq<Walker>, mask: Mask, way: seq<Pc>, tails: seq<seq<Pc>>)
    requires OnWay(g, lanes, mask, way, tails) && |way| > 1
    ensures forall i :: i in mask ==> Heads(g, lanes[i], way[0], way[1])
  {
    forall i | i in mask ensures Heads(g, lanes[i], way[0], way[1]) {
      OnWayHeads(g, lanes, mask, way, tails, i);
    }
  }

  /** No call and no return is on the way before its last pc. */
  ghost predicate PlainWay(p: Program<Walker>, top: Entry, way: seq<Pc>) {
    forall k :: 0 <= k < |way| - 1 ==> !IsCallOrReturn(p.inst(way[k]), top)
  }

  lemma PlainRest(p: Program<Walker>, top: Entry, way: seq<Pc>)
    requires PlainWay(p, top, way) && |way| > 1
    ensures PlainWay(p, top.(pc := way[1]), way[1..])
  {
  }

  /** One step along the way. */
  lemma WayStep(p: Program<Walker>, g: Cfg, start: Pc, launched: Mask, rest: seq<Entry>, top: Entry,
                lanes: seq<Walker>, n: Pc)
    requires Walks(p, g) && Reached(p, start, launched, Warp(rest + [top], lanes)) && n in g.succ
    requires MaskFits(top.mask, |lanes|) && forall i :: i in top.mask ==> Heads(g, lanes[i], top.pc, n)
    requires !IsCallOrReturn(p.inst(top.pc), top) && top.recvg == NULL_PC && top.mask != {}
    ensures Reached(p, start, launched, Warp(rest + [top.(pc := n)], Stepped(lanes, top.mask)))
  {
    AlikeStep(p, g, rest, top, lanes, n);
    ReachedOn(p, start, launched, Warp(rest + [top], lanes));
  }

  /** The lanes of the top entry walk together to the end of the way. */
  lemma {:induction false} WalkTo(p: Program<Walker>, g: Cfg, start: Pc, launched: Mask, rest: seq<Entry>, top: Entry,
                                  lanes: seq<Walker>, way: seq<Pc>, tails: seq<seq<Pc>>)
      returns (lanes': seq<Walker>)
    requires Walks(p, g) && OnWay(g, lanes, top.mask, way, tails) && PlainWay(p, top, way)
    requires Reached(p, start, launched, Warp(rest + [top], lanes))
    requires top.pc == way[0] && top.recvg == NULL_PC && top.mask != {}
    ensures Reached(p, start, launched, Warp(rest + [top.(pc := way[|way| - 1])], lanes'))
    ensures OnWay(g, lanes', top.mask, [way[|way| - 1]], tails)
    ensures forall i :: 0 <= i < |lanes| && i !in top.mask ==> lanes'[i] == lanes[i]
    decreases |way|
  {
    if |way| == 1 {
      lanes' := lanes;
      assert way == [way[0]];
    } else {
      OnWayStep(g, lanes, top.mask, way, tails);
      AllHead(g, lanes, top.mask, way, tails);
      WayStep(p, g, start, launched, rest, top, lanes, way[1]);
      PlainRest(p, top, way);
      lanes' := WalkTo(p, g, start, launched, rest, top.(pc := way[1]), Stepped(lanes, top.mask), way[1..], tails);
    }
  }

  /** At the end of the way a lane has its own way out before it. */
  lemma AtWaysEnd(g: Cfg, lanes: seq<Walker>, mask: Mask, b: Pc, tails: seq<seq<Pc>>, i: nat)
    requires OnWay(g, lanes, mask, [b], tails) && i in mask
    ensures lanes[i] == Walker(tails[i], false)
  {
    assert [b][..0] + tails[i] == tails[i];
  }

  // ---------- a branch that parks its entry ----------

  /** The entries that such a branch leaves above the parked one. */
  ghost function Sides(g: Cfg, x: Pc, xMask: Mask, y: Pc, yMask: Mask): (s: seq<Entry>) {
    (if x != g.beyond then [Branch(x, xMask, g.beyond)] else [])
    + (if y != g.beyond then [Branch(y, yMask, g.beyond)] else [])
  }

  lemma ParkingDiverges(g: Cfg, top: Entry, x: Pc, xMask: Mask, y: Pc, yMask: Mask)
    requires top.recvg == NULL_PC != g.beyond && x != NULL_PC && y != NULL_PC
    ensures Diverge(top, g.beyond, 0, x, xMask, y, yMask)
         == [top.(pc := g.beyond, divCycle := 0)] + Sides(g, x, xMask, y, yMask)
  {
  }

  /** The stack after such a branch: a parked entry, and one for each side that does not lead straight to the end pc, in
      either order. */
  ghost predicate Parted(g: Cfg, rest: seq<Entry>, top: Entry, s: seq<Entry>, u: Pc, uMask: Mask, v: Pc, vMask: Mask) {
    var base := top.(pc := g.beyond, divCycle := 0);
    || s == rest + ([base] + Sides(g, u, uMask, v, vMask))
    || s == rest + ([base] + Sides(g, v, vMask, u, uMask))
  }

  /** The update at such a branch. */
  lemma ParkingUpdate(g: Cfg, rest: seq<Entry>, top: Entry, done: Mask, next: seq<Pc>, inst: Inst, u: Pc, uMask: Mask,
                      v: Pc, vMask: Mask)
    requires top.recvg == NULL_PC != g.beyond && top.mask != {} && MaskFits(top.mask, |next|)
    requires inst.pc == top.pc && inst.op.OtherOps? && inst.recvg == g.beyond && u != v && u != NULL_PC && v != NULL_PC
    requires Targets(top.mask - done, next) == {u, v}
    requires Group(top.mask - done, next, u) == uMask && Group(top.mask - done, next, v) == vMask
    ensures UpdateOk(rest + [top], done, next, inst) && Reconverges(rest + [top], done, next, inst)
    ensures Parted(g, rest, top, Updated(rest + [top], done, next, inst, 0), u, uMask, v, vMask)
  {
    var s := rest + [top];
    assert s[|s| - 1] == top && s[..|s| - 1] == rest;
    forall i | i in top.mask - done ensures next[i] != NULL_PC {
      assert next[i] in Targets(top.mask - done, next);
    }
    var first := FirstPath({u, v}, NotTaken(inst));
    if first == u {
      UpdatedTwo(s, done, next, inst, 0, u, v);
      ParkingDiverges(g, top, u, uMask, v, vMask);
    } else {
      assert {u, v} == {v, u};
      UpdatedTwo(s, done, next, inst, 0, v, u);
      ParkingDiverges(g, top, v, vMask, u, uMask);
    }
  }

  /** The live lanes of the entry split in two. */
  ghost predicate Splits<L>(p: Program<L>, top: Entry, lanes: seq<L>, u: Pc, uMask: Mask, v: Pc, vMask: Mask)
    requires MaskFits(top.mask, |lanes|)
  {
    var lanes' := Execute(p, top, lanes);
    var live, next := top.mask - DoneMask(p, lanes'), NextPcs(p, lanes');
    && Targets(live, next) == {u, v} && u != v && u != NULL_PC && v != NULL_PC
    && Group(live, next, u) == uMask && Group(live, next, v) == vMask
  }

  /** The step at such a branch. */
  lemma ParkingStep<L>(p: Program<L>, g: Cfg, rest: seq<Entry>, top: Entry, lanes: seq<L>, u: Pc, uMask: Mask, v: Pc,
                       vMask: Mask)
    requires top.recvg == NULL_PC != g.beyond && top.mask != {} && MaskFits(top.mask, |lanes|)
    requires p.inst(top.pc) == Inst(top.pc, OtherOps, 1, g.beyond) && Splits(p, top, lanes, u, uMask, v, vMask)
    ensures StepOk(p, Warp(rest + [top], lanes))
    ensures Step(p, Warp(rest + [top], lanes), 0).lanes == Execute(p, top, lanes)
    ensures Parted(g, rest, top, Step(p, Warp(rest + [top], lanes), 0).stack, u, uMask, v, vMask)
  {
    var lanes', inst := Execute(p, top, lanes), p.inst(top.pc);
    var done, next := DoneMask(p, lanes'), NextPcs(p, lanes');
    ParkingUpdate(g, rest, top, done, next, inst, u, uMask, v, vMask);
    assert Last(rest + [top]) == top;
    StepIs(p, rest + [top], lanes, lanes', done, next, inst);
  }

  /** The run goes on over such a branch. */
  lemma BranchTaken<L(!new)>(p: Program<L>, g: Cfg, start: Pc, launched: Mask, rest: seq<Entry>, top: Entry,
                             lanes: seq<L>, u: Pc, uMask: Mask, v: Pc, vMask: Mask)
      returns (w: Warp<L>)
    requires Reached(p, start, launched, Warp(rest + [top], lanes))
    requires top.recvg == NULL_PC != g.beyond && top.mask != {} && MaskFits(top.mask, |lanes|)
    requires p.inst(top.pc) == Inst(top.pc, OtherOps, 1, g.beyond) && Splits(p, top, lanes, u, uMask, v, vMask)
    ensures Reached(p, start, launched, w) && Parted(g, rest, top, w.stack, u, uMask, v, vMask)
    ensures w.lanes == Execute(p, top, lanes)
  {
    ParkingStep(p, g, rest, top, lanes, u, uMask, v, vMask);
    ReachedOn(p, start, launched, Warp(rest + [top], lanes));
    w := Step(p, Warp(rest + [top], lanes), 0);
  }

  // ---------- playing out both sides ----------

  /** A side that leads straight to the end pc is played out as it is. */
  lemma SidePlayed(p: Program<Walker>, g: Cfg, start: Pc, launched: Mask, rest: seq<Entry>, x: Pc, mask: Mask,
                   lanes: seq<Walker>, plan: seq<Pc>)
      returns (lanes': seq<Walker>)
    requires Walks(p, g) && Together(g, lanes, mask, plan) && mask != {} && plan[0] == x && NoCalls(p, plan)
    requires var side := if x != g.beyond then [Branch(x, mask, g.beyond)] else [];
             Reached(p, start, launched, Warp(rest + side, lanes))
    ensures Reached(p, start, launched, Warp(rest, lanes')) && PlayedOut(g, lanes, lanes', mask, plan)
  {
    if x == g.beyond {
      lanes' := lanes;
      assert rest + [] == rest;
    } else {
      lanes' := PlayOut(p, g, start, launched, rest, Branch(x, mask, g.beyond), lanes, plan);
    }
  }

  /** Playing out one side leaves the lanes of the other as they are. */
  lemma StillTogether(g: Cfg, lanes: seq<Walker>, mid: seq<Walker>, xMask: Mask, xPlan: seq<Pc>, yMask: Mask,
                      yPlan: seq<Pc>)
    requires Together(g, lanes, xMask, xPlan) && PlayedOut(g, lanes, mid, yMask, yPlan) && xMask !! yMask
    ensures Together(g, mid, xMask, xPlan)
  {
  }

  /** Both sides have been played out; no other lane moved. */
  ghost predicate BothOut(g: Cfg, before: seq<Walker>, lanes: seq<Walker>, xMask: Mask, xPlan: seq<Pc>, yMask: Mask,
                          yPlan: seq<Pc>) {
    |lanes| == |before| && forall i: nat :: i < |lanes| ==>
      if i in xMask then Played(g, lanes[i], xPlan) else if i in yMask then Played(g, lanes[i], yPlan)
      else lanes[i] == before[i]
  }

  lemma OtherOrder(g: Cfg, lanes: seq<Walker>, lanes': seq<Walker>, xMask: Mask, xPlan: seq<Pc>, yMask: Mask,
                   yPlan: seq<Pc>)
    requires BothOut(g, lanes, lanes', xMask, xPlan, yMask, yPlan) && xMask !! yMask
    ensures BothOut(g, lanes, lanes', yMask, yPlan, xMask, xPlan)
  {
  }

  lemma OutAndOut(g: Cfg, lanes: seq<Walker>, mid: seq<Walker>, lanes': seq<Walker>, xMask: Mask, xPlan: seq<Pc>,
                  yMask: Mask, yPlan: seq<Pc>)
    requires PlayedOut(g, lanes, mid, yMask, yPlan) && PlayedOut(g, mid, lanes', xMask, xPlan)
    ensures BothOut(g, lanes, lanes', xMask, xPlan, yMask, yPlan)
  {
  }

  lemma BothPlayed(p: Program<Walker>, g: Cfg, start: Pc, launched: Mask, under: seq<Entry>, x: Pc, xMask: Mask,
                   xPlan: seq<Pc>, y: Pc, yMask: Mask, yPlan: seq<Pc>, lanes: seq<Walker>)
      returns (lanes': seq<Walker>)
    requires Walks(p, g) && Reached(p, start, launched, Warp(under + Sides(g, x, xMask, y, yMask), lanes))
    requires Together(g, lanes, xMask, xPlan) && xMask != {} && xPlan[0] == x && xMask !! yMask && NoCalls(p, xPlan)
    requires Together(g, lanes, yMask, yPlan) && yMask != {} && yPlan[0] == y && NoCalls(p, yPlan)
    ensures Reached(p, start, launched, Warp(under, lanes'))
    ensures BothOut(g, lanes, lanes', xMask, xPlan, yMask, yPlan)
  {
    var side := if x != g.beyond then [Branch(x, xMask, g.beyond)] else [];
    assert under + Sides(g, x, xMask, y, yMask)
        == under + side + (if y != g.beyond then [Branch(y, yMask, g.beyond)] else []);
    var mid := SidePlayed(p, g, start, launched, under + side, y, yMask, lanes, yPlan);
    StillTogether(g, lanes, mid, xMask, xPlan, yMask, yPlan);
    lanes' := SidePlayed(p, g, start, launched, under, x, xMask, mid, xPlan);
    OutAndOut(g, lanes, mid, lanes', xMask, xPlan, yMask, yPlan);
  }

  /** The two sides in either order. */
  lemma EitherPlayed(p: Program<Walker>, g: Cfg, start: Pc, launched: Mask, rest: seq<Entry>, top: Entry,
                     w: Warp<Walker>, u: Pc, uMask: Mask, uPlan: seq<Pc>, v: Pc, vMask: Mask, vPlan: seq<Pc>)
      returns (lanes: seq<Walker>)
    requires Walks(p, g) && NoCalls(p, uPlan) && NoCalls(p, vPlan) && uMask !! vMask
    requires Together(g, w.lanes, uMask, uPlan) && uPlan[0] == u && uMask != {}
    requires Together(g, w.lanes, vMask, vPlan) && vPlan[0] == v && vMask != {}
    requires Reached(p, start, launched, w) && Parted(g, rest, top, w.stack, u, uMask, v, vMask)
    ensures Reached(p, start, launched, Warp(rest + [top.(pc := g.beyond, divCycle := 0)], lanes))
    ensures BothOut(g, w.lanes, lanes, uMask, uPlan, vMask, vPlan)
  {
    var base := top.(pc := g.beyond, divCycle := 0);
    var under := rest + [base];
    if w.stack == rest + ([base] + Sides(g, u, uMask, v, vMask)) {
      assert w == Warp(under + Sides(g, u, uMask, v, vMask), w.lanes);
      lanes := BothPlayed(p, g, start, launched, under, u, uMask, uPlan, v, vMask, vPlan, w.lanes);
    } else {
      assert w == Warp(under + Sides(g, v, vMask, u, uMask), w.lanes);
      lanes := BothPlayed(p, g, start, launched, under, v, vMask, vPlan, u, uMask, uPlan, w.lanes);
      OtherOrder(g, w.lanes, lanes, vMask, vPlan, uMask, uPlan);
    }
  }
}
