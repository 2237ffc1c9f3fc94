/** A warp run in lockstep: fetch at the pc of the top entry, execute for its lanes, update the stack
    (src/abstract_hardware_model.cc: getExecuteWarp, execute_warp_inst_t, updateSIMTStack). The lanes are
    of any type; a lane's own state includes whatever it will read. Every lockstep run is, for each lane,
    that lane's own sequential run. */
module SimtRun {
  import opened Basics
  import opened SimtLanes
  import opened SimtStack

  datatype Program<!L> = Program(exec: (Pc, L) -> L, pcOf: L -> Pc, isDone: L -> bool, inst: Pc -> Inst)

  datatype Warp<L> = Warp(stack: seq<Entry>, lanes: seq<L>)

  // ---------- one lane on its own ----------

  function OwnStep<L>(p: Program<L>, l: L): (r: L) {
    if p.isDone(l) then l else p.exec(p.pcOf(l), l)
  }

  function OwnRun<L>(p: Program<L>, l: L, n: nat): (r: L) {
    if n == 0 then l else OwnStep(p, OwnRun(p, l, n - 1))
  }

  /** The pcs the lane fetches in its first `n` steps. */
  function OwnFetches<L>(p: Program<L>, l: L, n: nat): (pcs: seq<Pc>) {
    if n == 0 then [] else OwnFetches(p, l, n - 1) + [p.pcOf(OwnRun(p, l, n - 1))]
  }

  // ---------- the warp ----------

  function DoneMask<L>(p: Program<L>, lanes: seq<L>): (m: Mask) {
    set i: nat | i < |lanes| && p.isDone(lanes[i])
  }

  /** What `updateSIMTStack` collects for one lane. */
  function NextPc<L>(p: Program<L>, l: L): (pc: Pc) {
    if p.isDone(l) then NULL_PC else p.pcOf(l)
  }

  function NextPcs<L>(p: Program<L>, lanes: seq<L>): (next: seq<Pc>)
    ensures |next| == |lanes|
    ensures forall i :: 0 <= i < |lanes| ==> next[i] == NextPc(p, lanes[i])
  {
    seq(|lanes|, i requires 0 <= i < |lanes| => NextPc(p, lanes[i]))
  }

  /** The top entry's lanes execute the instruction at the top entry's pc. */
  function Execute<L>(p: Program<L>, top: Entry, lanes: seq<L>): (r: seq<L>)
    ensures |r| == |lanes|
    ensures forall i :: 0 <= i < |lanes| ==>
              r[i] == if i in top.mask && !p.isDone(lanes[i]) then p.exec(top.pc, lanes[i]) else lanes[i]
  {
    seq(|lanes|, i requires 0 <= i < |lanes| =>
      if i in top.mask && !p.isDone(lanes[i]) then p.exec(top.pc, lanes[i]) else lanes[i])
  }

  ghost predicate StepOk<L>(p: Program<L>, w: Warp<L>) {
    && w.stack != []
    && var lanes := Execute(p, Last(w.stack), w.lanes);
    && var inst := p.inst(Last(w.stack).pc);
    && UpdateOk(w.stack, DoneMask(p, lanes), NextPcs(p, lanes), inst)
    && Reconverges(w.stack, DoneMask(p, lanes), NextPcs(p, lanes), inst)
  }

  ghost function Step<L>(p: Program<L>, w: Warp<L>, cycle: nat): (r: Warp<L>)
    requires StepOk(p, w)
  {
    var lanes := Execute(p, Last(w.stack), w.lanes);
    Warp(Updated(w.stack, DoneMask(p, lanes), NextPcs(p, lanes), p.inst(Last(w.stack).pc), cycle), lanes)
  }

  ghost predicate IsLaunch<L>(p: Program<L>, w: Warp<L>, pc: Pc, launched: Mask) {
    && MaskFits(launched, |w.lanes|) && launched != {} && pc != NULL_PC
    && w.stack == [Entry(pc, 1, launched, NULL_PC, 0, Normal)]
    && forall i :: i in launched ==> !p.isDone(w.lanes[i]) && p.pcOf(w.lanes[i]) == pc
  }

  ghost predicate StepsAt<L>(p: Program<L>, ws: seq<Warp<L>>, cycles: nat -> nat, k: nat)
    requires k + 1 < |ws|
  {
    StepOk(p, ws[k]) && ws[k + 1] == Step(p, ws[k], cycles(k))
  }

  /** `ws` is a run from a launch; `cycles` are the simulator cycles at which its updates happen. */
  ghost predicate IsRun<L>(p: Program<L>, ws: seq<Warp<L>>, cycles: nat -> nat, pc: Pc, launched: Mask) {
    && ws != []
    && IsLaunch(p, ws[0], pc, launched)
    && forall k: nat :: k + 1 < |ws| ==> StepsAt(p, ws, cycles, k)
  }

  // ---------- the invariant ----------

  ghost predicate MasksOk(s: seq<Entry>, launched: Mask) {
    forall e :: e in s ==> e.mask != {} && e.mask <= launched
  }

  ghost function Live<L>(p: Program<L>, w: Warp<L>, launched: Mask): (m: Mask) {
    launched - DoneMask(p, w.lanes)
  }

  ghost predicate Inv<L>(p: Program<L>, w: Warp<L>, launched: Mask) {
    && MaskFits(launched, |w.lanes|)
    && MasksOk(w.stack, launched)
    && CallsHold(w.stack, Live(p, w, launched))
    && forall i :: i in Live(p, w, launched) ==> LaneOk(w.stack, i, p.pcOf(w.lanes[i]))
  }

  lemma LaunchInv<L>(p: Program<L>, w: Warp<L>, pc: Pc, launched: Mask)
    requires IsLaunch(p, w, pc, launched)
    ensures Inv(p, w, launched)
  {
    assert w.stack == [] + [w.stack[0]];
    forall i | i in launched ensures LaneOk(w.stack, i, p.pcOf(w.lanes[i])) {
      Pushed([], w.stack[0], i);
    }
  }

  lemma UpdateKeepsMasks(s: seq<Entry>, done: Mask, next: seq<Pc>, inst: Inst, cycle: nat, launched: Mask)
    requires UpdateOk(s, done, next, inst) && MasksOk(s, launched)
    ensures MasksOk(Updated(s, done, next, inst, cycle), launched)
  {
    var rest, top := Front(s), Last(s);
    assert top in s && forall e :: e in rest ==> e in s;
    var targets := Targets(top.mask - done, next);
    forall t | t in targets ensures Group(top.mask - done, next, t) != {} {
      var i :| i in top.mask - done && next[i] == t;
      assert i in Group(top.mask - done, next, t);
    }
    if targets != {} && inst.op.RetOps? && top.kind.Call? {
      assert Last(rest) in rest;
    }
  }

  lemma {:induction false} CallsHoldPrefix(s: seq<Entry>, live: Mask, live': Mask)
    requires CallsHold(s, live) && live' <= live
    ensures CallsHold(s, live')
  {
    if s != [] {
      CallsHoldPrefix(Front(s), live, live');
    }
  }

  lemma {:induction false} NormalsOnTop(s: seq<Entry>, t: seq<Entry>, live: Mask)
    requires CallsHold(s, live) && forall e :: e in t ==> e.kind.Normal?
    ensures CallsHold(s + t, live)
  {
    if t == [] {
      assert s + t == s;
    } else {
      assert Front(s + t) == s + Front(t);
      NormalsOnTop(s, Front(t), live);
    }
  }

  /** The lanes of a warp that stays together. */
  lemma UniformGroup(s: seq<Entry>, done: Mask, next: seq<Pc>, live: Mask, p: Pc)
    requires s != [] && MaskFits(Last(s).mask, |next|) && live !! done
    requires |Targets(Last(s).mask - done, next)| == 1 && p in Targets(Last(s).mask - done, next)
    ensures Last(s).mask * live <= Group(Last(s).mask - done, next, p) <= Last(s).mask
  {
    var targets := Targets(Last(s).mask - done, next);
    SingletonIs(targets, p);
    forall i | i in Last(s).mask * live ensures i in Group(Last(s).mask - done, next, p) {
      assert next[i] in targets;
    }
  }

  lemma ReplaceTop(rest: seq<Entry>, top: Entry, e: Entry, live: Mask)
    requires CallsHold(rest + [top], live) && e.kind == top.kind
    requires top.kind.Call? ==> top.mask * live <= e.mask <= top.mask
    ensures CallsHold(rest + [e], live)
  {
    assert Front(rest + [top]) == rest && Front(rest + [e]) == rest;
  }

  lemma DivergeKeepsCalls(rest: seq<Entry>, top: Entry, recvg: Pc, cycle: nat, p: Pc, pMask: Mask, q: Pc, qMask: Mask,
                          live: Mask)
    requires CallsHold(rest + [top], live) && p != q && (top.kind.Call? ==> recvg != top.recvg)
    ensures CallsHold(rest + Diverge(top, recvg, cycle, p, pMask, q, qMask), live)
  {
    var t := Diverge(top, recvg, cycle, p, pMask, q, qMask);
    assert t[0].kind == top.kind && (top.kind.Call? ==> t[0].mask == top.mask);
    ReplaceTop(rest, top, t[0], live);
    assert forall e :: e in t[1..] ==> e.kind.Normal?;
    NormalsOnTop(rest + [t[0]], t[1..], live);
    assert rest + t == (rest + [t[0]]) + t[1..];
  }

  lemma PlainKeepsCalls(s: seq<Entry>, done: Mask, next: seq<Pc>, inst: Inst, cycle: nat, live: Mask)
    requires UpdateOk(s, done, next, inst) && Reconverges(s, done, next, inst) && !IsCallOrReturn(inst, Last(s))
    requires CallsHold(s, live) && live !! done
    ensures CallsHold(Updated(s, done, next, inst, cycle), live)
  {
    var rest, top := Front(s), Last(s);
    var group, targets := top.mask - done, Targets(top.mask - done, next);
    assert s == rest + [top];
    if targets != {} {
      var p := FirstPath(targets, NotTaken(inst));
      if |targets| == 1 {
        SingletonIs(targets, p);
        UniformGroup(s, done, next, live, p);
        ReplaceTop(rest, top, top.(pc := p, mask := Group(group, next, p)), live);
      } else {
        OtherMember(targets, p);
        var q :| q in targets && q != p && targets == {p, q};
        UpdatedTwo(s, done, next, inst, cycle, p, q);
        DivergeKeepsCalls(rest, top, inst.recvg, cycle, p, Group(group, next, p), q, Group(group, next, q), live);
      }
    }
  }

  lemma UpdateKeepsCalls(s: seq<Entry>, done: Mask, next: seq<Pc>, inst: Inst, cycle: nat, live: Mask)
    requires UpdateOk(s, done, next, inst) && Reconverges(s, done, next, inst)
    requires CallsHold(s, live) && live !! done
    ensures CallsHold(Updated(s, done, next, inst, cycle), live)
  {
    var rest, top := Front(s), Last(s);
    var s' := Updated(s, done, next, inst, cycle);
    var targets := Targets(top.mask - done, next);
    if targets == {} {
    } else if inst.op.CallOps? {
      UniformGroup(s, done, next, live, FirstPath(targets, NotTaken(inst)));
      assert Front(s') == s;
    } else if inst.op.RetOps? && top.kind.Call? {
      if s' != Front(rest) {
        assert Front(s') == Front(rest);
      }
    } else {
      PlainKeepsCalls(s, done, next, inst, cycle, live);
    }
  }

  lemma StepKeepsInv<L>(p: Program<L>, w: Warp<L>, cycle: nat, launched: Mask)
    requires Inv(p, w, launched) && StepOk(p, w)
    ensures Inv(p, Step(p, w, cycle), launched)
  {
    var w' := Step(p, w, cycle);
    var inst, done, next := p.inst(Last(w.stack).pc), DoneMask(p, w'.lanes), NextPcs(p, w'.lanes);
    var live, live' := Live(p, w, launched), Live(p, w', launched);
    assert live' <= live;
    UpdateKeepsMasks(w.stack, done, next, inst, cycle, launched);
    CallsHoldPrefix(w.stack, live, live');
    UpdateKeepsCalls(w.stack, done, next, inst, cycle, live');
    forall i | i in live' ensures LaneOk(w'.stack, i, p.pcOf(w'.lanes[i])) {
      assert LaneOk(w.stack, i, p.pcOf(w.lanes[i]));
      UpdateKeepsLane(w.stack, done, next, inst, cycle, live', i);
    }
  }

  lemma {:induction false} RunInv<L>(p: Program<L>, ws: seq<Warp<L>>, cycles: nat -> nat, pc: Pc, launched: Mask,
                                     n: nat)
    requires IsRun(p, ws, cycles, pc, launched) && n < |ws|
    ensures Inv(p, ws[n], launched)
  {
    if n == 0 {
      LaunchInv(p, ws[0], pc, launched);
    } else {
      RunInv(p, ws, cycles, pc, launched, n - 1);
      assert StepsAt(p, ws, cycles, n - 1);
      StepKeepsInv(p, ws[n - 1], cycles(n - 1), launched);
    }
  }

  /** A run goes on with any step that is possible. */
  lemma RunOn<L>(p: Program<L>, ws: seq<Warp<L>>, cycles: nat -> nat, pc: Pc, launched: Mask)
    requires IsRun(p, ws, cycles, pc, launched) && StepOk(p, ws[|ws| - 1])
    ensures IsRun(p, ws + [Step(p, ws[|ws| - 1], cycles(|ws| - 1))], cycles, pc, launched)
  {
    var more := ws + [Step(p, ws[|ws| - 1], cycles(|ws| - 1))];
    forall k: nat {:trigger StepsAt(p, more, cycles, k)} | k + 1 < |more| ensures StepsAt(p, more, cycles, k) {
      if k + 1 < |ws| {
        assert StepsAt(p, ws, cycles, k);
      }
    }
  }

  // ---------- lockstep refines sequential ----------

  /** In every state of a run, the lanes that execute next are at the pc that is fetched for them, and a
      live lane that waits is at the pc of the topmost entry that holds it. */
  lemma OwnersAtLanePc<L>(p: Program<L>, ws: seq<Warp<L>>, cycles: nat -> nat, pc: Pc, launched: Mask, n: nat, i: nat)
    requires IsRun(p, ws, cycles, pc, launched) && n < |ws|
    requires i in launched && i < |ws[n].lanes| && !p.isDone(ws[n].lanes[i])
    ensures exists k :: 0 <= k < |ws[n].stack| && i in ws[n].stack[k].mask
                        && ws[n].stack[k].pc == p.pcOf(ws[n].lanes[i])
                        && forall j :: k < j < |ws[n].stack| ==> i !in ws[n].stack[j].mask
  {
    RunInv(p, ws, cycles, pc, launched, n);
    assert LaneOk(ws[n].stack, i, p.pcOf(ws[n].lanes[i]));
    var k := OwnerIndex(ws[n].stack, i);
  }

  /** The pcs fetched for lane `i` in the first `n` steps of the lockstep run. */
  ghost function Fetches<L>(p: Program<L>, ws: seq<Warp<L>>, i: nat, n: nat): (pcs: seq<Pc>)
    requires n <= |ws|
  {
    if n == 0 then []
    else Fetches(p, ws, i, n - 1) + (if Runs(p, ws[n - 1], i) then [Last(ws[n - 1].stack).pc] else [])
  }

  ghost predicate Runs<L>(p: Program<L>, w: Warp<L>, i: nat) {
    w.stack != [] && i < |w.lanes| && i in Last(w.stack).mask && !p.isDone(w.lanes[i])
  }

  /** One lockstep step is one own step for a lane that runs, and nothing for any other. */
  lemma LaneMoves<L>(p: Program<L>, w: Warp<L>, cycle: nat, launched: Mask, i: nat)
    requires Inv(p, w, launched) && StepOk(p, w) && i < |w.lanes|
    ensures |Step(p, w, cycle).lanes| == |w.lanes|
    ensures Runs(p, w, i) ==>
              i in launched && Last(w.stack).pc == p.pcOf(w.lanes[i])
              && Step(p, w, cycle).lanes[i] == OwnStep(p, w.lanes[i])
    ensures !Runs(p, w, i) ==> Step(p, w, cycle).lanes[i] == w.lanes[i]
  {
    if Runs(p, w, i) {
      assert Last(w.stack) in w.stack;
      assert LaneOk(w.stack, i, p.pcOf(w.lanes[i]));
    }
  }

  lemma RunLane<L>(p: Program<L>, ws: seq<Warp<L>>, cycles: nat -> nat, pc: Pc, launched: Mask, n: nat, i: nat)
    requires IsRun(p, ws, cycles, pc, launched) && n + 1 < |ws| && i < |ws[n].lanes|
    ensures |ws[n + 1].lanes| == |ws[n].lanes|
    ensures Runs(p, ws[n], i) ==> i in launched && Last(ws[n].stack).pc == p.pcOf(ws[n].lanes[i])
    ensures ws[n + 1].lanes[i] == if Runs(p, ws[n], i) then OwnStep(p, ws[n].lanes[i]) else ws[n].lanes[i]
  {
    RunInv(p, ws, cycles, pc, launched, n);
    assert StepsAt(p, ws, cycles, n);
    LaneMoves(p, ws[n], cycles(n), launched, i);
  }

  /** The refinement: after `n` lockstep steps a lane has fetched exactly the pcs it would have fetched
      running alone for as many instructions as it was given, and is in the state it would be in. */
  lemma {:induction false} LockstepIsSequential<L>(p: Program<L>, ws: seq<Warp<L>>, cycles: nat -> nat, pc: Pc,
                                                   launched: Mask, i: nat, n: nat)
    requires IsRun(p, ws, cycles, pc, launched) && n < |ws| && i < |ws[0].lanes|
    ensures |ws[n].lanes| == |ws[0].lanes|
    ensures i !in launched ==> Fetches(p, ws, i, n) == []
    ensures var pcs := Fetches(p, ws, i, n);
            ws[n].lanes[i] == OwnRun(p, ws[0].lanes[i], |pcs|) && pcs == OwnFetches(p, ws[0].lanes[i], |pcs|)
  {
    if n > 0 {
      LockstepIsSequential(p, ws, cycles, pc, launched, i, n - 1);
      RunLane(p, ws, cycles, pc, launched, n - 1, i);
      var pcs, own := Fetches(p, ws, i, n - 1), ws[0].lanes[i];
      if Runs(p, ws[n - 1], i) {
        assert Fetches(p, ws, i, n) == pcs + [p.pcOf(OwnRun(p, own, |pcs|))];
      } else {
        assert Fetches(p, ws, i, n) == pcs;
      }
    }
  }

  /** The stack empties only when every launched lane is done. */
  lemma EmptyMeansDone<L>(p: Program<L>, ws: seq<Warp<L>>, cycles: nat -> nat, pc: Pc, launched: Mask, n: nat, i: nat)
    requires IsRun(p, ws, cycles, pc, launched) && n < |ws| && ws[n].stack == [] && i in launched
    ensures i < |ws[n].lanes| && p.isDone(ws[n].lanes[i])
  {
    RunInv(p, ws, cycles, pc, launched, n);
  }
}
