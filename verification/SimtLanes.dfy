/** The SIMT stack seen by one lane. Reading the stack from the top, the first entry whose mask holds
    the lane is the entry that will fetch for it; `update` keeps the pc of that entry equal to the
    lane's own pc, exactly when a branch to the reconvergence pc of the top entry also reconverges there. */
module SimtLanes {
  import opened Basics
  import opened SimtStack

  ghost function Last<T>(s: seq<T>): (x: T)
    requires s != []
  {
    s[|s| - 1]
  }

  ghost function Front<T>(s: seq<T>): (r: seq<T>)
    requires s != []
  {
    s[..|s| - 1]
  }

  lemma FrontAndLast<T>(s: seq<T>)
    requires s != []
    ensures s == Front(s) + [Last(s)]
  {
  }

  lemma LastOfAll<T>(s: seq<T>, t: seq<T>)
    requires t != []
    ensures s + t == (s + Front(t)) + [Last(t)]
  {
  }

  lemma FirstOfAll<T>(s: seq<T>, t: seq<T>)
    requires t != []
    ensures s + t == (s + [t[0]]) + t[1..]
  {
  }

  ghost predicate Held(s: seq<Entry>, i: nat) {
    s != [] && (i in Last(s).mask || Held(Front(s), i))
  }

  /** The pc of the topmost entry that holds lane `i`; the null pc when there is none. */
  ghost function OwnerPc(s: seq<Entry>, i: nat): (pc: Pc) {
    if s == [] then NULL_PC
    else if i in Last(s).mask then Last(s).pc
    else OwnerPc(Front(s), i)
  }

  /** Every entry that holds lane `i` reconverges at the pc of the next lower entry that holds it;
      CALL entries never reconverge and sit on an entry that holds the lane. */
  ghost predicate Nested(s: seq<Entry>, i: nat) {
    s == [] ||
    (Nested(Front(s), i) &&
     (i in Last(s).mask ==>
        if Last(s).kind.Call? then Last(s).recvg == NULL_PC && Held(Front(s), i)
        else Last(s).recvg == OwnerPc(Front(s), i)))
  }

  /** A CALL entry sits right on its caller entry and holds the same lanes of `live`. */
  ghost predicate CallsHold(s: seq<Entry>, live: Mask) {
    s == [] ||
    (CallsHold(Front(s), live) &&
     (Last(s).kind.Call? ==> Front(s) != [] && Last(Front(s)).mask * live <= Last(s).mask <= Last(Front(s)).mask))
  }

  ghost predicate LaneOk(s: seq<Entry>, i: nat, pc: Pc) {
    Held(s, i) && Nested(s, i) && OwnerPc(s, i) == pc
  }

  /** When two paths leave a branch: if one of them goes to where the top entry reconverges, the branch
      itself must reconverge there; a branch on top of a CALL entry must have a reconvergence pc. */
  ghost predicate Reconverges(s: seq<Entry>, done: Mask, next: seq<Pc>, inst: Inst)
    requires s != [] && MaskFits(Last(s).mask, |next|)
  {
    var top, targets := Last(s), Targets(Last(s).mask - done, next);
    |targets| == 2 ==>
      if top.kind.Normal? then top.recvg in targets ==> inst.recvg == top.recvg
      else inst.recvg != top.recvg
  }

  // ---------- pushing and skipping entries ----------

  lemma Pushed(s: seq<Entry>, e: Entry, i: nat)
    ensures Front(s + [e]) == s && Last(s + [e]) == e
    ensures Held(s + [e], i) == (i in e.mask || Held(s, i))
    ensures OwnerPc(s + [e], i) == if i in e.mask then e.pc else OwnerPc(s, i)
    ensures Nested(s + [e], i) ==
            (Nested(s, i) && (i in e.mask ==> if e.kind.Call? then e.recvg == NULL_PC && Held(s, i)
                                              else e.recvg == OwnerPc(s, i)))
  {
    assert Front(s + [e]) == s;
  }

  lemma {:induction false} Skipped(s: seq<Entry>, t: seq<Entry>, i: nat)
    requires forall e :: e in t ==> i !in e.mask
    ensures Held(s + t, i) == Held(s, i) && OwnerPc(s + t, i) == OwnerPc(s, i) && Nested(s + t, i) == Nested(s, i)
  {
    if t == [] {
      assert s + t == s;
    } else {
      assert s + t == (s + Front(t)) + [Last(t)];
      Skipped(s, Front(t), i);
      Pushed(s + Front(t), Last(t), i);
    }
  }

  lemma {:induction false} OwnedIsHeld(s: seq<Entry>, i: nat)
    requires OwnerPc(s, i) != NULL_PC
    ensures Held(s, i)
  {
    if i !in Last(s).mask {
      OwnedIsHeld(Front(s), i);
    }
  }

  /** `OwnerPc` in terms of indices. */
  lemma {:induction false} OwnerIndex(s: seq<Entry>, i: nat) returns (k: nat)
    requires Held(s, i)
    ensures k < |s| && i in s[k].mask && s[k].pc == OwnerPc(s, i)
    ensures forall j :: k < j < |s| ==> i !in s[j].mask
  {
    if i in Last(s).mask {
      k := |s| - 1;
    } else {
      k := OwnerIndex(Front(s), i);
      assert forall j :: k < j < |s| ==> j == |s| - 1 || s[j] == Front(s)[j];
    }
  }

  // ---------- one update, one lane ----------

  /** A lane outside the executing entry is not touched. */
  lemma OtherLane(s: seq<Entry>, done: Mask, next: seq<Pc>, inst: Inst, cycle: nat, i: nat, live: Mask)
    requires UpdateOk(s, done, next, inst)
    requires i !in Last(s).mask && i in live && CallsHold(s, live)
    requires LaneOk(s, i, OwnerPc(s, i))
    ensures LaneOk(Updated(s, done, next, inst, cycle), i, OwnerPc(s, i))
  {
    var rest, top := Front(s), Last(s);
    var s' := Updated(s, done, next, inst, cycle);
    var targets := Targets(top.mask - done, next);
    if targets == {} {
    } else if inst.op.CallOps? {
      Pushed(s, Last(s'), i);
    } else if inst.op.RetOps? && top.kind.Call? {
      var caller := Last(rest);
      assert i !in caller.mask && rest == Front(rest) + [caller];
      Pushed(Front(rest), caller, i);
      Pushed(Front(rest), caller.(pc := FirstPath(targets, NotTaken(inst))), i);
    } else {
      var t := s'[|rest|..];
      assert s' == rest + t;
      Skipped(rest, t, i);
    }
  }

  /** A running lane that calls or returns. */
  lemma CallingLane(s: seq<Entry>, done: Mask, next: seq<Pc>, inst: Inst, cycle: nat, i: nat)
    requires UpdateOk(s, done, next, inst) && IsCallOrReturn(inst, Last(s))
    requires i in Last(s).mask && i !in done && LaneOk(s, i, inst.pc)
    requires inst.op.RetOps? && Last(s).kind.Call? ==> |s| > 1 && i in Last(Front(s)).mask
    ensures LaneOk(Updated(s, done, next, inst, cycle), i, next[i])
  {
    var rest, top := Front(s), Last(s);
    var s' := Updated(s, done, next, inst, cycle);
    var targets := Targets(top.mask - done, next);
    assert next[i] in targets;
    SingletonIs(targets, next[i]);
    if inst.op.CallOps? {
      Pushed(s, Last(s'), i);
    } else {
      var caller := Last(rest);
      assert Nested(rest, i);
      Pushed(Front(rest), caller, i);
      Pushed(Front(rest), caller.(pc := next[i]), i);
      assert s' == Returned(rest, next[i]);
      if next[i] == caller.recvg && caller.kind.Normal? {
        OwnedIsHeld(Front(rest), i);
      }
    }
  }

  /** A running lane of a warp that stays together. */
  lemma UniformLane(s: seq<Entry>, done: Mask, next: seq<Pc>, inst: Inst, cycle: nat, i: nat)
    requires UpdateOk(s, done, next, inst) && !IsCallOrReturn(inst, Last(s))
    requires i in Last(s).mask && i !in done && LaneOk(s, i, inst.pc)
    requires |Targets(Last(s).mask - done, next)| == 1
    ensures LaneOk(Updated(s, done, next, inst, cycle), i, next[i])
  {
    var rest, top := Front(s), Last(s);
    var targets := Targets(top.mask - done, next);
    assert next[i] in targets;
    SingletonIs(targets, next[i]);
    var g := Group(top.mask - done, next, next[i]);
    assert i in g;
    Pushed(rest, top.(pc := next[i], mask := g), i);
    if next[i] == top.recvg && top.kind.Normal? {
      OwnedIsHeld(rest, i);
    }
  }

  /** What keeps a lane at its own pc when its entry splits, with next pc `n` where `p` is the path handled first: if
      it heads for where a normal entry reconverges, the branch reconverges there too; on a CALL entry the branch has
      a reconvergence pc of its own, or the lane stays in the entry, or its caller waits at the null pc. */
  ghost predicate Kept(s: seq<Entry>, recvg: Pc, p: Pc, n: Pc, i: nat)
    requires s != []
  {
    if Last(s).kind.Normal? then n == Last(s).recvg ==> recvg == Last(s).recvg
    else recvg != Last(s).recvg || n == p || OwnerPc(Front(s), i) == NULL_PC
  }

  /** Up to three entries put on a stack one after the other. */
  lemma PushedAll(s: seq<Entry>, t: seq<Entry>)
    requires 1 <= |t| <= 3
    ensures |t| == 1 ==> s + t == s + [t[0]]
    ensures |t| == 2 ==> s + t == s + [t[0]] + [t[1]]
    ensures |t| == 3 ==> s + t == s + [t[0]] + [t[1]] + [t[2]]
  {
  }

  /** The entries that replace the top entry of a diverging warp, seen by one of its lanes: its owner is at `n`, its
      next pc, exactly when it is kept. */
  lemma DivergedLane(rest: seq<Entry>, top: Entry, recvg: Pc, cycle: nat, p: Pc, pMask: Mask, q: Pc, qMask: Mask,
                     i: nat, n: Pc)
    requires p != q && pMask !! qMask && p != NULL_PC && q != NULL_PC && i in top.mask
    requires (n == p && i in pMask) || (n == q && i in qMask)
    requires Nested(rest + [top], i)
    ensures LaneOk(rest + Diverge(top, recvg, cycle, p, pMask, q, qMask), i, n) <==> Kept(rest + [top], recvg, p, n, i)
  {
    var t := Diverge(top, recvg, cycle, p, pMask, q, qMask);
    Pushed(rest, top, i);
    if OwnerPc(rest, i) != NULL_PC {
      OwnedIsHeld(rest, i);
    }
    PushedAll(rest, t);
    Pushed(rest, t[0], i);
    if |t| > 1 {
      Pushed(rest + [t[0]], t[1], i);
    }
    if |t| > 2 {
      Pushed(rest + [t[0]] + [t[1]], t[2], i);
    }
  }

  /** The path of a splitting warp that `update` handles first. */
  ghost function FirstOf(s: seq<Entry>, done: Mask, next: seq<Pc>, inst: Inst): (p: Pc)
    requires s != [] && MaskFits(Last(s).mask, |next|) && Targets(Last(s).mask - done, next) != {}
  {
    FirstPath(Targets(Last(s).mask - done, next), NotTaken(inst))
  }

  /** A running lane of a diverging warp: `update` keeps its owner at its own pc if and only if the lane is kept. */
  lemma DivergingLane(s: seq<Entry>, done: Mask, next: seq<Pc>, inst: Inst, cycle: nat, i: nat)
    requires UpdateOk(s, done, next, inst) && !IsCallOrReturn(inst, Last(s))
    requires i in Last(s).mask && i !in done && LaneOk(s, i, inst.pc)
    requires |Targets(Last(s).mask - done, next)| == 2
    ensures LaneOk(Updated(s, done, next, inst, cycle), i, next[i])
       <==> Kept(s, inst.recvg, FirstOf(s, done, next, inst), next[i], i)
  {
    var rest, top := Front(s), Last(s);
    var live := top.mask - done;
    var targets := Targets(live, next);
    var p := FirstPath(targets, NotTaken(inst));
    OtherMember(targets, p);
    var q := FirstPath(targets - {p}, NotTaken(inst));
    SingletonIs(targets - {p}, q);
    assert targets == {p, q};
    assert next[i] in targets;
    assert rest + [top] == s;
    DivergedLane(rest, top, inst.recvg, cycle, p, Group(live, next, p), q, Group(live, next, q), i, next[i]);
  }

  /** The callers of all lanes that leave a splitting CALL entry wait at the null pc. */
  ghost predicate NullCallers(s: seq<Entry>, done: Mask, next: seq<Pc>, inst: Inst)
    requires s != [] && MaskFits(Last(s).mask, |next|) && Targets(Last(s).mask - done, next) != {}
  {
    && Last(s).kind.Call?
    && forall i :: i in Last(s).mask - done && next[i] != FirstOf(s, done, next, inst) ==>
         OwnerPc(Front(s), i) == NULL_PC
  }

  /** The condition on reconvergence is exact: when a warp splits, `update` keeps every running lane owned at its own pc
      if and only if it holds; on a CALL entry the only other case is that the callers wait at the null pc. */
  lemma ReconvergenceExact(s: seq<Entry>, done: Mask, next: seq<Pc>, inst: Inst, cycle: nat)
    requires UpdateOk(s, done, next, inst) && !IsCallOrReturn(inst, Last(s))
    requires |Targets(Last(s).mask - done, next)| == 2
    requires forall i :: i in Last(s).mask - done ==> LaneOk(s, i, inst.pc)
    ensures (forall i :: i in Last(s).mask - done ==> LaneOk(Updated(s, done, next, inst, cycle), i, next[i]))
       <==> Reconverges(s, done, next, inst) || NullCallers(s, done, next, inst)
  {
    var top, s' := Last(s), Updated(s, done, next, inst, cycle);
    forall i | i in top.mask - done
      ensures LaneOk(s', i, next[i]) <==> Kept(s, inst.recvg, FirstOf(s, done, next, inst), next[i], i)
      ensures next[i] in Targets(top.mask - done, next)
    {
      DivergingLane(s, done, next, inst, cycle, i);
    }
  }

  const LOSING_STACK: seq<Entry> := [Entry(8, 1, {0, 1}, NULL_PC, 0, Normal), Entry(4, 0, {0, 1}, 8, 0, Normal)]
  const LOSING_NEXT: seq<Pc> := [5, 8]
  const LOSING_BRANCH: Inst := Inst(4, OtherOps, 1, 6)

  /** A branch that does not meet the condition loses a lane: lane 1 jumps to 8, where the top entry
      reconverges, but the branch reconverges at 6, and lane 1 ends up owned by an entry at 6. */
  lemma LostLane()
    ensures UpdateOk(LOSING_STACK, {}, LOSING_NEXT, LOSING_BRANCH)
    ensures LaneOk(LOSING_STACK, 0, 4) && LaneOk(LOSING_STACK, 1, 4)
    ensures OwnerPc(Updated(LOSING_STACK, {}, LOSING_NEXT, LOSING_BRANCH, 0), 1) == 6 != LOSING_NEXT[1]
  {
    var s, next, inst := LOSING_STACK, LOSING_NEXT, LOSING_BRANCH;
    assert Front(s) == [s[0]] && Front([s[0]]) == [];
    var live: Mask := {0, 1};
    assert s[1].mask - {} == live;
    var targets := Targets(live, next);
    assert next[0] in targets && next[1] in targets;
    assert targets == {5, 8};
    assert targets - {5} == {8};
    assert FirstPath(targets, NotTaken(inst)) == 5;
    assert FirstPath(targets - {5}, NotTaken(inst)) == 8;
    assert Group(live, next, 5) == {0};
    var s' := Updated(s, {}, next, inst, 0);
    assert Front(s') == [s[0], s[1].(pc := 6, divCycle := 0)];
  }

  /** `update` keeps every live lane owned at its own pc. */
  lemma UpdateKeepsLane(s: seq<Entry>, done: Mask, next: seq<Pc>, inst: Inst, cycle: nat, live: Mask, i: nat)
    requires UpdateOk(s, done, next, inst) && Reconverges(s, done, next, inst)
    requires CallsHold(s, live) && i in live && i !in done
    requires LaneOk(s, i, OwnerPc(s, i))
    ensures LaneOk(Updated(s, done, next, inst, cycle), i, if i in Last(s).mask then next[i] else OwnerPc(s, i))
  {
    if i !in Last(s).mask {
      OtherLane(s, done, next, inst, cycle, i, live);
    } else {
      var targets := Targets(Last(s).mask - done, next);
      assert next[i] in targets;
      if IsCallOrReturn(inst, Last(s)) {
        CallingLane(s, done, next, inst, cycle, i);
      } else if |targets| == 1 {
        UniformLane(s, done, next, inst, cycle, i);
      } else {
        DivergingLane(s, done, next, inst, cycle, i);
      }
    }
  }
}
