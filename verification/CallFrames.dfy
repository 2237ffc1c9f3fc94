/** Calls on the SIMT stack. Every CALL entry stands on the entry that made the call and starts a frame; a lane has, for
    as long as it lives, exactly the outstanding calls of the entry that owns it. */
module CallFrames {
  import opened Basics
  import opened SimtStack
  import opened SimtLanes

  /** The pcs of the outstanding calls, from the outermost. */
  ghost function CallPcs(s: seq<Entry>): (f: seq<Pc>) {
    if s == [] then []
    else CallPcs(Front(s)) + if Last(s).kind.Call? && Front(s) != [] then [Last(Front(s)).pc] else []
  }

  /** Lane `i` has the outstanding calls `f`: those of the entry that owns it. A CALL entry takes one call back to the
      entry below; a normal one leaves them as they are. */
  ghost predicate InFrame(s: seq<Entry>, i: nat, f: seq<Pc>) {
    s == [] ||
    if i !in Last(s).mask then InFrame(Front(s), i, f)
    else f == CallPcs(s) && InFrame(Front(s), i, if Last(s).kind.Call? && f != [] then Front(f) else f)
  }

  lemma CallPcsPushed(s: seq<Entry>, e: Entry)
    ensures CallPcs(s + [e]) == CallPcs(s) + if e.kind.Call? && s != [] then [Last(s).pc] else []
  {
    assert Front(s + [e]) == s;
  }

  lemma FramePushed(s: seq<Entry>, e: Entry, i: nat, f: seq<Pc>)
    ensures InFrame(s + [e], i, f) ==
            if i !in e.mask then InFrame(s, i, f)
            else f == CallPcs(s + [e]) && InFrame(s, i, if e.kind.Call? && f != [] then Front(f) else f)
  {
    assert Front(s + [e]) == s;
  }

  lemma {:induction false} NormalsInFrame(s: seq<Entry>, t: seq<Entry>)
    requires forall e :: e in t ==> e.kind.Normal?
    ensures CallPcs(s + t) == CallPcs(s)
  {
    if t == [] {
      assert s + t == s;
    } else {
      assert s + t == (s + Front(t)) + [Last(t)];
      NormalsInFrame(s, Front(t));
      CallPcsPushed(s + Front(t), Last(t));
    }
  }

  /** Normal entries put on an entry of the frame. */
  lemma {:induction false} NormalsOnFrame(s: seq<Entry>, t: seq<Entry>, i: nat, f: seq<Pc>)
    requires InFrame(s, i, f) && f == CallPcs(s) && forall e :: e in t ==> e.kind.Normal?
    ensures InFrame(s + t, i, f)
  {
    if t == [] {
      assert s + t == s;
    } else {
      assert s + t == (s + Front(t)) + [Last(t)];
      NormalsOnFrame(s, Front(t), i, f);
      NormalsInFrame(s, t);
      FramePushed(s + Front(t), Last(t), i, f);
    }
  }

  /** Entries without the lane. */
  lemma {:induction false} OthersOnFrame(s: seq<Entry>, t: seq<Entry>, i: nat, f: seq<Pc>)
    requires InFrame(s, i, f) && forall e :: e in t ==> i !in e.mask
    ensures InFrame(s + t, i, f)
  {
    if t == [] {
      assert s + t == s;
    } else {
      assert s + t == (s + Front(t)) + [Last(t)];
      OthersOnFrame(s, Front(t), i, f);
      FramePushed(s + Front(t), Last(t), i, f);
    }
  }

  /** The top entry rewritten. */
  lemma FrameRewritten(rest: seq<Entry>, top: Entry, e: Entry, i: nat, f: seq<Pc>)
    requires InFrame(rest + [top], i, f) && e.kind == top.kind && (i in e.mask <==> i in top.mask)
    ensures InFrame(rest + [e], i, f)
  {
    CallPcsPushed(rest, top);
    CallPcsPushed(rest, e);
    FramePushed(rest, top, i, f);
    FramePushed(rest, e, i, f);
  }

  /** While no call is outstanding on the stack, none is for a lane that it holds. */
  lemma {:induction false} NoneOutstanding(s: seq<Entry>, i: nat, f: seq<Pc>)
    requires InFrame(s, i, f) && Held(s, i) && CallPcs(s) == []
    ensures f == []
  {
    if i !in Last(s).mask {
      NoneOutstanding(Front(s), i, f);
    }
  }

  // ---------- one update, one lane ----------

  /** The outstanding calls of a lane that has executed `inst` in the entry `top`. */
  ghost function FramesAfter(top: Entry, inst: Inst, f: seq<Pc>): (r: seq<Pc>) {
    if inst.op.CallOps? then f + [inst.pc]
    else if inst.op.RetOps? && top.kind.Call? && f != [] then Front(f)
    else f
  }

  lemma OtherFrame(s: seq<Entry>, done: Mask, next: seq<Pc>, inst: Inst, cycle: nat, i: nat, live: Mask, f: seq<Pc>)
    requires UpdateOk(s, done, next, inst) && CallsHold(s, live)
    requires i !in Last(s).mask && i in live && InFrame(s, i, f)
    ensures InFrame(Updated(s, done, next, inst, cycle), i, f)
  {
    var rest, top := Front(s), Last(s);
    var s' := Updated(s, done, next, inst, cycle);
    var targets := Targets(top.mask - done, next);
    if targets == {} {
    } else if inst.op.CallOps? {
      FramePushed(s, Last(s'), i, f);
    } else if inst.op.RetOps? && top.kind.Call? {
      var caller := Last(rest);
      assert i !in caller.mask && rest == Front(rest) + [caller];
      FrameRewritten(Front(rest), caller, caller.(pc := FirstPath(targets, NotTaken(inst))), i, f);
    } else {
      var t := s'[|rest|..];
      assert s' == rest + t;
      OthersOnFrame(rest, t, i, f);
    }
  }

  lemma CallFrame(s: seq<Entry>, e: Entry, i: nat, f: seq<Pc>)
    requires s != [] && i in Last(s).mask && i in e.mask && InFrame(s, i, f) && e.kind.Call?
    ensures InFrame(s + [e], i, f + [Last(s).pc])
  {
    var f' := f + [Last(s).pc];
    assert Front(f') == f;
    CallPcsPushed(s, e);
    FramePushed(s, e, i, f');
  }

  lemma ReturnFrame(rest: seq<Entry>, top: Entry, p: Pc, i: nat, f: seq<Pc>)
    requires rest != [] && i in Last(rest).mask && i in top.mask && InFrame(rest + [top], i, f) && top.kind.Call?
    ensures f != [] && InFrame(Returned(rest, p), i, Front(f))
  {
    var caller := Last(rest);
    CallPcsPushed(rest, top);
    FramePushed(rest, top, i, f);
    FrontAndLast(rest);
    FrameRewritten(Front(rest), caller, caller.(pc := p), i, Front(f));
  }

  lemma CallingFrame(s: seq<Entry>, done: Mask, next: seq<Pc>, inst: Inst, cycle: nat, i: nat, f: seq<Pc>)
    requires UpdateOk(s, done, next, inst) && IsCallOrReturn(inst, Last(s))
    requires i in Last(s).mask && i !in done && InFrame(s, i, f)
    requires inst.op.RetOps? && Last(s).kind.Call? ==> |s| > 1 && i in Last(Front(s)).mask
    ensures InFrame(Updated(s, done, next, inst, cycle), i, FramesAfter(Last(s), inst, f))
  {
    var rest, top := Front(s), Last(s);
    var s' := Updated(s, done, next, inst, cycle);
    var targets := Targets(top.mask - done, next);
    assert next[i] in targets;
    SingletonIs(targets, next[i]);
    if inst.op.CallOps? {
      var e := Entry(next[i], 0, Group(top.mask - done, next, next[i]), NULL_PC, cycle, Call);
      assert s' == s + [e];
      CallFrame(s, e, i, f);
    } else {
      FrontAndLast(s);
      ReturnFrame(rest, top, next[i], i, f);
    }
  }

  lemma UniformFrame(s: seq<Entry>, done: Mask, next: seq<Pc>, inst: Inst, cycle: nat, i: nat, f: seq<Pc>)
    requires UpdateOk(s, done, next, inst) && !IsCallOrReturn(inst, Last(s))
    requires i in Last(s).mask && i !in done && InFrame(s, i, f)
    requires |Targets(Last(s).mask - done, next)| == 1
    ensures InFrame(Updated(s, done, next, inst, cycle), i, f)
  {
    var rest, top := Front(s), Last(s);
    var targets := Targets(top.mask - done, next);
    assert next[i] in targets;
    SingletonIs(targets, next[i]);
    var g := Group(top.mask - done, next, next[i]);
    assert i in g && s == rest + [top];
    FrameRewritten(rest, top, top.(pc := next[i], mask := g), i, f);
  }

  lemma DivergeKinds(top: Entry, r: Pc, cycle: nat, a: Pc, aMask: Mask, b: Pc, bMask: Mask)
    requires a != b
    ensures var t := Diverge(top, r, cycle, a, aMask, b, bMask);
            top.kind.Normal? || r != top.recvg ==>
              t != [] && t[0].kind == top.kind && forall k: nat :: 0 < k < |t| ==> t[k].kind.Normal?
  {
  }

  lemma DivergingFrame(rest: seq<Entry>, top: Entry, recvg: Pc, cycle: nat, p: Pc, pMask: Mask, q: Pc, qMask: Mask,
                       i: nat, f: seq<Pc>)
    requires p != q && i in top.mask && InFrame(rest + [top], i, f) && (top.kind.Call? ==> recvg != top.recvg)
    ensures InFrame(rest + Diverge(top, recvg, cycle, p, pMask, q, qMask), i, f)
  {
    var t := Diverge(top, recvg, cycle, p, pMask, q, qMask);
    var first := rest + [t[0]];
    DivergeKinds(top, recvg, cycle, p, pMask, q, qMask);
    FirstOfAll(rest, t);
    CallPcsPushed(rest, top);
    CallPcsPushed(rest, t[0]);
    FramePushed(rest, top, i, f);
    FramePushed(rest, t[0], i, f);
    NormalsOnFrame(first, t[1..], i, f);
  }

  /** `update` keeps every live lane in the frame that it is in itself. */
  lemma UpdateKeepsFrame(s: seq<Entry>, done: Mask, next: seq<Pc>, inst: Inst, cycle: nat, live: Mask, i: nat,
                         f: seq<Pc>)
    requires UpdateOk(s, done, next, inst) && Reconverges(s, done, next, inst)
    requires CallsHold(s, live) && i in live && i !in done && InFrame(s, i, f)
    ensures var f' := if i in Last(s).mask then FramesAfter(Last(s), inst, f) else f;
            InFrame(Updated(s, done, next, inst, cycle), i, f')
  {
    var rest, top := Front(s), Last(s);
    if i !in top.mask {
      OtherFrame(s, done, next, inst, cycle, i, live, f);
    } else {
      var targets := Targets(top.mask - done, next);
      assert next[i] in targets;
      if IsCallOrReturn(inst, top) {
        CallingFrame(s, done, next, inst, cycle, i, f);
      } else if |targets| == 1 {
        UniformFrame(s, done, next, inst, cycle, i, f);
      } else {
        var p := FirstPath(targets, NotTaken(inst));
        OtherMember(targets, p);
        var q :| q in targets && q != p && targets == {p, q};
        UpdatedTwo(s, done, next, inst, cycle, p, q);
        assert rest + [top] == s;
        DivergingFrame(rest, top, inst.recvg, cycle, p, Group(top.mask - done, next, p), q,
                       Group(top.mask - done, next, q), i, f);
      }
    }
  }
}
