/** The SIMT reconvergence stack of one warp (src/abstract_hardware_model.cc, class simt_stack):
    its entries, the partition of a warp by next pc, what one `update` does to the stack, and
    the mutable stack object proved against that specification.
 */
module SimtStack {
  import opened Basics

  /** A 32-bit program counter (`address_type` is `unsigned`). */
  type Pc = x: int | 0 <= x < 0x1_0000_0000

  /** `(address_type)-1`: no pc, and "no reconvergence point". */
  const NULL_PC: Pc := 0xFFFF_FFFF

  const MAX_WARP_SIZE: nat := 32

  /** A lane mask: the lanes whose bit is set. */
  type Mask = set<nat>

  datatype EntryKind = Normal | Call

  datatype Op = CallOps | RetOps | OtherOps

  datatype Entry = Entry(pc: Pc, calldepth: nat, mask: Mask, recvg: Pc, divCycle: nat, kind: EntryKind)

  /** The default-constructed entry that `update` pushes before filling it in. */
  const BLANK: Entry := Entry(NULL_PC, 0, {}, NULL_PC, 0, Normal)

  /** What `update` reads of the warp instruction just executed. */
  datatype Inst = Inst(pc: Pc, op: Op, size: nat, recvg: Pc)

  ghost predicate MaskFits(m: Mask, warpSize: nat) {
    forall i :: i in m ==> i < warpSize
  }

  function NotTaken(inst: Inst): (pc: Pc) {
    (inst.pc + inst.size) % 0x1_0000_0000
  }

  // ---------- partition by next pc ----------

  /** The lanes of `live` whose next pc is `pc`. */
  function Group(live: Mask, next: seq<Pc>, pc: Pc): (g: Mask)
    requires MaskFits(live, |next|)
  {
    set i | i in live && next[i] == pc
  }

  /** The distinct next pcs of the lanes in `live`. */
  function Targets(live: Mask, next: seq<Pc>): (t: set<Pc>)
    requires MaskFits(live, |next|)
  {
    set i | i in live :: next[i]
  }

  /** `divergent_paths` when it is complete: one key per distinct next pc. */
  function Partition(live: Mask, next: seq<Pc>): (m: map<Pc, Mask>)
    requires MaskFits(live, |next|)
  {
    map pc | pc in Targets(live, next) :: Group(live, next, pc)
  }

  /** One round of the divergence-extraction loop: drop the finished lanes from `active` and take
      out the lanes that share the next pc of the highest live lane. */
  method ExtractGroup(before: Mask, done: Mask, next: seq<Pc>) returns (pc: Pc, group: Mask, active: Mask)
    requires MaskFits(before, |next|) && before != {}
    requires forall i :: i in before - done ==> next[i] != NULL_PC
    ensures pc == NULL_PC ==> before <= done && active == {}
    ensures pc != NULL_PC ==> group == Group(before - done, next, pc) != {} && active == before - done - group
    ensures |active| < |before|
  {
    var i := |next|;
    pc, group, active := NULL_PC, {}, before;
    while i > 0
      invariant i <= |next|
      invariant active <= before && group <= before - done
      invariant forall j :: j in before ==> (j in active <==> j < i || (j !in done && next[j] != pc))
      invariant forall j :: j in before ==> (j in group <==> j >= i && j !in done && next[j] == pc)
      invariant pc == NULL_PC ==> forall j :: j in before && j >= i ==> j in done
      invariant pc != NULL_PC ==> group != {}
    {
      i := i - 1;
      if i in active {
        if i in done {
          active := active - {i};
        } else if pc == NULL_PC {
          pc := next[i];
          group, active := group + {i}, active - {i};
        } else if pc == next[i] {
          group, active := group + {i}, active - {i};
        }
      }
    }
    ShrunkMask(active, before, next, done, pc);
  }

  /** The divergence-extraction loop: it ends, every key is produced once, and the counter is the
      number of distinct next pcs. */
  method ExtractPaths(topMask: Mask, done: Mask, next: seq<Pc>) returns (paths: map<Pc, Mask>, count: nat)
    requires MaskFits(topMask, |next|)
    requires forall i :: i in topMask - done ==> next[i] != NULL_PC
    ensures paths == Partition(topMask - done, next)
    ensures count == |paths| == |Targets(topMask - done, next)|
  {
    var active := topMask;
    paths, count := map[], 0;
    while active != {}
      invariant active <= topMask
      invariant paths == Partition(topMask - done - active, next)
      invariant Targets(active - done, next) !! Targets(topMask - done - active, next)
      invariant count == |paths|
      decreases |active|
    {
      ghost var known := topMask - done - active;
      var pc, group, remaining := ExtractGroup(active, done, next);
      if pc == NULL_PC {
        assert topMask - done - remaining == known && remaining - done == {};
        active := remaining;
        continue;
      }
      RoundDone(topMask, done, active, remaining, next, pc, group);
      assert paths[pc := group].Keys == paths.Keys + {pc};
      active, paths, count := remaining, paths[pc := group], count + 1;
    }
    assert topMask - done - active == topMask - done;
    assert paths.Keys == Targets(topMask - done, next);
  }

  lemma ShrunkMask(active: Mask, before: Mask, next: seq<Pc>, done: Mask, pc: Pc)
    requires active <= before && before != {} && MaskFits(before, |next|)
    requires forall j :: j in before ==> (j in active <==> j !in done && pc != next[j])
    requires pc == NULL_PC ==> forall j :: j in before ==> j in done
    requires pc != NULL_PC ==> exists j :: j in before && next[j] == pc
    ensures |active| < |before|
  {
    var j :| j in before && (pc == NULL_PC || next[j] == pc);
    SubsetSize(active, before - {j});
  }

  /** A round moves one whole group from the lanes still to do to the lanes done. */
  lemma RoundDone(topMask: Mask, done: Mask, active: Mask, remaining: Mask, next: seq<Pc>, pc: Pc, group: Mask)
    requires MaskFits(topMask, |next|) && active <= topMask
    requires Targets(active - done, next) !! Targets(topMask - done - active, next)
    requires group == Group(active - done, next, pc) != {} && remaining == active - done - group
    ensures Targets(remaining - done, next) !! Targets(topMask - done - remaining, next)
    ensures pc !in Partition(topMask - done - active, next)
    ensures Partition(topMask - done - remaining, next) == Partition(topMask - done - active, next)[pc := group]
  {
    var known := topMask - done - active;
    assert topMask - done - remaining == known + group;
    var i :| i in group;
    assert next[i] in Targets(active - done, next);
    PartitionGrows(known, known + group, next, pc, group);
    forall j | j in remaining - done ensures next[j] !in Targets(known + group, next) {
      assert next[j] in Targets(active - done, next);
    }
  }

  lemma PartitionGrows(a: Mask, b: Mask, next: seq<Pc>, pc: Pc, group: Mask)
    requires MaskFits(a, |next|) && group != {} && b == a + group && a !! group
    requires forall i :: i in group ==> i < |next| && next[i] == pc
    requires pc !in Partition(a, next)
    ensures Partition(b, next) == Partition(a, next)[pc := group]
  {
    var i :| i in group;
    assert next[i] in Targets(b, next);
    forall q | q in Partition(b, next)
      ensures q in Partition(a, next)[pc := group] && Partition(b, next)[q] == Partition(a, next)[pc := group][q]
    {
      forall j | j in a ensures next[j] != pc {
        assert next[j] in Targets(a, next);
      }
      var k :| k in b && next[k] == q;
      if q != pc {
        assert next[k] in Targets(a, next);
      }
      assert Group(b, next, q) == if q == pc then group else Group(a, next, q);
    }
    forall q | q in Partition(a, next) ensures q in Partition(b, next) {
      var k :| k in a && next[k] == q;
      assert next[k] in Targets(b, next);
    }
  }

  // ---------- specification of update ----------

  /** The path handled first: fall-through if some lane takes it, else the smallest pc. */
  ghost predicate IsFirstPath(paths: set<Pc>, notTaken: Pc, pc: Pc) {
    pc in paths && (if notTaken in paths then pc == notTaken else forall q :: q in paths ==> pc <= q)
  }

  ghost function FirstPath(paths: set<Pc>, notTaken: Pc): (pc: Pc)
    requires paths != {}
    ensures IsFirstPath(paths, notTaken, pc)
  {
    if notTaken in paths then notTaken else Least(paths)
  }

  /** A new entry for lanes that left a divergent branch towards `pc`. */
  function Branch(pc: Pc, mask: Mask, recvg: Pc): (e: Entry) {
    Entry(pc, 0, mask, recvg, 0, Normal)
  }

  /** The stack after a branch with two targets: the entries that replace the top entry. */
  function Diverge(top: Entry, recvg: Pc, cycle: nat, p: Pc, pMask: Mask, q: Pc, qMask: Mask): (s: seq<Entry>) {
    var keepP := p != recvg && (p != top.recvg || top.kind.Call?);
    var keepQ := q != recvg && (q != top.recvg || top.kind.Call?);
    if recvg != top.recvg then
      [top.(pc := recvg, divCycle := cycle)]
      + (if keepP then [Branch(p, pMask, recvg)] else [])
      + (if keepQ then [Branch(q, qMask, recvg)] else [])
    else if keepP then
      [top.(pc := p, mask := pMask, calldepth := 0)] + (if keepQ then [Branch(q, qMask, recvg)] else [])
    else if keepQ then
      [top.(pc := q, mask := qMask, calldepth := 0)]
    else
      []
  }

  /** The stack after a return from a CALL entry, given the stack without that entry. */
  function Returned(rest: seq<Entry>, pc: Pc): (s: seq<Entry>)
    requires rest != []
  {
    var caller := rest[|rest| - 1];
    if pc == caller.recvg && caller.kind.Normal? then rest[..|rest| - 1]
    else rest[..|rest| - 1] + [caller.(pc := pc)]
  }

  /** The assertions of `update` about its arguments, as a precondition. */
  ghost predicate UpdateOk(stack: seq<Entry>, done: Mask, next: seq<Pc>, inst: Inst) {
    && stack != []
    && var top := stack[|stack| - 1];
    && MaskFits(top.mask, |next|)
    && top.mask != {}
    && top.pc == inst.pc
    && (forall i :: i in top.mask - done ==> next[i] != NULL_PC)
    && var n := |Targets(top.mask - done, next)|;
    && n <= 2
    && (inst.op.CallOps? ==> n <= 1)
    && (inst.op.RetOps? && top.kind.Call? ==> n <= 1 && (n == 1 ==> |stack| > 1))
  }

  /** The two cases that `update` finishes without looking at reconvergence of the top entry. */
  predicate IsCallOrReturn(inst: Inst, top: Entry) {
    inst.op.CallOps? || (inst.op.RetOps? && top.kind.Call?)
  }

  ghost function Updated(stack: seq<Entry>, done: Mask, next: seq<Pc>, inst: Inst, cycle: nat): (s: seq<Entry>)
    requires UpdateOk(stack, done, next, inst)
  {
    var rest, top := stack[..|stack| - 1], stack[|stack| - 1];
    var live := top.mask - done;
    var targets := Targets(live, next);
    if targets == {} then rest
    else
      var p := FirstPath(targets, NotTaken(inst));
      var pMask := Group(live, next, p);
      if inst.op.CallOps? then stack + [Entry(p, 0, pMask, NULL_PC, cycle, Call)]
      else if inst.op.RetOps? && top.kind.Call? then assert |targets| == 1; Returned(rest, p)
      else if targets == {p} then
        if p == top.recvg && top.kind.Normal? then rest else rest + [top.(pc := p, mask := pMask)]
      else
        var q := FirstPath(targets - {p}, NotTaken(inst));
        rest + Diverge(top, inst.recvg, cycle, p, pMask, q, Group(live, next, q))
  }

  /** An update of a warp that splits in two. */
  lemma UpdatedTwo(stack: seq<Entry>, done: Mask, next: seq<Pc>, inst: Inst, cycle: nat, p: Pc, q: Pc)
    requires UpdateOk(stack, done, next, inst) && !IsCallOrReturn(inst, stack[|stack| - 1])
    requires p != q && Targets(stack[|stack| - 1].mask - done, next) == {p, q}
    requires p == FirstPath({p, q}, NotTaken(inst))
    ensures var rest, top := stack[..|stack| - 1], stack[|stack| - 1];
            var live := top.mask - done;
            Updated(stack, done, next, inst, cycle)
            == rest + Diverge(top, inst.recvg, cycle, p, Group(live, next, p), q, Group(live, next, q))
  {
    assert {p, q} - {p} == {q};
  }

  /** Some live lane goes to `a` and some to `b`, and none elsewhere. */
  ghost predicate GoTo(live: Mask, next: seq<Pc>, a: Pc, b: Pc)
    requires MaskFits(live, |next|)
  {
    && a != b && (exists i :: i in live && next[i] == a) && (exists i :: i in live && next[i] == b)
    && forall i :: i in live ==> next[i] == a || next[i] == b
  }

  /** Neither side of the branch ends where the branch or, if it is a normal one, the entry reconverges. */
  predicate BothKept(top: Entry, recvg: Pc, a: Pc, b: Pc) {
    a != recvg && b != recvg && (top.kind.Normal? ==> a != top.recvg && b != top.recvg)
  }

  /** Which side of a two-way branch runs first: the side that does not fall through is on top, and the one that does
      waits right below it, whichever pc is smaller; if neither falls through, the larger pc is on top. The entry that
      branched waits below both at the reconvergence pc, unless it reconverges there itself. */
  lemma SplitOrder(stack: seq<Entry>, done: Mask, next: seq<Pc>, inst: Inst, cycle: nat, a: Pc, b: Pc)
    requires UpdateOk(stack, done, next, inst) && !IsCallOrReturn(inst, stack[|stack| - 1])
    requires GoTo(stack[|stack| - 1].mask - done, next, a, b) && BothKept(stack[|stack| - 1], inst.recvg, a, b)
    requires var fall := (inst.pc + inst.size) % 0x1_0000_0000; a == fall || (b != fall && a < b)
    ensures var top, live := stack[|stack| - 1], stack[|stack| - 1].mask - done;
            var aMask, bMask := set i | i in live && next[i] == a, set i | i in live && next[i] == b;
            var s := Updated(stack, done, next, inst, cycle);
            && s != [] && s[|s| - 1] == Entry(b, 0, bMask, inst.recvg, 0, Normal)
            && s[..|s| - 1] == stack[..|stack| - 1]
                               + if inst.recvg == top.recvg then [top.(pc := a, mask := aMask, calldepth := 0)]
                                 else [top.(pc := inst.recvg, divCycle := cycle),
                                       Entry(a, 0, aMask, inst.recvg, 0, Normal)]
  {
    var live := stack[|stack| - 1].mask - done;
    var i, j :| i in live && next[i] == a && j in live && next[j] == b;
    assert Targets(live, next) == {a, b};
    UpdatedTwo(stack, done, next, inst, cycle, a, b);
  }

  // ---------- the mutable stack ----------

  class Stack {
    const warpSize: nat
    var entries: seq<Entry>

    ghost predicate Valid()
      reads this
    {
      warpSize <= MAX_WARP_SIZE && forall e :: e in entries ==> MaskFits(e.mask, warpSize)
    }

    constructor (warpSize: nat)
      requires warpSize <= MAX_WARP_SIZE
      ensures Valid() && this.warpSize == warpSize && entries == []
    {
      this.warpSize := warpSize;
      entries := [];
    }

    method Launch(startPc: Pc, active: Mask)
      requires Valid() && MaskFits(active, warpSize)
      modifies this`entries
      ensures Valid() && entries == [Entry(startPc, 1, active, NULL_PC, 0, Normal)]
    {
      entries := [];
      var e := BLANK.(pc := startPc, calldepth := 1, mask := active, kind := Normal);
      entries := entries + [e];
    }

    /** The loop body of `update` for one path of an instruction that is neither a call nor a
        return from a CALL entry. The last entry is the slot that is filled next. */
    method PlacePath(top: Entry, pc: Pc, mask: Mask, count: nat, recvg: Pc, cycle: nat, diverged: bool)
        returns (nowDiverged: bool)
      requires Valid() && entries != [] && MaskFits(mask, warpSize)
      modifies this`entries
      ensures Valid()
      ensures nowDiverged == Place(old(entries), top, pc, mask, count, recvg, cycle, diverged).0
      ensures entries == Place(old(entries), top, pc, mask, count, recvg, cycle, diverged).1
    {
      nowDiverged := diverged;
      if pc == top.recvg && top.kind != Call {
        return;
      }
      if count > 1 && !nowDiverged {
        nowDiverged := true;
        if recvg != top.recvg {
          var slot := entries[|entries| - 1];
          entries := entries[|entries| - 1 := slot.(pc := recvg, divCycle := cycle)];
          entries := entries + [BLANK];
        }
      }
      if nowDiverged && pc == recvg {
        return;
      }
      var slot := entries[|entries| - 1].(pc := pc, mask := mask);
      if nowDiverged {
        slot := slot.(calldepth := 0, recvg := recvg);
      } else {
        slot := slot.(recvg := top.recvg);
      }
      entries := entries[|entries| - 1 := slot];
      entries := entries + [BLANK];
    }

    /** The special cases at the head of the loop body: a call, or a return from a CALL entry. */
    method CallOrReturn(top: Entry, pc: Pc, mask: Mask, inst: Inst, cycle: nat) returns (handled: bool)
      requires Valid() && entries != [] && MaskFits(mask, warpSize)
      requires inst.op.RetOps? && top.kind.Call? ==> |entries| > 1
      modifies this`entries
      ensures Valid()
      ensures handled == IsCallOrReturn(inst, top)
      ensures inst.op.CallOps? ==> entries == old(entries) + [Entry(pc, 0, mask, NULL_PC, cycle, Call)]
      ensures handled && !inst.op.CallOps? ==> entries == Returned(old(entries)[..|old(entries)| - 1], pc)
      ensures !handled ==> entries == old(entries)
    {
      if inst.op.CallOps? {
        entries := entries + [BLANK.(pc := pc, mask := mask, divCycle := cycle, kind := Call)];
        return true;
      } else if inst.op.RetOps? && top.kind.Call? {
        entries := entries[..|entries| - 1];
        var caller := entries[|entries| - 1];
        entries := entries[|entries| - 1 := caller.(pc := pc)];
        if pc == caller.recvg && caller.kind != Call {
          entries := entries[..|entries| - 1];
        }
        return true;
      }
      return false;
    }

    /** The loop over `divergent_paths`; `finished` says that `update` returned from inside it. */
    method HandlePaths(allPaths: map<Pc, Mask>, inst: Inst, cycle: nat) returns (finished: bool)
      requires Valid() && entries != []
      requires forall k :: k in allPaths ==> MaskFits(allPaths[k], warpSize)
      requires var top := entries[|entries| - 1];
               inst.op.RetOps? && top.kind.Call? && allPaths != map[] ==> |entries| > 1
      modifies this`entries
      ensures Valid() && (entries != [] || finished)
      ensures finished == (allPaths != map[] && IsCallOrReturn(inst, old(entries)[|old(entries)| - 1]))
      ensures finished ==>
                var p := FirstPath(allPaths.Keys, NotTaken(inst));
                entries == if inst.op.CallOps? then old(entries) + [Entry(p, 0, allPaths[p], NULL_PC, cycle, Call)]
                           else Returned(old(entries)[..|old(entries)| - 1], p)
      ensures !finished ==>
                entries == PlaceAll(old(entries), false, allPaths, old(entries)[|old(entries)| - 1], |allPaths|, inst,
                    cycle)
    {
      var top, paths, count := entries[|entries| - 1], allPaths, |allPaths|;
      var i, diverged := 0, false;
      while i < count
        invariant i <= count && |paths| == count - i
        invariant Valid() && entries != []
        invariant forall k :: k in paths ==> MaskFits(paths[k], warpSize)
        invariant i == 0 ==> entries == old(entries) && paths == allPaths
        invariant i > 0 ==> !IsCallOrReturn(inst, top) && NotTaken(inst) !in paths
        invariant PlaceAll(entries, diverged, paths, top, count, inst, cycle)
               == PlaceAll(old(entries), false, allPaths, top, count, inst, cycle)
      {
        var pc: Pc;
        if NotTaken(inst) in paths {
          assert i == 0;
          pc := NotTaken(inst);
        } else {
          pc := LeastKey(paths);
        }
        assert pc == FirstPath(paths.Keys, NotTaken(inst));
        var mask := paths[pc];
        assert (paths - {pc}).Keys == paths.Keys - {pc};
        paths := paths - {pc};
        i := i + 1;
        finished := CallOrReturn(top, pc, mask, inst, cycle);
        if finished {
          return;
        }
        diverged := PlacePath(top, pc, mask, count, inst.recvg, cycle, diverged);
      }
      finished := false;
    }

    method Update(done: Mask, next: seq<Pc>, inst: Inst, cycle: nat)
      requires Valid() && |next| == warpSize
      requires UpdateOk(entries, done, next, inst)
      modifies this`entries
      ensures Valid()
      ensures entries == Updated(old(entries), done, next, inst, cycle)
    {
      var top := entries[|entries| - 1];
      var paths, count := ExtractPaths(top.mask, done, next);
      assert paths.Keys == Targets(top.mask - done, next);
      var finished := HandlePaths(paths, inst, cycle);
      if !finished {
        PlacedIsUpdated(old(entries), done, next, inst, cycle);
        entries := entries[..|entries| - 1];
      }
    }
  }

  /** What placing one path does to the divergence flag and the stack. */
  ghost function Place(s: seq<Entry>, top: Entry, pc: Pc, mask: Mask, count: nat, recvg: Pc, cycle: nat, diverged: bool)
    : (r: (bool, seq<Entry>))
    requires s != []
    ensures r.1 != []
  {
    var rest, slot := s[..|s| - 1], s[|s| - 1];
    if pc == top.recvg && top.kind.Normal? then (diverged, s)
    else if count <= 1 && !diverged then (false, rest + [slot.(pc := pc, mask := mask, recvg := top.recvg), BLANK])
    else if diverged || recvg == top.recvg then
      (true, if pc == recvg then s else rest + [slot.(pc := pc, mask := mask, recvg := recvg, calldepth := 0), BLANK])
    else
      (true, rest + [slot.(pc := recvg, divCycle := cycle)]
             + (if pc == recvg then [BLANK] else [Branch(pc, mask, recvg), BLANK]))
  }

  /** The stack after placing all of `paths`, in the order in which `update` takes them. */
  ghost function PlaceAll(s: seq<Entry>, diverged: bool, paths: map<Pc, Mask>, top: Entry, count: nat, inst: Inst,
                          cycle: nat)
    : (r: seq<Entry>)
    requires s != []
    ensures r != []
    decreases paths.Keys
  {
    if paths == map[] then s
    else
      var pc := FirstPath(paths.Keys, NotTaken(inst));
      var r := Place(s, top, pc, paths[pc], count, inst.recvg, cycle, diverged);
      PlaceAll(r.1, r.0, paths - {pc}, top, count, inst, cycle)
  }

  lemma TwoPlaced(s: seq<Entry>, p: Pc, pMask: Mask, q: Pc, qMask: Mask, recvg: Pc, cycle: nat)
    requires s != [] && p != q
    ensures var rest, top := s[..|s| - 1], s[|s| - 1];
            var (flag, one) := Place(s, top, p, pMask, 2, recvg, cycle, false);
            var two := Place(one, top, q, qMask, 2, recvg, cycle, flag).1;
            two[..|two| - 1] == rest + Diverge(top, recvg, cycle, p, pMask, q, qMask)
  {
  }

  lemma PlacedIsUpdated(s: seq<Entry>, done: Mask, next: seq<Pc>, inst: Inst, cycle: nat)
    requires UpdateOk(s, done, next, inst)
    requires var top := s[|s| - 1];
             Targets(top.mask - done, next) != {} ==> !IsCallOrReturn(inst, top)
    ensures var top := s[|s| - 1];
            var paths := Partition(top.mask - done, next);
            var r := PlaceAll(s, false, paths, top, |paths|, inst, cycle);
            r[..|r| - 1] == Updated(s, done, next, inst, cycle)
  {
    var top := s[|s| - 1];
    var live := top.mask - done;
    var targets, paths := Targets(live, next), Partition(live, next);
    assert paths.Keys == targets;
    if targets != {} {
      var p := FirstPath(targets, NotTaken(inst));
      var (flag, one) := Place(s, top, p, paths[p], |paths|, inst.recvg, cycle, false);
      var left := paths - {p};
      assert left.Keys == targets - {p};
      assert PlaceAll(s, false, paths, top, |paths|, inst, cycle)
             == PlaceAll(one, flag, left, top, |paths|, inst, cycle);
      if |targets| == 1 {
        SingletonIs(targets, p);
        assert left == map[];
      } else {
        OtherMember(targets, p);
        var q := FirstPath(targets - {p}, NotTaken(inst));
        var two := Place(one, top, q, paths[q], |paths|, inst.recvg, cycle, flag);
        assert left - {q} == map[];
        assert PlaceAll(one, flag, left, top, |paths|, inst, cycle) == two.1;
        assert |paths| == 2;
        TwoPlaced(s, p, Group(live, next, p), q, Group(live, next, q), inst.recvg, cycle);
      }
    }
  }

  method LeastKey(m: map<Pc, Mask>) returns (least: Pc)
    requires m != map[]
    ensures least in m && forall k :: k in m ==> least <= k
  {
    assert IsLeast(m.Keys, Least(m.Keys));
    least :| least in m && forall k :: k in m ==> least <= k;
  }
}
