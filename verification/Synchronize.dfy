/** The simulation thread and a host thread in `synchronize` (src/gpgpusim_entrypoint.cc), as a state machine whose
    steps interleave freely with each other and with other hosts that push work or ask the simulation to end. */
module Synchronize {

  type Op = nat

  /** Where the simulation thread is. */
  datatype SimPc =
    | Spin        // waiting for work, or about to take the lock
    | TurnOn      // holds the lock, about to set g_sim_active
    | TurnedOn    // holds the lock, g_sim_active is set
    | Operate     // head of the inner loop
    | Simulate    // after the operation, about to run a cycle
    | LoopTest    // about to decide whether the inner loop goes on
    | Finish      // left the inner loop, about to take the lock
    | TurnOff     // holds the lock, about to clear g_sim_active
    | TurnedOff   // holds the lock, g_sim_active is clear
    | OuterTest   // about to decide whether the outer loop goes on
    | Exited

  /** Where the host thread is. */
  datatype HostPc =
    | Outside                 // not in synchronize
    | Waiting                 // about to take the lock
    | Scanning(next: nat)     // holds the lock; streams before `next` were seen empty
    | Deciding(empty: bool)   // holds the lock, about to read the flags
    | Leaving(done: bool)     // holds the lock, about to release it
    | Returned

  datatype Holder = Nobody | Sim | Host

  datatype State = State(
    streams: seq<seq<Op>>,    // the operations of each stream, the one in progress first
    running: set<Op>,         // kernels handed to the GPU and not yet retired
    gpuActive: bool,
    simActive: bool,
    simDone: bool,
    lock: Holder,
    sim: SimPc,
    host: HostPc,
    used: set<Op>,            // every operation pushed so far
    awaited: set<Op>)         // those pushed before synchronize was called

  ghost predicate Queued(s: State, op: Op) {
    exists i :: 0 <= i < |s.streams| && op in s.streams[i]
  }

  ghost predicate Init(s: State) {
    && (forall i :: 0 <= i < |s.streams| ==> s.streams[i] == [])
    && s.running == {} && !s.gpuActive && !s.simActive && !s.simDone && s.lock.Nobody?
    && s.sim.Spin? && s.host.Outside? && s.used == {} && s.awaited == {}
  }

  // ---------- steps of the simulation thread ----------

  ghost predicate TakeLockOn(s: State, s': State) {
    s.sim.Spin? && s.lock.Nobody? && s' == s.(lock := Sim, sim := TurnOn)
  }

  ghost predicate SetActive(s: State, s': State) {
    s.sim.TurnOn? && s' == s.(simActive := true, sim := TurnedOn)
  }

  ghost predicate ReleaseOn(s: State, s': State) {
    s.sim.TurnedOn? && s' == s.(lock := Nobody, sim := Operate)
  }

  /** Remove the operation in progress of a stream. */
  function Retire(s: State, i: nat): (r: State)
    requires i < |s.streams| && s.streams[i] != []
  {
    s.(streams := s.streams[i := s.streams[i][1..]], running := s.running - {s.streams[i][0]})
  }

  /** `operation`: a finished kernel is retired, or an operation that is not a kernel is carried out; more of the
      same call may follow. */
  ghost predicate OperateRetire(s: State, s': State, i: nat) {
    && s.sim.Operate? && i < |s.streams| && s.streams[i] != []
    && (s' == Retire(s, i) || s' == Retire(s, i).(sim := Simulate)
       || (!s.gpuActive && s' == Retire(s, i).(sim := Finish)))
  }

  /** `operation`: a kernel is launched. The GPU becomes active, unless it simulates functionally or is at its
      limit; if it does not, and the same call retired a kernel, the inner loop ends. */
  ghost predicate OperateLaunch(s: State, s': State, i: nat) {
    && s.sim.Operate? && i < |s.streams| && s.streams[i] != [] && s.streams[i][0] !in s.running
    && var r := s.(running := s.running + {s.streams[i][0]});
    && (s' == r.(gpuActive := true, sim := Simulate) || s' == r.(sim := Simulate)
       || (!s.gpuActive && s' == r.(sim := Finish)))
  }

  ghost predicate OperateNothing(s: State, s': State) {
    s.sim.Operate? && s' == s.(sim := Simulate)
  }

  /** A GPU cycle; the GPU may become inactive. */
  ghost predicate Cycle(s: State, s': State) {
    s.sim.Simulate? && (s' == s.(sim := LoopTest) || s' == s.(sim := LoopTest, gpuActive := false))
  }

  /** An inactive GPU that reached its limit: its kernels are stopped and retired one by one, ... */
  ghost predicate StopKernel(s: State, s': State, i: nat) {
    && s.sim.Simulate? && !s.gpuActive && i < |s.streams| && s.streams[i] != [] && s.streams[i][0] in s.running
    && s' == Retire(s, i)
  }

  /** ... and the simulation is done. */
  ghost predicate LimitHit(s: State, s': State) {
    s.sim.Simulate? && !s.gpuActive && s' == s.(sim := LoopTest, simDone := true)
  }

  /** The inner loop goes on only while there is work and the simulation is not done; it may stop when the GPU is
      inactive (and the streams were seen empty) or the simulation is done. */
  ghost predicate TestInner(s: State, s': State) {
    && s.sim.LoopTest?
    && ((!s.simDone && s' == s.(sim := Operate)) || ((!s.gpuActive || s.simDone) && s' == s.(sim := Finish)))
  }

  ghost predicate TakeLockOff(s: State, s': State) {
    s.sim.Finish? && s.lock.Nobody? && s' == s.(lock := Sim, sim := TurnOff)
  }

  ghost predicate ClearActive(s: State, s': State) {
    s.sim.TurnOff? && s' == s.(simActive := false, sim := TurnedOff)
  }

  ghost predicate ReleaseOff(s: State, s': State) {
    s.sim.TurnedOff? && s' == s.(lock := Nobody, sim := OuterTest)
  }

  ghost predicate TestOuter(s: State, s': State) {
    s.sim.OuterTest? && s' == s.(sim := if s.simDone then Exited else Spin)
  }

  ghost predicate SimStep(s: State, s': State) {
    || TakeLockOn(s, s') || SetActive(s, s') || ReleaseOn(s, s')
    || (exists i: nat :: OperateRetire(s, s', i)) || (exists i: nat :: OperateLaunch(s, s', i)) || OperateNothing(s, s')
    || Cycle(s, s') || (exists i: nat :: StopKernel(s, s', i)) || LimitHit(s, s') || TestInner(s, s')
    || TakeLockOff(s, s') || ClearActive(s, s') || ReleaseOff(s, s') || TestOuter(s, s')
  }

  // ---------- steps of the host in synchronize ----------

  ghost predicate CallSynchronize(s: State, s': State) {
    s.host.Outside? && s' == s.(host := Waiting, awaited := s.used)
  }

  ghost predicate TakeLockHost(s: State, s': State) {
    s.host.Waiting? && s.lock.Nobody? && s' == s.(lock := Host, host := Scanning(0))
  }

  /** One step of `stream_manager::empty`, which looks at the streams one after the other. */
  ghost predicate Scan(s: State, s': State) {
    && s.host.Scanning?
    && s' == s.(host := if s.host.next >= |s.streams| then Deciding(true)
                        else if s.streams[s.host.next] != [] then Deciding(false)
                        else Scanning(s.host.next + 1))
  }

  ghost predicate Decide(s: State, s': State) {
    s.host.Deciding? && s' == s.(host := Leaving((s.host.empty && !s.simActive) || s.simDone))
  }

  ghost predicate ReleaseHost(s: State, s': State) {
    s.host.Leaving? && s' == s.(lock := Nobody, host := if s.host.done then Returned else Waiting)
  }

  ghost predicate CallAgain(s: State, s': State) {
    s.host.Returned? && s' == s.(host := Outside)
  }

  ghost predicate HostStep(s: State, s': State) {
    CallSynchronize(s, s') || TakeLockHost(s, s') || Scan(s, s') || Decide(s, s') || ReleaseHost(s, s')
        || CallAgain(s, s')
  }

  // ---------- steps of other hosts ----------

  ghost predicate Push(s: State, s': State, i: nat, op: Op) {
    i < |s.streams| && op !in s.used && s' == s.(streams := s.streams[i := s.streams[i] + [op]], used := s.used + {op})
  }

  /** `exit_simulation` */
  ghost predicate AskExit(s: State, s': State) {
    s' == s.(simDone := true)
  }

  ghost predicate Next(s: State, s': State) {
    SimStep(s, s') || HostStep(s, s') || (exists i: nat, op: Op :: Push(s, s', i, op)) || AskExit(s, s')
  }

  // ---------- the invariant ----------

  ghost predicate InnerLoop(pc: SimPc) {
    pc.Operate? || pc.Simulate? || pc.LoopTest?
  }

  ghost predicate SimHolds(pc: SimPc) {
    pc.TurnOn? || pc.TurnedOn? || pc.TurnOff? || pc.TurnedOff?
  }

  ghost predicate HostHolds(pc: HostPc) {
    pc.Scanning? || pc.Deciding? || pc.Leaving?
  }

  ghost predicate LocksOk(s: State) {
    (s.lock.Sim? <==> SimHolds(s.sim)) && (s.lock.Host? <==> HostHolds(s.host))
  }

  /** The GPU is active only inside the inner loop, or once the simulation is done; g_sim_active is set there. */
  ghost predicate ActivityOk(s: State) {
    && (InnerLoop(s.sim) || s.sim.TurnedOn? || s.sim.Finish? || s.sim.TurnOff? <==> s.simActive)
    && (s.gpuActive ==> InnerLoop(s.sim) || s.simDone)
  }

  ghost predicate QueuesOk(s: State) {
    && (forall op :: op in s.running ==> Queued(s, op))
    && (forall op :: Queued(s, op) ==> op in s.used)
    && s.awaited <= s.used
  }

  /** No awaited operation is left in the streams before `k`. */
  ghost predicate Drained(s: State, k: nat) {
    forall i, op :: 0 <= i < k && i < |s.streams| && op in s.streams[i] ==> op !in s.awaited
  }

  ghost predicate ScanOk(s: State) {
    match s.host
    case Scanning(k) => Drained(s, k)
    case Deciding(empty) => empty ==> Drained(s, |s.streams|)
    case Leaving(done) => done ==> s.simDone || (Drained(s, |s.streams|) && !s.simActive)
    case _ => true
  }

  ghost predicate Inv(s: State) {
    LocksOk(s) && ActivityOk(s) && QueuesOk(s) && ScanOk(s)
  }

  lemma RetireKeeps(s: State, i: nat)
    requires QueuesOk(s) && ScanOk(s) && i < |s.streams| && s.streams[i] != []
    ensures QueuesOk(Retire(s, i)) && ScanOk(Retire(s, i))
  {
    var r := Retire(s, i);
    forall j, op | 0 <= j < |r.streams| && op in r.streams[j] ensures op in s.streams[j] {
    }
    forall op | Queued(r, op) ensures op in r.used {
      var j :| 0 <= j < |r.streams| && op in r.streams[j];
      assert Queued(s, op);
    }
    forall op | op in r.running ensures Queued(r, op) {
      var j :| 0 <= j < |s.streams| && op in s.streams[j];
      assert op in r.streams[j];
    }
  }

  lemma LaunchKeeps(s: State, s': State, i: nat)
    requires Inv(s) && OperateLaunch(s, s', i)
    ensures Inv(s')
  {
    forall op | op in s'.running ensures Queued(s', op) {
      if op in s.running {
        assert Queued(s, op);
      } else {
        assert op in s'.streams[i];
      }
    }
    forall op | Queued(s', op) ensures op in s'.used {
      assert Queued(s, op);
    }
  }

  lemma PushKeeps(s: State, s': State, i: nat, op: Op)
    requires Inv(s) && Push(s, s', i, op)
    ensures Inv(s')
  {
    forall o | o in s'.running ensures Queued(s', o) {
      assert Queued(s, o);
      var j :| 0 <= j < |s.streams| && o in s.streams[j];
      assert o in s'.streams[j];
    }
    forall o | Queued(s', o) ensures o in s'.used {
      var j :| 0 <= j < |s'.streams| && o in s'.streams[j];
      if o != op {
        assert o in s.streams[j];
        assert Queued(s, o);
      }
    }
    assert op !in s.awaited;
    forall j, o | 0 <= j < |s'.streams| && o in s'.streams[j] ensures o == op || o in s.streams[j] {
    }
  }

  /** A step that moves no operation keeps the queues as they are. */
  lemma SameQueues(s: State, s': State)
    requires QueuesOk(s) && s'.streams == s.streams && s'.running == s.running && s'.used == s.used
             && s'.awaited <= s'.used
    ensures QueuesOk(s')
  {
    forall op ensures Queued(s', op) == Queued(s, op) {
    }
  }

  lemma SimKeeps(s: State, s': State)
    requires Inv(s) && SimStep(s, s')
    ensures Inv(s')
  {
    if i: nat :| OperateRetire(s, s', i) {
      RetireKeeps(s, i);
      SameQueues(Retire(s, i), s');
    } else if i: nat :| OperateLaunch(s, s', i) {
      LaunchKeeps(s, s', i);
    } else if i: nat :| StopKernel(s, s', i) {
      RetireKeeps(s, i);
    } else if TakeLockOn(s, s') || SetActive(s, s') || ReleaseOn(s, s') || OperateNothing(s, s') || Cycle(s, s') {
      WorkKeeps(s, s');
    } else {
      WindDownKeeps(s, s');
    }
  }

  lemma WorkKeeps(s: State, s': State)
    requires Inv(s)
    requires TakeLockOn(s, s') || SetActive(s, s') || ReleaseOn(s, s') || OperateNothing(s, s') || Cycle(s, s')
    ensures Inv(s')
  {
    SameQueues(s, s');
  }

  lemma WindDownKeeps(s: State, s': State)
    requires Inv(s)
    requires LimitHit(s, s') || TestInner(s, s') || TakeLockOff(s, s') || ClearActive(s, s') || ReleaseOff(s, s')
             || TestOuter(s, s')
    ensures Inv(s')
  {
    SameQueues(s, s');
  }

  lemma HostKeeps(s: State, s': State)
    requires Inv(s) && HostStep(s, s')
    ensures Inv(s')
  {
    SameQueues(s, s');
  }

  /** Every step of every thread keeps the invariant. */
  lemma NextKeeps(s: State, s': State)
    requires Inv(s) && Next(s, s')
    ensures Inv(s')
  {
    if SimStep(s, s') {
      SimKeeps(s, s');
    } else if HostStep(s, s') {
      HostKeeps(s, s');
    } else if i: nat, op: Op :| Push(s, s', i, op) {
      PushKeeps(s, s', i, op);
    } else {
      SameQueues(s, s');
    }
  }

  // ---------- safety over all interleavings ----------

  ghost predicate StepsAt(run: seq<State>, k: nat)
    requires k + 1 < |run|
  {
    Next(run[k], run[k + 1])
  }

  ghost predicate IsRun(run: seq<State>) {
    run != [] && Init(run[0]) && forall k: nat :: k + 1 < |run| ==> StepsAt(run, k)
  }

  lemma {:induction false} RunInv(run: seq<State>, n: nat)
    requires IsRun(run) && n < |run|
    ensures Inv(run[n])
  {
    if n == 0 {
    } else {
      RunInv(run, n - 1);
      assert StepsAt(run, n - 1);
      NextKeeps(run[n - 1], run[n]);
    }
  }

  /** Nothing pushed before the call is queued or on the GPU, and the GPU is inactive. */
  ghost predicate Quiet(s: State) {
    !s.gpuActive && forall op :: op in s.awaited ==> !Queued(s, op) && op !in s.running
  }

  /** Whatever the interleaving, when `synchronize` returns and the simulation is not done, all work pushed before the
      call has been carried out. */
  lemma SynchronizeSafe(run: seq<State>, n: nat)
    requires IsRun(run) && n + 1 < |run|
    requires run[n].host.Leaving? && run[n + 1].host.Returned? && !run[n + 1].simDone
    ensures Quiet(run[n + 1])
  {
    var s, s' := run[n], run[n + 1];
    RunInv(run, n);
    RunInv(run, n + 1);
    assert StepsAt(run, n);
    ReturnIsQuiet(s, s');
  }

  lemma ReturnIsQuiet(s: State, s': State)
    requires Inv(s) && Inv(s') && Next(s, s') && s.host.Leaving? && s'.host.Returned? && !s'.simDone
    ensures Quiet(s')
  {
    OnlyReleaseReturns(s, s');
    assert Drained(s', |s'.streams|);
    forall op | op in s'.awaited ensures !Queued(s', op) && op !in s'.running {
    }
  }

  lemma OnlyReleaseReturns(s: State, s': State)
    requires Next(s, s') && s.host.Leaving? && s'.host.Returned?
    ensures ReleaseHost(s, s')
  {
    if SimStep(s, s') {
      SimKeepsHost(s, s');
    }
  }

  lemma SimKeepsHost(s: State, s': State)
    requires SimStep(s, s')
    ensures s'.host == s.host
  {
    if i: nat :| OperateRetire(s, s', i) {
    } else if i: nat :| OperateLaunch(s, s', i) {
    } else if i: nat :| StopKernel(s, s', i) {
    }
  }

  // ---------- what a host finds ----------

  /** What `synchronize` waits for. */
  ghost predicate NothingLeft(s: State) {
    s.simDone || (!s.simActive && forall i :: 0 <= i < |s.streams| ==> s.streams[i] == [])
  }

  /** `n` steps of the host lead from `s` to `t`. */
  ghost predicate HostReaches(s: State, t: State, n: nat)
    decreases n
  {
    if n == 0 then s == t else exists m :: HostStep(s, m) && HostReaches(m, t, n - 1)
  }

  lemma HostThen(s: State, m: State, t: State, n: nat)
    requires HostStep(s, m) && HostReaches(m, t, n)
    ensures HostReaches(s, t, n + 1)
  {
  }

  /** The host has no choice. */
  lemma HostDetermined(s: State, a: State, b: State)
    requires HostStep(s, a) && HostStep(s, b)
    ensures a == b
  {
  }

  /** The end of a round, from the decision on. */
  lemma DecideRound(s: State, empty: bool)
    requires s.host == Deciding(empty)
    ensures var done := (empty && !s.simActive) || s.simDone;
            HostReaches(s, s.(lock := Nobody, host := if done then Returned else Waiting), 2)
  {
    var done := (empty && !s.simActive) || s.simDone;
    var a := s.(host := Leaving(done));
    var t := s.(lock := Nobody, host := if done then Returned else Waiting);
    assert Decide(s, a) && ReleaseHost(a, t);
    HostThen(a, t, t, 0);
    HostThen(s, a, t, 1);
  }

  /** The scan of the streams from number `k` on. */
  lemma {:induction false} ScanRound(s: State, k: nat) returns (n: nat)
    requires s.host == Scanning(k) && k <= |s.streams| && forall i :: 0 <= i < k ==> s.streams[i] == []
    ensures HostReaches(s, s.(lock := Nobody, host := if NothingLeft(s) then Returned else Waiting), n)
    decreases |s.streams| - k
  {
    var t := s.(lock := Nobody, host := if NothingLeft(s) then Returned else Waiting);
    if k == |s.streams| || s.streams[k] != [] {
      var empty := k == |s.streams|;
      var a := s.(host := Deciding(empty));
      assert Scan(s, a);
      DecideRound(a, empty);
      HostThen(s, a, t, 2);
      n := 3;
    } else {
      var a := s.(host := Scanning(k + 1));
      assert Scan(s, a);
      n := ScanRound(a, k + 1);
      HostThen(s, a, t, n);
      n := n + 1;
    }
  }

  /** A host in `synchronize` that is not disturbed returns if all streams are empty and the simulation is idle, or if
      the simulation is done, and otherwise starts over; it changes nothing else. */
  lemma HostRound(s: State) returns (n: nat)
    requires s.host.Waiting? && s.lock.Nobody?
    ensures HostReaches(s, s.(host := if NothingLeft(s) then Returned else Waiting), n)
  {
    var a := s.(lock := Host, host := Scanning(0));
    assert TakeLockHost(s, a);
    n := ScanRound(a, 0);
    HostThen(s, a, s.(host := if NothingLeft(s) then Returned else Waiting), n);
    n := n + 1;
  }

  // ---------- work can be carried out ----------

  ghost predicate SimReaches(s: State, t: State, n: nat)
    decreases n
  {
    if n == 0 then s == t else exists m :: SimStep(s, m) && SimReaches(m, t, n - 1)
  }

  lemma SimThen(s: State, m: State, t: State, n: nat)
    requires SimStep(s, m) && SimReaches(m, t, n)
    ensures SimReaches(s, t, n + 1)
  {
  }

  lemma SimFirst(s: State, t: State, n: nat) returns (m: State)
    requires n > 0 && SimReaches(s, t, n)
    ensures SimStep(s, m) && SimReaches(m, t, n - 1)
  {
    m :| SimStep(s, m) && SimReaches(m, t, n - 1);
  }

  lemma {:induction false} SimOn(s: State, m: State, t: State, j: nat, k: nat)
    requires SimReaches(s, m, j) && SimReaches(m, t, k)
    ensures SimReaches(s, t, j + k)
    decreases j
  {
    if j > 0 {
      var x := SimFirst(s, m, j);
      SimOn(x, m, t, j - 1, k);
      SimThen(s, x, t, j - 1 + k);
    }
  }

  function Pending(streams: seq<seq<Op>>): (n: nat) {
    if streams == [] then 0 else Pending(streams[..|streams| - 1]) + |streams[|streams| - 1]|
  }

  lemma {:induction false} PendingDrops(streams: seq<seq<Op>>, i: nat)
    requires i < |streams| && streams[i] != []
    ensures Pending(streams[i := streams[i][1..]]) == Pending(streams) - 1
  {
    var last := |streams| - 1;
    var after := streams[i := streams[i][1..]];
    if i < last {
      PendingDrops(streams[..last], i);
      assert after[..last] == streams[..last][i := streams[i][1..]];
    } else {
      assert after[..last] == streams[..last];
    }
  }

  lemma {:induction false} NonePending(streams: seq<seq<Op>>)
    requires forall i :: 0 <= i < |streams| ==> streams[i] == []
    ensures Pending(streams) == 0
  {
    if streams != [] {
      NonePending(streams[..|streams| - 1]);
    }
  }

  /** The simulation thread at the head of its inner loop with nothing on the GPU. */
  ghost predicate Ready(s: State) {
    s.sim.Operate? && s.running == {} && !s.gpuActive && !s.simDone && s.simActive && s.lock.Nobody?
  }

  /** A kernel is launched, simulated for a cycle and retired. */
  lemma OneKernel(s: State, i: nat)
    requires Ready(s) && i < |s.streams| && s.streams[i] != []
    ensures SimReaches(s, s.(streams := s.streams[i := s.streams[i][1..]]), 4)
  {
    var op := s.streams[i][0];
    var a := s.(running := {op}, gpuActive := true, sim := Simulate);
    var b := a.(sim := LoopTest, gpuActive := false);
    var c := b.(sim := Operate);
    var d := s.(streams := s.streams[i := s.streams[i][1..]]);
    assert s.running + {op} == {op};
    assert OperateLaunch(s, a, i) && Cycle(a, b) && TestInner(b, c);
    assert c.running - {op} == {};
    assert d == Retire(c, i);
    assert OperateRetire(c, d, i);
    SimThen(c, d, d, 0);
    SimThen(b, c, d, 1);
    SimThen(a, b, d, 2);
    SimThen(s, a, d, 3);
  }

  /** Some steps of the simulation thread lead from `s` to `t`. */
  ghost predicate SimCan(s: State, t: State) {
    exists n: nat :: SimReaches(s, t, n)
  }

  lemma SimCanOn(s: State, m: State, t: State)
    requires SimCan(s, m) && SimCan(m, t)
    ensures SimCan(s, t)
  {
    var j: nat, k: nat :| SimReaches(s, m, j) && SimReaches(m, t, k);
    SimOn(s, m, t, j, k);
  }

  lemma KernelCan(s: State, i: nat)
    requires Ready(s) && i < |s.streams| && s.streams[i] != []
    ensures SimCan(s, s.(streams := s.streams[i := s.streams[i][1..]]))
  {
    OneKernel(s, i);
  }

  ghost predicate AllEmpty(streams: seq<seq<Op>>) {
    forall i :: 0 <= i < |streams| ==> streams[i] == []
  }

  /** Whatever is queued can be carried out. */
  lemma {:induction false} AllKernels(s: State) returns (streams: seq<seq<Op>>)
    requires Ready(s)
    ensures |streams| == |s.streams| && AllEmpty(streams) && SimCan(s, s.(streams := streams))
    decreases Pending(s.streams)
  {
    if AllEmpty(s.streams) {
      streams := s.streams;
      assert SimReaches(s, s, 0);
    } else {
      var i: nat :| i < |s.streams| && s.streams[i] != [];
      var m := s.(streams := s.streams[i := s.streams[i][1..]]);
      KernelCan(s, i);
      PendingDrops(s.streams, i);
      streams := AllKernels(m);
      SimCanOn(s, m, s.(streams := streams));
    }
  }

  /** The simulation thread wakes up, ... */
  lemma WakesUp(s: State)
    requires s.sim.Spin? && s.lock.Nobody?
    ensures SimReaches(s, s.(simActive := true, sim := Operate), 3)
  {
    var a, b, c := s.(lock := Sim, sim := TurnOn), s.(lock := Sim, simActive := true, sim := TurnedOn),
                   s.(simActive := true, sim := Operate);
    assert TakeLockOn(s, a) && SetActive(a, b) && ReleaseOn(b, c);
    SimThen(b, c, c, 0);
    SimThen(a, b, c, 1);
    SimThen(s, a, c, 2);
  }

  /** ... and goes back to waiting. */
  lemma GoesIdle(s: State)
    requires Ready(s)
    ensures SimReaches(s, s.(simActive := false, sim := Spin), 7)
  {
    var a, b, c := s.(sim := Simulate), s.(sim := LoopTest), s.(sim := Finish);
    var d, e := s.(lock := Sim, sim := TurnOff), s.(lock := Sim, simActive := false, sim := TurnedOff);
    var f, t := s.(simActive := false, sim := OuterTest), s.(simActive := false, sim := Spin);
    assert OperateNothing(s, a) && Cycle(a, b) && TestInner(b, c) && TakeLockOff(c, d);
    assert ClearActive(d, e) && ReleaseOff(e, f) && TestOuter(f, t);
    SimThen(f, t, t, 0);
    SimThen(e, f, t, 1);
    SimThen(d, e, t, 2);
    SimThen(c, d, t, 3);
    SimThen(b, c, t, 4);
    SimThen(a, b, t, 5);
    SimThen(s, a, t, 6);
  }

  lemma EndsCan(s: State, t: State)
    requires s.sim.Spin? && s.lock.Nobody? && Ready(t)
    ensures SimCan(s, s.(simActive := true, sim := Operate)) && SimCan(t, t.(simActive := false, sim := Spin))
  {
    WakesUp(s);
    GoesIdle(t);
  }

  /** The simulation thread can carry out all that is queued and go back to waiting. */
  lemma WorkCompletes(s: State) returns (t: State)
    requires s.sim.Spin? && s.lock.Nobody? && s.running == {} && !s.gpuActive && !s.simActive && !s.simDone
    ensures SimCan(s, t) && t == s.(streams := t.streams) && |t.streams| == |s.streams| && AllEmpty(t.streams)
  {
    var ready := s.(simActive := true, sim := Operate);
    var streams := AllKernels(ready);
    var drained := ready.(streams := streams);
    EndsCan(s, drained);
    t := s.(streams := streams);
    assert drained.(simActive := false, sim := Spin) == t;
    SimCanOn(ready, drained, t);
    SimCanOn(s, ready, t);
  }
}
