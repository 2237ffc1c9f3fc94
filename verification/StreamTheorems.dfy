/** What an instruction as a whole queues, from its data size and the configuration: which segments it is cut into, that
    streams of consecutive data need the fewest requests, and how wide the pieces of a local access are. */
module StreamTheorems {
  import opened Basics
  import opened Coalescing
  import opened PlainCoalescer
  import opened CoalescingTheorems
  import opened WarpTheorems

  // ---------- sectors ----------

  /** The configuration and the instruction ask for requests of one sector. */
  predicate BySectors(arch: int, skipL1D: bool, cacheGlobal: bool) {
    arch >= 40 || (20 <= arch <= 38 && (skipL1D || cacheGlobal))
  }

  /** The queue has grown by requests of `size` bytes only. */
  ghost predicate GrownBy(q: seq<Access>, q': seq<Access>, size: nat) {
    && |q| <= |q'| && q'[..|q|] == q
    && forall j :: |q| <= j < |q'| ==> q'[j].size == size
  }

  lemma SectorSubwarp(q: seq<Access>, w: Lanes, n: DataSize, lo: nat, hi: nat)
    requires hi <= |w.addrs|
    ensures GrownBy(q, AppendSubwarp(q, w, n, 32, lo, hi), 32)
  {
    var m, q' := SubTxns(w, n, 32, lo, hi), AppendSubwarp(q, w, n, 32, lo, hi);
    QueueGrows(q, m, 32);
    forall j | |q| <= j < |q'| ensures q'[j].size == 32 {
      QueueAt(q, m, 32, j - |q|);
    }
  }

  lemma GrownTwice(q: seq<Access>, mid: seq<Access>, q': seq<Access>, size: nat)
    requires GrownBy(q, mid, size) && GrownBy(mid, q', size)
    ensures GrownBy(q, q', size)
  {
    forall j | 0 <= j < |mid| ensures q'[j] == mid[j] {
      assert q'[..|mid|][j] == q'[j];
    }
    assert q'[..|q|] == mid[..|q|];
  }

  lemma {:induction false} SectorWarp(q: seq<Access>, w: Lanes, n: DataSize, size: nat, parts: nat)
    requires size * parts <= |w.addrs|
    ensures GrownBy(q, AppendWarp(q, w, n, 32, size, parts), 32)
  {
    if parts > 0 {
      Subwarps(size, parts, parts - 1, |w.addrs|);
      SectorWarp(q, w, n, size, parts - 1);
      var mid := AppendWarp(q, w, n, 32, size, parts - 1);
      SectorSubwarp(mid, w, n, size * (parts - 1), size * parts);
      GrownTwice(q, mid, AppendWarp(q, w, n, 32, size, parts), 32);
    }
  }

  /** By sectors, and for bytes always, every request has 32 bytes. */
  lemma SectorRequests(q: seq<Access>, w: Lanes, n: DataSize, local: bool, arch: int, skipL1D: bool, cacheGlobal: bool,
                       parts: nat)
    requires parts > 0 && (BySectors(arch, skipL1D, cacheGlobal) || n == 1)
    ensures GrownBy(q, Queued(q, w, n, local, arch, skipL1D, cacheGlobal, parts), 32)
  {
    SectorWarp(q, w, AccessSize(n, local), |w.addrs| / parts, parts);
  }

  // ---------- one access for every lane ----------

  /** Where a lane's access lies: its address, the segment it is in, and its place in the line. */
  datatype Seat = Seat(addr: nat, segment: nat, place: nat)

  /** The lane issues one address. */
  predicate Alone(addrs: seq<nat>, a: nat) {
    |addrs| == MAX_ACCESSES && a > 0 && addrs[0] == a && addrs[1] == 0
  }

  ghost predicate SeatOk(x: Seat, n: DataSize, seg: Seg) {
    && InChunk(x.addr, n) && x.addr < 0x1_0000_0000
    && x.segment == Tag(x.addr, seg) && x.place == x.addr % 128
  }

  /** Every lane is active and issues the access of its seat. */
  ghost predicate Seated(w: Lanes, n: DataSize, seg: Seg, seats: seq<Seat>) {
    && |w.addrs| == |seats| && (forall t: nat :: t in w.active <==> t < |seats|)
    && forall t :: 0 <= t < |seats| ==> Alone(w.addrs[t], seats[t].addr) && SeatOk(seats[t], n, seg)
  }

  lemma AloneIssues(addrs: seq<nat>, a: nat)
    requires Alone(addrs, a)
    ensures Issued(addrs) == {a}
  {
    assert addrs[1..][0] == 0;
  }

  lemma SeatTouches(w: Lanes, n: DataSize, seg: Seg, seats: seq<Seat>, b: nat, t: nat, addr: nat)
    requires Seated(w, n, seg, seats)
    ensures Touching(w, seg, 0, |seats|, b, t, addr) <==> t < |seats| && addr == seats[t].addr && seats[t].segment == b
  {
    if t < |seats| {
      AloneIssues(w.addrs[t], seats[t].addr);
    }
  }

  lemma SeatsInChunks(w: Lanes, n: DataSize, seg: Seg, seats: seq<Seat>)
    requires Seated(w, n, seg, seats)
    ensures AllInChunk(w, n, 0, |seats|)
  {
    forall t: nat, addr: nat | Issues(w, 0, |seats|, t, addr) ensures InChunk(addr, n) && addr < 0x1_0000_0000 {
      AloneIssues(w.addrs[t], seats[t].addr);
    }
  }

  /** Some lane sits in segment `b` and touches byte `k` of it. */
  ghost predicate ByteTaken(seats: seq<Seat>, n: nat, b: nat, k: nat) {
    exists t :: 0 <= t < |seats| && seats[t].segment == b && seats[t].place <= k < seats[t].place + n
  }

  ghost predicate ChunkTaken(seats: seq<Seat>, b: nat, c: nat) {
    exists t :: 0 <= t < |seats| && seats[t].segment == b && seats[t].place / 32 == c
  }

  /** What the transaction of segment `b` holds. */
  ghost predicate IsSeatTxn(x: Txn, seats: seq<Seat>, n: nat, b: nat) {
    && (forall t: nat :: t in x.lanes <==> t < |seats| && seats[t].segment == b)
    && (forall k: nat :: k in x.bytes <==> ByteTaken(seats, n, b, k))
    && forall c: nat :: c in x.chunks <==> ChunkTaken(seats, b, c)
  }

  lemma SeatLanes(w: Lanes, n: DataSize, seg: Seg, seats: seq<Seat>, b: nat, t: nat)
    requires Seated(w, n, seg, seats)
    ensures var m := SubTxns(w, n, seg, 0, |seats|);
            (b in m && t in m[b].lanes) <==> t < |seats| && seats[t].segment == b
  {
    SeatsInChunks(w, n, seg, seats);
    ExactLanes(w, n, seg, 0, |seats|, b, t);
    if t < |seats| && seats[t].segment == b {
      SeatTouches(w, n, seg, seats, b, t, seats[t].addr);
    }
    if addr: nat :| Touching(w, seg, 0, |seats|, b, t, addr) {
      SeatTouches(w, n, seg, seats, b, t, addr);
    }
  }

  lemma SeatBytes(w: Lanes, n: DataSize, seg: Seg, seats: seq<Seat>, b: nat, k: nat)
    requires Seated(w, n, seg, seats)
    ensures var m := SubTxns(w, n, seg, 0, |seats|); (b in m && k in m[b].bytes) <==> ByteTaken(seats, n, b, k)
  {
    SeatsInChunks(w, n, seg, seats);
    ExactBytes(w, n, seg, 0, |seats|, b, k);
    forall t: nat, addr: nat ensures Touching(w, seg, 0, |seats|, b, t, addr)
                                     <==> t < |seats| && addr == seats[t].addr && seats[t].segment == b {
      SeatTouches(w, n, seg, seats, b, t, addr);
    }
    if ByteTaken(seats, n, b, k) {
      var t :| 0 <= t < |seats| && seats[t].segment == b && seats[t].place <= k < seats[t].place + n;
      assert Touching(w, seg, 0, |seats|, b, t, seats[t].addr);
    }
  }

  lemma SeatChunks(w: Lanes, n: DataSize, seg: Seg, seats: seq<Seat>, b: nat, c: nat)
    requires Seated(w, n, seg, seats)
    ensures var m := SubTxns(w, n, seg, 0, |seats|); (b in m && c in m[b].chunks) <==> ChunkTaken(seats, b, c)
  {
    SeatsInChunks(w, n, seg, seats);
    ExactChunks(w, n, seg, 0, |seats|, b, c);
    forall t: nat, addr: nat ensures Touching(w, seg, 0, |seats|, b, t, addr)
                                     <==> t < |seats| && addr == seats[t].addr && seats[t].segment == b {
      SeatTouches(w, n, seg, seats, b, t, addr);
    }
    if ChunkTaken(seats, b, c) {
      var t :| 0 <= t < |seats| && seats[t].segment == b && seats[t].place / 32 == c;
      assert Touching(w, seg, 0, |seats|, b, t, seats[t].addr);
    }
  }

  /** The segments with a seat in them have a transaction, and no other. */
  lemma SeatTxns(w: Lanes, n: DataSize, seg: Seg, seats: seq<Seat>, b: nat)
    requires Seated(w, n, seg, seats)
    ensures var m := SubTxns(w, n, seg, 0, |seats|);
            && (b in m <==> exists t :: 0 <= t < |seats| && seats[t].segment == b)
            && (b in m ==> IsSeatTxn(m[b], seats, n, b))
  {
    var m := SubTxns(w, n, seg, 0, |seats|);
    if t :| 0 <= t < |seats| && seats[t].segment == b {
      SeatLanes(w, n, seg, seats, b, t);
    }
    if b in m {
      forall t: nat ensures t in m[b].lanes <==> t < |seats| && seats[t].segment == b {
        SeatLanes(w, n, seg, seats, b, t);
      }
      forall k: nat ensures k in m[b].bytes <==> ByteTaken(seats, n, b, k) {
        SeatBytes(w, n, seg, seats, b, k);
      }
      forall c: nat ensures c in m[b].chunks <==> ChunkTaken(seats, b, c) {
        SeatChunks(w, n, seg, seats, b, c);
      }
      AllSendable(w, n, seg, 0, |seats|);
      var c :| c in m[b].chunks;
      assert ChunkTaken(seats, b, c);
    }
  }

  // ---------- streams ----------

  /** The numbers below `n`. */
  ghost function Below(n: nat): (s: set<nat>)
    ensures forall k: nat :: k in s <==> k < n
  {
    if n == 0 then {} else Below(n - 1) + {n - 1}
  }

  /** Thirty-two lanes that read `n` bytes each, one after the other from `base` on. */
  ghost predicate Stream(w: Lanes, n: nat, base: nat) {
    && |w.addrs| == 32 && (forall t: nat :: t in w.active <==> t < 32)
    && base > 0 && base % 128 == 0 && base + 32 * n <= 0x1_0000_0000
    && forall t :: 0 <= t < 32 ==> Alone(w.addrs[t], base + n * t)
  }

  /** How wide the segments of the stream are, and how many. */
  function Width(n: DataSize): (width: Seg) {
    if n == 1 then 32 else if n == 2 then 64 else 128
  }

  function Count(n: DataSize): (count: nat) {
    if n <= 4 then 1 else n / 4
  }

  /** The segment that lane `t` of the stream is in. */
  function SegmentOf(n: DataSize, t: nat): (j: nat) {
    n * t / Width(n)
  }

  /** Segment number `j`, of segments of `step` bytes from `base` on. */
  function Rung(base: nat, step: nat, j: nat): (b: nat)
    decreases j
  {
    if j == 0 then base else Rung(base + step, step, j - 1)
  }

  lemma {:induction false} RungIs(base: nat, step: nat, j: nat)
    ensures Rung(base, step, j) == base + step * j
    decreases j
  {
    if j > 0 {
      RungIs(base + step, step, j - 1);
    }
  }

  function StreamSeat(n: DataSize, base: nat, t: nat): (x: Seat) {
    Seat(base + n * t, Rung(base, Width(n), SegmentOf(n, t)), n * t % Width(n))
  }

  lemma StreamSplit(n: DataSize, t: nat)
    requires t < 32
    ensures var j, seg := SegmentOf(n, t), Width(n);
            j < Count(n) && n * t == seg * j + n * t % seg && n * t % seg + n <= seg && n * t < 32 * n
  {
    if n == 1 {
    } else if n == 2 {
    } else if n == 4 {
    } else if n == 8 {
    } else {
      assert n == 16;
    }
  }

  lemma StreamSector(n: DataSize, t: nat)
    ensures n * t % 32 + n <= 32
  {
    if n == 2 {
      DivMod(32, t / 16, 2 * (t % 16));
    } else if n == 4 {
      DivMod(32, t / 8, 4 * (t % 8));
    } else if n == 8 {
      DivMod(32, t / 4, 8 * (t % 4));
    } else if n == 16 {
      DivMod(32, t / 2, 16 * (t % 2));
    }
  }

  lemma BaseBlock(base: nat, q: nat, seg: Seg, j: nat, r: nat)
    requires base == 128 * q && r < seg && (seg == 128 || j == 0)
    ensures Offset(base + seg * j + r, seg) == r && (base + seg * j + r) % 128 == r
  {
    if seg == 32 {
      OffsetIs(base + r, 32, 4 * q, r);
      DivMod(128, q, r);
    } else if seg == 64 {
      OffsetIs(base + r, 64, 2 * q, r);
      DivMod(128, q, r);
    } else {
      OffsetIs(base + 128 * j + r, 128, q + j, r);
      DivMod(128, q + j, r);
    }
  }

  lemma BaseChunk(base: nat, q: nat, x: nat)
    requires base == 32 * q
    ensures (base + x) % 32 == x % 32
  {
  }

  lemma StreamSeatOk(n: DataSize, base: nat, t: nat)
    requires t < 32 && base % 128 == 0 && base + 32 * n <= 0x1_0000_0000
    ensures SeatOk(StreamSeat(n, base, t), n, Width(n))
  {
    var a, j, seg := base + n * t, SegmentOf(n, t), Width(n);
    StreamSplit(n, t);
    StreamSector(n, t);
    BaseBlock(base, base / 128, seg, j, n * t % seg);
    BaseChunk(base, base / 32, n * t);
    RungIs(base, seg, j);
    TagExact(a, seg);
  }

  /** The seats of the first `k` lanes. */
  ghost function StreamSeats(n: DataSize, base: nat, k: nat): (seats: seq<Seat>)
    ensures |seats| == k
  {
    if k == 0 then [] else StreamSeats(n, base, k - 1) + [StreamSeat(n, base, k - 1)]
  }

  lemma {:induction false} StreamSeatsAt(n: DataSize, base: nat, k: nat, t: nat)
    requires t < k
    ensures StreamSeats(n, base, k)[t] == StreamSeat(n, base, t)
  {
    if t < k - 1 {
      StreamSeatsAt(n, base, k - 1, t);
    }
  }

  lemma StreamSeated(w: Lanes, n: DataSize, base: nat)
    requires Stream(w, n, base)
    ensures Seated(w, n, Width(n), StreamSeats(n, base, 32))
  {
    var seats := StreamSeats(n, base, 32);
    forall t | 0 <= t < 32 ensures SeatOk(seats[t], n, Width(n)) && seats[t].addr == base + n * t {
      StreamSeatOk(n, base, t);
      StreamSeatsAt(n, base, 32, t);
    }
  }

  /** Every seat is in one of the segments, and every segment has a seat. */
  lemma SeatRung(n: DataSize, base: nat, t: nat) returns (j: nat)
    requires t < 32
    ensures j < Count(n) && StreamSeats(n, base, 32)[t].segment == Rung(base, Width(n), j)
  {
    j := SegmentOf(n, t);
    StreamSplit(n, t);
    StreamSeatsAt(n, base, 32, t);
  }

  lemma RungSeat(n: DataSize, base: nat, j: nat) returns (t: nat)
    requires j < Count(n)
    ensures t < 32 && StreamSeats(n, base, 32)[t].segment == Rung(base, Width(n), j)
  {
    t := StreamAt(n, j, 0);
    StreamSeatsAt(n, base, 32, t);
  }

  /** The lane of the stream that touches byte `k` of segment number `j`. */
  lemma StreamAt(n: DataSize, j: nat, k: nat) returns (t: nat)
    requires j < Count(n) && k < Width(n)
    ensures t < 32 && SegmentOf(n, t) == j && n * t % Width(n) <= k < n * t % Width(n) + n
  {
    t := (Width(n) * j + k) / n;
    if n == 1 {
    } else if n == 2 {
    } else if n == 4 {
    } else if n == 8 {
    } else {
      assert n == 16;
    }
  }

  /** Segments with different numbers are different. */
  lemma SameRung(n: DataSize, base: nat, i: nat, j: nat)
    requires Rung(base, Width(n), i) == Rung(base, Width(n), j)
    ensures i == j
  {
    RungIs(base, Width(n), i);
    RungIs(base, Width(n), j);
  }

  lemma StreamBytes(n: DataSize, base: nat, j: nat, k: nat)
    requires j < Count(n)
    ensures ByteTaken(StreamSeats(n, base, 32), n, Rung(base, Width(n), j), k) <==> k < Width(n)
  {
    var seats, b := StreamSeats(n, base, 32), Rung(base, Width(n), j);
    if k < Width(n) {
      var t := StreamAt(n, j, k);
      StreamSeatsAt(n, base, 32, t);
    }
    if t :| 0 <= t < |seats| && seats[t].segment == b && seats[t].place <= k < seats[t].place + n {
      StreamSeatsAt(n, base, 32, t);
      StreamSplit(n, t);
    }
  }

  lemma ChunkAt(x: nat, n: DataSize, c: nat)
    requires x <= 32 * c < x + n && x % 32 + n <= 32
    ensures x / 32 == c
  {
  }

  lemma StreamChunks(n: DataSize, base: nat, j: nat, c: nat)
    requires j < Count(n)
    ensures ChunkTaken(StreamSeats(n, base, 32), Rung(base, Width(n), j), c) <==> c < Width(n) / 32
  {
    var seats, b := StreamSeats(n, base, 32), Rung(base, Width(n), j);
    if c < Width(n) / 32 {
      var t := StreamAt(n, j, 32 * c);
      StreamSeatsAt(n, base, 32, t);
      PlaceInChunk(n, t);
      ChunkAt(n * t % Width(n), n, c);
    }
    if t :| 0 <= t < |seats| && seats[t].segment == b && seats[t].place / 32 == c {
      StreamSeatsAt(n, base, 32, t);
      StreamSplit(n, t);
    }
  }

  lemma PlaceInChunk(n: DataSize, t: nat)
    requires t < 32
    ensures n * t % Width(n) % 32 + n <= 32
  {
    StreamSector(n, t);
    ChunkOfPlace(n * t, Width(n));
  }

  lemma ChunkOfPlace(x: nat, seg: Seg)
    ensures x % seg % 32 == x % 32
  {
    var q, r := x / seg, x % seg;
    if seg == 64 {
      DivMod(32, 2 * q + r / 32, r % 32);
    } else if seg == 128 {
      DivMod(32, 4 * q + r / 32, r % 32);
    }
  }

  // ---------- the queue of a stream ----------

  /** `count` numbers from `base` on, `step` apart. */
  ghost function Ladder(base: nat, step: nat, count: nat): (s: set<nat>)
    decreases count
  {
    if count == 0 then {} else {base} + Ladder(base + step, step, count - 1)
  }

  lemma {:induction false} LadderHas(base: nat, step: nat, count: nat, j: nat)
    requires j < count
    ensures Rung(base, step, j) in Ladder(base, step, count)
    decreases count
  {
    if j > 0 {
      LadderHas(base + step, step, count - 1, j - 1);
    }
  }

  lemma {:induction false} LadderFind(base: nat, step: nat, count: nat, x: nat) returns (j: nat)
    requires x in Ladder(base, step, count)
    ensures j < count && x == Rung(base, step, j)
    decreases count
  {
    if x == base {
      j := 0;
    } else {
      var i := LadderFind(base + step, step, count - 1, x);
      j := i + 1;
    }
  }

  lemma {:induction false} LadderAbove(base: nat, step: nat, count: nat)
    ensures forall x :: x in Ladder(base, step, count) ==> x >= base
    decreases count
  {
    if count > 0 {
      LadderAbove(base + step, step, count - 1);
    }
  }

  lemma LadderLeast(base: nat, step: nat, count: nat)
    requires step > 0 && count > 0
    ensures var s := Ladder(base, step, count);
            s != {} && Least(s) == base && s - {base} == Ladder(base + step, step, count - 1)
  {
    var s, rest := Ladder(base, step, count), Ladder(base + step, step, count - 1);
    LadderAbove(base + step, step, count - 1);
    forall x | x in s ensures base <= x {
      assert x == base || x in rest;
    }
    assert base in s && base !in rest && IsLeast(s, base);
    assert s - {base} == rest;
  }

  lemma {:induction false} LadderOrder(base: nat, step: nat, count: nat, j: nat)
    requires step > 0 && j < count
    ensures |Ladder(base, step, count)| == count && Ascending(Ladder(base, step, count))[j] == Rung(base, step, j)
    decreases count
  {
    LadderLeast(base, step, count);
    LadderSize(base, step, count);
    if j > 0 {
      LadderOrder(base + step, step, count - 1, j - 1);
    }
  }

  lemma {:induction false} LadderSize(base: nat, step: nat, count: nat)
    requires step > 0
    ensures |Ladder(base, step, count)| == count
    decreases count
  {
    if count > 0 {
      LadderLeast(base, step, count);
      LadderSize(base + step, step, count - 1);
    }
  }

  lemma StreamKeys(w: Lanes, n: DataSize, base: nat)
    requires Stream(w, n, base)
    ensures SubTxns(w, n, Width(n), 0, 32).Keys == Ladder(base, Width(n), Count(n))
  {
    StreamSeated(w, n, base);
    SeatKeys(w, n, base, StreamSeats(n, base, 32));
  }

  lemma SeatKeys(w: Lanes, n: DataSize, base: nat, seats: seq<Seat>)
    requires seats == StreamSeats(n, base, 32) && Seated(w, n, Width(n), seats)
    ensures SubTxns(w, n, Width(n), 0, 32).Keys == Ladder(base, Width(n), Count(n))
  {
    var m := SubTxns(w, n, Width(n), 0, 32);
    forall b: nat ensures b in m <==> b in Ladder(base, Width(n), Count(n)) {
      SeatTxns(w, n, Width(n), seats, b);
      SeatsOnLadder(n, base, seats, b);
    }
  }

  lemma SeatsOnLadder(n: DataSize, base: nat, seats: seq<Seat>, b: nat)
    requires seats == StreamSeats(n, base, 32)
    ensures (exists t :: 0 <= t < |seats| && seats[t].segment == b) <==> b in Ladder(base, Width(n), Count(n))
  {
    if t :| 0 <= t < |seats| && seats[t].segment == b {
      var j := SeatRung(n, base, t);
      LadderHas(base, Width(n), Count(n), j);
    }
    if b in Ladder(base, Width(n), Count(n)) {
      var j := LadderFind(base, Width(n), Count(n), b);
      var t := RungSeat(n, base, j);
    }
  }

  /** The lanes in segment number `j`. */
  ghost function LanesOf(n: DataSize, j: nat): (s: set<nat>) {
    set t | t in Below(32) && SegmentOf(n, t) == j
  }

  lemma StreamTxn(w: Lanes, n: DataSize, base: nat, j: nat)
    requires Stream(w, n, base) && j < Count(n)
    ensures var m, b := SubTxns(w, n, Width(n), 0, 32), Rung(base, Width(n), j);
            b in m && m[b] == Txn(Below(Width(n) / 32), Below(Width(n)), LanesOf(n, j))
  {
    var m, b, seats := SubTxns(w, n, Width(n), 0, 32), Rung(base, Width(n), j), StreamSeats(n, base, 32);
    StreamSeated(w, n, base);
    StreamKeys(w, n, base);
    LadderHas(base, Width(n), Count(n), j);
    SeatTxns(w, n, Width(n), seats, b);
    StreamMasks(m[b], n, base, j);
  }

  lemma LaneInSegment(n: DataSize, base: nat, j: nat, t: nat)
    requires t < 32
    ensures StreamSeats(n, base, 32)[t].segment == Rung(base, Width(n), j) <==> t in LanesOf(n, j)
  {
    StreamSeatsAt(n, base, 32, t);
    if Rung(base, Width(n), SegmentOf(n, t)) == Rung(base, Width(n), j) {
      SameRung(n, base, SegmentOf(n, t), j);
    }
  }

  lemma MaskOfBytes(x: Txn, n: DataSize, base: nat, j: nat)
    requires j < Count(n) && IsSeatTxn(x, StreamSeats(n, base, 32), n, Rung(base, Width(n), j))
    ensures x.bytes == Below(Width(n))
  {
    forall k: nat ensures k in x.bytes <==> k in Below(Width(n)) {
      StreamBytes(n, base, j, k);
    }
  }

  lemma MaskOfChunks(x: Txn, n: DataSize, base: nat, j: nat)
    requires j < Count(n) && IsSeatTxn(x, StreamSeats(n, base, 32), n, Rung(base, Width(n), j))
    ensures x.chunks == Below(Width(n) / 32)
  {
    forall c: nat ensures c in x.chunks <==> c in Below(Width(n) / 32) {
      StreamChunks(n, base, j, c);
    }
  }

  lemma MaskOfLanes(x: Txn, n: DataSize, base: nat, j: nat)
    requires j < Count(n) && IsSeatTxn(x, StreamSeats(n, base, 32), n, Rung(base, Width(n), j))
    ensures x.lanes == LanesOf(n, j)
  {
    forall t: nat ensures t in x.lanes <==> t in LanesOf(n, j) {
      if t < 32 {
        LaneInSegment(n, base, j, t);
      }
    }
  }

  lemma StreamMasks(x: Txn, n: DataSize, base: nat, j: nat)
    requires j < Count(n) && IsSeatTxn(x, StreamSeats(n, base, 32), n, Rung(base, Width(n), j))
    ensures x == Txn(Below(Width(n) / 32), Below(Width(n)), LanesOf(n, j))
  {
    MaskOfBytes(x, n, base, j);
    MaskOfChunks(x, n, base, j);
    MaskOfLanes(x, n, base, j);
  }

  /** The request of segment number `j` of the stream. */
  ghost function StreamRequest(n: DataSize, base: nat, j: nat): (a: Access) {
    Access(base + Width(n) * j, Width(n), LanesOf(n, j), Below(Width(n)), Below(Width(n) / 32))
  }

  lemma RungRequest(n: DataSize, base: nat, j: nat)
    ensures Access(Rung(base, Width(n), j), Width(n), LanesOf(n, j), Below(Width(n)), Below(Width(n) / 32))
         == StreamRequest(n, base, j)
  {
    RungIs(base, Width(n), j);
  }

  lemma FullRequest(b: nat, chunks: set<nat>, seg: Seg)
    requires b % 128 == 0 && forall c: nat :: c in chunks <==> c < seg / 32
    ensures Reduced(chunks, b, seg) == (b, seg)
  {
    assert 0 in chunks;
    if seg == 64 {
      assert 1 in chunks && 2 !in chunks && 3 !in chunks;
    } else if seg == 128 {
      assert 1 in chunks && 2 in chunks && 3 in chunks;
    }
  }

  /** The queue grows by the requests of the stream, in ascending order. */
  ghost predicate StreamQueued(q: seq<Access>, q': seq<Access>, n: DataSize, base: nat) {
    && |q'| == |q| + Count(n) && q'[..|q|] == q
    && forall j: nat :: j < Count(n) ==> q'[|q| + j] == StreamRequest(n, base, j)
  }

  /** The `j`-th request after transactions on the segments of a ladder, if the `j`-th is full. */
  lemma RungQueued(q: seq<Access>, m: Txns, seg: Seg, base: nat, count: nat, j: nat)
    requires m.Keys == Ladder(base, seg, count) && |m| == count && j < count
    requires var b := Rung(base, seg, j);
             b in m && b % 128 == 0 && forall c: nat :: c in m[b].chunks <==> c < seg / 32
    ensures var b, q' := Rung(base, seg, j), QueueOf(q, m, seg);
            |q'| == |q| + count && q'[|q| + j] == Access(b, seg, m[b].lanes, m[b].bytes, m[b].chunks)
  {
    LadderOrder(base, seg, count, j);
    QueueAt(q, m, seg, j);
    FullRequest(Rung(base, seg, j), m[Rung(base, seg, j)].chunks, seg);
  }

  lemma StreamRequestAt(q: seq<Access>, w: Lanes, n: DataSize, base: nat, j: nat)
    requires Stream(w, n, base) && j < Count(n) && |SubTxns(w, n, Width(n), 0, 32)| == Count(n)
    ensures var q' := AppendSubwarp(q, w, n, Width(n), 0, 32);
            |q'| == |q| + Count(n) && q'[|q| + j] == StreamRequest(n, base, j)
  {
    StreamKeys(w, n, base);
    StreamTxn(w, n, base, j);
    FullQueued(q, SubTxns(w, n, Width(n), 0, 32), n, base, j);
  }

  lemma FullQueued(q: seq<Access>, m: Txns, n: DataSize, base: nat, j: nat)
    requires m.Keys == Ladder(base, Width(n), Count(n)) && |m| == Count(n) && j < Count(n) && base % 128 == 0
    requires var b := Rung(base, Width(n), j);
             b in m && m[b] == Txn(Below(Width(n) / 32), Below(Width(n)), LanesOf(n, j))
    ensures var q' := QueueOf(q, m, Width(n));
            |q'| == |q| + Count(n) && q'[|q| + j] == StreamRequest(n, base, j)
  {
    LineStart(base, n, j);
    RungQueued(q, m, Width(n), base, Count(n), j);
    RungRequest(n, base, j);
  }

  lemma StreamSize(w: Lanes, n: DataSize, base: nat)
    requires Stream(w, n, base)
    ensures |SubTxns(w, n, Width(n), 0, 32)| == Count(n)
  {
    var m := SubTxns(w, n, Width(n), 0, 32);
    StreamKeys(w, n, base);
    LadderSize(base, Width(n), Count(n));
    assert |m| == |m.Keys|;
  }

  lemma StreamSubwarp(q: seq<Access>, w: Lanes, n: DataSize, base: nat)
    requires Stream(w, n, base)
    ensures StreamQueued(q, AppendSubwarp(q, w, n, Width(n), 0, 32), n, base)
  {
    StreamSize(w, n, base);
    QueueGrows(q, SubTxns(w, n, Width(n), 0, 32), Width(n));
    forall j: nat | j < Count(n)
      ensures AppendSubwarp(q, w, n, Width(n), 0, 32)[|q| + j] == StreamRequest(n, base, j)
    {
      StreamRequestAt(q, w, n, base, j);
    }
  }

  lemma LineStart(base: nat, n: DataSize, j: nat)
    requires base % 128 == 0 && j < Count(n)
    ensures (Rung(base, Width(n), j)) % 128 == 0
  {
    RungIs(base, Width(n), j);
    BaseBlock(base, base / 128, Width(n), j, 0);
  }

  /** Without sectors, a stream of 1, 2 or 4 bytes for each lane needs one request of 32, 64 or 128 bytes, and one of 8
      or 16 global bytes two or four requests of 128: every byte that is asked for is requested once, and no other. */
  lemma StreamRequests(q: seq<Access>, w: Lanes, n: DataSize, local: bool, arch: int, skipL1D: bool, cacheGlobal: bool,
                       base: nat)
    requires Stream(w, n, base) && !BySectors(arch, skipL1D, cacheGlobal) && (n <= 4 || !local)
    ensures StreamQueued(q, Queued(q, w, n, local, arch, skipL1D, cacheGlobal, 1), n, base)
  {
    StreamSubwarp(q, w, n, base);
    OneWarp(q, w, n, Width(n));
  }

  /** A warp in one part is one subwarp. */
  lemma OneWarp(q: seq<Access>, w: Lanes, n: DataSize, seg: Seg)
    ensures |w.addrs| / 1 * 1 <= |w.addrs|
    ensures AppendWarp(q, w, n, seg, |w.addrs| / 1, 1) == AppendSubwarp(q, w, n, seg, 0, |w.addrs|)
  {
    assert AppendWarp(q, w, n, seg, |w.addrs| / 1, 0) == q;
  }

  // ---------- pieces ----------

  /** An access of `n` bytes: local ones of four bytes and more come as pieces of four bytes. */
  function Piece(n: DataSize, local: bool): (width: DataSize) {
    if local && (n == 4 || n == 8 || n == 16) then 4 else n
  }

  /** The lane has issued the piece at `a`, and byte `k` of the line is in it. */
  ghost predicate InPiece(w: Lanes, width: nat, t: nat, a: nat, k: nat) {
    Issues(w, 0, |w.addrs|, t, a) && a % 128 <= k < a % 128 + width
  }

  /** Every byte mask holds bytes of pieces only. */
  lemma MaskedByte(q: seq<Access>, w: Lanes, n: DataSize, local: bool, arch: int, skipL1D: bool, cacheGlobal: bool,
                   j: nat, k: nat) returns (t: nat, a: nat)
    requires AllInChunk(w, Piece(n, local), 0, |w.addrs|)
    requires var q' := Queued(q, w, n, local, arch, skipL1D, cacheGlobal, 1); |q| <= j < |q'| && k in q'[j].bytes
    ensures InPiece(w, Piece(n, local), t, a, k)
  {
    var width, seg := Piece(n, local), SegmentSize(SectorSegments(arch, skipL1D, cacheGlobal), n);
    var m := SubTxns(w, width, seg, 0, |w.addrs|);
    OneWarp(q, w, width, seg);
    QueueGrows(q, m, seg);
    QueueAt(q, m, seg, j - |q|);
    ExactBytes(w, width, seg, 0, |w.addrs|, SegmentAt(m, j - |q|), k);
    t, a :| Touching(w, seg, 0, |w.addrs|, SegmentAt(m, j - |q|), t, a) && a % 128 <= k < a % 128 + width;
  }

  /** Every piece is in the byte mask of a request that carries its lane. */
  lemma PieceMasked(q: seq<Access>, w: Lanes, n: DataSize, local: bool, arch: int, skipL1D: bool, cacheGlobal: bool,
                    t: nat, a: nat) returns (j: nat)
    requires AllInChunk(w, Piece(n, local), 0, |w.addrs|) && Issues(w, 0, |w.addrs|, t, a)
    ensures var q' := Queued(q, w, n, local, arch, skipL1D, cacheGlobal, 1);
            && |q| <= j < |q'| && t in q'[j].lanes
            && forall k: nat :: InPiece(w, Piece(n, local), t, a, k) ==> k in q'[j].bytes
  {
    var width, seg := Piece(n, local), SegmentSize(SectorSegments(arch, skipL1D, cacheGlobal), n);
    var m, b := SubTxns(w, width, seg, 0, |w.addrs|), Tag(a, seg);
    OneWarp(q, w, width, seg);
    MarkedInSegment(w, width, seg, 0, |w.addrs|, t, a);
    assert |m| == |m.Keys|;
    var i := AscendingFind(m.Keys, b);
    QueueAt(q, m, seg, i);
    j := |q| + i;
    forall k: nat | InPiece(w, width, t, a, k) ensures k in m[b].bytes {
      PieceInSpan(a, width, k);
    }
  }

  lemma PieceInSpan(a: nat, width: DataSize, k: nat)
    requires InChunk(a, width) && a % 128 <= k < a % 128 + width
    ensures k in Span(a % 128, width)
  {
    SpanIs(a % 128, width);
    InChunkInside(a, width, 128);
  }
}
