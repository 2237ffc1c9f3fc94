/** What coalescing of atomics guarantees about the queue: every active lane is carried by exactly one request,
    which holds and marks all its bytes. */
module AtomicCoverage {
  import opened Basics
  import opened Coalescing
  import opened PlainCoalescer
  import opened CoalescingTheorems
  import opened AtomicCoalescer
  import opened AtomicTheorems
  import opened Footprint

  /** How many requests of the queue carry the lane. */
  function Carriers(q: seq<Access>, lane: nat): (c: nat) {
    if q == [] then 0 else Carriers(q[..|q| - 1], lane) + if lane in q[|q| - 1].lanes then 1 else 0
  }

  /** How many transactions of the list carry the lane. */
  function InList(list: seq<Txn>, lane: nat): (c: nat) {
    if list == [] then 0 else InList(list[1..], lane) + if lane in list[0].lanes then 1 else 0
  }

  // ---------- first fit lodges every lane once ----------

  lemma {:induction false} NotCarried(list: seq<Txn>, lane: nat)
    ensures InList(list, lane) == 0 <==> forall x :: x in list ==> lane !in x.lanes
  {
    if list != [] {
      NotCarried(list[1..], lane);
    }
  }

  lemma {:induction false} FitLodges(list: seq<Txn>, i: Item, n: DataSize, lane: nat)
    requires InList(list, i.lane) == 0
    ensures InList(Fit(list, i, n), lane) == InList(list, lane) + if lane == i.lane then 1 else 0
  {
    if list == [] {
      assert [Merge(EMPTY_TXN, i, n)][1..] == [];
    } else if list[0].bytes !! Span(i.addr % 128, n) {
      assert ([Merge(list[0], i, n)] + list[1..])[1..] == list[1..];
    } else {
      FitLodges(list[1..], i, n, lane);
      assert ([list[0]] + Fit(list[1..], i, n))[1..] == Fit(list[1..], i, n);
    }
  }

  /** A transaction holds the chunk and the bytes of the item. */
  ghost predicate Marks(x: Txn, i: Item, n: DataSize) {
    Chunk(i.addr) in x.chunks && Span(i.addr % 128, n) <= x.bytes
  }

  ghost predicate ListMarks(list: seq<Txn>, i: Item, n: DataSize) {
    forall x :: x in list && i.lane in x.lanes ==> Marks(x, i, n)
  }

  lemma {:induction false} FitMarks(list: seq<Txn>, i: Item, n: DataSize, old': Item)
    requires if old' == i then InList(list, i.lane) == 0 else ListMarks(list, old', n) && old'.lane != i.lane
    ensures ListMarks(Fit(list, i, n), old', n)
  {
    if old' == i {
      NotCarried(list, i.lane);
    }
    if list != [] && !(list[0].bytes !! Span(i.addr % 128, n)) {
      assert list[0] in list;
      FitMarks(list[1..], i, n, old');
    } else if list != [] {
      assert list[0] in list && forall x :: x in list[1..] ==> x in list;
    }
  }

  /** Some item with this lane is in the segment. */
  ghost predicate LaneIn(items: seq<Item>, seg: Seg, b: nat, lane: nat) {
    exists i :: i in items && i.lane == lane && Tag(i.addr, seg) == b
  }

  lemma LaneInSnoc(items: seq<Item>, i: Item, seg: Seg, b: nat, lane: nat)
    ensures LaneIn(items + [i], seg, b, lane) <==>
            LaneIn(items, seg, b, lane) || (i.lane == lane && Tag(i.addr, seg) == b)
  {
    assert i in items + [i];
    if LaneIn(items, seg, b, lane) {
      var j :| j in items && j.lane == lane && Tag(j.addr, seg) == b;
      assert j in items + [i];
    }
  }

  lemma NewLane(items: seq<Item>, i: Item, seg: Seg, b: nat)
    requires DistinctLanes(items + [i])
    ensures DistinctLanes(items) && !LaneIn(items, seg, b, i.lane)
    ensures forall j :: j in items ==> j.lane != i.lane
  {
    var all := items + [i];
    forall j, k | 0 <= j < k < |items| ensures items[j].lane != items[k].lane {
      assert all[j] == items[j] && all[k] == items[k];
    }
    forall j | j in items ensures j.lane != i.lane {
      var k :| 0 <= k < |items| && items[k] == j;
      assert all[k] == j && all[|items|] == i;
    }
  }

  /** Each lane is in one transaction of its segment and in none of any other. */
  lemma {:induction false} PlaceLodges(items: seq<Item>, n: DataSize, seg: Seg, b: nat, lane: nat)
    requires DistinctLanes(items)
    ensures InList(ListAt(Place(items, n, seg), b), lane) == if LaneIn(items, seg, b, lane) then 1 else 0
  {
    if items != [] {
      var front, i := items[..|items| - 1], items[|items| - 1];
      assert items == front + [i];
      NewLane(front, i, seg, b);
      PlaceLodges(front, n, seg, b, lane);
      PlaceLodges(front, n, seg, b, i.lane);
      LaneInSnoc(front, i, seg, b, lane);
      if Tag(i.addr, seg) == b {
        FitLodges(ListAt(Place(front, n, seg), b), i, n, lane);
      }
    }
  }

  lemma {:induction false} PlaceMarks(items: seq<Item>, n: DataSize, seg: Seg, b: nat, i: Item)
    requires DistinctLanes(items) && i in items
    ensures ListMarks(ListAt(Place(items, n, seg), b), i, n)
  {
    var front, last := items[..|items| - 1], items[|items| - 1];
    assert items == front + [last];
    NewLane(front, last, seg, b);
    PlaceLodges(front, n, seg, b, last.lane);
    if i != last {
      PlaceMarks(front, n, seg, b, i);
    }
    AddMarks(Place(front, n, seg), last, n, seg, b, i);
  }

  lemma AddMarks(m: Lists, last: Item, n: DataSize, seg: Seg, b: nat, i: Item)
    requires InList(ListAt(m, b), last.lane) == 0
    requires i == last || (i.lane != last.lane && ListMarks(ListAt(m, b), i, n))
    ensures ListMarks(ListAt(AddItem(m, last, n, seg), b), i, n)
  {
    if i == last {
      NotCarried(ListAt(m, b), i.lane);
    }
    if Tag(last.addr, seg) == b {
      FitMarks(ListAt(m, b), last, n, i);
    }
  }

  // ---------- the queue ----------

  lemma CarriersSnoc(q: seq<Access>, a: Access, lane: nat)
    ensures Carriers(q + [a], lane) == Carriers(q, lane) + if lane in a.lanes then 1 else 0
  {
    assert (q + [a])[..|q|] == q;
  }

  lemma {:induction false} ListCarriers(q: seq<Access>, list: seq<Txn>, b: nat, seg: Seg, lane: nat)
    ensures Carriers(AppendList(q, list, b, seg), lane) == Carriers(q, lane) + InList(list, lane)
    decreases list
  {
    if list != [] {
      CarriersSnoc(q, AccessFor(b, list[0], seg), lane);
      ListCarriers(q + [AccessFor(b, list[0], seg)], list[1..], b, seg, lane);
    }
  }

  /** Only the list at `home` carries the lane, once. */
  ghost predicate LodgedAt(m: Lists, home: nat, lane: nat) {
    forall b :: b in m ==> InList(m[b], lane) == if b == home then 1 else 0
  }

  lemma {:induction false} ListsCarriers(q: seq<Access>, m: Lists, left: set<nat>, seg: Seg, home: nat, lane: nat)
    requires left <= m.Keys && LodgedAt(m, home, lane)
    ensures Carriers(AppendLists(q, m, left, seg), lane) == Carriers(q, lane) + if home in left then 1 else 0
    decreases left
  {
    if left != {} {
      var b := Least(left);
      ListCarriers(q, m[b], b, seg, lane);
      ListsCarriers(AppendList(q, m[b], b, seg), m, left - {b}, seg, home, lane);
    }
  }

  lemma {:induction false} ListsWithout(q: seq<Access>, m: Lists, left: set<nat>, seg: Seg, lane: nat)
    requires left <= m.Keys && forall b :: b in m ==> InList(m[b], lane) == 0
    ensures Carriers(AppendLists(q, m, left, seg), lane) == Carriers(q, lane)
    decreases left
  {
    if left != {} {
      var b := Least(left);
      ListCarriers(q, m[b], b, seg, lane);
      ListsWithout(AppendList(q, m[b], b, seg), m, left - {b}, seg, lane);
    }
  }

  /** An active lane of the subwarp. */
  ghost predicate Takes(w: Lanes, lo: nat, hi: nat, lane: nat) {
    lo <= lane < hi && lane in w.active
  }

  /** Conservation, whatever the addresses: a subwarp adds one request for each of its active lanes that carries the
      lane, and none for any other lane. */
  lemma AtomicConservation(q: seq<Access>, w: Lanes, n: DataSize, seg: Seg, lo: nat, hi: nat, lane: nat)
    ensures Carriers(AppendAtomics(q, w, n, seg, lo, hi), lane) == Carriers(q, lane)
            + if Takes(w, lo, hi, lane) then 1 else 0
  {
    var items := Items(w, lo, hi);
    var m, home := Place(items, n, seg), Tag(FirstAddr(w, lane), seg);
    ItemsDistinct(w, lo, hi);
    forall b: nat ensures LaneIn(items, seg, b, lane) <==> Takes(w, lo, hi, lane) && b == home {
      if Takes(w, lo, hi, lane) && b == home {
        assert Item(lane, FirstAddr(w, lane)) in items;
      }
    }
    forall b: nat ensures InList(ListAt(m, b), lane) == if Takes(w, lo, hi, lane) && b == home then 1 else 0 {
      PlaceLodges(items, n, seg, b, lane);
    }
    assert forall b :: b in m ==> m[b] == ListAt(m, b);
    if Takes(w, lo, hi, lane) {
      assert InList(ListAt(m, home), lane) == 1;
      ListsCarriers(q, m, m.Keys, seg, home, lane);
    } else {
      ListsWithout(q, m, m.Keys, seg, lane);
    }
  }

  /** Every request that carries the lane holds all bytes of its access and has them in its byte mask. */
  ghost predicate Serving(q: seq<Access>, i: Item, n: DataSize) {
    forall a :: a in q && i.lane in a.lanes ==> Covers(a, i.lane, i.addr, n) && Span(i.addr % 128, n) <= a.bytes
  }

  lemma {:induction false} ListServing(q: seq<Access>, list: seq<Txn>, b: nat, seg: Seg, i: Item, n: DataSize)
    requires Serving(q, i, n) && ListSends(list, b, seg) && ListMarks(list, i, n)
    requires InChunk(i.addr, n) && i.addr < 0x1_0000_0000
    requires b == Tag(i.addr, seg) || InList(list, i.lane) == 0
    ensures Serving(AppendList(q, list, b, seg), i, n)
    decreases list
  {
    if list != [] {
      assert list[0] in list && forall x :: x in list[1..] ==> x in list;
      if i.lane in list[0].lanes {
        ReducedServes(list[0].chunks, b, seg);
        var (at, size) := Reduced(list[0].chunks, b, seg);
        ChunkHoldsAccess(at, size, i.addr, n, seg);
      }
      ListServing(q + [AccessFor(b, list[0], seg)], list[1..], b, seg, i, n);
    }
  }

  /** Every list marks the item, and only the list of its segment carries its lane. */
  ghost predicate ListsMark(m: Lists, i: Item, n: DataSize, seg: Seg) {
    forall b :: b in m ==> ListMarks(m[b], i, n) && (b == Tag(i.addr, seg) || InList(m[b], i.lane) == 0)
  }

  lemma {:induction false} ListsServing(q: seq<Access>, m: Lists, left: set<nat>, seg: Seg, i: Item, n: DataSize)
    requires Serving(q, i, n) && ListsSend(m, seg) && ListsMark(m, i, n, seg) && left <= m.Keys
    requires InChunk(i.addr, n) && i.addr < 0x1_0000_0000
    ensures Serving(AppendLists(q, m, left, seg), i, n)
    decreases left
  {
    if left != {} {
      var b := Least(left);
      ListServing(q, m[b], b, seg, i, n);
      ListsServing(AppendList(q, m[b], b, seg), m, left - {b}, seg, i, n);
    }
  }

  lemma SubwarpServing(q: seq<Access>, w: Lanes, n: DataSize, seg: Seg, lo: nat, hi: nat, i: Item)
    requires i.addr == FirstAddr(w, i.lane) && Serving(q, i, n) && InChunk(i.addr, n) && i.addr < 0x1_0000_0000
    ensures Serving(AppendAtomics(q, w, n, seg, lo, hi), i, n)
  {
    var items := Items(w, lo, hi);
    var m := Place(items, n, seg);
    ItemsDistinct(w, lo, hi);
    PlaceSends(items, n, seg);
    forall b | b in m ensures ListMarks(m[b], i, n) && (b == Tag(i.addr, seg) || InList(m[b], i.lane) == 0) {
      PlaceLodges(items, n, seg, b, i.lane);
      if i in items {
        PlaceMarks(items, n, seg, b, i);
      } else {
        NotCarried(m[b], i.lane);
      }
    }
    ListsServing(q, m, m.Keys, seg, i, n);
  }

  // ---------- the whole warp ----------

  /** Since `q`, each active lane below `hi` has got one request more that carries it, and no other lane has. */
  ghost predicate CarriedOnce(q: seq<Access>, after: seq<Access>, w: Lanes, hi: nat, lane: nat) {
    Carriers(after, lane) == Carriers(q, lane) + if Takes(w, 0, hi, lane) then 1 else 0
  }

  lemma ConservationStep(q: seq<Access>, before: seq<Access>, w: Lanes, n: DataSize, seg: Seg, lo: nat, hi: nat,
                         lane: nat)
    requires lo <= hi && CarriedOnce(q, before, w, lo, lane)
    ensures CarriedOnce(q, AppendAtomics(before, w, n, seg, lo, hi), w, hi, lane)
  {
    AtomicConservation(before, w, n, seg, lo, hi, lane);
  }

  /** Of all requests that a warp's atomics append to a queue, exactly one carries an active lane, and none an inactive
      one. */
  lemma {:induction false} WarpConservation(q: seq<Access>, w: Lanes, n: DataSize, seg: Seg, size: nat, parts: nat,
                                            lane: nat)
    ensures 0 <= size * parts && CarriedOnce(q, AppendWarpAtomics(q, w, n, seg, size, parts), w, size * parts, lane)
  {
    Scale(size, parts);
    if parts > 0 {
      Scale(size, parts - 1);
      WarpConservation(q, w, n, seg, size, parts - 1, lane);
      var before := AppendWarpAtomics(q, w, n, seg, size, parts - 1);
      ConservationStep(q, before, w, n, seg, size * (parts - 1), size * parts, lane);
    }
  }

  lemma {:induction false} FreshServing(w: Lanes, n: DataSize, seg: Seg, size: nat, parts: nat, i: Item)
    requires i.addr == FirstAddr(w, i.lane) && InChunk(i.addr, n) && i.addr < 0x1_0000_0000
    ensures Serving(AppendWarpAtomics([], w, n, seg, size, parts), i, n)
  {
    if parts > 0 {
      Scale(size, parts - 1);
      FreshServing(w, n, seg, size, parts - 1, i);
      SubwarpServing(AppendWarpAtomics([], w, n, seg, size, parts - 1), w, n, seg, size * (parts - 1), size * parts, i);
    }
  }

  /** ... and that request holds all bytes of the lane's access and has them in its byte mask. What was queued before
      stays as it is. */
  lemma WarpServing(q: seq<Access>, w: Lanes, n: DataSize, seg: Seg, size: nat, parts: nat, i: Item)
    requires i.addr == FirstAddr(w, i.lane) && InChunk(i.addr, n) && i.addr < 0x1_0000_0000
    ensures var all := AppendWarpAtomics(q, w, n, seg, size, parts);
            |q| <= |all| && all[..|q|] == q && Serving(all[|q|..], i, n)
  {
    FreshServing(w, n, seg, size, parts, i);
    WarpAfter(q, w, n, seg, size, parts);
  }

  // ---------- the footprint of a whole warp ----------

  lemma {:induction false} ListAfter(q: seq<Access>, list: seq<Txn>, b: nat, seg: Seg)
    ensures AppendList(q, list, b, seg) == q + AppendList([], list, b, seg)
    decreases list
  {
    if list != [] {
      var a := AccessFor(b, list[0], seg);
      ListAfter(q + [a], list[1..], b, seg);
      ListAfter([a], list[1..], b, seg);
      var rest := AppendList([], list[1..], b, seg);
      assert [] + [a] == [a];
      assert q + [a] + rest == q + ([a] + rest);
    }
  }

  lemma {:induction false} ListsAfter(q: seq<Access>, m: Lists, left: set<nat>, seg: Seg)
    requires left <= m.Keys
    ensures AppendLists(q, m, left, seg) == q + AppendLists([], m, left, seg)
    decreases left
  {
    if left != {} {
      var b, more := Least(left), left - {Least(left)};
      var first, rest := AppendList([], m[b], b, seg), AppendLists([], m, more, seg);
      ListAfter(q, m[b], b, seg);
      ListsAfter(q + first, m, more, seg);
      ListsAfter(first, m, more, seg);
      assert q + first + rest == q + (first + rest);
    }
  }

  ghost predicate IsAfter(all: seq<Access>, q: seq<Access>, more: seq<Access>) {
    all == q + more
  }

  lemma {:induction false} WarpAfter(q: seq<Access>, w: Lanes, n: DataSize, seg: Seg, size: nat, parts: nat)
    ensures IsAfter(AppendWarpAtomics(q, w, n, seg, size, parts), q, AppendWarpAtomics([], w, n, seg, size, parts))
  {
    if parts == 0 {
      assert q == q + [];
    } else {
      Scale(size, parts - 1);
      WarpAfter(q, w, n, seg, size, parts - 1);
      PartAfter(q, AppendWarpAtomics([], w, n, seg, size, parts - 1), w, n, seg, size * (parts - 1), size * parts);
    }
  }

  lemma PartAfter(q: seq<Access>, before: seq<Access>, w: Lanes, n: DataSize, seg: Seg, lo: nat, hi: nat)
    ensures IsAfter(AppendAtomics(q + before, w, n, seg, lo, hi), q, AppendAtomics(before, w, n, seg, lo, hi))
  {
    var m := Place(Items(w, lo, hi), n, seg);
    ListsAfter(q + before, m, m.Keys, seg);
    ListsAfter(before, m, m.Keys, seg);
    var rest := AppendLists([], m, m.Keys, seg);
    assert q + before + rest == q + (before + rest);
  }

  lemma PartRequests(q: seq<Access>, w: Lanes, n: DataSize, seg: Seg, lo: nat, hi: nat)
    requires AllRequests(q)
    ensures AllRequests(AppendAtomics(q, w, n, seg, lo, hi))
  {
    var m := Place(Items(w, lo, hi), n, seg);
    PlaceSends(Items(w, lo, hi), n, seg);
    PlaceInRange(Items(w, lo, hi), n, seg);
    ListsRequests(q, m, m.Keys, seg);
  }

  lemma {:induction false} WarpAtomicRequests(w: Lanes, n: DataSize, seg: Seg, size: nat, parts: nat)
    ensures AllRequests(AppendWarpAtomics([], w, n, seg, size, parts))
  {
    if parts > 0 {
      Scale(size, parts - 1);
      WarpAtomicRequests(w, n, seg, size, parts - 1);
      PartRequests(AppendWarpAtomics([], w, n, seg, size, parts - 1), w, n, seg, size * (parts - 1), size * parts);
    }
  }

  lemma ServedByteCounted(q: seq<Access>, i: Item, n: DataSize, x: nat)
    requires AllRequests(q) && Serving(q, i, n) && Carriers(q, i.lane) > 0 && i.addr <= x < i.addr + n
    ensures Tag(x, 32) in AllWindows(q, 32)
  {
    NoCarrier(q, i.lane);
    var a :| a in q && i.lane in a.lanes;
    var j :| 0 <= j < |q| && q[j] == a;
    ByteCounted(q, j, x);
  }

  lemma {:induction false} NoCarrier(q: seq<Access>, lane: nat)
    ensures Carriers(q, lane) == 0 <==> forall a :: a in q ==> lane !in a.lanes
  {
    if q != [] {
      NoCarrier(q[..|q| - 1], lane);
      assert q == q[..|q| - 1] + [q[|q| - 1]];
    }
  }

  /** The counters after coalescing the atomics of a whole warp, from any queue: the windows fill the lines, they do not
      exceed the bytes requested, and the window of every byte that an active lane touches is counted. */
  lemma AtomicFootprint(q: seq<Access>, w: Lanes, n: DataSize, seg: Seg, size: nat, parts: nat, i: Item, x: nat)
    requires 0 <= size * parts && Takes(w, 0, size * parts, i.lane) && i.addr == FirstAddr(w, i.lane)
    requires InChunk(i.addr, n) && i.addr < 0x1_0000_0000 && i.addr <= x < i.addr + n
    ensures |q| <= |AppendWarpAtomics(q, w, n, seg, size, parts)|
    ensures var queued := AppendWarpAtomics(q, w, n, seg, size, parts)[|q|..];
            && AllRequests(queued) && Tag(x, 32) in AllWindows(queued, 32)
            && |AllWindows(queued, 128)| <= |AllWindows(queued, 32)| <= 4 * |AllWindows(queued, 128)|
            && 32 * |AllWindows(queued, 32)| <= TotalBytes(queued)
  {
    var queued := AppendWarpAtomics([], w, n, seg, size, parts);
    WarpAfter(q, w, n, seg, size, parts);
    WarpAtomicRequests(w, n, seg, size, parts);
    WarpConservation([], w, n, seg, size, parts, i.lane);
    FreshServing(w, n, seg, size, parts, i);
    ServedByteCounted(queued, i, n, x);
    WindowBounds(queued);
    WindowBytes(queued);
  }
}
