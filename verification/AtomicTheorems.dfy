/** First fit for naturally aligned atomics is exact and optimal: a lane lands in the transaction whose position is
    the number of earlier lanes with the same address. */
module AtomicTheorems {
  import opened Basics
  import opened Coalescing
  import opened PlainCoalescer
  import opened AtomicCoalescer

  function Count(items: seq<Item>, addr: nat): (c: nat) {
    if items == [] then 0 else Count(items[..|items| - 1], addr) + if items[|items| - 1].addr == addr then 1 else 0
  }

  ghost predicate AllAligned(items: seq<Item>, n: DataSize) {
    forall i :: i in items ==> Aligned(i.addr, n) && i.addr < 0x1_0000_0000
  }

  /** The addresses in segment `b` that more than `r` lanes use. */
  ghost function Repeated(items: seq<Item>, seg: Seg, b: nat, r: nat): (s: set<nat>) {
    set i | i in items && Tag(i.addr, seg) == b && Count(items, i.addr) > r :: i.addr
  }

  ghost function LanesAt(items: seq<Item>, seg: Seg, b: nat, r: nat): (s: set<nat>) {
    if items == [] then {}
    else
      var front, i := items[..|items| - 1], items[|items| - 1];
      LanesAt(front, seg, b, r) + if Tag(i.addr, seg) == b && Count(front, i.addr) == r then {i.lane} else {}
  }

  ghost function ChunksOf(addrs: set<nat>): (s: set<nat>) {
    set a | a in addrs :: Chunk(a)
  }

  ghost function BytesOf(addrs: set<nat>, n: DataSize): (s: set<nat>) {
    set a, k | a in addrs && k in Span(a % 128, n) :: k
  }

  /** What transaction number `r` of segment `b` should hold. */
  ghost function Level(items: seq<Item>, n: DataSize, seg: Seg, b: nat, r: nat): (x: Txn) {
    var addrs := Repeated(items, seg, b, r);
    Txn(ChunksOf(addrs), BytesOf(addrs, n), LanesAt(items, seg, b, r))
  }

  /** The list of segment `b` holds the right transactions, as many as the most used address has lanes. */
  ghost predicate BlockExact(list: seq<Txn>, items: seq<Item>, n: DataSize, seg: Seg, b: nat) {
    && (forall r: nat :: r < |list| ==> list[r] == Level(items, n, seg, b, r))
    && (forall a: nat :: Tag(a, seg) == b ==> Count(items, a) <= |list|)
    && (list != [] ==> exists a: nat :: Tag(a, seg) == b && Count(items, a) == |list|)
  }

  // ---------- adding one lane ----------

  lemma {:induction false} CountedIsThere(items: seq<Item>, addr: nat)
    requires Count(items, addr) > 0
    ensures exists i :: i in items && i.addr == addr
  {
    if items[|items| - 1].addr != addr {
      CountedIsThere(items[..|items| - 1], addr);
    } else {
      assert items[|items| - 1] in items;
    }
  }

  lemma RepeatedIs(items: seq<Item>, seg: Seg, b: nat, r: nat, a: nat)
    ensures a in Repeated(items, seg, b, r) <==> Tag(a, seg) == b && Count(items, a) > r
  {
    if Count(items, a) > r {
      CountedIsThere(items, a);
    }
  }

  lemma RepeatedGrows(items: seq<Item>, i: Item, seg: Seg, b: nat, r: nat, a: nat)
    ensures a in Repeated(items + [i], seg, b, r)
       <==> a in Repeated(items, seg, b, r) || (a == i.addr && Tag(a, seg) == b && Count(items, a) == r)
  {
    RepeatedIs(items, seg, b, r, a);
    RepeatedIs(items + [i], seg, b, r, a);
  }

  lemma RepeatedSnoc(items: seq<Item>, i: Item, seg: Seg, b: nat, r: nat)
    ensures Repeated(items + [i], seg, b, r)
         == Repeated(items, seg, b, r) + if Tag(i.addr, seg) == b && Count(items, i.addr) == r then {i.addr} else {}
  {
    var s, t := Repeated(items, seg, b, r), Repeated(items + [i], seg, b, r);
    forall a: nat ensures a in t <==> a in s || (a == i.addr && Tag(a, seg) == b && Count(items, a) == r) {
      RepeatedGrows(items, i, seg, b, r, a);
    }
  }

  lemma ChunksAdd(addrs: set<nat>, a: nat)
    ensures ChunksOf(addrs + {a}) == ChunksOf(addrs) + {Chunk(a)}
  {
    assert a in addrs + {a};
  }

  lemma BytesAdd(addrs: set<nat>, a: nat, n: DataSize)
    ensures BytesOf(addrs + {a}, n) == BytesOf(addrs, n) + Span(a % 128, n)
  {
    assert a in addrs + {a};
    assert forall k :: k in Span(a % 128, n) ==> k in BytesOf(addrs + {a}, n);
  }

  lemma LevelSnoc(items: seq<Item>, i: Item, n: DataSize, seg: Seg, b: nat, r: nat)
    ensures Level(items + [i], n, seg, b, r)
         == if Tag(i.addr, seg) == b && Count(items, i.addr) == r then Merge(Level(items, n, seg, b, r), i, n)
            else Level(items, n, seg, b, r)
  {
    var addrs := Repeated(items, seg, b, r);
    RepeatedSnoc(items, i, seg, b, r);
    assert (items + [i])[..|items|] == items;
    if Tag(i.addr, seg) == b && Count(items, i.addr) == r {
      ChunksAdd(addrs, i.addr);
      BytesAdd(addrs, i.addr, n);
    } else {
      assert addrs + {} == addrs;
      assert LanesAt(items, seg, b, r) + {} == LanesAt(items, seg, b, r);
    }
  }

  /** A level that no address repeats often enough to reach is empty. */
  lemma {:induction false} EmptyLevel(items: seq<Item>, n: DataSize, seg: Seg, b: nat, r: nat)
    requires forall a: nat :: Tag(a, seg) == b ==> Count(items, a) <= r
    ensures Level(items, n, seg, b, r) == EMPTY_TXN
  {
    assert Repeated(items, seg, b, r) == {};
    assert ChunksOf({}) == {} && BytesOf({}, n) == {};
    NoLanes(items, seg, b, r);
  }

  lemma {:induction false} NoLanes(items: seq<Item>, seg: Seg, b: nat, r: nat)
    requires forall a: nat :: Tag(a, seg) == b ==> Count(items, a) <= r
    ensures LanesAt(items, seg, b, r) == {}
  {
    if items != [] {
      var front, i := items[..|items| - 1], items[|items| - 1];
      forall a: nat | Tag(a, seg) == b ensures Count(front, a) <= r {
      }
      NoLanes(front, seg, b, r);
      assert Count(items, i.addr) == Count(front, i.addr) + 1;
    }
  }

  /** The lane's bytes are taken at every level its address has already reached, and free at the next one. */
  lemma TakenOrFree(items: seq<Item>, i: Item, n: DataSize, seg: Seg, r: nat)
    requires AllAligned(items, n) && Aligned(i.addr, n) && i.addr < 0x1_0000_0000
    ensures r < Count(items, i.addr) ==> !(Level(items, n, seg, Tag(i.addr, seg), r).bytes !! Span(i.addr % 128, n))
    ensures r == Count(items, i.addr) ==> Level(items, n, seg, Tag(i.addr, seg), r).bytes !! Span(i.addr % 128, n)
  {
    var b := Tag(i.addr, seg);
    var addrs := Repeated(items, seg, b, r);
    if r < Count(items, i.addr) {
      RepeatedIs(items, seg, b, r, i.addr);
      SpanIs(i.addr % 128, n);
      assert i.addr % 128 in Span(i.addr % 128, n);
      assert i.addr % 128 in BytesOf(addrs, n);
    } else if r == Count(items, i.addr) {
      forall a, k | a in addrs && k in Span(a % 128, n) ensures k !in Span(i.addr % 128, n) {
        RepeatedIs(items, seg, b, r, a);
        AlignedApart(a, i.addr, n, seg);
      }
    }
  }

  lemma FitExact(list: seq<Txn>, items: seq<Item>, i: Item, n: DataSize, seg: Seg)
    requires AllAligned(items, n) && Aligned(i.addr, n) && i.addr < 0x1_0000_0000
    requires BlockExact(list, items, n, seg, Tag(i.addr, seg))
    ensures BlockExact(Fit(list, i, n), items + [i], n, seg, Tag(i.addr, seg))
  {
    var b, c := Tag(i.addr, seg), Count(items, i.addr);
    assert c <= |list|;
    forall r: nat | r < c ensures !(list[r].bytes !! Span(i.addr % 128, n)) {
      TakenOrFree(items, i, n, seg, r);
    }
    if c < |list| {
      TakenOrFree(items, i, n, seg, c);
    } else {
      EmptyLevel(items, n, seg, b, c);
    }
    FitAt(list, i, n, c);
    var list' := Fit(list, i, n);
    forall r: nat | r < |list'| ensures list'[r] == Level(items + [i], n, seg, b, r) {
      LevelSnoc(items, i, n, seg, b, r);
    }
    forall a: nat | Tag(a, seg) == b ensures Count(items + [i], a) <= |list'| {
    }
    TopCount(list, items, i, seg, b, |list'|);
  }

  lemma TopCount(list: seq<Txn>, items: seq<Item>, i: Item, seg: Seg, b: nat, height: nat)
    requires b == Tag(i.addr, seg) && Count(items, i.addr) <= |list|
    requires list != [] ==> exists a: nat :: Tag(a, seg) == b && Count(items, a) == |list|
    requires height == if Count(items, i.addr) == |list| then |list| + 1 else |list|
    ensures exists a: nat :: Tag(a, seg) == b && Count(items + [i], a) == height
  {
    if Count(items, i.addr) != |list| {
      var a: nat :| Tag(a, seg) == b && Count(items, a) == |list|;
    }
  }

  lemma OtherBlock(list: seq<Txn>, items: seq<Item>, i: Item, n: DataSize, seg: Seg, b: nat)
    requires b != Tag(i.addr, seg) && BlockExact(list, items, n, seg, b)
    ensures BlockExact(list, items + [i], n, seg, b)
  {
    forall r: nat | r < |list| ensures list[r] == Level(items + [i], n, seg, b, r) {
      LevelSnoc(items, i, n, seg, b, r);
    }
    forall a: nat | Tag(a, seg) == b ensures Count(items + [i], a) == Count(items, a) {
    }
  }

  /** First fit is exact: every segment's list is what the addresses' multiplicities say. */
  lemma {:induction false} PlaceExact(items: seq<Item>, n: DataSize, seg: Seg, b: nat)
    requires AllAligned(items, n)
    ensures BlockExact(ListAt(Place(items, n, seg), b), items, n, seg, b)
  {
    if items != [] {
      var front, i := items[..|items| - 1], items[|items| - 1];
      assert items == front + [i] && i in items;
      PlaceExact(front, n, seg, b);
      var list := ListAt(Place(front, n, seg), b);
      if b == Tag(i.addr, seg) {
        FitExact(list, front, i, n, seg);
      } else {
        OtherBlock(list, front, i, n, seg, b);
      }
    }
  }

  // ---------- consequences ----------

  /** How many earlier lanes use the address of lane number `k`. */
  ghost function Rank(items: seq<Item>, k: nat): (r: nat)
    requires k < |items|
  {
    Count(items[..k], items[k].addr)
  }

  ghost predicate DistinctLanes(items: seq<Item>) {
    forall j, k :: 0 <= j < k < |items| ==> items[j].lane != items[k].lane
  }

  /** Lane number `k` is `lane`, in segment `b`, and has `r` earlier lanes with its address. */
  ghost predicate IsAt(items: seq<Item>, seg: Seg, b: nat, r: nat, lane: nat, k: nat) {
    k < |items| && items[k].lane == lane && Tag(items[k].addr, seg) == b && Rank(items, k) == r
  }

  lemma IsAtFront(items: seq<Item>, seg: Seg, b: nat, r: nat, lane: nat, k: nat)
    requires items != [] && k < |items| - 1
    ensures IsAt(items[..|items| - 1], seg, b, r, lane, k) <==> IsAt(items, seg, b, r, lane, k)
  {
    var front := items[..|items| - 1];
    assert front[k] == items[k] && front[..k] == items[..k];
  }

  lemma {:induction false} LanesAtAre(items: seq<Item>, seg: Seg, b: nat, r: nat, lane: nat)
    ensures lane in LanesAt(items, seg, b, r) <==> exists k: nat :: IsAt(items, seg, b, r, lane, k)
  {
    if items != [] {
      var m := |items| - 1;
      var front := items[..m];
      LanesAtAre(front, seg, b, r, lane);
      if lane in LanesAt(front, seg, b, r) {
        var k: nat :| IsAt(front, seg, b, r, lane, k);
        IsAtFront(items, seg, b, r, lane, k);
      } else if lane in LanesAt(items, seg, b, r) {
        assert IsAt(items, seg, b, r, lane, m);
      } else if k: nat :| IsAt(items, seg, b, r, lane, k) {
        if k < m {
          IsAtFront(items, seg, b, r, lane, k);
        }
      }
    }
  }

  /** A lane is in transaction `r` of its segment exactly when `r` earlier lanes use its address. */
  lemma LandsAtRank(items: seq<Item>, n: DataSize, seg: Seg, k: nat, r: nat)
    requires AllAligned(items, n) && DistinctLanes(items) && k < |items|
    ensures var list := ListAt(Place(items, n, seg), Tag(items[k].addr, seg));
            (r < |list| && items[k].lane in list[r].lanes) <==> r == Rank(items, k)
  {
    var i := items[k];
    var b := Tag(i.addr, seg);
    var list := ListAt(Place(items, n, seg), b);
    PlaceExact(items, n, seg, b);
    LanesAtAre(items, seg, b, r, i.lane);
    if r == Rank(items, k) {
      RankBelowCount(items, k);
      assert list[r] == Level(items, n, seg, b, r);
      assert IsAt(items, seg, b, r, i.lane, k);
    }
  }

  lemma {:induction false} CountGrows(items: seq<Item>, k: nat, addr: nat)
    requires k <= |items|
    ensures Count(items[..k], addr) <= Count(items, addr)
    decreases |items| - k
  {
    if k == |items| {
      assert items[..k] == items;
    } else {
      assert items[..k + 1][..k] == items[..k];
      CountGrows(items, k + 1, addr);
    }
  }

  lemma RankBelowCount(items: seq<Item>, k: nat)
    requires k < |items|
    ensures Rank(items, k) < Count(items, items[k].addr)
  {
    assert items[..k + 1][..k] == items[..k];
    CountGrows(items, k + 1, items[k].addr);
  }

  lemma {:induction false} SameAddressRanks(items: seq<Item>, j: nat, k: nat)
    requires j < k < |items| && items[j].addr == items[k].addr
    ensures Rank(items, j) < Rank(items, k)
  {
    assert items[..k][..j + 1] == items[..j + 1] && items[..j + 1][..j] == items[..j];
    CountGrows(items[..k], j + 1, items[j].addr);
  }

  /** Two lanes of one transaction never share a byte. */
  lemma NoSharedByte(items: seq<Item>, n: DataSize, seg: Seg, j: nat, k: nat)
    requires AllAligned(items, n) && j < k < |items|
    requires Tag(items[j].addr, seg) == Tag(items[k].addr, seg) && Rank(items, j) == Rank(items, k)
    ensures Span(items[j].addr % 128, n) !! Span(items[k].addr % 128, n)
  {
    if items[j].addr == items[k].addr {
      SameAddressRanks(items, j, k);
    }
    AlignedApart(items[j].addr, items[k].addr, n, seg);
  }

  /** A segment needs exactly as many transactions as lanes share its most used address; no assignment of lanes to
      transactions that keeps lanes of one address apart gets by with fewer. */
  lemma FirstFitOptimal(items: seq<Item>, n: DataSize, seg: Seg, b: nat, assign: nat -> nat, total: nat)
    requires AllAligned(items, n)
    requires forall k :: 0 <= k < |items| && Tag(items[k].addr, seg) == b ==> assign(k) < total
    requires forall j, k :: 0 <= j < k < |items| && Tag(items[j].addr, seg) == b && items[j].addr == items[k].addr ==>
                              assign(j) != assign(k)
    ensures |ListAt(Place(items, n, seg), b)| <= total
    ensures forall a: nat :: Tag(a, seg) == b ==> Count(items, a) <= |ListAt(Place(items, n, seg), b)|
  {
    var list := ListAt(Place(items, n, seg), b);
    PlaceExact(items, n, seg, b);
    if list != [] {
      var a: nat :| Tag(a, seg) == b && Count(items, a) == |list|;
      var used := UsersOf(items, a, assign, total);
      Numbers(used, total);
    }
  }

  /** The transactions that the lanes with address `a` occupy. */
  lemma {:induction false} UsersOf(items: seq<Item>, a: nat, assign: nat -> nat, total: nat) returns (used: set<nat>)
    requires forall k :: 0 <= k < |items| && items[k].addr == a ==> assign(k) < total
    requires forall j, k :: 0 <= j < k < |items| && items[j].addr == items[k].addr == a ==> assign(j) != assign(k)
    ensures |used| == Count(items, a)
    ensures forall u :: u in used ==> u < total && exists k: nat :: k < |items| && items[k].addr == a && assign(k) == u
  {
    if items == [] {
      used := {};
    } else {
      var m := |items| - 1;
      var front := items[..m];
      assert forall k :: 0 <= k < m ==> front[k] == items[k];
      used := UsersOf(front, a, assign, total);
      if items[m].addr == a {
        assert assign(m) !in used;
        used := used + {assign(m)};
      }
    }
  }

  lemma {:induction false} Numbers(s: set<nat>, total: nat)
    requires forall u :: u in s ==> u < total
    ensures |s| <= total
  {
    if total == 0 {
      assert s == {};
    } else {
      Numbers(s - {total - 1}, total - 1);
      if total - 1 !in s {
        assert s - {total - 1} == s;
      }
    }
  }

  /** Lane order does not matter: if every address is used equally often, corresponding transactions have the same
      chunks and bytes, so the same requests are queued. */
  lemma AtomicOrderIndependence(items: seq<Item>, others: seq<Item>, n: DataSize, seg: Seg, b: nat, r: nat)
    requires AllAligned(items, n) && AllAligned(others, n)
    requires forall a: nat :: Count(items, a) == Count(others, a)
    ensures var list, list' := ListAt(Place(items, n, seg), b), ListAt(Place(others, n, seg), b);
            && |list| == |list'|
            && (r < |list| ==> list[r].(lanes := {}) == list'[r].(lanes := {})
                               && AccessFor(b, list[r], seg).(lanes := {}) == AccessFor(b, list'[r], seg).(lanes := {}))
  {
    PlaceExact(items, n, seg, b);
    PlaceExact(others, n, seg, b);
    forall a: nat ensures a in Repeated(items, seg, b, r) <==> a in Repeated(others, seg, b, r) {
      RepeatedIs(items, seg, b, r, a);
      RepeatedIs(others, seg, b, r, a);
    }
    assert Repeated(items, seg, b, r) == Repeated(others, seg, b, r);
  }

  /** Everything of a queued request but the lanes it serves. */
  ghost function Shapes(q: seq<Access>): (s: seq<Access>)
    ensures |s| == |q| && forall j :: 0 <= j < |q| ==> s[j] == q[j].(lanes := {})
  {
    seq(|q|, j requires 0 <= j < |q| => q[j].(lanes := {}))
  }

  lemma {:induction false} ListShapes(q: seq<Access>, q': seq<Access>, list: seq<Txn>, list': seq<Txn>, b: nat,
                                      seg: Seg)
    requires Shapes(q) == Shapes(q') && |list| == |list'|
    requires forall r :: 0 <= r < |list| ==>
               AccessFor(b, list[r], seg).(lanes := {}) == AccessFor(b, list'[r], seg).(lanes := {})
    ensures Shapes(AppendList(q, list, b, seg)) == Shapes(AppendList(q', list', b, seg))
    decreases |list|
  {
    if list != [] {
      var q1, q1' := q + [AccessFor(b, list[0], seg)], q' + [AccessFor(b, list'[0], seg)];
      assert Shapes(q1) == Shapes(q) + [AccessFor(b, list[0], seg).(lanes := {})];
      assert Shapes(q1') == Shapes(q') + [AccessFor(b, list'[0], seg).(lanes := {})];
      ListShapes(q1, q1', list[1..], list'[1..], b, seg);
    }
  }

  ghost predicate SameLists(m: Lists, m': Lists, seg: Seg) {
    && m.Keys == m'.Keys
    && forall b :: b in m ==> SameRequests(m[b], m'[b], b, seg)
  }

  ghost predicate SameRequests(list: seq<Txn>, list': seq<Txn>, b: nat, seg: Seg) {
    && |list| == |list'|
    && forall r :: 0 <= r < |list| ==>
         AccessFor(b, list[r], seg).(lanes := {}) == AccessFor(b, list'[r], seg).(lanes := {})
  }

  lemma {:induction false} QueueShapes(q: seq<Access>, q': seq<Access>, m: Lists, m': Lists, left: set<nat>, seg: Seg)
    requires Shapes(q) == Shapes(q') && SameLists(m, m', seg) && left <= m.Keys
    ensures Shapes(AppendLists(q, m, left, seg)) == Shapes(AppendLists(q', m', left, seg))
    decreases left
  {
    if left != {} {
      var b := Least(left);
      assert SameRequests(m[b], m'[b], b, seg);
      ListShapes(q, q', m[b], m'[b], b, seg);
      QueueShapes(AppendList(q, m[b], b, seg), AppendList(q', m'[b], b, seg), m, m', left - {b}, seg);
    }
  }

  lemma {:induction false} PlaceKeys(items: seq<Item>, n: DataSize, seg: Seg, b: nat)
    ensures b in Place(items, n, seg) <==> ListAt(Place(items, n, seg), b) != []
  {
    if items != [] {
      PlaceKeys(items[..|items| - 1], n, seg, b);
    }
  }

  /** The whole queue of a subwarp's atomics depends only on how often each address is used. */
  lemma AtomicLaneOrder(q: seq<Access>, v: Lanes, w: Lanes, n: DataSize, seg: Seg, lo: nat, hi: nat)
    requires AllAligned(Items(v, lo, hi), n) && AllAligned(Items(w, lo, hi), n)
    requires forall a: nat :: Count(Items(v, lo, hi), a) == Count(Items(w, lo, hi), a)
    ensures Shapes(AppendAtomics(q, v, n, seg, lo, hi)) == Shapes(AppendAtomics(q, w, n, seg, lo, hi))
  {
    var items, others := Items(v, lo, hi), Items(w, lo, hi);
    var m, m' := Place(items, n, seg), Place(others, n, seg);
    forall b: nat ensures (b in m <==> b in m') && SameRequests(ListAt(m, b), ListAt(m', b), b, seg) {
      PlaceKeys(items, n, seg, b);
      PlaceKeys(others, n, seg, b);
      AtomicOrderIndependence(items, others, n, seg, b, 0);
      forall r: nat | r < |ListAt(m, b)|
        ensures AccessFor(b, ListAt(m, b)[r], seg).(lanes := {}) == AccessFor(b, ListAt(m', b)[r], seg).(lanes := {})
      {
        AtomicOrderIndependence(items, others, n, seg, b, r);
      }
    }
    assert m.Keys == m'.Keys;
    QueueShapes(q, q, m, m', m.Keys, seg);
  }

  lemma {:induction false} ItemsDistinct(w: Lanes, lo: nat, hi: nat)
    ensures DistinctLanes(Items(w, lo, hi))
    ensures forall i :: i in Items(w, lo, hi)
                        <==> lo <= i.lane < hi && i.lane in w.active && i.addr == FirstAddr(w, i.lane)
    decreases hi
  {
    if lo < hi {
      ItemsDistinct(w, lo, hi - 1);
      var front := Items(w, lo, hi - 1);
      assert forall j :: 0 <= j < |front| ==> front[j] in front;
    }
  }
}
