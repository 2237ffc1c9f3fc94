/** The bank-conflict cost of a shared-memory access (src/abstract_hardware_model.cc, generate_mem_accesses, shared and
    sstarr spaces), with full and with limited broadcast. */
module SharedMemory {
  import opened Basics

  const WORD_SIZE: nat := 4

  /** The lanes of a warp: which are active, and one address for each. */
  datatype Lanes = Lanes(active: set<nat>, addrs: seq<nat>)

  /** Bank to word to number of accesses. */
  type Accs = map<nat, map<nat, nat>>

  /** `shmem_bank_func`, whose argument is cut to 32 bits. */
  function Bank(addr: nat, banks: nat): (b: nat)
    requires banks > 0
    ensures b < banks
  {
    addr % 0x1_0000_0000 / WORD_SIZE % banks
  }

  function Word(addr: nat): (w: nat) {
    (addr - addr % WORD_SIZE) % 0x1_0000_0000
  }

  // ---------- step 1: accesses to words in banks ----------

  function Words(m: Accs, b: nat): (r: map<nat, nat>) {
    if b in m then m[b] else map[]
  }

  function Hits(words: map<nat, nat>, w: nat): (c: nat) {
    if w in words then words[w] else 0
  }

  function Bump(m: Accs, b: nat, w: nat): (r: Accs) {
    m[b := Words(m, b)[w := Hits(Words(m, b), w) + 1]]
  }

  function SubAccs(l: Lanes, banks: nat, lo: nat, hi: nat): (m: Accs)
    requires banks > 0 && hi <= |l.addrs|
    decreases hi
  {
    if hi <= lo then map[]
    else if hi - 1 in l.active then
      Bump(SubAccs(l, banks, lo, hi - 1), Bank(l.addrs[hi - 1], banks), Word(l.addrs[hi - 1]))
    else SubAccs(l, banks, lo, hi - 1)
  }

  method CollectAccs(l: Lanes, banks: nat, lo: nat, hi: nat) returns (m: Accs)
    requires banks > 0 && lo <= hi <= |l.addrs|
    ensures m == SubAccs(l, banks, lo, hi)
  {
    m := map[];
    for lane := lo to hi
      invariant m == SubAccs(l, banks, lo, lane)
    {
      if lane in l.active {
        var b, w := Bank(l.addrs[lane], banks), Word(l.addrs[lane]);
        m := Bump(m, b, w);
      }
    }
  }

  // ---------- sums and maxima over maps ----------

  ghost function Total(words: map<nat, nat>, left: set<nat>): (n: nat)
    requires left <= words.Keys
  {
    if left == {} then 0 else words[Least(left)] + Total(words, left - {Least(left)})
  }

  ghost function Max(a: nat, b: nat): (m: nat) {
    if a < b then b else a
  }

  ghost function MaxOver(cost: map<nat, nat>, left: set<nat>): (n: nat)
    requires left <= cost.Keys
  {
    if left == {} then 0 else Max(cost[Least(left)], MaxOver(cost, left - {Least(left)}))
  }

  lemma {:induction false} MaxOverIs(cost: map<nat, nat>, left: set<nat>)
    requires left <= cost.Keys
    ensures forall b :: b in left ==> cost[b] <= MaxOver(cost, left)
    ensures left != {} ==> exists b :: b in left && cost[b] == MaxOver(cost, left)
  {
    if left != {} {
      var b := Least(left);
      MaxOverIs(cost, left - {b});
      assert forall k :: k in left ==> k == b || k in left - {b};
    }
  }

  /** Taking any word out of a sum. */
  lemma {:induction false} TotalWithout(words: map<nat, nat>, left: set<nat>, w: nat)
    requires left <= words.Keys && w in left
    ensures Total(words, left) == words[w] + Total(words, left - {w})
    decreases left
  {
    var k := Least(left);
    if k != w {
      TotalWithout(words, left - {k}, w);
      assert left - {k} - {w} == left - {w} - {k};
      assert k in left - {w} && IsLeast(left - {w}, k);
    }
  }

  lemma {:induction false} TotalSame(a: map<nat, nat>, b: map<nat, nat>, left: set<nat>)
    requires left <= a.Keys && left <= b.Keys && forall w :: w in left ==> a[w] == b[w]
    ensures Total(a, left) == Total(b, left)
  {
    if left != {} {
      TotalSame(a, b, left - {Least(left)});
    }
  }

  lemma TotalBump(words: map<nat, nat>, w: nat)
    ensures var r := words[w := Hits(words, w) + 1]; Total(r, r.Keys) == Total(words, words.Keys) + 1
  {
    var r := words[w := Hits(words, w) + 1];
    assert r.Keys == words.Keys + {w};
    TotalWithout(r, r.Keys, w);
    var others := words.Keys - {w};
    assert r.Keys - {w} == others;
    TotalSame(words, r, others);
    if w in words {
      TotalWithout(words, words.Keys, w);
    } else {
      assert others == words.Keys;
    }
  }

  /** Every counted word was hit, so a bank has at least as many hits as words. */
  lemma {:induction false} TotalAtLeast(words: map<nat, nat>, left: set<nat>)
    requires left <= words.Keys && forall w :: w in words ==> words[w] >= 1
    ensures Total(words, left) >= |left|
  {
    if left != {} {
      TotalAtLeast(words, left - {Least(left)});
    }
  }

  // ---------- step 2 and 3: the cost of a subwarp ----------

  ghost function FullCosts(m: Accs): (c: map<nat, nat>)
    ensures c.Keys == m.Keys
  {
    map b | b in m :: |m[b]|
  }

  /** Full broadcast: the largest number of different words in one bank. */
  method FullBroadcast(m: Accs) returns (max: nat)
    ensures max == MaxOver(FullCosts(m), m.Keys)
  {
    max := 0;
    var left := m.Keys;
    while left != {}
      invariant left <= m.Keys && Max(max, MaxOver(FullCosts(m), left)) == MaxOver(FullCosts(m), m.Keys)
    {
      var b := LeastMember(left);
      if max < |m[b]| {
        max := |m[b]|;
      }
      left := left - {b};
    }
  }

  /** The word that is broadcast, if any: the first bank, and in it the first word, hit more than once. */
  datatype Choice = NoBroadcast | Broadcast(bank: nat, word: nat)

  ghost predicate Conflicted(words: map<nat, nat>, w: nat) {
    w in words && words[w] > 1
  }

  ghost predicate IsChoice(m: Accs, c: Choice) {
    if c.NoBroadcast? then forall b, w: nat :: b in m ==> !Conflicted(m[b], w)
    else
      && c.bank in m && Conflicted(m[c.bank], c.word)
      && (forall b, w: nat :: b in m && b < c.bank ==> !Conflicted(m[b], w))
      && forall w: nat :: w < c.word ==> !Conflicted(m[c.bank], w)
  }

  method FindInBank(words: map<nat, nat>) returns (found: bool, word: nat)
    ensures found ==> Conflicted(words, word) && forall w: nat :: w < word ==> !Conflicted(words, w)
    ensures !found ==> forall w: nat :: !Conflicted(words, w)
  {
    var left := words.Keys;
    while left != {}
      invariant left <= words.Keys && forall w :: w in words && w !in left ==> words[w] <= 1
    {
      word := LeastMember(left);
      if words[word] > 1 {
        return true, word;
      }
      left := left - {word};
    }
    return false, 0;
  }

  method FindBroadcast(m: Accs) returns (c: Choice)
    ensures IsChoice(m, c)
  {
    var left := m.Keys;
    while left != {}
      invariant left <= m.Keys && forall b, w: nat :: b in m && b !in left ==> !Conflicted(m[b], w)
    {
      var b := LeastMember(left);
      var found, word := FindInBank(m[b]);
      if found {
        return Broadcast(b, word);
      }
      left := left - {b};
    }
    return NoBroadcast;
  }

  /** Limited broadcast: all hits of a bank, the broadcast word counted once. */
  ghost function LimitedCost(words: map<nat, nat>, b: nat, c: Choice): (n: nat) {
    var total := Total(words, words.Keys);
    if c.Broadcast? && c.bank == b && Conflicted(words, c.word) && total >= words[c.word] - 1
        then total - (words[c.word] - 1)
    else total
  }

  ghost function LimitedCosts(m: Accs, c: Choice): (r: map<nat, nat>)
    ensures r.Keys == m.Keys
  {
    map b | b in m :: LimitedCost(m[b], b, c)
  }

  method BankTotal(words: map<nat, nat>) returns (n: nat)
    ensures n == Total(words, words.Keys)
  {
    n := 0;
    var left := words.Keys;
    while left != {}
      invariant left <= words.Keys && n + Total(words, left) == Total(words, words.Keys)
    {
      var w := LeastMember(left);
      n := n + words[w];
      left := left - {w};
    }
  }

  method LimitedBroadcast(m: Accs) returns (max: nat, ghost c: Choice)
    ensures IsChoice(m, c) && max == MaxOver(LimitedCosts(m, c), m.Keys)
  {
    var choice := FindBroadcast(m);
    c := choice;
    max := 0;
    var left := m.Keys;
    while left != {}
      invariant left <= m.Keys && Max(max, MaxOver(LimitedCosts(m, c), left)) == MaxOver(LimitedCosts(m, c), m.Keys)
    {
      var b := LeastMember(left);
      var n := BankTotal(m[b]);
      if choice.Broadcast? && choice.bank == b {
        var hits := m[b][choice.word];
        TotalWithout(m[b], m[b].Keys, choice.word);
        assert hits > 1 && n >= hits - 1;
        n := n - (hits - 1);
      }
      if n > max {
        max := n;
      }
      left := left - {b};
    }
  }

  // ---------- what the counts are ----------

  function ActiveLanes(l: Lanes, lo: nat, hi: nat): (n: nat)
    requires hi <= |l.addrs|
    decreases hi
  {
    if hi <= lo then 0 else ActiveLanes(l, lo, hi - 1) + if hi - 1 in l.active then 1 else 0
  }

  ghost predicate Uses(l: Lanes, banks: nat, lo: nat, hi: nat, lane: nat, b: nat, w: nat)
    requires banks > 0 && hi <= |l.addrs|
  {
    lo <= lane < hi && lane in l.active && Bank(l.addrs[lane], banks) == b && Word(l.addrs[lane]) == w
  }

  /** Every bank in the map was hit, at most `lanes` times, and every word in it at least once. */
  ghost predicate BankCounts(m: Accs, lanes: nat) {
    forall b :: b in m ==> BankCount(m[b], lanes)
  }

  ghost predicate BankCount(words: map<nat, nat>, lanes: nat) {
    words != map[] && Total(words, words.Keys) <= lanes && forall w :: w in words ==> words[w] >= 1
  }

  lemma BumpCounts(m: Accs, b: nat, w: nat, lanes: nat)
    requires BankCounts(m, lanes)
    ensures BankCounts(Bump(m, b, w), lanes + 1)
  {
    var r := Bump(m, b, w);
    TotalBump(Words(m, b), w);
    if b !in m {
      assert Total(map[], {}) == 0;
    }
    assert r[b][w] >= 1;
  }

  lemma {:induction false} AccsCount(l: Lanes, banks: nat, lo: nat, hi: nat)
    requires banks > 0 && lo <= hi <= |l.addrs|
    ensures BankCounts(SubAccs(l, banks, lo, hi), ActiveLanes(l, lo, hi))
    ensures ActiveLanes(l, lo, hi) > 0 ==> SubAccs(l, banks, lo, hi) != map[]
    decreases hi
  {
    if lo < hi {
      AccsCount(l, banks, lo, hi - 1);
      if hi - 1 in l.active {
        BumpCounts(SubAccs(l, banks, lo, hi - 1), Bank(l.addrs[hi - 1], banks), Word(l.addrs[hi - 1]),
            ActiveLanes(l, lo, hi - 1));
      }
    }
  }

  /** A word is counted in a bank exactly when an active lane uses it. */
  lemma {:induction false} AccsWords(l: Lanes, banks: nat, lo: nat, hi: nat, b: nat, w: nat)
    requires banks > 0 && lo <= hi <= |l.addrs|
    ensures w in Words(SubAccs(l, banks, lo, hi), b) <==> exists lane: nat :: Uses(l, banks, lo, hi, lane, b, w)
    decreases hi
  {
    if lo < hi {
      var h := hi - 1;
      AccsWords(l, banks, lo, h, b, w);
      if lane: nat :| Uses(l, banks, lo, h, lane, b, w) {
        assert Uses(l, banks, lo, hi, lane, b, w);
      }
      if Uses(l, banks, lo, hi, hi - 1, b, w) {
        assert w in Words(SubAccs(l, banks, lo, hi), b);
      }
      if lane: nat :| Uses(l, banks, lo, hi, lane, b, w) && lane < hi - 1 {
        assert Uses(l, banks, lo, h, lane, b, w);
      }
    }
  }

  // ---------- bounds ----------

  /** Full broadcast never costs more than limited broadcast, whichever word is broadcast, and that never costs more
      than one cycle per active lane; a subwarp with an active lane costs at least one cycle. */
  lemma CostBounds(l: Lanes, banks: nat, lo: nat, hi: nat, c: Choice)
    requires banks > 0 && lo <= hi <= |l.addrs|
    ensures var m := SubAccs(l, banks, lo, hi);
            var full, limited := MaxOver(FullCosts(m), m.Keys), MaxOver(LimitedCosts(m, c), m.Keys);
            && full <= limited <= ActiveLanes(l, lo, hi)
            && (ActiveLanes(l, lo, hi) > 0 ==> 1 <= full)
  {
    AccsCount(l, banks, lo, hi);
    CostOrder(SubAccs(l, banks, lo, hi), c, ActiveLanes(l, lo, hi));
  }

  lemma BankOrder(words: map<nat, nat>, b: nat, c: Choice)
    requires forall w :: w in words ==> words[w] >= 1
    ensures |words| <= LimitedCost(words, b, c) <= Total(words, words.Keys)
  {
    TotalAtLeast(words, words.Keys);
    assert |words| == |words.Keys|;
    if c.Broadcast? && Conflicted(words, c.word) {
      TotalWithout(words, words.Keys, c.word);
      TotalAtLeast(words, words.Keys - {c.word});
    }
  }

  lemma CostOrder(m: Accs, c: Choice, lanes: nat)
    requires BankCounts(m, lanes)
    ensures MaxOver(FullCosts(m), m.Keys) <= MaxOver(LimitedCosts(m, c), m.Keys) <= lanes
    ensures m != map[] ==> MaxOver(FullCosts(m), m.Keys) >= 1
  {
    MaxOverIs(FullCosts(m), m.Keys);
    MaxOverIs(LimitedCosts(m, c), m.Keys);
    forall b | b in m ensures FullCosts(m)[b] <= LimitedCosts(m, c)[b] <= lanes && FullCosts(m)[b] >= 1 {
      assert BankCount(m[b], lanes);
      BankOrder(m[b], b, c);
    }
  }

  /** Full broadcast costs one cycle exactly when no two active lanes hit different words of one bank. */
  lemma OneCycle(l: Lanes, banks: nat, lo: nat, hi: nat)
    requires banks > 0 && lo <= hi <= |l.addrs| && ActiveLanes(l, lo, hi) > 0
    ensures var m := SubAccs(l, banks, lo, hi);
            MaxOver(FullCosts(m), m.Keys) == 1 <==>
            forall s: nat, t: nat, b: nat, v: nat, w: nat ::
              Uses(l, banks, lo, hi, s, b, v) && Uses(l, banks, lo, hi, t, b, w) ==> v == w
  {
    var m := SubAccs(l, banks, lo, hi);
    AccsCount(l, banks, lo, hi);
    MaxOverIs(FullCosts(m), m.Keys);
    if MaxOver(FullCosts(m), m.Keys) == 1 {
      forall s: nat, t: nat, b: nat, v: nat, w: nat | Uses(l, banks, lo, hi, s, b, v) && Uses(l, banks, lo, hi, t, b, w)
        ensures v == w
      {
        AccsWords(l, banks, lo, hi, b, v);
        AccsWords(l, banks, lo, hi, b, w);
        assert FullCosts(m)[b] <= 1;
        OneKey(m[b], v, w);
      }
    } else {
      var b :| b in m && FullCosts(m)[b] == MaxOver(FullCosts(m), m.Keys);
      assert BankCount(m[b], ActiveLanes(l, lo, hi));
      var v, w := TwoKeys(m[b]);
      AccsWords(l, banks, lo, hi, b, v);
      AccsWords(l, banks, lo, hi, b, w);
    }
  }

  lemma OneKey(words: map<nat, nat>, v: nat, w: nat)
    requires |words| <= 1 && v in words && w in words
    ensures v == w
  {
    assert |words| == |words.Keys|;
    assert {v, w} <= words.Keys;
    SubsetSize({v, w}, words.Keys);
  }

  lemma TwoKeys(words: map<nat, nat>) returns (v: nat, w: nat)
    requires |words| >= 2
    ensures v in words && w in words && v != w
  {
    assert |words| == |words.Keys|;
    v := Pick(words.Keys);
    assert |words.Keys - {v}| >= 1;
    w := Pick(words.Keys - {v});
  }

  // ---------- the whole warp ----------

  lemma {:induction false} ActiveSplit(l: Lanes, lo: nat, mid: nat, hi: nat)
    requires lo <= mid <= hi <= |l.addrs|
    ensures ActiveLanes(l, lo, hi) == ActiveLanes(l, lo, mid) + ActiveLanes(l, mid, hi)
    decreases hi
  {
    if mid < hi {
      ActiveSplit(l, lo, mid, hi - 1);
    }
  }

  lemma {:induction false} ActiveSome(l: Lanes, lo: nat, hi: nat)
    requires lo <= hi <= |l.addrs|
    ensures ActiveLanes(l, lo, hi) <= hi - lo
    ensures (exists t :: lo <= t < hi && t in l.active) ==> ActiveLanes(l, lo, hi) > 0
    decreases hi
  {
    if lo < hi {
      ActiveSome(l, lo, hi - 1);
    }
  }

  /** What a subwarp with the accesses `m` costs. */
  ghost predicate IsCost(m: Accs, limited: bool, cycles: nat) {
    if limited then exists c :: IsChoice(m, c) && cycles == MaxOver(LimitedCosts(m, c), m.Keys)
    else cycles == MaxOver(FullCosts(m), m.Keys)
  }

  /** There is one word to broadcast, so there is one cost. */
  lemma CostUnique(m: Accs, limited: bool, a: nat, b: nat)
    requires IsCost(m, limited, a) && IsCost(m, limited, b)
    ensures a == b
  {
    if limited {
      var c :| IsChoice(m, c) && a == MaxOver(LimitedCosts(m, c), m.Keys);
      var d :| IsChoice(m, d) && b == MaxOver(LimitedCosts(m, d), m.Keys);
      ChoiceUnique(m, c, d);
    }
  }

  lemma ChoiceUnique(m: Accs, c: Choice, d: Choice)
    requires IsChoice(m, c) && IsChoice(m, d)
    ensures c == d
  {
  }

  /** The cycles of one subwarp. */
  method SubwarpCycles(l: Lanes, banks: nat, limited: bool, lo: nat, hi: nat) returns (cycles: nat)
    requires banks > 0 && lo <= hi <= |l.addrs|
    ensures IsCost(SubAccs(l, banks, lo, hi), limited, cycles)
    ensures cycles <= ActiveLanes(l, lo, hi) && (ActiveLanes(l, lo, hi) > 0 ==> cycles >= 1)
  {
    var m := CollectAccs(l, banks, lo, hi);
    if limited {
      ghost var c;
      cycles, c := LimitedBroadcast(m);
      CostBounds(l, banks, lo, hi, c);
    } else {
      cycles := FullBroadcast(m);
      CostBounds(l, banks, lo, hi, NoBroadcast);
    }
  }

  /** What subwarp number `k` costs. */
  ghost predicate IsPartCost(l: Lanes, banks: nat, limited: bool, size: nat, k: nat, cycles: nat)
    requires banks > 0
  {
    var lo, hi := size * k, size * (k + 1);
    0 <= lo <= hi <= |l.addrs| && IsCost(SubAccs(l, banks, lo, hi), limited, cycles)
  }

  ghost predicate ArePartCosts(l: Lanes, banks: nat, limited: bool, size: nat, costs: seq<nat>)
    requires banks > 0
  {
    forall k :: 0 <= k < |costs| ==> IsPartCost(l, banks, limited, size, k, costs[k])
  }

  lemma {:induction false} ActiveNone(l: Lanes, lo: nat, hi: nat)
    requires lo <= hi <= |l.addrs| && forall t :: lo <= t < hi ==> t !in l.active
    ensures ActiveLanes(l, lo, hi) == 0
    decreases hi
  {
    if lo < hi {
      ActiveNone(l, lo, hi - 1);
    }
  }

  /** Some lane of the first `end` lanes is active. */
  ghost predicate SomeActive(l: Lanes, end: int) {
    exists t: nat :: t < end && t in l.active
  }

  lemma ActiveExactly(l: Lanes, hi: nat)
    requires hi <= |l.addrs|
    ensures ActiveLanes(l, 0, hi) > 0 <==> SomeActive(l, hi)
  {
    ActiveSome(l, 0, hi);
    if !SomeActive(l, hi) {
      ActiveNone(l, 0, hi);
    }
  }

  lemma Quotient(total: nat, parts: nat)
    requires parts > 0
    ensures 0 <= total / parts * parts <= total
  {
  }

  /** The shared-memory case of `generate_mem_accesses`: the costs of the subwarps are added up. The assertion on
      the total holds exactly when an active lane is in some subwarp; if the parts divide the warp, that is when a
      lane is active. */
  method SharedCycles(l: Lanes, banks: nat, limited: bool, parts: nat) returns (cycles: nat, ghost costs: seq<nat>)
    requires banks > 0 && parts > 0
    ensures |costs| == parts && ArePartCosts(l, banks, limited, |l.addrs| / parts, costs) && cycles == Sum(costs)
    ensures cycles <= ActiveLanes(l, 0, |l.addrs|) <= |l.addrs|
    ensures cycles >= 1 <==> SomeActive(l, |l.addrs| / parts * parts)
  {
    var size := |l.addrs| / parts;
    Quotient(|l.addrs|, parts);
    cycles, costs := 0, [];
    var subwarp := 0;
    while subwarp < parts
      invariant subwarp <= parts && 0 <= size * subwarp <= |l.addrs|
      invariant |costs| == subwarp && ArePartCosts(l, banks, limited, size, costs) && cycles == Sum(costs)
      invariant cycles <= ActiveLanes(l, 0, size * subwarp)
      invariant ActiveLanes(l, 0, size * subwarp) > 0 ==> cycles >= 1
    {
      Subwarps(size, parts, subwarp, |l.addrs|);
      var lo, hi := size * subwarp, size * (subwarp + 1);
      var n := SubwarpCycles(l, banks, limited, lo, hi);
      ActiveSplit(l, 0, lo, hi);
      assert IsPartCost(l, banks, limited, size, subwarp, n);
      cycles, costs := cycles + n, costs + [n];
      subwarp := subwarp + 1;
    }
    ActiveExactly(l, size * parts);
    ActiveSplit(l, 0, size * parts, |l.addrs|);
    ActiveSome(l, 0, |l.addrs|);
  }
}
