/** The cycles of a shared-memory access in terms of the lanes' addresses: a word is four bytes, consecutive words are
    in consecutive banks, and with full broadcast a subwarp costs as many cycles as there are lanes with different words
    of one bank. */
module BankTheorems {
  import opened Basics
  import opened Coalescing
  import opened SharedMemory

  /** An active lane of the subwarp, with a 32-bit address. */
  ghost predicate Asks(l: Lanes, lo: nat, hi: nat, t: nat)
    requires hi <= |l.addrs|
  {
    lo <= t < hi && t in l.active
  }

  ghost predicate Narrow(l: Lanes, lo: nat, hi: nat)
    requires hi <= |l.addrs|
  {
    forall t: nat :: Asks(l, lo, hi, t) ==> l.addrs[t] < 0x1_0000_0000
  }

  /** The addresses are in different words of one bank. */
  predicate Collide(a: nat, b: nat, banks: nat)
    requires banks > 0
  {
    a / 4 != b / 4 && a / 4 % banks == b / 4 % banks
  }

  /** Active lanes of the subwarp any two of which collide. */
  ghost predicate Clash(l: Lanes, banks: nat, lo: nat, hi: nat, s: set<nat>)
    requires banks > 0 && hi <= |l.addrs|
  {
    && (forall t :: t in s ==> Asks(l, lo, hi, t))
    && forall t, u :: t in s && u in s && t != u ==> Collide(l.addrs[t], l.addrs[u], banks)
  }

  /** Words and banks of 32-bit addresses. */
  lemma InWords(a: nat, banks: nat)
    requires banks > 0 && a < 0x1_0000_0000
    ensures Bank(a, banks) == a / 4 % banks && Word(a) == 4 * (a / 4)
  {
  }

  lemma UsesAddress(l: Lanes, banks: nat, lo: nat, hi: nat, t: nat, b: nat, w: nat)
    requires banks > 0 && lo <= hi <= |l.addrs| && Narrow(l, lo, hi)
    ensures Uses(l, banks, lo, hi, t, b, w)
       <==> Asks(l, lo, hi, t) && l.addrs[t] / 4 % banks == b && 4 * (l.addrs[t] / 4) == w
  {
    if Asks(l, lo, hi, t) {
      InWords(l.addrs[t], banks);
    }
  }

  // ---------- full broadcast ----------

  /** One lane for each of the words in a bank. */
  lemma {:induction false} Hitters(l: Lanes, banks: nat, lo: nat, hi: nat, b: nat, ws: set<nat>) returns (s: set<nat>)
    requires banks > 0 && lo <= hi <= |l.addrs| && Narrow(l, lo, hi)
    requires forall w :: w in ws ==> w in Words(SubAccs(l, banks, lo, hi), b)
    ensures |s| == |ws| && Clash(l, banks, lo, hi, s)
    ensures forall t :: t in s ==> l.addrs[t] / 4 % banks == b && 4 * (l.addrs[t] / 4) in ws
  {
    if ws == {} {
      s := {};
    } else {
      var w := Pick(ws);
      var rest := Hitters(l, banks, lo, hi, b, ws - {w});
      AccsWords(l, banks, lo, hi, b, w);
      var t: nat :| Uses(l, banks, lo, hi, t, b, w);
      UsesAddress(l, banks, lo, hi, t, b, w);
      s := rest + {t};
    }
  }

  /** Lanes that clash hit as many words of one bank. */
  lemma {:induction false} HitWords(l: Lanes, banks: nat, lo: nat, hi: nat, b: nat, s: set<nat>)
      returns (ws: set<nat>)
    requires banks > 0 && lo <= hi <= |l.addrs| && Narrow(l, lo, hi) && Clash(l, banks, lo, hi, s)
    requires forall t :: t in s ==> l.addrs[t] / 4 % banks == b
    ensures |ws| == |s| && forall w :: w in ws ==> w in Words(SubAccs(l, banks, lo, hi), b)
    ensures forall w :: w in ws <==> exists t :: t in s && w == 4 * (l.addrs[t] / 4)
  {
    if s == {} {
      ws := {};
    } else {
      var t := Pick(s);
      var rest := HitWords(l, banks, lo, hi, b, s - {t});
      var w := 4 * (l.addrs[t] / 4);
      UsesAddress(l, banks, lo, hi, t, b, w);
      AccsWords(l, banks, lo, hi, b, w);
      ws := rest + {w};
      assert w !in rest;
    }
  }

  /** With full broadcast a subwarp costs the largest number of its lanes any two of which collide. */
  ghost predicate IsLargestClash(l: Lanes, banks: nat, lo: nat, hi: nat, n: nat)
    requires banks > 0 && hi <= |l.addrs|
  {
    && (exists s: set<nat> :: Clash(l, banks, lo, hi, s) && |s| == n)
    && forall s: set<nat> :: Clash(l, banks, lo, hi, s) ==> |s| <= n
  }

  lemma ClashAtMost(l: Lanes, banks: nat, lo: nat, hi: nat, n: nat, s: set<nat>)
    requires banks > 0 && lo <= hi <= |l.addrs| && Narrow(l, lo, hi)
    requires IsCost(SubAccs(l, banks, lo, hi), false, n) && Clash(l, banks, lo, hi, s)
    ensures |s| <= n
  {
    if s != {} {
      var m := SubAccs(l, banks, lo, hi);
      var t := Pick(s);
      var b := l.addrs[t] / 4 % banks;
      var ws := HitWords(l, banks, lo, hi, b, s);
      assert 4 * (l.addrs[t] / 4) in ws;
      MaxOverIs(FullCosts(m), m.Keys);
      assert ws <= m[b].Keys;
      SubsetSize(ws, m[b].Keys);
      assert |m[b]| == |m[b].Keys| && FullCosts(m)[b] <= n;
    }
  }

  lemma FullExact(l: Lanes, banks: nat, lo: nat, hi: nat, n: nat)
    requires banks > 0 && lo <= hi <= |l.addrs| && Narrow(l, lo, hi) && IsCost(SubAccs(l, banks, lo, hi), false, n)
    ensures IsLargestClash(l, banks, lo, hi, n)
  {
    var m := SubAccs(l, banks, lo, hi);
    MaxOverIs(FullCosts(m), m.Keys);
    if m == map[] {
      assert Clash(l, banks, lo, hi, {});
    } else {
      var b :| b in m && FullCosts(m)[b] == n;
      var s := Hitters(l, banks, lo, hi, b, m[b].Keys);
      assert |m[b]| == |m[b].Keys|;
    }
    forall s: set<nat> | Clash(l, banks, lo, hi, s) ensures |s| <= n {
      ClashAtMost(l, banks, lo, hi, n, s);
    }
  }

  /** No two active lanes are in different words of one bank. */
  ghost predicate NoCollision(l: Lanes, banks: nat, lo: nat, hi: nat)
    requires banks > 0 && hi <= |l.addrs|
  {
    forall t: nat, u: nat :: Asks(l, lo, hi, t) && Asks(l, lo, hi, u) ==> !Collide(l.addrs[t], l.addrs[u], banks)
  }

  lemma LargestOfOne(l: Lanes, banks: nat, lo: nat, hi: nat, n: nat, t: nat)
    requires banks > 0 && hi <= |l.addrs| && IsLargestClash(l, banks, lo, hi, n) && Asks(l, lo, hi, t)
    requires NoCollision(l, banks, lo, hi)
    ensures n == 1
  {
    assert Clash(l, banks, lo, hi, {t}) && |{t}| == 1;
    var s: set<nat> :| Clash(l, banks, lo, hi, s) && |s| == n;
    if n > 1 {
      var x := Pick(s);
      var y := Pick(s - {x});
    }
  }

  lemma LargestOfMore(l: Lanes, banks: nat, lo: nat, hi: nat, n: nat, t: nat, u: nat)
    requires banks > 0 && hi <= |l.addrs| && IsLargestClash(l, banks, lo, hi, n)
    requires Asks(l, lo, hi, t) && Asks(l, lo, hi, u) && Collide(l.addrs[t], l.addrs[u], banks)
    ensures n > 1
  {
    assert Clash(l, banks, lo, hi, {t, u}) && |{t, u}| == 2;
  }

  /** Full broadcast costs one cycle if and only if no two active lanes are in different words of one bank. */
  lemma OneCycleExact(l: Lanes, banks: nat, lo: nat, hi: nat, n: nat, t: nat)
    requires banks > 0 && lo <= hi <= |l.addrs| && Narrow(l, lo, hi) && IsCost(SubAccs(l, banks, lo, hi), false, n)
    requires Asks(l, lo, hi, t)
    ensures n == 1 <==> NoCollision(l, banks, lo, hi)
  {
    FullExact(l, banks, lo, hi, n);
    if NoCollision(l, banks, lo, hi) {
      LargestOfOne(l, banks, lo, hi, n, t);
    } else {
      var x: nat, y: nat :| Asks(l, lo, hi, x) && Asks(l, lo, hi, y) && Collide(l.addrs[x], l.addrs[y], banks);
      LargestOfMore(l, banks, lo, hi, n, x, y);
    }
  }

  /** Lanes that read words one after the other, no more than there are banks, cost one cycle. */
  lemma ConsecutiveWords(l: Lanes, banks: nat, lo: nat, hi: nat, first: nat, n: nat, t: nat)
    requires banks > 0 && lo <= hi <= |l.addrs| && hi - lo <= banks && IsCost(SubAccs(l, banks, lo, hi), false, n)
    requires first + 4 * (hi - lo) <= 0x1_0000_0000 && Asks(l, lo, hi, t)
    requires forall u :: lo <= u < hi ==> l.addrs[u] == first + 4 * (u - lo)
    ensures n == 1
  {
    ConsecutiveApart(l, banks, lo, hi, first);
    ConsecutiveNarrow(l, lo, hi, first);
    OneCycleExact(l, banks, lo, hi, n, t);
  }

  lemma ConsecutiveApart(l: Lanes, banks: nat, lo: nat, hi: nat, first: nat)
    requires banks > 0 && lo <= hi <= |l.addrs| && hi - lo <= banks
    requires forall u :: lo <= u < hi ==> l.addrs[u] == first + 4 * (u - lo)
    ensures NoCollision(l, banks, lo, hi)
  {
    forall u: nat, v: nat | Asks(l, lo, hi, u) && Asks(l, lo, hi, v) ensures !Collide(l.addrs[u], l.addrs[v], banks) {
      WordsNearby(first, u - lo, v - lo, banks);
    }
  }

  lemma ConsecutiveNarrow(l: Lanes, lo: nat, hi: nat, first: nat)
    requires lo <= hi <= |l.addrs| && first + 4 * (hi - lo) <= 0x1_0000_0000
    requires forall u :: lo <= u < hi ==> l.addrs[u] == first + 4 * (u - lo)
    ensures Narrow(l, lo, hi)
  {
  }

  lemma WordsNearby(first: nat, j: nat, k: nat, banks: nat)
    requires j < banks && k < banks
    ensures !Collide(first + 4 * j, first + 4 * k, banks)
  {
    NextWords(first, j);
    NextWords(first, k);
    if j < k {
      NearBanks(first / 4 + j, k - j, banks);
    } else if k < j {
      NearBanks(first / 4 + k, j - k, banks);
    }
  }

  lemma NextWords(first: nat, k: nat)
    ensures (first + 4 * k) / 4 == first / 4 + k
  {
  }

  lemma NextBlock(m: nat, q: nat)
    ensures m * (q + 1) == m * q + m
  {
  }

  lemma RemainderOn(m: nat, q: nat, r: nat, k: nat, x: nat)
    requires r < m && 0 < k < m && x == m * q + r
    ensures x % m != (x + k) % m
  {
    DivMod(m, q, r);
    if r + k < m {
      DivMod(m, q, r + k);
    } else {
      NextBlock(m, q);
      DivMod(m, q + 1, r + k - m);
    }
  }

  lemma Division(x: nat, m: nat) returns (q: nat, r: nat)
    requires m > 0
    ensures r < m && x == m * q + r
  {
    q, r := x / m, x % m;
  }

  lemma NearBanks(x: nat, k: nat, banks: nat)
    requires 0 < k < banks
    ensures x % banks != (x + k) % banks
  {
    var q, r := Division(x, banks);
    RemainderOn(banks, q, r, k, x);
  }

  /** Lanes at a stride of one word for every bank cost one cycle each. */
  lemma FullStride(l: Lanes, banks: nat, lo: nat, hi: nat, first: nat, n: nat)
    requires banks > 0 && lo <= hi <= |l.addrs| && Narrow(l, lo, hi) && IsCost(SubAccs(l, banks, lo, hi), false, n)
    requires forall t :: lo <= t < hi ==> t in l.active && l.addrs[t] == first + 4 * (banks * (t - lo))
    ensures n == hi - lo
  {
    FullExact(l, banks, lo, hi, n);
    StrideClashes(l, banks, lo, hi, first);
    assert |Range(lo, hi)| == hi - lo;
    var s: set<nat> :| Clash(l, banks, lo, hi, s) && |s| == n;
    ClashInRange(l, banks, lo, hi, s);
  }

  lemma StrideClashes(l: Lanes, banks: nat, lo: nat, hi: nat, first: nat)
    requires banks > 0 && lo <= hi <= |l.addrs|
    requires forall t :: lo <= t < hi ==> t in l.active && l.addrs[t] == first + 4 * (banks * (t - lo))
    ensures Clash(l, banks, lo, hi, Range(lo, hi))
  {
    forall t, u | lo <= t < hi && lo <= u < hi && t != u ensures Collide(l.addrs[t], l.addrs[u], banks) {
      StridePair(first, t - lo, u - lo, banks, l.addrs[t], l.addrs[u]);
    }
    AllAsk(l, lo, hi);
  }

  lemma AllAsk(l: Lanes, lo: nat, hi: nat)
    requires lo <= hi <= |l.addrs| && forall t :: lo <= t < hi ==> t in l.active
    ensures forall t :: t in Range(lo, hi) ==> Asks(l, lo, hi, t)
  {
  }

  lemma StridePair(first: nat, j: nat, k: nat, banks: nat, a: nat, b: nat)
    requires banks > 0 && j != k && a == first + 4 * (banks * j) && b == first + 4 * (banks * k)
    ensures Collide(a, b, banks)
  {
    WordsApart(first, j, k, banks);
  }

  lemma ClashInRange(l: Lanes, banks: nat, lo: nat, hi: nat, s: set<nat>)
    requires banks > 0 && lo <= hi <= |l.addrs| && Clash(l, banks, lo, hi, s)
    ensures |s| <= hi - lo
  {
    forall t | t in s ensures t in Range(lo, hi) {
      assert Asks(l, lo, hi, t);
    }
    SubsetSize(s, Range(lo, hi));
  }

  lemma WordsApart(first: nat, j: nat, k: nat, banks: nat)
    requires banks > 0 && j != k
    ensures Collide(first + 4 * (banks * j), first + 4 * (banks * k), banks)
  {
    NextWords(first, banks * j);
    NextWords(first, banks * k);
    SameBank(first / 4, j, banks);
    SameBank(first / 4, k, banks);
  }

  lemma SameBank(x: nat, k: nat, banks: nat)
    requires banks > 0
    ensures (x + banks * k) % banks == x % banks
  {
    var q, r := x / banks, x % banks;
    assert x + banks * k == banks * (q + k) + r;
    DivMod(banks, q + k, r);
  }

  /** The lanes of a subwarp. */
  ghost function Range(lo: nat, hi: nat): (s: set<nat>)
    requires lo <= hi
    ensures |s| == hi - lo && forall t: nat :: t in s <==> lo <= t < hi
    decreases hi
  {
    if lo == hi then {} else Range(lo, hi - 1) + {hi - 1}
  }

  // ---------- limited broadcast ----------

  /** How many active lanes of the subwarp are in word number `v`. */
  ghost function InWord(l: Lanes, lo: nat, hi: nat, v: nat): (n: nat)
    requires hi <= |l.addrs|
    decreases hi
  {
    if hi <= lo then 0
    else InWord(l, lo, hi - 1, v) + if hi - 1 in l.active && l.addrs[hi - 1] / 4 == v then 1 else 0
  }

  lemma BumpHits(m: Accs, b: nat, w: nat, b': nat, w': nat)
    ensures Hits(Words(Bump(m, b, w), b'), w') == Hits(Words(m, b'), w') + if b == b' && w == w' then 1 else 0
  {
  }

  /** The accesses counted for a word are its lanes. */
  lemma {:induction false} HitsAre(l: Lanes, banks: nat, lo: nat, hi: nat, v: nat)
    requires banks > 0 && lo <= hi <= |l.addrs| && Narrow(l, lo, hi)
    ensures Hits(Words(SubAccs(l, banks, lo, hi), v % banks), 4 * v) == InWord(l, lo, hi, v)
    decreases hi
  {
    if lo < hi {
      forall t: nat | Asks(l, lo, hi - 1, t) ensures l.addrs[t] < 0x1_0000_0000 {
        assert Asks(l, lo, hi, t);
      }
      HitsAre(l, banks, lo, hi - 1, v);
      if hi - 1 in l.active {
        var a := l.addrs[hi - 1];
        assert Asks(l, lo, hi, hi - 1);
        InWords(a, banks);
        BumpHits(SubAccs(l, banks, lo, hi - 1), Bank(a, banks), Word(a), v % banks, 4 * v);
      }
    }
  }

  /** All active lanes are in the words `v` and `w` of one bank, and in each of them is one. */
  ghost predicate InTwo(l: Lanes, banks: nat, lo: nat, hi: nat, v: nat, w: nat)
    requires banks > 0 && hi <= |l.addrs|
  {
    && v % banks == w % banks && InWord(l, lo, hi, v) > 0 && InWord(l, lo, hi, w) > 0
    && forall t: nat :: Asks(l, lo, hi, t) ==> l.addrs[t] / 4 == v || l.addrs[t] / 4 == w
  }

  lemma OnlyWords(l: Lanes, banks: nat, lo: nat, hi: nat, v: nat, w: nat)
    requires banks > 0 && lo <= hi <= |l.addrs| && Narrow(l, lo, hi) && InTwo(l, banks, lo, hi, v, w)
    ensures var m, b := SubAccs(l, banks, lo, hi), v % banks;
            && m.Keys == {b} && m[b].Keys == {4 * v, 4 * w}
            && m[b][4 * v] == InWord(l, lo, hi, v) && m[b][4 * w] == InWord(l, lo, hi, w)
  {
    var m, b := SubAccs(l, banks, lo, hi), v % banks;
    HitsAre(l, banks, lo, hi, v);
    HitsAre(l, banks, lo, hi, w);
    AccsCount(l, banks, lo, hi);
    forall b', w' | b' in m && w' in m[b'] ensures b' == b && (w' == 4 * v || w' == 4 * w) {
      AccsWords(l, banks, lo, hi, b', w');
      var t: nat :| Uses(l, banks, lo, hi, t, b', w');
      UsesAddress(l, banks, lo, hi, t, b', w');
    }
    forall b' | b' in m ensures b' == b {
      assert BankCount(m[b'], ActiveLanes(l, lo, hi));
      var w' :| w' in m[b'];
    }
  }

  lemma TotalOfOne(words: map<nat, nat>, v: nat)
    requires words.Keys == {v}
    ensures Total(words, words.Keys) == words[v]
  {
    assert {v} - {v} == {};
    TotalWithout(words, {v}, v);
  }

  lemma TotalOfTwo(words: map<nat, nat>, v: nat, w: nat)
    requires v != w && words.Keys == {v, w}
    ensures Total(words, words.Keys) == words[v] + words[w]
  {
    TotalWithout(words, {v, w}, v);
    assert {v, w} - {v} == {w} && {w} - {w} == {};
    TotalWithout(words, {w}, w);
  }

  lemma OnlyBank(cost: map<nat, nat>, b: nat)
    requires cost.Keys == {b}
    ensures MaxOver(cost, cost.Keys) == cost[b]
  {
    MaxOverIs(cost, cost.Keys);
  }

  /** With limited broadcast, lanes that are all in one word cost one cycle. */
  lemma OneWordLimited(l: Lanes, banks: nat, lo: nat, hi: nat, v: nat, n: nat)
    requires banks > 0 && lo <= hi <= |l.addrs| && Narrow(l, lo, hi) && IsCost(SubAccs(l, banks, lo, hi), true, n)
    requires InTwo(l, banks, lo, hi, v, v)
    ensures n == 1
  {
    var m, b := SubAccs(l, banks, lo, hi), v % banks;
    OnlyWords(l, banks, lo, hi, v, v);
    var c :| IsChoice(m, c) && n == MaxOver(LimitedCosts(m, c), m.Keys);
    LimitedOfOne(m, b, c, 4 * v);
  }

  lemma LimitedOfOne(m: Accs, b: nat, c: Choice, v: nat)
    requires m.Keys == {b} && m[b].Keys == {v} && m[b][v] > 0 && IsChoice(m, c)
    ensures MaxOver(LimitedCosts(m, c), m.Keys) == 1
  {
    OnlyBank(LimitedCosts(m, c), b);
    TotalOfOne(m[b], v);
    assert Conflicted(m[b], v) <==> m[b][v] > 1;
  }

  /** ... and lanes in two words of one bank cost one cycle for the word that is broadcast, the lower one if more than
      one lane is in it, and one for every lane in the other. */
  lemma TwoWordsLimited(l: Lanes, banks: nat, lo: nat, hi: nat, v: nat, w: nat, n: nat)
    requires banks > 0 && lo <= hi <= |l.addrs| && Narrow(l, lo, hi) && IsCost(SubAccs(l, banks, lo, hi), true, n)
    requires InTwo(l, banks, lo, hi, v, w) && v < w
    ensures n == 1 + if InWord(l, lo, hi, v) > 1 then InWord(l, lo, hi, w) else 1
  {
    var m, b := SubAccs(l, banks, lo, hi), v % banks;
    OnlyWords(l, banks, lo, hi, v, w);
    var c :| IsChoice(m, c) && n == MaxOver(LimitedCosts(m, c), m.Keys);
    LimitedOfTwo(m, b, c, 4 * v, 4 * w);
  }

  lemma LimitedOfTwo(m: Accs, b: nat, c: Choice, v: nat, w: nat)
    requires m.Keys == {b} && m[b].Keys == {v, w} && v < w && m[b][v] > 0 && m[b][w] > 0 && IsChoice(m, c)
    ensures MaxOver(LimitedCosts(m, c), m.Keys) == 1 + if m[b][v] > 1 then m[b][w] else 1
  {
    OnlyBank(LimitedCosts(m, c), b);
    TotalOfTwo(m[b], v, w);
    assert Conflicted(m[b], v) <==> m[b][v] > 1;
    assert Conflicted(m[b], w) <==> m[b][w] > 1;
  }

  // ---------- the whole warp ----------

  /** A warp in one part costs what its lanes cost. */
  lemma OnePart(l: Lanes, banks: nat, limited: bool, costs: seq<nat>)
    requires banks > 0 && |costs| == 1 && ArePartCosts(l, banks, limited, |l.addrs|, costs)
    ensures IsCost(SubAccs(l, banks, 0, |l.addrs|), limited, Sum(costs))
  {
    assert IsPartCost(l, banks, limited, |l.addrs|, 0, costs[0]);
    assert costs[..0] == [];
  }
}
