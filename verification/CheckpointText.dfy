/** What `print_checkpoint` writes, character by character: the mask bits, the fields as signed decimal numbers, and a
    newline. */
module CheckpointText {
  import opened SimtStack
  import opened Checkpoint

  // ---------- decimal notation ----------

  /** The number that digits denote, the last one counting ones. */
  function Places(s: string): (n: int) {
    if s == [] then 0 else 10 * Places(s[..|s| - 1]) + (s[|s| - 1] as int - 48)
  }

  /** Digits without a leading zero. */
  predicate Plain(s: string) {
    s != [] && (forall k :: 0 <= k < |s| ==> '0' <= s[k] <= '9') && (|s| > 1 ==> s[0] != '0')
  }

  /** `t` is the decimal notation of `x`. */
  predicate Denotes(t: string, x: int) {
    if x < 0 then t != [] && t[0] == '-' && Plain(t[1..]) && Places(t[1..]) == -x
    else Plain(t) && Places(t) == x
  }

  lemma {:induction false} DigitsPlain(n: nat)
    ensures Plain(Digits(n)) && Places(Digits(n)) == n && (n > 0 ==> Digits(n)[0] != '0')
  {
    if n < 10 {
      var s := Digits(n);
      assert s[..0] == [] && s[0] == s[|s| - 1];
    } else {
      DigitsPlain(n / 10);
      var front, last := Digits(n / 10), DigitChar(n % 10);
      assert (front + [last])[..|front|] == front;
    }
  }

  lemma DecimalDenotes(x: int)
    ensures Denotes(Decimal(x), x)
  {
    DigitsPlain(if x < 0 then -x else x);
    if x < 0 {
      assert Decimal(x)[1..] == Digits(-x);
    }
  }

  /** Reading digits from the left. */
  lemma {:induction false} ReadMore(s: string, c: char, acc: nat)
    requires IsDigit(c) && forall d :: d in s ==> IsDigit(d)
    ensures ReadDigits(s + [c], acc) == 10 * ReadDigits(s, acc) + (c as int - 48)
  {
    if s == [] {
      assert (s + [c])[1..] == [];
    } else {
      assert (s + [c])[1..] == s[1..] + [c];
      assert s[0] in s;
      ReadMore(s[1..], c, 10 * acc + (s[0] - '0') as nat);
    }
  }

  lemma {:induction false} ReadIsPlaces(s: string)
    requires forall d :: d in s ==> IsDigit(d)
    ensures ReadDigits(s, 0) == Places(s)
  {
    if s != [] {
      var front, c := s[..|s| - 1], s[|s| - 1];
      ReadIsPlaces(front);
      ReadMore(front, c, 0);
      assert s == front + [c];
    }
  }

  /** Reading stops at what is no digit. */
  lemma {:induction false} ReadStops(s: string, rest: string, acc: nat)
    requires (forall d :: d in s ==> IsDigit(d)) && (rest != [] ==> !('0' <= rest[0] <= '9'))
    ensures ReadDigits(s + rest, acc) == ReadDigits(s, acc)
  {
    if s == [] {
      assert s + rest == rest;
    } else {
      assert s[0] in s;
      assert (s + rest)[1..] == s[1..] + rest;
      ReadStops(s[1..], rest, 10 * acc + (s[0] - '0') as nat);
    }
  }

  /** What `atoi` and its like read: decimal notation, perhaps with a plus sign, up to what is no digit. */
  lemma NumberReads(t: string, x: int, rest: string)
    requires Denotes(t, x) && (rest != [] ==> !('0' <= rest[0] <= '9'))
    ensures Number(t + rest) == x && (x >= 0 ==> Number("+" + t + rest) == x)
  {
    var digits := if x < 0 then t[1..] else t;
    ReadIsPlaces(digits);
    ReadStops(digits, rest, 0);
    if x < 0 {
      assert (t + rest)[1..] == digits + rest;
    } else {
      assert ("+" + t + rest)[1..] == digits + rest;
      assert (t + rest)[0] == t[0];
    }
  }

  lemma {:induction false} PlacesPositive(s: string)
    requires s != [] && (forall k :: 0 <= k < |s| ==> '0' <= s[k] <= '9') && s[0] != '0'
    ensures Places(s) > 0
  {
    if |s| > 1 {
      PlacesPositive(s[..|s| - 1]);
    }
  }

  lemma SameLast(x: int, c: int, y: int, d: int)
    requires 10 * x + c == 10 * y + d && 0 <= c < 10 && 0 <= d < 10
    ensures x == y && c == d
  {
  }

  lemma LastPlace(s: string, t: string)
    requires Plain(s) && Plain(t) && Places(s) == Places(t)
    ensures s[|s| - 1] == t[|t| - 1] && Places(s[..|s| - 1]) == Places(t[..|t| - 1])
    ensures |s| == 1 <==> |t| == 1
  {
    var a, b := s[..|s| - 1], t[..|t| - 1];
    SameLast(Places(a), s[|s| - 1] as int - 48, Places(b), t[|t| - 1] as int - 48);
    if |s| > 1 {
      PlacesPositive(a);
    }
    if |t| > 1 {
      PlacesPositive(b);
    }
  }

  lemma FrontPlain(s: string)
    requires Plain(s) && |s| > 1
    ensures Plain(s[..|s| - 1])
  {
  }

  lemma SameFront(s: string, t: string)
    requires s != [] && t != [] && s[..|s| - 1] == t[..|t| - 1] && s[|s| - 1] == t[|t| - 1]
    ensures s == t
  {
    assert s == s[..|s| - 1] + [s[|s| - 1]] && t == t[..|t| - 1] + [t[|t| - 1]];
  }

  /** A number has one decimal notation. */
  lemma {:induction false} PlacesOnce(s: string, t: string)
    requires Plain(s) && Plain(t) && Places(s) == Places(t)
    ensures s == t
    decreases |s|
  {
    LastPlace(s, t);
    if |s| > 1 {
      FrontPlain(s);
      FrontPlain(t);
      PlacesOnce(s[..|s| - 1], t[..|t| - 1]);
    }
    SameFront(s, t);
  }

  /** `atoi` answers the number modulo 2 to the 32nd, as a signed one. */
  lemma AtoiReads(t: string, x: int)
    requires Denotes(t, x)
    ensures -0x8000_0000 <= Atoi(t) < 0x8000_0000 && (Atoi(t) - x) % 0x1_0000_0000 == 0
  {
    NumberReads(t, x, "");
    assert t + "" == t;
  }

  // ---------- a line ----------

  /** The token is the value of a 32-bit field as a signed number. */
  ghost predicate Shows32(t: string, field: nat) {
    exists x: int :: -0x8000_0000 <= x < 0x8000_0000 && (x - field) % 0x1_0000_0000 == 0 && Denotes(t, x)
  }

  ghost predicate Shows64(t: string, field: nat) {
    exists x: int :: -0x8000_0000_0000_0000 <= x < 0x8000_0000_0000_0000
                     && (x - field) % 0x1_0000_0000_0000_0000 == 0 && Denotes(t, x)
  }

  lemma SignedShows(x: nat)
    requires x < 0x1_0000_0000
    ensures Shows32(Decimal(Signed(x)), x)
  {
    DecimalDenotes(Signed(x));
    assert (Signed(x) - x) % 0x1_0000_0000 == 0;
  }

  lemma Signed64Shows(x: nat)
    requires x < 0x1_0000_0000_0000_0000
    ensures Shows64(Decimal(Signed64(x)), x)
  {
    DecimalDenotes(Signed64(x));
    assert (Signed64(x) - x) % 0x1_0000_0000_0000_0000 == 0;
  }

  /** The bits of the mask from lane `j` on, each followed by a blank. */
  function BitsFrom(m: Mask, j: nat, warpSize: nat): (s: string)
    requires j <= warpSize
    decreases warpSize - j
  {
    if j == warpSize then "" else (if j in m then "1 " else "0 ") + BitsFrom(m, j + 1, warpSize)
  }

  lemma Regroup(a: string, b: string, c: string)
    ensures a + (b + c) == a + b + c
  {
  }

  lemma {:induction false} JoinBits(e: Entry, warpId: nat, warpSize: nat, j: nat)
    requires j <= warpSize
    ensures var ts := LineTokens(e, warpId, warpSize);
            Join(ts[j..]) == BitsFrom(e.mask, j, warpSize) + Join(NumberTokens(e, warpId, warpSize))
    decreases warpSize - j
  {
    var ts, nums := LineTokens(e, warpId, warpSize), NumberTokens(e, warpId, warpSize);
    if j == warpSize {
      assert ts[j..] == nums;
    } else {
      JoinStep(ts, j);
      JoinBits(e, warpId, warpSize, j + 1);
      var bit, bits := if j in e.mask then "1 " else "0 ", BitsFrom(e.mask, j + 1, warpSize);
      assert ts[j] + " " == bit;
      Regroup(bit, bits, Join(nums));
    }
  }

  /** A word, a blank, and what follows. */
  function Then(word: string, rest: string): (s: string) {
    word + " " + rest
  }

  lemma JoinSeven(ts: seq<string>)
    requires |ts| == 7
    ensures Join(ts) == Then(ts[0], Then(ts[1], Then(ts[2], Then(ts[3], Then(ts[4], Then(ts[5], ts[6]))))))
  {
    assert ts[0..] == ts && ts[6..] == [ts[6]];
    JoinStep(ts, 0);
    JoinStep(ts, 1);
    JoinStep(ts, 2);
    JoinStep(ts, 3);
    JoinStep(ts, 4);
    JoinStep(ts, 5);
  }

  /** The numbers of a line. */
  datatype Fields = Fields(pc: string, calldepth: string, recvg: string, cycle: string, kind: string, id: string,
                           size: string)

  /** A printed line: a bit and a blank for every lane, then pc, call depth, reconvergence pc, cycle and kind of the
      entry, and the number and width of the warp, all with one blank between them, and a newline. */
  ghost predicate IsLine(line: string, e: Entry, warpId: nat, warpSize: nat, f: Fields) {
    && line == BitsFrom(e.mask, 0, warpSize)
               + Then(f.pc, Then(f.calldepth, Then(f.recvg, Then(f.cycle, Then(f.kind, Then(f.id, f.size + "\n"))))))
    && Shows32(f.pc, e.pc) && Shows32(f.calldepth, e.calldepth) && Shows32(f.recvg, e.recvg)
    && Shows64(f.cycle, e.divCycle) && f.kind == (if e.kind.Normal? then "0" else "1")
    && Shows32(f.id, warpId) && Shows32(f.size, warpSize)
  }

  lemma LineShows(e: Entry, warpId: nat, warpSize: nat) returns (f: Fields)
    requires Storable(e, warpSize) && warpSize <= MAX_WARP_SIZE && warpId < 0x1_0000_0000
    ensures IsLine(LineText(e, warpId, warpSize), e, warpId, warpSize, f)
  {
    var ts, nums := LineTokens(e, warpId, warpSize), NumberTokens(e, warpId, warpSize);
    f := Fields(nums[0], nums[1], nums[2], nums[3], nums[4], nums[5], Decimal(Signed(warpSize)));
    JoinBits(e, warpId, warpSize, 0);
    assert ts[0..] == ts;
    JoinSeven(nums);
    SignedShows(e.pc);
    SignedShows(e.calldepth);
    SignedShows(e.recvg);
    Signed64Shows(e.divCycle);
    SignedShows(warpId);
    SignedShows(warpSize);
  }

  /** The lines of the entries, from the bottom of the stack. */
  ghost predicate AreLines(text: string, s: seq<Entry>, warpId: nat, warpSize: nat)
    decreases s
  {
    if s == [] then text == ""
    else exists line: string, rest: string, f: Fields ::
           text == line + rest && IsLine(line, s[0], warpId, warpSize, f) && AreLines(rest, s[1..], warpId, warpSize)
  }

  lemma {:induction false} FileShows(s: seq<Entry>, warpId: nat, warpSize: nat)
    requires AllStorable(s, warpSize) && warpSize <= MAX_WARP_SIZE && warpId < 0x1_0000_0000
    ensures AreLines(FileText(s, warpId, warpSize), s, warpId, warpSize)
  {
    if s != [] {
      var f := LineShows(s[0], warpId, warpSize);
      FileShows(s[1..], warpId, warpSize);
    }
  }

  /** A freshly launched stack has no reconvergence pc, unsigned -1, which is printed as -1. */
  lemma LaunchedShows(pc: Pc, active: Mask, warpId: nat, warpSize: nat, f: Fields)
    requires IsLine(LineText(Entry(pc, 1, active, NULL_PC, 0, Normal), warpId, warpSize),
                    Entry(pc, 1, active, NULL_PC, 0, Normal), warpId, warpSize, f)
    ensures f.recvg == "-1" && f.calldepth == "1" && f.cycle == "0" && f.kind == "0"
  {
    MinusOne(f.recvg);
    One(f.calldepth);
    Zero(f.cycle);
  }

  lemma MinusOne(t: string)
    requires Shows32(t, 0xFFFF_FFFF)
    ensures t == "-1"
  {
    var x: int :| -0x8000_0000 <= x < 0x8000_0000 && (x - 0xFFFF_FFFF) % 0x1_0000_0000 == 0 && Denotes(t, x);
    assert x == -1;
    assert "-1"[1..] == "1" && Places("1"[..0]) == 0;
    DenotesOnce(t, "-1", x);
  }

  lemma One(t: string)
    requires Shows32(t, 1)
    ensures t == "1"
  {
    var x: int :| -0x8000_0000 <= x < 0x8000_0000 && (x - 1) % 0x1_0000_0000 == 0 && Denotes(t, x);
    assert Places("1"[..0]) == 0;
    DenotesOnce(t, "1", x);
  }

  lemma Zero(t: string)
    requires Shows64(t, 0)
    ensures t == "0"
  {
    var x: int :| -0x8000_0000_0000_0000 <= x < 0x8000_0000_0000_0000 && (x - 0) % 0x1_0000_0000_0000_0000 == 0
                  && Denotes(t, x);
    assert Places("0"[..0]) == 0;
    DenotesOnce(t, "0", x);
  }

  lemma DenotesOnce(t: string, u: string, x: int)
    requires Denotes(t, x) && Denotes(u, x)
    ensures t == u
  {
    if x < 0 {
      PlacesOnce(t[1..], u[1..]);
      assert t == ['-'] + t[1..] && u == ['-'] + u[1..];
    } else {
      PlacesOnce(t, u);
    }
  }
}
