/** The text form of a SIMT stack (src/abstract_hardware_model.cc: print_checkpoint and resume). Writing a stack out and
    reading it back rebuilds it, exactly when the divergence cycles of its entries fit an `int`. */
module Checkpoint {
  import opened SimtStack

  // ---------- %d and atoi ----------

  function DigitChar(d: nat): (c: char)
    requires d < 10
  {
    '0' + d as char
  }

  predicate IsDigit(c: char) {
    '0' <= c <= '9'
  }

  function Digits(n: nat): (s: string) {
    if n < 10 then [DigitChar(n)] else Digits(n / 10) + [DigitChar(n % 10)]
  }

  /** `%d` of a number that fits. */
  function Decimal(x: int): (s: string) {
    if x < 0 then "-" + Digits(-x) else Digits(x)
  }

  function ReadDigits(s: string, acc: nat): (n: nat) {
    if s == [] || !IsDigit(s[0]) then acc else ReadDigits(s[1..], 10 * acc + (s[0] - '0') as nat)
  }

  /** The number at the start of a token, which has no leading blank. */
  function Number(s: string): (x: int) {
    if s != [] && s[0] == '-' then 0 - ReadDigits(s[1..], 0)
    else if s != [] && s[0] == '+' then ReadDigits(s[1..], 0)
    else ReadDigits(s, 0)
  }

  /** A number cut to the 32 bits of an `int`. */
  function ToInt(x: int): (r: int)
    ensures -0x8000_0000 <= r < 0x8000_0000
  {
    (x + 0x8000_0000) % 0x1_0000_0000 - 0x8000_0000
  }

  /** `atoi`: the number, read as a 64-bit `long` and cut to an `int`. */
  function Atoi(s: string): (x: int) {
    ToInt(Number(s))
  }

  /** How `%d` shows a 32-bit unsigned, and how an `int` is stored back into one. */
  function Signed(x: nat): (r: int) {
    if x < 0x8000_0000 then x else x - 0x1_0000_0000
  }

  function Unsigned(x: int): (r: nat) {
    x % 0x1_0000_0000
  }

  /** How `%lld` shows a 64-bit unsigned, and how an `int` is stored back into one. */
  function Signed64(x: nat): (r: int) {
    if x < 0x8000_0000_0000_0000 then x else x - 0x1_0000_0000_0000_0000
  }

  function Unsigned64(x: int): (r: nat) {
    x % 0x1_0000_0000_0000_0000
  }

  lemma {:induction false} ReadBack(n: nat, rest: string)
    ensures ReadDigits(Digits(n) + rest, 0) == ReadDigits(rest, n)
    decreases n
  {
    if n < 10 {
      assert (Digits(n) + rest)[1..] == rest;
    } else {
      var tail := [DigitChar(n % 10)] + rest;
      assert Digits(n) + rest == Digits(n / 10) + tail;
      ReadBack(n / 10, tail);
      assert tail[1..] == rest;
    }
  }

  lemma {:induction false} DigitsAre(n: nat)
    ensures Digits(n) != [] && forall c :: c in Digits(n) ==> IsDigit(c)
  {
    if n >= 10 {
      DigitsAre(n / 10);
    }
  }

  lemma NumberDecimal(x: int)
    ensures Number(Decimal(x)) == x
  {
    var n := if x < 0 then -x else x;
    ReadBack(n, []);
    assert Digits(n) + [] == Digits(n);
    DigitsAre(n);
    if x < 0 {
      assert Decimal(x)[1..] == Digits(n);
    } else {
      assert Digits(n)[0] in Digits(n);
    }
  }

  function Pow10(k: nat): (p: nat) {
    if k == 0 then 1 else 10 * Pow10(k - 1)
  }

  lemma {:induction false} DigitsLength(n: nat, k: nat)
    requires k > 0 && n < Pow10(k)
    ensures |Digits(n)| <= k
  {
    if n >= 10 {
      DigitsLength(n / 10, k - 1);
    }
  }

  lemma DecimalLength(x: int)
    requires -0x8000_0000 <= x < 0x1_0000_0000
    ensures 1 <= |Decimal(x)| <= 11
  {
    assert Pow10(5) == 100_000;
    assert Pow10(10) == 10_000_000_000;
    var n := if x < 0 then -x else x;
    DigitsLength(n, 10);
    DigitsAre(n);
  }

  lemma LongDecimalLength(x: int)
    requires -0x8000_0000_0000_0000 <= x < 0x8000_0000_0000_0000
    ensures 1 <= |Decimal(x)| <= 20
  {
    assert Pow10(5) == 100_000;
    assert Pow10(10) == 10_000_000_000;
    assert Pow10(15) == 1_000_000_000_000_000;
    assert Pow10(19) == 10_000_000_000_000_000_000;
    var n := if x < 0 then -x else x;
    DigitsLength(n, 19);
    DigitsAre(n);
  }

  // ---------- strtok ----------

  function TokenEnd(s: string): (k: nat)
    ensures k <= |s|
  {
    if s == [] || s[0] == ' ' then 0 else 1 + TokenEnd(s[1..])
  }

  /** What repeated `strtok(line, " ")` yields. */
  function Tokens(s: string): (ts: seq<string>)
    decreases |s|
  {
    if s == [] then []
    else if s[0] == ' ' then Tokens(s[1..])
    else [s[..TokenEnd(s)]] + Tokens(s[TokenEnd(s)..])
  }

  predicate Blankless(t: string) {
    t != [] && ' ' !in t
  }

  lemma {:induction false} TokenEndIs(t: string, rest: string)
    requires ' ' !in t
    ensures TokenEnd(t + " " + rest) == |t|
  {
    if t != [] {
      assert (t + " " + rest)[1..] == t[1..] + " " + rest;
      TokenEndIs(t[1..], rest);
    }
  }

  /** A word, a blank and the rest. */
  lemma TokensStep(t: string, rest: string)
    requires Blankless(t)
    ensures Tokens(t + " " + rest) == [t] + Tokens(rest)
  {
    var s := t + " " + rest;
    TokenEndIs(t, rest);
    assert s[..|t|] == t && s[|t|..] == " " + rest;
    assert (" " + rest)[1..] == rest;
  }

  lemma DecimalBlankless(x: int)
    ensures Blankless(Decimal(x)) && '\n' !in Decimal(x)
  {
    DigitsAre(if x < 0 then -x else x);
  }

  /** Words with one blank between them. */
  function Join(ts: seq<string>): (s: string) {
    if ts == [] then "" else if |ts| == 1 then ts[0] else ts[0] + " " + Join(ts[1..])
  }

  lemma JoinStep(ts: seq<string>, j: nat)
    requires j + 1 < |ts|
    ensures Join(ts[j..]) == ts[j] + " " + Join(ts[j + 1..])
  {
    assert ts[j..][1..] == ts[j + 1..];
  }

  lemma {:induction false} JoinTokens(ts: seq<string>)
    requires forall k :: 0 <= k < |ts| ==> Blankless(ts[k])
    ensures Tokens(Join(ts)) == ts
  {
    if |ts| == 1 {
      WholeToken(ts[0]);
      assert ts[0][..|ts[0]|] == ts[0] && ts[0][|ts[0]|..] == [];
    } else if |ts| > 1 {
      JoinTokens(ts[1..]);
      TokensStep(ts[0], Join(ts[1..]));
    }
  }

  lemma {:induction false} WholeToken(t: string)
    requires ' ' !in t
    ensures TokenEnd(t) == |t|
  {
    if t != [] {
      WholeToken(t[1..]);
    }
  }

  lemma {:induction false} JoinLength(ts: seq<string>, most: nat)
    requires forall k :: 0 <= k < |ts| ==> |ts[k]| <= most
    ensures |Join(ts)| <= (most + 1) * |ts|
  {
    if |ts| > 1 {
      JoinLength(ts[1..], most);
    }
  }

  // ---------- one entry ----------

  function Bit(m: Mask, j: nat): (c: char) {
    if j in m then '1' else '0'
  }

  function KindNumber(k: EntryKind): (n: nat) {
    if k.Normal? then 0 else 1
  }

  function BitTokens(m: Mask, warpSize: nat): (ts: seq<string>)
    ensures |ts| == warpSize && forall k :: 0 <= k < warpSize ==> ts[k] == [Bit(m, k)]
  {
    seq(warpSize, k requires 0 <= k < warpSize => [Bit(m, k)])
  }

  function NumberTokens(e: Entry, warpId: nat, warpSize: nat): (ts: seq<string>) {
    [Decimal(Signed(e.pc)), Decimal(Signed(e.calldepth)), Decimal(Signed(e.recvg)), Decimal(Signed64(e.divCycle)),
     Decimal(KindNumber(e.kind)), Decimal(Signed(warpId)), Decimal(Signed(warpSize)) + "\n"]
  }

  /** The line of an entry: its mask bits, its numbers, and two more that `resume` does not read. */
  function LineTokens(e: Entry, warpId: nat, warpSize: nat): (ts: seq<string>) {
    BitTokens(e.mask, warpSize) + NumberTokens(e, warpId, warpSize)
  }

  function LineText(e: Entry, warpId: nat, warpSize: nat): (s: string) {
    Join(LineTokens(e, warpId, warpSize))
  }

  /** The loop body of `print_checkpoint`. */
  method PrintLine(e: Entry, warpId: nat, warpSize: nat) returns (line: string)
    ensures line == LineText(e, warpId, warpSize)
  {
    line := "";
    var j := 0;
    ghost var ts := LineTokens(e, warpId, warpSize);
    assert ts[0..] == ts;
    while j < warpSize
      invariant j <= warpSize && line + Join(ts[j..]) == Join(ts)
    {
      JoinMore(line, ts, j);
      line := line + ([Bit(e.mask, j)] + " ");
      j := j + 1;
    }
    var rest := Join(NumberTokens(e, warpId, warpSize));
    assert ts[warpSize..] == NumberTokens(e, warpId, warpSize);
    line := line + rest;
  }

  lemma JoinMore(line: string, ts: seq<string>, j: nat)
    requires j + 1 < |ts|
    ensures line + Join(ts[j..]) == line + (ts[j] + " ") + Join(ts[j + 1..])
  {
    JoinStep(ts, j);
    assert line + (ts[j] + " " + Join(ts[j + 1..])) == line + (ts[j] + " ") + Join(ts[j + 1..]);
  }

  /** The fields of an entry are as wide as the code makes them. */
  ghost predicate Storable(e: Entry, warpSize: nat) {
    MaskFits(e.mask, warpSize) && e.calldepth < 0x1_0000_0000 && e.divCycle < 0x1_0000_0000_0000_0000
  }

  /** The divergence cycle that comes back. */
  function CycleRead(x: nat): (r: nat) {
    Unsigned64(ToInt(Signed64(x)))
  }

  /** The cycle, as a signed 64-bit number, fits an `int`. */
  predicate FitsInt(x: nat) {
    x < 0x8000_0000 || x >= 0xFFFF_FFFF_8000_0000
  }

  function Restored(e: Entry): (r: Entry) {
    e.(divCycle := CycleRead(e.divCycle))
  }

  /** A cycle survives exactly when it fits an `int`. */
  lemma CycleSurvives(x: nat)
    requires x < 0x1_0000_0000_0000_0000
    ensures CycleRead(x) == x <==> FitsInt(x)
  {
    var y := Signed64(x);
    var q := (y + 0x8000_0000) / 0x1_0000_0000;
    assert ToInt(y) == y - q * 0x1_0000_0000;
    assert -0x8000_0000 <= y < 0x8000_0000 <==> q == 0;
    if ToInt(y) >= 0 {
      assert CycleRead(x) == ToInt(y);
    } else {
      assert CycleRead(x) == ToInt(y) + 0x1_0000_0000_0000_0000;
    }
  }

  lemma NumberTokensAre(e: Entry, warpId: nat, warpSize: nat)
    ensures forall k :: 0 <= k < 7 ==> Blankless(NumberTokens(e, warpId, warpSize)[k])
    ensures forall k :: 0 <= k < 6 ==> '\n' !in NumberTokens(e, warpId, warpSize)[k]
    ensures '\n' !in Decimal(Signed(warpSize))
  {
    DecimalBlankless(Signed(e.pc));
    DecimalBlankless(Signed(e.calldepth));
    DecimalBlankless(Signed(e.recvg));
    DecimalBlankless(Signed64(e.divCycle));
    DecimalBlankless(KindNumber(e.kind));
    DecimalBlankless(Signed(warpId));
    DecimalBlankless(Signed(warpSize));
  }

  // ---------- reading a line ----------

  ghost predicate Readable(ts: seq<string>, warpSize: nat) {
    warpSize + 5 <= |ts| && forall k :: 0 <= k < |ts| ==> ts[k] != []
  }

  function ReadMask(ts: seq<string>, upTo: nat): (m: Mask)
    requires upTo <= |ts| && forall k :: 0 <= k < |ts| ==> ts[k] != []
  {
    if upTo == 0 then {} else ReadMask(ts, upTo - 1) + if ts[upTo - 1][0] == '1' then {upTo - 1} else {}
  }

  function ReadEntry(ts: seq<string>, warpSize: nat): (e: Entry)
    requires Readable(ts, warpSize)
  {
    FromFields(ts[warpSize], ts[warpSize + 1], ts[warpSize + 2], ts[warpSize + 3], ts[warpSize + 4],
        ReadMask(ts, warpSize))
  }

  function FromFields(pc: string, calldepth: string, recvg: string, cycle: string, kind: string, mask: Mask): (e: Entry)
    requires kind != []
  {
    Entry(Unsigned(Atoi(pc)), Unsigned(Atoi(calldepth)), mask, Unsigned(Atoi(recvg)), Unsigned64(Atoi(cycle)),
          if kind[0] == '0' then Normal else Call)
  }

  /** The loop body of `resume`. */
  method ReadLine(line: string, warpSize: nat) returns (e: Entry)
    requires Readable(Tokens(line), warpSize)
    ensures e == ReadEntry(Tokens(line), warpSize)
  {
    var ts, mask := Tokens(line), {};
    for j := 0 to warpSize
      invariant mask == ReadMask(ts, j)
    {
      if ts[j][0] == '1' {
        mask := mask + {j};
      }
    }
    e := BLANK.(mask := mask, pc := Unsigned(Atoi(ts[warpSize])), calldepth := Unsigned(Atoi(ts[warpSize + 1])),
                recvg := Unsigned(Atoi(ts[warpSize + 2])), divCycle := Unsigned64(Atoi(ts[warpSize + 3])));
    e := e.(kind := if ts[warpSize + 4][0] == '0' then Normal else Call);
  }

  lemma SignedBack(x: nat)
    requires x < 0x1_0000_0000
    ensures Unsigned(Atoi(Decimal(Signed(x)))) == x
  {
    NumberDecimal(Signed(x));
    assert ToInt(Signed(x)) == Signed(x);
  }

  lemma {:induction false} MaskBack(m: Mask, ts: seq<string>, upTo: nat)
    requires upTo <= |ts| && (forall k :: 0 <= k < |ts| ==> ts[k] != [])
    requires forall k :: 0 <= k < upTo ==> ts[k] == [Bit(m, k)]
    ensures forall i: nat :: i in ReadMask(ts, upTo) <==> i in m && i < upTo
  {
    if upTo > 0 {
      MaskBack(m, ts, upTo - 1);
    }
  }

  /** The tokens of a line give the entry back, up to its cycle. */
  lemma LineBack(e: Entry, warpId: nat, warpSize: nat)
    requires Storable(e, warpSize)
    ensures Tokens(LineText(e, warpId, warpSize)) == LineTokens(e, warpId, warpSize)
    ensures Readable(LineTokens(e, warpId, warpSize), warpSize)
            && ReadEntry(LineTokens(e, warpId, warpSize), warpSize) == Restored(e)
  {
    var ts := LineTokens(e, warpId, warpSize);
    NumberTokensAre(e, warpId, warpSize);
    forall k | 0 <= k < |ts| ensures Blankless(ts[k]) {
      if k >= warpSize {
        assert ts[k] == NumberTokens(e, warpId, warpSize)[k - warpSize];
      }
    }
    JoinTokens(ts);
    MaskBack(e.mask, ts, warpSize);
    assert ReadMask(ts, warpSize) == e.mask;
    NumbersBack(e, ts, warpId, warpSize);
  }

  lemma FieldsBack(e: Entry, mask: Mask)
    requires e.calldepth < 0x1_0000_0000
    ensures Decimal(KindNumber(e.kind)) != []
    ensures FromFields(Decimal(Signed(e.pc)), Decimal(Signed(e.calldepth)), Decimal(Signed(e.recvg)),
                       Decimal(Signed64(e.divCycle)), Decimal(KindNumber(e.kind)), mask) == Restored(e).(mask := mask)
  {
    SignedBack(e.pc);
    SignedBack(e.calldepth);
    SignedBack(e.recvg);
    NumberDecimal(Signed64(e.divCycle));
    FieldsAre(e, mask, Decimal(Signed(e.pc)), Decimal(Signed(e.calldepth)), Decimal(Signed(e.recvg)),
              Decimal(Signed64(e.divCycle)), Decimal(KindNumber(e.kind)));
  }

  lemma FieldsAre(e: Entry, mask: Mask, pc: string, calldepth: string, recvg: string, cycle: string, kind: string)
    requires Unsigned(Atoi(pc)) == e.pc && Unsigned(Atoi(calldepth)) == e.calldepth && Unsigned(Atoi(recvg)) == e.recvg
    requires Unsigned64(Atoi(cycle)) == CycleRead(e.divCycle) && kind != [] && (kind[0] == '0' <==> e.kind.Normal?)
    ensures FromFields(pc, calldepth, recvg, cycle, kind, mask) == Restored(e).(mask := mask)
  {
  }

  lemma NumbersBack(e: Entry, ts: seq<string>, warpId: nat, warpSize: nat)
    requires Storable(e, warpSize) && Readable(ts, warpSize) && ts[warpSize..] == NumberTokens(e, warpId, warpSize)
    ensures ReadEntry(ts, warpSize) == Restored(e).(mask := ReadMask(ts, warpSize))
  {
    var nums := ts[warpSize..];
    assert ts[warpSize] == nums[0] && ts[warpSize + 1] == nums[1] && ts[warpSize + 2] == nums[2];
    assert ts[warpSize + 3] == nums[3] && ts[warpSize + 4] == nums[4];
    FieldsBack(e, ReadMask(ts, warpSize));
  }

  // ---------- fgets ----------

  const LINE_BUFFER: nat := 200

  /** How much `fgets` takes with room for `room` characters: up to and including the first newline. */
  function LineEnd(s: string, room: nat): (k: nat)
    ensures k <= |s| && k <= room && (s != [] && room > 0 ==> k > 0)
  {
    if s == [] || room == 0 then 0 else if s[0] == '\n' then 1 else 1 + LineEnd(s[1..], room - 1)
  }

  function Fgets(s: string): (line: string) {
    s[..LineEnd(s, LINE_BUFFER - 1)]
  }

  lemma {:induction false} LineEndIs(t: string, rest: string, room: nat)
    requires '\n' !in t && |t| < room
    ensures LineEnd(t + "\n" + rest, room) == |t| + 1
  {
    if t != [] {
      assert (t + "\n" + rest)[1..] == t[1..] + "\n" + rest;
      LineEndIs(t[1..], rest, room - 1);
    }
  }

  /** A line has one newline, at its end. */
  lemma {:induction false} JoinNewline(ts: seq<string>, t: string) returns (u: string)
    requires '\n' !in t && forall k :: 0 <= k < |ts| ==> '\n' !in ts[k]
    ensures Join(ts + [t + "\n"]) == u + "\n" && '\n' !in u
  {
    if ts == [] {
      u := t;
    } else {
      var v := JoinNewline(ts[1..], t);
      assert (ts + [t + "\n"])[1..] == ts[1..] + [t + "\n"];
      u := ts[0] + " " + v;
      assert Join(ts + [t + "\n"]) == ts[0] + " " + (v + "\n") == u + "\n";
    }
  }

  /** Every line fits the buffer with room to spare. */
  lemma LineFits(e: Entry, warpId: nat, warpSize: nat)
    requires Storable(e, warpSize) && warpSize <= MAX_WARP_SIZE && warpId < 0x1_0000_0000
    ensures |LineText(e, warpId, warpSize)| < 200 == LINE_BUFFER
  {
    var bits, nums := BitTokens(e.mask, warpSize), NumberTokens(e, warpId, warpSize);
    DecimalLength(Signed(e.pc));
    DecimalLength(Signed(e.calldepth));
    DecimalLength(Signed(e.recvg));
    LongDecimalLength(Signed64(e.divCycle));
    DecimalLength(KindNumber(e.kind));
    DecimalLength(Signed(warpId));
    DecimalLength(Signed(warpSize));
    JoinLength(nums[4..], 12);
    BitsThenNumbers(bits, nums);
    JoinFront(nums);
  }

  lemma JoinFront(ts: seq<string>)
    requires |ts| == 7
    ensures |Join(ts)| == |ts[0]| + |ts[1]| + |ts[2]| + |ts[3]| + 4 + |Join(ts[4..])|
  {
    assert ts[0..] == ts;
    JoinStep(ts, 0);
    JoinStep(ts, 1);
    JoinStep(ts, 2);
    JoinStep(ts, 3);
  }

  lemma {:induction false} BitsThenNumbers(bits: seq<string>, nums: seq<string>)
    requires nums != [] && forall k :: 0 <= k < |bits| ==> |bits[k]| == 1
    ensures |Join(bits + nums)| == 2 * |bits| + |Join(nums)|
  {
    if bits == [] {
      assert bits + nums == nums;
    } else {
      assert (bits + nums)[1..] == bits[1..] + nums;
      BitsThenNumbers(bits[1..], nums);
    }
  }

  /** `fgets` takes exactly the line of the first entry. */
  lemma FirstLine(e: Entry, warpId: nat, warpSize: nat, rest: string)
    requires Storable(e, warpSize) && warpSize <= MAX_WARP_SIZE && warpId < 0x1_0000_0000
    ensures Fgets(LineText(e, warpId, warpSize) + rest) == LineText(e, warpId, warpSize) != []
  {
    var ts := LineTokens(e, warpId, warpSize);
    var body, last := ts[..|ts| - 1], Decimal(Signed(warpSize));
    NumberTokensAre(e, warpId, warpSize);
    assert ts == body + [last + "\n"];
    forall k | 0 <= k < |body| ensures '\n' !in body[k] {
      if k >= warpSize {
        assert body[k] == NumberTokens(e, warpId, warpSize)[k - warpSize];
      }
    }
    var u := JoinNewline(body, last);
    LineFits(e, warpId, warpSize);
    LineEndIs(u, rest, LINE_BUFFER - 1);
    assert LineText(e, warpId, warpSize) + rest == u + "\n" + rest;
  }

  // ---------- whole files ----------

  function FileText(s: seq<Entry>, warpId: nat, warpSize: nat): (text: string) {
    if s == [] then "" else LineText(s[0], warpId, warpSize) + FileText(s[1..], warpId, warpSize)
  }

  ghost predicate AllStorable(s: seq<Entry>, warpSize: nat) {
    forall k :: 0 <= k < |s| ==> Storable(s[k], warpSize)
  }

  method PrintCheckpoint(stack: Stack, warpId: nat) returns (text: string)
    ensures text == FileText(stack.entries, warpId, stack.warpSize)
  {
    text := "";
    var k, entries := 0, stack.entries;
    assert entries[0..] == entries;
    while k < |entries|
      invariant k <= |entries|
      invariant text + FileText(entries[k..], warpId, stack.warpSize) == FileText(entries, warpId, stack.warpSize)
    {
      var line := PrintLine(entries[k], warpId, stack.warpSize);
      assert entries[k..][1..] == entries[k + 1..];
      text := text + line;
      k := k + 1;
    }
  }

  /** Every line of the file has the fields that `resume` reads. */
  ghost predicate ReadableText(text: string, warpSize: nat)
    decreases |text|
  {
    text == [] || (Readable(Tokens(Fgets(text)), warpSize) && ReadableText(text[|Fgets(text)|..], warpSize))
  }

  ghost function Parsed(text: string, warpSize: nat): (s: seq<Entry>)
    requires ReadableText(text, warpSize)
    decreases |text|
  {
    if text == [] then [] else [ReadEntry(Tokens(Fgets(text)), warpSize)] + Parsed(text[|Fgets(text)|..], warpSize)
  }

  /** `s` followed by the entries of the lines of `text`. */
  ghost function ParsedAfter(s: seq<Entry>, text: string, warpSize: nat): (r: seq<Entry>)
    requires ReadableText(text, warpSize)
    decreases |text|
  {
    if text == [] then s
    else ParsedAfter(s + [ReadEntry(Tokens(Fgets(text)), warpSize)], text[|Fgets(text)|..], warpSize)
  }

  lemma {:induction false} ParsedAfterIs(s: seq<Entry>, text: string, warpSize: nat)
    requires ReadableText(text, warpSize)
    ensures ParsedAfter(s, text, warpSize) == s + Parsed(text, warpSize)
    decreases |text|
  {
    if text != [] {
      var e, rest := ReadEntry(Tokens(Fgets(text)), warpSize), text[|Fgets(text)|..];
      ParsedAfterIs(s + [e], rest, warpSize);
      assert s + [e] + Parsed(rest, warpSize) == s + ([e] + Parsed(rest, warpSize));
    }
  }

  method Resume(stack: Stack, text: string)
    requires ReadableText(text, stack.warpSize)
    modifies stack`entries
    ensures stack.entries == Parsed(text, stack.warpSize)
  {
    stack.entries := [];
    var rest := text;
    while rest != []
      invariant ReadableText(rest, stack.warpSize)
      invariant ParsedAfter(stack.entries, rest, stack.warpSize) == ParsedAfter([], text, stack.warpSize)
      decreases |rest|
    {
      var line := Fgets(rest);
      var e := ReadLine(line, stack.warpSize);
      stack.entries := stack.entries + [e];
      rest := rest[|line|..];
    }
    ParsedAfterIs([], text, stack.warpSize);
    assert [] + Parsed(text, stack.warpSize) == Parsed(text, stack.warpSize);
  }

  function RestoredAll(s: seq<Entry>): (r: seq<Entry>) {
    if s == [] then [] else [Restored(s[0])] + RestoredAll(s[1..])
  }

  /** What `resume` reads from what `print_checkpoint` writes: every entry, whatever the depth, with its cycle cut. */
  lemma {:induction false} ReadBackAll(s: seq<Entry>, warpId: nat, warpSize: nat)
    requires AllStorable(s, warpSize) && warpSize <= MAX_WARP_SIZE && warpId < 0x1_0000_0000
    ensures ReadableText(FileText(s, warpId, warpSize), warpSize)
    ensures Parsed(FileText(s, warpId, warpSize), warpSize) == RestoredAll(s)
  {
    if s != [] {
      ReadBackAll(s[1..], warpId, warpSize);
      var rest, line := FileText(s[1..], warpId, warpSize), LineText(s[0], warpId, warpSize);
      FirstLine(s[0], warpId, warpSize, rest);
      LineBack(s[0], warpId, warpSize);
      assert (line + rest)[|line|..] == rest;
    }
  }

  ghost predicate AllFitInt(s: seq<Entry>) {
    forall k :: 0 <= k < |s| ==> FitsInt(s[k].divCycle)
  }

  lemma {:induction false} RestoredSame(s: seq<Entry>)
    requires forall k :: 0 <= k < |s| ==> s[k].divCycle < 0x1_0000_0000_0000_0000
    ensures RestoredAll(s) == s <==> AllFitInt(s)
  {
    if s != [] {
      var r := RestoredAll(s);
      RestoredSame(s[1..]);
      CycleSurvives(s[0].divCycle);
      assert s == [s[0]] + s[1..] && r[0] == Restored(s[0]) && r[1..] == RestoredAll(s[1..]);
      if AllFitInt(s[1..]) && FitsInt(s[0].divCycle) {
        forall k | 0 <= k < |s| ensures FitsInt(s[k].divCycle) {
          assert k > 0 ==> s[k] == s[1..][k - 1];
        }
      }
    }
  }

  /** What `print_checkpoint` writes, `resume` reads back as the identical stack, whatever its depth, if and only if the
      divergence cycle of every entry fits an `int`. */
  lemma RoundTrip(s: seq<Entry>, warpId: nat, warpSize: nat)
    requires AllStorable(s, warpSize) && warpSize <= MAX_WARP_SIZE && warpId < 0x1_0000_0000
    ensures ReadableText(FileText(s, warpId, warpSize), warpSize)
    ensures Parsed(FileText(s, warpId, warpSize), warpSize) == s <==> AllFitInt(s)
  {
    ReadBackAll(s, warpId, warpSize);
    RestoredSame(s);
  }

  const LATE: nat := 0x8000_0000

  lemma LateRestored(e: Entry)
    requires e.divCycle == LATE
    ensures RestoredAll([e]) == [e.(divCycle := 0xFFFF_FFFF_8000_0000)] != [e]
  {
    assert [e][1..] == [];
    assert CycleRead(LATE) == 0xFFFF_FFFF_8000_0000;
  }

  /** An entry that diverged at cycle 2 to the 31st comes back with another cycle. */
  lemma LateEntryLost(s: seq<Entry>, e: Entry, warpId: nat, warpSize: nat)
    requires s == [e] && e.divCycle == LATE && AllStorable(s, warpSize) && warpSize <= MAX_WARP_SIZE
             && warpId < 0x1_0000_0000
    ensures ReadableText(FileText(s, warpId, warpSize), warpSize)
    ensures Parsed(FileText(s, warpId, warpSize), warpSize) == [e.(divCycle := 0xFFFF_FFFF_8000_0000)] != s
  {
    ReadBackAll(s, warpId, warpSize);
    LateRestored(e);
  }
}
