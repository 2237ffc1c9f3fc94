/** The statistics log of AerialVision: how the parser flattens records (aerialvision/lexyacc.py) and how the organizer
    turns the flat list back into rows or per-bank series (aerialvision/organizedata.py). */
module AerialVision {
  import opened Basics
  import opened Checkpoint
  import CheckpointText

  datatype Cell = Null | Num(value: int)

  type Rows = seq<seq<int>>

  // ---------- flattening ----------

  function Nums(record: seq<int>): (cells: seq<Cell>) {
    if record == [] then [] else [Num(record[0])] + Nums(record[1..])
  }

  /** The records one after the other, each ended by a NULL. */
  function Flatten(records: seq<seq<int>>): (cells: seq<Cell>) {
    if records == [] then [] else Nums(records[0]) + [Null] + Flatten(records[1..])
  }

  /** What `p_sentence` does with one log line for a vector statistic: an entry without data is skipped. */
  method AppendRecord(data: seq<Cell>, record: seq<int>) returns (r: seq<Cell>)
    ensures r == if record == [] then data else data + (Nums(record) + [Null])
    ensures forall records :: data == Flatten(records) ==>
              r == Flatten(if record == [] then records else records + [record])
  {
    if record == [] {
      return data;
    }
    r := data;
    var k := 0;
    assert record[0..] == record;
    while k < |record|
      invariant k <= |record| && r + Nums(record[k..]) == data + Nums(record)
    {
      assert record[k..][1..] == record[k + 1..];
      r := r + [Num(record[k])];
      k := k + 1;
    }
    assert r == data + Nums(record);
    r := r + [Null];
    forall records | data == Flatten(records) ensures r == Flatten(records + [record]) {
      FlattenSnoc(records, record);
    }
  }

  // ---------- nullOrganizedShader ----------

  /** The first loop, backwards over the data: the length of the last run of values. */
  function LastRun(data: seq<Cell>, count: nat): (n: nat) {
    if data == [] then count
    else
      var x, front := data[|data| - 1], data[..|data| - 1];
      if x.Num? then LastRun(front, count + 1) else if count != 0 then count else LastRun(front, count)
  }

  function Pad(rows: Rows, count: nat): (r: Rows)
    decreases |rows| - count
  {
    if count >= |rows| then rows else Pad(rows[count := rows[count] + [0]], count + 1)
  }

  /** The filling loop; a value past the last row is the index error of the code. */
  function Fill(rows: Rows, count: nat, data: seq<Cell>): (r: Option<Rows>)
    decreases data
  {
    if data == [] then Some(rows)
    else if data[0].Null? then Fill(Pad(rows, count), 0, data[1..])
    else if count >= |rows| then None
    else Fill(rows[count := rows[count] + [data[0].value]], count + 1, data[1..])
  }

  function Blank(n: nat): (rows: Rows) {
    if n == 0 then [] else Blank(n - 1) + [[0]]
  }

  method OrganizeShader(data: seq<Cell>) returns (r: Option<Rows>)
    ensures r == Fill(Blank(LastRun(data, 0)), 0, data)
  {
    var count := 0;
    var k := |data|;
    assert data[..k] == data;
    while k > 0
      invariant k <= |data| && LastRun(data[..k], count) == LastRun(data, 0)
    {
      assert data[..k][..k - 1] == data[..k - 1];
      if data[k - 1].Num? {
        count := count + 1;
      } else if count != 0 {
        break;
      }
      k := k - 1;
    }
    var plots := count;
    var rows := [];
    for i := 0 to plots
      invariant rows == Blank(i) && |rows| == i
    {
      rows := rows + [[0]];
    }
    count, k := 0, 0;
    assert data[0..] == data;
    while k < |data|
      invariant k <= |data| && |rows| == plots && Fill(rows, count, data[k..]) == Fill(Blank(plots), 0, data)
    {
      assert data[k..][1..] == data[k + 1..];
      if data[k].Null? {
        ghost var padded := Pad(rows, count);
        while count < plots
          invariant |rows| == plots && Pad(rows, count) == padded
        {
          rows := rows[count := rows[count] + [0]];
          count := count + 1;
        }
        count := 0;
      } else if count >= plots {
        return None;
      } else {
        rows := rows[count := rows[count] + [data[k].value]];
        count := count + 1;
      }
      k := k + 1;
    }
    return Some(rows);
  }

  // ---------- decoding undoes flattening ----------

  function Entry(record: seq<int>, i: nat): (x: int) {
    if i < |record| then record[i] else 0
  }

  /** Row `i` of the zero-padded transpose, with its leading zero. */
  function Row(records: seq<seq<int>>, i: nat): (row: seq<int>) {
    if records == [] then [0] else Row(records[..|records| - 1], i) + [Entry(records[|records| - 1], i)]
  }

  function Transpose(records: seq<seq<int>>, n: nat): (rows: Rows)
    ensures |rows| == n && forall i :: 0 <= i < n ==> rows[i] == Row(records, i)
  {
    seq(n, i requires 0 <= i < n => Row(records, i))
  }

  /** The rows with the entries of `record` appended to those before `c`. */
  ghost function Partly(rows: Rows, record: seq<int>, c: nat): (r: Rows)
    ensures |r| == |rows|
    ensures forall i :: 0 <= i < |rows| ==> r[i] == if i < c then rows[i] + [Entry(record, i)] else rows[i]
  {
    seq(|rows|, i requires 0 <= i < |rows| => if i < c then rows[i] + [Entry(record, i)] else rows[i])
  }

  lemma {:induction false} PadIs(rows: Rows, record: seq<int>, c: nat)
    requires |record| <= c <= |rows|
    ensures Pad(Partly(rows, record, c), c) == Partly(rows, record, |rows|)
    decreases |rows| - c
  {
    if c < |rows| {
      var p := Partly(rows, record, c);
      assert p[c := p[c] + [0]] == Partly(rows, record, c + 1);
      PadIs(rows, record, c + 1);
    }
  }

  /** Filling in the rest of one record, from its entry `c` on. */
  lemma {:induction false} FillRecord(rows: Rows, record: seq<int>, c: nat, rest: seq<Cell>)
    requires c <= |record| && c <= |rows|
    ensures Fill(Partly(rows, record, c), c, Nums(record[c..]) + [Null] + rest)
         == if |record| <= |rows| then Fill(Partly(rows, record, |rows|), 0, rest) else None
    decreases |record| - c
  {
    var p, cells := Partly(rows, record, c), Nums(record[c..]) + [Null] + rest;
    if c == |record| {
      assert cells[0].Null? && cells[1..] == rest;
      PadIs(rows, record, c);
    } else {
      assert record[c..][1..] == record[c + 1..];
      assert cells[0] == Num(record[c]) && cells[1..] == Nums(record[c + 1..]) + [Null] + rest;
      if c < |rows| {
        assert p[c := p[c] + [record[c]]] == Partly(rows, record, c + 1);
        FillRecord(rows, record, c + 1, rest);
      }
    }
  }

  ghost predicate AllFit(records: seq<seq<int>>, n: nat) {
    forall k :: 0 <= k < |records| ==> |records[k]| <= n
  }

  /** Filling in the records `todo` after `done`. */
  lemma {:induction false} FillRecords(done: seq<seq<int>>, todo: seq<seq<int>>, n: nat)
    ensures Fill(Transpose(done, n), 0, Flatten(todo))
            == if AllFit(todo, n) then Some(Transpose(done + todo, n)) else None
    decreases |todo|
  {
    var rows := Transpose(done, n);
    if todo == [] {
      assert done + todo == done;
    } else {
      var record, rest := todo[0], todo[1..];
      assert Partly(rows, record, 0) == rows && record[0..] == record;
      FillRecord(rows, record, 0, Flatten(rest));
      assert Flatten(todo) == Nums(record) + [Null] + Flatten(rest);
      if |record| <= n {
        TransposeSnoc(done, record, n);
        FillRecords(done + [record], rest, n);
        assert done + [record] + rest == done + todo;
      }
    }
  }

  lemma TransposeSnoc(done: seq<seq<int>>, record: seq<int>, n: nat)
    ensures Partly(Transpose(done, n), record, n) == Transpose(done + [record], n)
  {
    assert (done + [record])[..|done|] == done;
  }

  lemma {:induction false} BlankIs(n: nat)
    ensures Blank(n) == Transpose([], n)
  {
    if n > 0 {
      BlankIs(n - 1);
    }
  }

  lemma {:induction false} FlattenConcat(a: seq<seq<int>>, b: seq<seq<int>>)
    ensures Flatten(a + b) == Flatten(a) + Flatten(b)
  {
    if a == [] {
      assert a + b == b;
    } else {
      assert (a + b)[1..] == a[1..] + b;
      FlattenConcat(a[1..], b);
    }
  }

  lemma FlattenSnoc(records: seq<seq<int>>, record: seq<int>)
    ensures Flatten(records + [record]) == Flatten(records) + (Nums(record) + [Null])
  {
    FlattenConcat(records, [record]);
    assert [record][1..] == [];
    assert Nums(record) + [Null] + [] == Nums(record) + [Null];
  }

  /** Counting back over the values of the last record. */
  lemma {:induction false} RunBack(front: seq<Cell>, record: seq<int>, count: nat)
    requires front == [] || front[|front| - 1].Null?
    requires count + |record| > 0
    ensures LastRun(front + Nums(record), count) == count + |record|
    decreases |record|
  {
    if record == [] {
      assert front + Nums(record) == front;
    } else {
      var m := |record| - 1;
      NumsSnoc(record[..m], record[m]);
      assert record == record[..m] + [record[m]];
      var all := front + Nums(record);
      assert all[|all| - 1] == Num(record[m]) && all[..|all| - 1] == front + Nums(record[..m]);
      RunBack(front, record[..m], count + 1);
    }
  }

  lemma {:induction false} NumsSnoc(record: seq<int>, x: int)
    ensures Nums(record + [x]) == Nums(record) + [Num(x)]
  {
    if record == [] {
      assert record + [x] == [x] && [x][1..] == [];
    } else {
      assert (record + [x])[1..] == record[1..] + [x];
      NumsSnoc(record[1..], x);
    }
  }

  lemma {:induction false} FlattenEnds(records: seq<seq<int>>)
    ensures Flatten(records) == [] || Flatten(records)[|Flatten(records)| - 1].Null?
  {
    if records != [] {
      FlattenEnds(records[1..]);
    }
  }

  /** The number of rows is the length of the last record. */
  lemma LastRunIs(records: seq<seq<int>>)
    requires records != [] && records[|records| - 1] != []
    ensures LastRun(Flatten(records), 0) == |records[|records| - 1]|
  {
    var m := |records| - 1;
    var front, last := records[..m], records[m];
    assert records == front + [last];
    FlattenConcat(front, [last]);
    var before, data := Flatten(front), Flatten(records);
    assert [last][1..] == [];
    assert data == before + Nums(last) + [Null];
    assert data[..|data| - 1] == before + Nums(last);
    FlattenEnds(front);
    RunBack(before, last, 0);
  }

  /** Flattening and organizing give the zero-padded transpose exactly when no record is longer than the last one;
      otherwise the organizer fails. */
  lemma ShaderRoundTrip(records: seq<seq<int>>)
    requires forall k :: 0 <= k < |records| ==> records[k] != []
    ensures var data, n := Flatten(records), if records == [] then 0 else |records[|records| - 1]|;
            Fill(Blank(LastRun(data, 0)), 0, data) == if AllFit(records, n) then Some(Transpose(records, n)) else None
  {
    var n := if records == [] then 0 else |records[|records| - 1]|;
    if records != [] {
      LastRunIs(records);
    }
    BlankIs(n);
    FillRecords([], records, n);
    assert [] + records == records;
  }

  lemma {:induction false} RowLength(records: seq<seq<int>>, i: nat)
    ensures |Row(records, i)| == |records| + 1 && Row(records, i)[0] == 0
    ensures forall k :: 0 <= k < |records| ==> Row(records, i)[k + 1] == Entry(records[k], i)
  {
    if records != [] {
      RowLength(records[..|records| - 1], i);
    }
  }

  // ---------- nullOrganizedDramV2 ----------

  type Series = map<string, seq<int>>

  function Key(chip: int, bank: int): (k: string) {
    Decimal(chip) + "." + Decimal(bank)
  }

  function AppendTo(m: Series, key: string, x: int): (r: Series) {
    m[key := (if key in m then m[key] else [0]) + [x]]
  }

  /** `mem` is 1 before the chip number, 2 before the bank number, 0 among the values. */
  datatype Reader = Reader(mem: nat, chip: int, bank: int, series: Series)

  function ReadCell(s: Reader, x: Cell): (r: Reader) {
    if x.Null? then s.(mem := 1)
    else if s.mem == 1 then s.(chip := x.value, mem := 2)
    else if s.mem == 2 then s.(bank := x.value, mem := 0)
    else s.(series := AppendTo(s.series, Key(s.chip, s.bank), x.value))
  }

  function ReadAll(s: Reader, data: seq<Cell>): (r: Reader)
    decreases data
  {
    if data == [] then s else ReadAll(ReadCell(s, data[0]), data[1..])
  }

  const START: Reader := Reader(1, 0, 0, map[])

  method OrganizeDram(data: seq<Cell>) returns (organized: Series)
    ensures organized == ReadAll(START, data).series
  {
    organized := map[];
    var mem, chip, bank, k := 1, 0, 0, 0;
    assert data[0..] == data;
    while k < |data|
      invariant k <= |data| && ReadAll(Reader(mem, chip, bank, organized), data[k..]) == ReadAll(START, data)
    {
      assert data[k..][1..] == data[k + 1..];
      var x := data[k];
      if x.Null? {
        mem := 1;
      } else if mem == 1 {
        chip := x.value;
        mem := mem + 1;
      } else if mem == 2 {
        bank := x.value;
        mem := 0;
      } else {
        organized := AppendTo(organized, Key(chip, bank), x.value);
      }
      k := k + 1;
    }
  }

  /** All values logged for one bank of one chip, in log order. */
  function ValuesFor(records: seq<seq<int>>, chip: int, bank: int): (vs: seq<int>) {
    if records == [] then []
    else RecordValues(records[0], chip, bank) + ValuesFor(records[1..], chip, bank)
  }

  function RecordValues(record: seq<int>, chip: int, bank: int): (vs: seq<int>) {
    if |record| >= 2 && record[0] == chip && record[1] == bank then record[2..] else []
  }

  /** What the organizer holds for a key: nothing before its first value, then a zero and the values. */
  ghost predicate Holds(m: Series, key: string, vs: seq<int>) {
    if vs == [] then key !in m else key in m && m[key] == [0] + vs
  }

  /** A key names one chip and one bank. */
  lemma KeyInjective(c: int, b: int, c': int, b': int)
    requires Key(c, b) == Key(c', b')
    ensures c == c' && b == b'
  {
    NoDot(c);
    NoDot(b);
    NoDot(c');
    NoDot(b');
    var x, y, x', y' := Decimal(c), Decimal(b), Decimal(c'), Decimal(b');
    FirstDotIs(x, y);
    FirstDotIs(x', y');
    assert x == (x + "." + y)[..|x|] && x' == (x' + "." + y')[..|x'|];
    assert y == (x + "." + y)[|x| + 1..] && y' == (x' + "." + y')[|x'| + 1..];
    NumberDecimal(c);
    NumberDecimal(b);
    NumberDecimal(c');
    NumberDecimal(b');
  }

  /** A key is the chip and the bank in decimal notation with a dot between them. */
  ghost predicate Names(key: string, chip: int, bank: int) {
    exists a: string, b: string ::
      key == a + ("." + b) && CheckpointText.Denotes(a, chip) && CheckpointText.Denotes(b, bank)
  }

  lemma KeyNames(key: string, chip: int, bank: int)
    ensures Names(key, chip, bank) <==> key == Key(chip, bank)
  {
    var a, b := Decimal(chip), Decimal(bank);
    CheckpointText.DecimalDenotes(chip);
    CheckpointText.DecimalDenotes(bank);
    assert Key(chip, bank) == a + ("." + b);
    if x: string, y: string :| key == x + ("." + y) && CheckpointText.Denotes(x, chip)
                               && CheckpointText.Denotes(y, bank) {
      CheckpointText.DenotesOnce(x, a, chip);
      CheckpointText.DenotesOnce(y, b, bank);
    }
  }

  function FirstDot(s: string): (k: nat) {
    if s == [] || s[0] == '.' then 0 else 1 + FirstDot(s[1..])
  }

  lemma {:induction false} FirstDotIs(x: string, y: string)
    requires '.' !in x
    ensures FirstDot(x + "." + y) == |x|
  {
    if x != [] {
      assert (x + "." + y)[1..] == x[1..] + "." + y;
      FirstDotIs(x[1..], y);
    }
  }

  lemma NoDot(x: int)
    ensures '.' !in Decimal(x)
  {
    DigitsAre(if x < 0 then -x else x);
  }

  function AppendAll(m: Series, key: string, values: seq<int>): (r: Series)
    decreases values
  {
    if values == [] then m else AppendAll(AppendTo(m, key, values[0]), key, values[1..])
  }

  lemma {:induction false} ReadValues(s: Reader, values: seq<int>, rest: seq<Cell>)
    requires s.mem == 0
    ensures ReadAll(s, Nums(values) + [Null] + rest)
         == ReadAll(s.(mem := 1, series := AppendAll(s.series, Key(s.chip, s.bank), values)), rest)
    decreases values
  {
    var cells := Nums(values) + [Null] + rest;
    if values == [] {
      assert cells[0].Null? && cells[1..] == rest;
    } else {
      assert cells[0] == Num(values[0]) && cells[1..] == Nums(values[1..]) + [Null] + rest;
      ReadValues(ReadCell(s, Num(values[0])), values[1..], rest);
    }
  }

  /** Values go to the end of their key's series; other keys are untouched. */
  lemma {:induction false} AllHold(m: Series, at: string, values: seq<int>, key: string, vs: seq<int>)
    requires Holds(m, key, vs)
    ensures Holds(AppendAll(m, at, values), key, if key == at then vs + values else vs)
    decreases values
  {
    if values == [] {
      assert vs + values == vs;
    } else {
      AllHold(AppendTo(m, at, values[0]), at, values[1..], key, if key == at then vs + [values[0]] else vs);
      assert vs + [values[0]] + values[1..] == vs + values;
    }
  }

  /** The organizer after one record. */
  function AfterRecord(s: Reader, record: seq<int>): (t: Reader) {
    if |record| == 0 then s.(mem := 1)
    else if |record| == 1 then s.(mem := 1, chip := record[0])
    else Reader(1, record[0], record[1], AppendAll(s.series, Key(record[0], record[1]), record[2..]))
  }

  lemma ReadRecord(s: Reader, record: seq<int>, rest: seq<Cell>)
    requires s.mem == 1
    ensures ReadAll(s, Nums(record) + [Null] + rest) == ReadAll(AfterRecord(s, record), rest)
  {
    if |record| < 2 {
    } else {
      LongRecord(s, record, rest);
      ReadValues(s.(chip := record[0], bank := record[1], mem := 0), record[2..], rest);
    }
  }

  lemma RecordHolds(s: Reader, record: seq<int>, chip: int, bank: int, vs: seq<int>)
    requires Holds(s.series, Key(chip, bank), vs)
    ensures Holds(AfterRecord(s, record).series, Key(chip, bank), vs + RecordValues(record, chip, bank))
  {
    assert vs + [] == vs;
    if |record| >= 2 {
      AllHold(s.series, Key(record[0], record[1]), record[2..], Key(chip, bank), vs);
      if Key(chip, bank) == Key(record[0], record[1]) {
        KeyInjective(chip, bank, record[0], record[1]);
      }
    }
  }

  lemma LongRecord(s: Reader, record: seq<int>, rest: seq<Cell>)
    requires s.mem == 1 && |record| >= 2
    ensures ReadAll(s, Nums(record) + [Null] + rest)
         == ReadAll(s.(chip := record[0], bank := record[1], mem := 0), Nums(record[2..]) + [Null] + rest)
  {
    var cells := Nums(record) + [Null] + rest;
    var tail := Nums(record[1..]) + [Null] + rest;
    assert cells[0] == Num(record[0]) && cells[1..] == tail;
    assert record[1..][1..] == record[2..];
    assert tail[0] == Num(record[1]) && tail[1..] == Nums(record[2..]) + [Null] + rest;
    var s1 := s.(chip := record[0], mem := 2);
    assert ReadAll(s, cells) == ReadAll(s1, tail);
    assert ReadAll(s1, tail) == ReadAll(s1.(bank := record[1], mem := 0), tail[1..]);
  }

  lemma ReadFirst(s: Reader, records: seq<seq<int>>)
    requires s.mem == 1 && records != []
    ensures AfterRecord(s, records[0]).mem == 1
    ensures ReadAll(s, Flatten(records)) == ReadAll(AfterRecord(s, records[0]), Flatten(records[1..]))
  {
    ReadRecord(s, records[0], Flatten(records[1..]));
  }

  lemma ValuesStep(records: seq<seq<int>>, chip: int, bank: int, vs: seq<int>)
    requires records != []
    ensures vs + ValuesFor(records, chip, bank) == vs + RecordValues(records[0], chip, bank)
            + ValuesFor(records[1..], chip, bank)
  {
  }

  lemma {:induction false} ReadRecords(s: Reader, records: seq<seq<int>>, chip: int, bank: int, vs: seq<int>)
    requires s.mem == 1 && Holds(s.series, Key(chip, bank), vs)
    ensures Holds(ReadAll(s, Flatten(records)).series, Key(chip, bank), vs + ValuesFor(records, chip, bank))
    decreases records
  {
    if records == [] {
      assert vs + [] == vs;
    } else {
      ReadFirst(s, records);
      RecordHolds(s, records[0], chip, bank, vs);
      ReadRecords(AfterRecord(s, records[0]), records[1..], chip, bank, vs + RecordValues(records[0], chip, bank));
      ValuesStep(records, chip, bank, vs);
    }
  }

  /** Flattening and organizing keep, for every chip and bank, all values in log order after a leading zero, under the
      key that names them. */
  lemma DramRoundTrip(records: seq<seq<int>>, chip: int, bank: int, key: string)
    requires Names(key, chip, bank)
    ensures Holds(ReadAll(START, Flatten(records)).series, key, ValuesFor(records, chip, bank))
  {
    KeyNames(key, chip, bank);
    ReadRecords(START, records, chip, bank, []);
    assert [] + ValuesFor(records, chip, bank) == ValuesFor(records, chip, bank);
  }
}
