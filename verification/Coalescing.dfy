/** The geometry of global-memory coalescing (src/abstract_hardware_model.cc): segments, chunks, the bytes that one
    access marks, and the reduction of a transaction to the smallest request that serves it. */
module Coalescing {

  const SECTOR_SIZE: nat := 32
  const MAX_MEMORY_ACCESS_SIZE: nat := 128

  /** Sizes of segments and of requests. */
  type Seg = n: nat | n == 32 || n == 64 || n == 128 witness 32

  type DataSize = n: nat | n == 1 || n == 2 || n == 4 || n == 8 || n == 16 witness 1

  /** `addr & (seg - 1)` */
  function Offset(addr: nat, seg: Seg): (r: nat)
    ensures r < seg && r <= addr
  {
    if seg == 32 then addr % 32 else if seg == 64 then addr % 64 else addr % 128
  }

  /** `line_size_based_tag_func`: the start of the block of `seg` bytes that holds `addr`, cut to the 32 bits of
      `address_type`. */
  function Tag(addr: nat, seg: Seg): (t: nat) {
    (addr - Offset(addr, seg)) % 0x1_0000_0000
  }

  function Aligned(addr: nat, n: DataSize): (b: bool) {
    if n == 1 then true
    else if n == 2 then addr % 2 == 0
    else if n == 4 then addr % 4 == 0
    else if n == 8 then addr % 8 == 0
    else addr % 16 == 0
  }

  lemma DivMod(m: nat, q: int, r: nat)
    requires r < m
    ensures (m * q + r) % m == r && (m * q + r) / m == q
  {
    var d := (m * q + r) / m - q;
    assert m * d == r - (m * q + r) % m;
    assert -(m as int) < m * d < m;
    assert d == 0;
  }

  lemma OffsetIs(x: nat, seg: Seg, q: int, r: nat)
    requires x == seg * q + r && r < seg
    ensures Offset(x, seg) == r
  {
    DivMod(seg, q, r);
  }

  /** An address is its block number times the block size plus its offset. */
  lemma OffsetSplit(x: nat, seg: Seg)
    ensures x == seg * (x / seg) + Offset(x, seg)
  {
  }

  /** The tag is the block of the low 32 bits. */
  lemma TagOfLowBits(addr: nat, seg: Seg)
    ensures var low := addr % 0x1_0000_0000;
            Offset(addr, seg) == Offset(low, seg) && Tag(addr, seg) == low - Offset(low, seg)
  {
    var high, low := addr / 0x1_0000_0000, addr % 0x1_0000_0000;
    OffsetSplit(low, seg);
    if seg == 32 {
      OffsetIs(addr, 32, 0x800_0000 * high + low / 32, Offset(low, seg));
    } else if seg == 64 {
      OffsetIs(addr, 64, 0x400_0000 * high + low / 64, Offset(low, seg));
    } else {
      OffsetIs(addr, 128, 0x200_0000 * high + low / 128, Offset(low, seg));
    }
    DivMod(0x1_0000_0000, high, low - Offset(low, seg));
  }

  /** The tag of an address is the start of its block exactly for 32-bit addresses. */
  lemma TagExact(addr: nat, seg: Seg)
    ensures Offset(Tag(addr, seg), seg) == 0
    ensures Tag(addr, seg) <= addr < Tag(addr, seg) + seg <==> addr < 0x1_0000_0000
    ensures addr < 0x1_0000_0000 ==> Tag(addr, seg) == addr - Offset(addr, seg)
  {
    var high, low := addr / 0x1_0000_0000, addr % 0x1_0000_0000;
    TagOfLowBits(addr, seg);
    OffsetSplit(low, seg);
    OffsetIs(Tag(addr, seg), seg, low / seg, 0);
    assert addr == 0x1_0000_0000 * high + low;
  }

  /** Which chunk of its 128-byte line an address falls into. */
  function Chunk(addr: nat): (c: nat)
    ensures c < 4
  {
    addr % 128 / SECTOR_SIZE
  }

  /** The bytes of a 128-byte line from `idx`, `n` of them, that lie in the line. */
  function Span(idx: nat, n: nat): (s: set<nat>) {
    if n == 0 then {}
    else if idx + n - 1 < MAX_MEMORY_ACCESS_SIZE then Span(idx, n - 1) + {idx + n - 1}
    else Span(idx, n - 1)
  }

  lemma {:induction false} SpanIs(idx: nat, n: nat)
    ensures forall k :: k in Span(idx, n) <==> idx <= k < idx + n && k < 128
  {
    if n > 0 {
      SpanIs(idx, n - 1);
    }
  }

  method SetBytes(bytes: set<nat>, idx: nat, n: nat) returns (r: set<nat>)
    ensures r == bytes + Span(idx, n)
  {
    r := bytes;
    for i := 0 to n
      invariant r == bytes + Span(idx, i)
    {
      if idx + i < MAX_MEMORY_ACCESS_SIZE {
        r := r + {idx + i};
      }
    }
  }

  function SectorSegments(arch: int, skipL1D: bool, cacheGlobal: bool): (b: bool) {
    if 20 <= arch < 39 then skipL1D || cacheGlobal else arch >= 40
  }

  function SegmentSize(sectors: bool, n: DataSize): (seg: Seg)
    ensures n <= 16 < seg
  {
    if n == 1 || sectors then 32 else if n == 2 then 64 else 128
  }

  // ---------- natural alignment ----------

  /** A naturally aligned access stays inside its segment, its chunk and its line. */
  lemma AlignedInside(addr: nat, n: DataSize, seg: Seg)
    requires Aligned(addr, n)
    ensures Offset(addr, seg) + n <= seg
    ensures addr % 32 + n <= 32
    ensures addr % 128 + n <= 128
  {
    AlignedOffset(addr, n, seg);
    AlignedOffset(addr, n, 32);
    AlignedOffset(addr, n, 128);
  }

  /** The access does not reach past its 32-byte chunk. */
  predicate InChunk(addr: nat, n: DataSize) {
    addr % 32 + n <= 32
  }

  lemma AlignedInChunk(addr: nat, n: DataSize)
    requires Aligned(addr, n)
    ensures InChunk(addr, n)
  {
    AlignedInside(addr, n, 32);
  }

  lemma InChunkInside(addr: nat, n: DataSize, seg: Seg)
    requires InChunk(addr, n)
    ensures Offset(addr, seg) + n <= seg && addr % 128 + n <= 128
  {
    ChunkSplit(addr);
    if seg == 64 {
      var r := addr % 128;
      OffsetIs(addr, 64, 2 * (addr / 128) + r / 64, r % 64);
    }
  }

  lemma AlignedOffset(addr: nat, n: DataSize, seg: Seg)
    requires Aligned(addr, n)
    ensures Offset(addr, seg) + n <= seg
  {
    if n == 2 {
      Multiple2(addr, addr / 2, seg);
    } else if n == 4 {
      Multiple4(addr, addr / 4, seg);
    } else if n == 8 {
      Multiple8(addr, addr / 8, seg);
    } else if n == 16 {
      Multiple16(addr, addr / 16, seg);
    }
  }

  lemma Multiple2(addr: nat, q: nat, seg: Seg)
    requires addr == 2 * q
    ensures Offset(addr, seg) + 2 <= seg
  {
    if seg == 32 {
      OffsetIs(addr, 32, q / 16, 2 * (q % 16));
    } else if seg == 64 {
      OffsetIs(addr, 64, q / 32, 2 * (q % 32));
    } else {
      OffsetIs(addr, 128, q / 64, 2 * (q % 64));
    }
  }

  lemma Multiple4(addr: nat, q: nat, seg: Seg)
    requires addr == 4 * q
    ensures Offset(addr, seg) + 4 <= seg
  {
    if seg == 32 {
      OffsetIs(addr, 32, q / 8, 4 * (q % 8));
    } else if seg == 64 {
      OffsetIs(addr, 64, q / 16, 4 * (q % 16));
    } else {
      OffsetIs(addr, 128, q / 32, 4 * (q % 32));
    }
  }

  lemma Multiple8(addr: nat, q: nat, seg: Seg)
    requires addr == 8 * q
    ensures Offset(addr, seg) + 8 <= seg
  {
    if seg == 32 {
      OffsetIs(addr, 32, q / 4, 8 * (q % 4));
    } else if seg == 64 {
      OffsetIs(addr, 64, q / 8, 8 * (q % 8));
    } else {
      OffsetIs(addr, 128, q / 16, 8 * (q % 16));
    }
  }

  lemma Multiple16(addr: nat, q: nat, seg: Seg)
    requires addr == 16 * q
    ensures Offset(addr, seg) + 16 <= seg
  {
    if seg == 32 {
      OffsetIs(addr, 32, q / 2, 16 * (q % 2));
    } else if seg == 64 {
      OffsetIs(addr, 64, q / 4, 16 * (q % 4));
    } else {
      OffsetIs(addr, 128, q / 8, 16 * (q % 8));
    }
  }

  /** An access that reaches past its segment has another tag at its end, whatever the address. */
  lemma CrossingTags(addr: nat, n: DataSize, seg: Seg)
    requires Offset(addr, seg) + n > seg
    ensures Tag(addr, seg) != Tag(addr + n - 1, seg)
  {
    var off := Offset(addr, seg);
    OffsetSplit(addr, seg);
    OffsetIs(addr + n - 1, seg, addr / seg + 1, off + n - 1 - seg);
    ModShift(addr - off, seg);
  }

  lemma ModShift(x: nat, s: nat)
    requires 0 < s < 0x1_0000_0000
    ensures x % 0x1_0000_0000 != (x + s) % 0x1_0000_0000
  {
    var q, r := x / 0x1_0000_0000, x % 0x1_0000_0000;
    if r + s < 0x1_0000_0000 {
      DivMod(0x1_0000_0000, q, r + s);
    } else {
      DivMod(0x1_0000_0000, q + 1, r + s - 0x1_0000_0000);
    }
  }

  /** An access crosses into another segment exactly when it reaches past the end of its own. */
  lemma CrossesExactly(addr: nat, n: DataSize, seg: Seg)
    ensures Tag(addr, seg) != Tag(addr + n - 1, seg) <==> Offset(addr, seg) + n > seg
  {
    if Offset(addr, seg) + n > seg {
      CrossingTags(addr, n, seg);
    } else {
      SameBlock(addr, n, seg);
    }
  }

  lemma SameBlock(addr: nat, n: DataSize, seg: Seg)
    requires Offset(addr, seg) + n <= seg
    ensures Tag(addr + n - 1, seg) == Tag(addr, seg)
  {
    OffsetSplit(addr, seg);
    OffsetIs(addr + n - 1, seg, addr / seg, Offset(addr, seg) + n - 1);
  }

  /** Two naturally aligned accesses of one size in one segment share a byte only if they are the same. */
  lemma AlignedApart(a: nat, b: nat, n: DataSize, seg: Seg)
    requires Aligned(a, n) && Aligned(b, n)
    requires a < 0x1_0000_0000 && b < 0x1_0000_0000 && Tag(a, seg) == Tag(b, seg) && a != b
    ensures Span(a % 128, n) !! Span(b % 128, n)
  {
    TagExact(a, seg);
    TagExact(b, seg);
    LineOffset(a, seg);
    LineOffset(b, seg);
    SpanIs(a % 128, n);
    SpanIs(b % 128, n);
    if a < b {
      AlignedGap(a, b, n);
    } else {
      AlignedGap(b, a, n);
    }
  }

  lemma AlignedGap(a: nat, b: nat, n: DataSize)
    requires Aligned(a, n) && Aligned(b, n) && a < b
    ensures a + n <= b
  {
  }

  /** The offset in the line is the offset of the segment plus the offset in the segment. */
  lemma LineOffset(addr: nat, seg: Seg)
    ensures addr % 128 == (addr - Offset(addr, seg)) % 128 + Offset(addr, seg)
    ensures (addr - Offset(addr, seg)) % 128 + seg <= 128
  {
    var q, r := addr / 128, addr % 128;
    if seg == 32 {
      LineOffsetBy(addr, 32, q, r / 32, r % 32, 4);
    } else if seg == 64 {
      LineOffsetBy(addr, 64, q, r / 64, r % 64, 2);
    } else {
      LineOffsetBy(addr, 128, q, 0, r, 1);
    }
  }

  lemma LineOffsetBy(addr: nat, seg: Seg, q: nat, k: nat, r: nat, parts: nat)
    requires seg * parts == 128 && k < parts && r < seg && addr == 128 * q + seg * k + r
    ensures Offset(addr, seg) == r && addr % 128 == seg * k + r && (addr - r) % 128 == seg * k && seg * k + seg <= 128
  {
    InPart(seg, parts, k);
    assert addr == seg * (parts * q + k) + r;
    OffsetIs(addr, seg, parts * q + k, r);
    DivMod(128, q, seg * k + r);
    DivMod(128, q, seg * k);
  }

  lemma InPart(seg: Seg, parts: nat, k: nat)
    requires seg * parts == 128 && k < parts
    ensures 0 <= seg * k && seg * k + seg <= 128
  {
    assert seg * (k + 1) <= seg * parts;
  }

  /** The offset in the line is that of the chunk plus the offset in the chunk. */
  lemma ChunkSplit(addr: nat)
    ensures addr % 128 == 32 * Chunk(addr) + addr % 32
  {
    var q, r := addr / 128, addr % 128;
    OffsetIs(addr, 32, 4 * q + r / 32, r % 32);
  }

  // ---------- transactions ----------

  /** `transaction_info`: the chunks and bytes touched within a 128-byte line, and the lanes. */
  datatype Txn = Txn(chunks: set<nat>, bytes: set<nat>, lanes: set<nat>)

  const EMPTY_TXN := Txn({}, {}, {})

  /** One queued `mem_access_t`. */
  datatype Access = Access(addr: nat, size: nat, lanes: set<nat>, bytes: set<nat>, chunks: set<nat>)

  /** Chunk `c` of a line lies in the segment that starts at `addr`. */
  ghost predicate ChunkFits(c: nat, addr: nat, seg: Seg) {
    c < 4 && addr % 128 <= 32 * c < addr % 128 + seg
  }

  /** What reduce-and-send asserts of a transaction on the segment at `addr`. */
  ghost predicate Sendable(chunks: set<nat>, addr: nat, seg: Seg) {
    Offset(addr, seg) == 0 && chunks != {} && forall c :: c in chunks ==> ChunkFits(c, addr, seg)
  }

  /** Whether the request holds chunk `c` of the line of `addr`. */
  predicate HoldsChunk(at: nat, size: nat, addr: nat, c: nat) {
    at <= addr - addr % 128 + 32 * c && addr - addr % 128 + 32 * c + 32 <= at + size
  }

  /** A naturally aligned request that serves all the chunks. */
  ghost predicate Serves(at: nat, size: Seg, addr: nat, chunks: set<nat>) {
    Offset(at, size) == 0 && forall c :: c in chunks ==> HoldsChunk(at, size, addr, c)
  }

  /** The request for a transaction, by the chunks that are touched. */
  function Reduced(chunks: set<nat>, segAddr: nat, seg: Seg): (r: (nat, Seg)) {
    var line := segAddr - segAddr % 128;
    if seg == 32 then (segAddr, 32)
    else if chunks <= {0} then (line, 32)
    else if chunks <= {1} then (line + 32, 32)
    else if chunks <= {2} then (line + 64, 32)
    else if chunks <= {3} then (line + 96, 32)
    else if chunks <= {0, 1} then (line, 64)
    else if chunks <= {2, 3} then (line + 64, 64)
    else (line, 128)
  }

  /** `memory_coalescing_arch_reduce_and_send` up to the queueing. */
  method Reduce(chunks: set<nat>, segAddr: nat, seg: Seg) returns (addr: nat, size: Seg)
    requires Sendable(chunks, segAddr, seg)
    ensures (addr, size) == Reduced(chunks, segAddr, seg)
    ensures Serves(addr, size, segAddr, chunks)
    ensures segAddr <= addr && addr + size <= segAddr + seg
    ensures forall a: nat, n: Seg :: Serves(a, n, segAddr, chunks) ==> size < n || (size == n && addr == a)
  {
    addr, size := segAddr, seg;
    var h0, h1 := false, false;
    ghost var c :| c in chunks;
    assert ChunkFits(c, segAddr, seg);
    SegmentOffset(segAddr, seg);
    if seg == 128 {
      var lower, upper := 0 in chunks || 1 in chunks, 2 in chunks || 3 in chunks;
      if lower && !upper {
        size := 64;
        h0, h1 := 0 in chunks, 1 in chunks;
      } else if !lower && upper {
        addr, size := addr + 64, 64;
        h0, h1 := 2 in chunks, 3 in chunks;
      } else {
        assert lower && upper;
      }
    } else if seg == 64 {
      if addr % 128 == 0 {
        h0, h1 := 0 in chunks, 1 in chunks;
      } else {
        assert addr % 128 == 64;
        h0, h1 := 2 in chunks, 3 in chunks;
      }
    }
    if size == 64 {
      if h0 && !h1 {
        size := 32;
      } else if !h0 && h1 {
        addr, size := addr + 32, 32;
      } else {
        assert h0 && h1;
      }
    }
    ReducedIsLeast(chunks, segAddr, seg);
  }

  /** Where a segment can start within its line. */
  lemma SegmentOffset(segAddr: nat, seg: Seg)
    requires Offset(segAddr, seg) == 0
    ensures var off := segAddr % 128;
            if seg == 32 then off == 0 || off == 32 || off == 64 || off == 96
            else if seg == 64 then off == 0 || off == 64 else off == 0
  {
    OffsetSplit(segAddr, seg);
    var q := segAddr / seg;
    if seg == 32 {
      DivMod(128, q / 4, 32 * (q % 4));
    } else if seg == 64 {
      DivMod(128, q / 2, 64 * (q % 2));
    }
  }

  /** The natural starts of requests within a line. */
  lemma NaturalStart(line: nat, q: nat, start: nat, n: Seg)
    requires line == 128 * q
    requires if n == 32 then start == 0 || start == 32 || start == 64 || start == 96
             else if n == 64 then start == 0 || start == 64 else start == 0
    ensures Offset(line + start, n) == 0
  {
    if n == 32 {
      OffsetIs(line + start, 32, 4 * q + start / 32, 0);
    } else if n == 64 {
      OffsetIs(line + start, 64, 2 * q + start / 64, 0);
    } else {
      OffsetIs(line + start, 128, q, 0);
    }
  }

  /** What `Reduced` answers, in terms of the offset of the segment in its line. */
  lemma ReducedChunks(chunks: set<nat>, segAddr: nat, seg: Seg)
    requires Sendable(chunks, segAddr, seg)
    ensures var (addr, size) := Reduced(chunks, segAddr, seg);
            var line, off := segAddr - segAddr % 128, segAddr % 128;
            && line + off <= addr && addr + size <= line + off + seg
            && (forall c :: c in chunks ==> addr <= line + 32 * c && line + 32 * c + 32 <= addr + size)
            && var start := addr - line;
            if size == 32 then start == 0 || start == 32 || start == 64 || start == 96
            else if size == 64 then start == 0 || start == 64 else start == 0
  {
    var c :| c in chunks;
    SegmentOffset(segAddr, seg);
    assert ChunkFits(c, segAddr, seg);
    forall d | d in chunks ensures ChunkFits(d, segAddr, seg) && (d == 0 || d == 1 || d == 2 || d == 3) {
      assert ChunkFits(d, segAddr, seg);
    }
  }

  lemma ReducedServes(chunks: set<nat>, segAddr: nat, seg: Seg)
    requires Sendable(chunks, segAddr, seg)
    ensures var (addr, size) := Reduced(chunks, segAddr, seg);
            Serves(addr, size, segAddr, chunks) && segAddr <= addr && addr + size <= segAddr + seg
  {
    var (addr, size) := Reduced(chunks, segAddr, seg);
    var line := segAddr - segAddr % 128;
    ReducedChunks(chunks, segAddr, seg);
    NaturalStart(line, segAddr / 128, addr - line, size);
  }

  /** The queued request is the smallest naturally aligned one that serves the touched chunks, and it lies in the
      segment. */
  lemma ReducedIsLeast(chunks: set<nat>, segAddr: nat, seg: Seg)
    requires Sendable(chunks, segAddr, seg)
    ensures var (addr, size) := Reduced(chunks, segAddr, seg);
            && Serves(addr, size, segAddr, chunks) && segAddr <= addr && addr + size <= segAddr + seg
            && forall a: nat, n: Seg :: Serves(a, n, segAddr, chunks) ==> size < n || (size == n && addr == a)
  {
    var (addr, size) := Reduced(chunks, segAddr, seg);
    ReducedServes(chunks, segAddr, seg);
    forall a: nat, n: Seg | Serves(a, n, segAddr, chunks) ensures size < n || (size == n && addr == a) {
    }
  }
}
