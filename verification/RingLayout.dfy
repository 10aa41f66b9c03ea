// The memory layout that ShmSpscRing::create computes: 64-bit arithmetic whose
// results are stored in 32-bit header fields.
module RingLayout {
  import opened Bits

  const U32: nat := 0x1_0000_0000
  const U64: nat := 0x1_0000_0000_0000_0000
  const SLOT_HEADER_BYTES := 8

  datatype Error = CapacityTooSmall | EmptyPayload
  datatype Layout = Layout(slotPayloadBytes: nat, slotCount: nat, slotStride: nat, mappingBytes: nat)
  datatype Result = Created(layout: Layout) | Refused(error: Error)

  /** std::hardware_destructive_interference_size: a power of two that is at least the alignment
      of std::max_align_t. */
  ghost predicate IsCacheLine(line: nat) { IsPow2(line) && 16 <= line <= 0x8000_0000 }

  function AlignUp(value: nat, line: nat): nat
    requires line > 0
  {
    BitAndNot((value + line - 1) % U64, line - 1)
  }

  /** sizeof(Header): 24 bytes of fields, head and tail, each at the start of a cache line. */
  function HeaderBytes(line: nat): nat
    requires line > 0
  {
    AlignUp(24, line) + 2 * line
  }

  /** std::bit_ceil: the least power of two that is not below x. */
  function BitCeil(x: nat): nat {
    if x <= 1 then 1 else 2 * BitCeil((x + 1) / 2)
  }

  /** bit_ceil is only defined when its result fits size_t. */
  function Create(line: nat, requestedCapacity: nat, maxPayloadBytes: nat): Result
    requires line > 0 && requestedCapacity <= U64 / 2 && maxPayloadBytes < U64
  {
    if requestedCapacity < 2 then Refused(CapacityTooSmall)
    else if maxPayloadBytes == 0 then Refused(EmptyPayload)
    else
      var slotCount := BitCeil(requestedCapacity) % U32;
      var slotStride := AlignUp((SLOT_HEADER_BYTES + maxPayloadBytes) % U64, line) % U32;
      var mappingBytes := (AlignUp(HeaderBytes(line), line) + slotCount * slotStride) % U64;
      Created(Layout(maxPayloadBytes % U32, slotCount, slotStride, mappingBytes))
  }

  /** What the ring relies on: enough slots, a power of two of them, and room for a frame in each. */
  predicate Sound(l: Layout, requestedCapacity: nat, maxPayloadBytes: nat) {
    && IsPow2(l.slotCount) && l.slotCount >= requestedCapacity
    && l.slotPayloadBytes == maxPayloadBytes
    && SLOT_HEADER_BYTES + l.slotPayloadBytes <= l.slotStride
  }

  lemma {:induction false} BitCeilLeast(x: nat)
    ensures IsPow2(BitCeil(x)) && x <= BitCeil(x)
    ensures forall p: nat | IsPow2(p) && x <= p :: BitCeil(x) <= p
  {
    if x > 1 {
      BitCeilLeast((x + 1) / 2);
      forall p: nat | IsPow2(p) && x <= p
        ensures BitCeil(x) <= p
      {
        assert IsPow2(p / 2) && (x + 1) / 2 <= p / 2;
      }
    }
  }

  // ----- Rounding up to cache lines -----

  lemma {:induction false} AndNotIsRest(x: nat, y: nat)
    ensures BitAndNot(x, y) == x - BitAnd(x, y)
  {
    if x > 0 { AndNotIsRest(x / 2, y / 2); }
  }

  /** The masking rounds up to the next multiple of a cache line. */
  lemma AlignUpIsNext(value: nat, line: nat, q: nat)
    requires IsPow2(line) && value + line <= U64 && q == (value + line - 1) / line
    ensures AlignUp(value, line) == q * line
    ensures value <= q * line < value + line
  {
    assert line > 0;
    hide IsPow2, BitAnd, BitAndNot;
    var x := value + line - 1;
    AndNotIsRest(x, line - 1);
    MaskIsMod(x, line);
    Quotient(x, line);
  }

  lemma Quotient(x: nat, n: nat)
    requires n > 0
    ensures x == x / n * n + x % n && 0 <= x % n < n
    ensures x < U64 ==> x % U64 == x
  {
  }

  /** A multiple of n is below another one or at least as great, and no multiple lies between. */
  lemma NextMultiple(q: nat, c: nat, n: nat, x: nat)
    requires x <= q * n < x + n
    ensures x <= c * n <==> q <= c
    ensures q <= c ==> q * n <= c * n
    ensures q > c ==> q * n >= (c + 1) * n == c * n + n
  {
    if q <= c {
      MulMonotonic(q, c, n);
    } else {
      MulMonotonic(c + 1, q, n);
      assert (c + 1) * n == c * n + n;
    }
  }

  /** 2^32 is made of whole cache lines. */
  lemma WholeLines(line: nat) returns (c: nat)
    requires IsCacheLine(line)
    ensures c > 0 && c * line == U32
  {
    var k := IsPow2Exponent(line);
    hide IsPow2, Pow2;
    Pow2Literals();
    if k > 32 { Pow2Monotonic(32, k); }
    Pow2Add(32 - k, k);
    c := Pow2(32 - k);
  }

  // ----- When narrowing is safe -----

  /** A power of two above 2^31 is a multiple of 2^32. */
  lemma PowerAbove(n: nat)
    requires IsPow2(n) && n > 0x8000_0000
    ensures n % U32 == 0
  {
    var k := IsPow2Exponent(n);
    Pow2Literals();
    if k <= 31 { Pow2Monotonic(k, 31); }
    Pow2Add(k - 32, 32);
    ModUnique(n, U32, Pow2(k - 32), 0);
  }

  lemma SlotCountSafe(requestedCapacity: nat)
    ensures IsPow2(BitCeil(requestedCapacity) % U32) && BitCeil(requestedCapacity) % U32 >= requestedCapacity
      <==> requestedCapacity <= 0x8000_0000
  {
    hide IsPow2, Pow2, BitCeil;
    var n := BitCeil(requestedCapacity);
    BitCeilLeast(requestedCapacity);
    Pow2Literals();
    Pow2IsPow2(31);
    if requestedCapacity > 0x8000_0000 { PowerAbove(n); }
  }

  lemma StrideSafe(line: nat, maxPayloadBytes: nat)
    requires IsCacheLine(line) && maxPayloadBytes < U64
    ensures maxPayloadBytes % U32 == maxPayloadBytes &&
      SLOT_HEADER_BYTES + maxPayloadBytes % U32 <= AlignUp((SLOT_HEADER_BYTES + maxPayloadBytes) % U64, line) % U32
      <==> maxPayloadBytes <= U32 - line - SLOT_HEADER_BYTES
  {
    hide IsPow2, AlignUp, BitAndNot;
    if maxPayloadBytes < U32 {
      var x := SLOT_HEADER_BYTES + maxPayloadBytes;
      var q := (x + line - 1) / line;
      var c := WholeLines(line);
      AlignUpIsNext(x, line, q);
      NextMultiple(q, c - 1, line, x);
      OneLess(c, line);
      StrideNarrowed(line, x, q * line);
    }
  }

  lemma OneLess(c: nat, line: nat)
    requires c > 0 && c * line == U32
    ensures (c - 1) * line == U32 - line
  {
  }

  /** A stride of 2^32 or more comes out too small. */
  lemma StrideNarrowed(line: nat, x: nat, stride: nat)
    requires 0 < line <= 0x8000_0000 && x <= stride < x + line && SLOT_HEADER_BYTES <= x < U32 + SLOT_HEADER_BYTES
    requires if x <= U32 - line then stride <= U32 - line else stride >= U32
    ensures x <= stride % U32 <==> x <= U32 - line
    ensures x % U64 == x
  {
    if x > U32 - line { assert stride % U32 == stride - U32; }
  }

  /** create succeeds with a sound layout, its results narrowed to 32 bits, exactly from 2 up to 2^31
      slots and from 1 up to 2^32 - 8 payload bytes less one cache line. */
  lemma NarrowingIsSafe(line: nat, requestedCapacity: nat, maxPayloadBytes: nat)
    requires IsCacheLine(line) && requestedCapacity <= U64 / 2 && maxPayloadBytes < U64
    ensures var r := Create(line, requestedCapacity, maxPayloadBytes);
            r.Created? && Sound(r.layout, requestedCapacity, maxPayloadBytes)
            <==> 2 <= requestedCapacity <= 0x8000_0000 && 1 <= maxPayloadBytes <= 0x1_0000_0000 - line - 8
    ensures Create(line, requestedCapacity, maxPayloadBytes).Created? <==>
            2 <= requestedCapacity && 1 <= maxPayloadBytes
  {
    hide IsPow2, BitCeil, AlignUp;
    SlotCountSafe(requestedCapacity);
    StrideSafe(line, maxPayloadBytes);
  }

  /** In a sound layout the slots lie one after the other behind the header, inside the mapping. */
  lemma SlotsTile(line: nat, requestedCapacity: nat, maxPayloadBytes: nat, i: nat, j: nat)
    requires IsCacheLine(line) && requestedCapacity <= U64 / 2 && maxPayloadBytes < U64
    requires Create(line, requestedCapacity, maxPayloadBytes).Created?
    requires var l := Create(line, requestedCapacity, maxPayloadBytes).layout;
      Sound(l, requestedCapacity, maxPayloadBytes) && i < j < l.slotCount
    ensures var l, slots := Create(line, requestedCapacity, maxPayloadBytes).layout, AlignUp(HeaderBytes(line), line);
      && HeaderBytes(line) <= slots
      && slots + i * l.slotStride + SLOT_HEADER_BYTES + maxPayloadBytes <= slots + j * l.slotStride
      && slots + j * l.slotStride + SLOT_HEADER_BYTES + maxPayloadBytes <= l.mappingBytes
  {
    hide IsPow2, Pow2, BitCeil, AlignUp, HeaderBytes;
    HeaderBound(line);
    var l := Create(line, requestedCapacity, maxPayloadBytes).layout;
    NarrowingIsSafe(line, requestedCapacity, maxPayloadBytes);
    BitCeilLeast(requestedCapacity);
    Pow2Literals();
    Pow2IsPow2(31);
    Tile(AlignUp(HeaderBytes(line), line), i, j, l.slotCount, l.slotStride);
  }

  /** Fields, head and tail lie one after the other in the header, head and tail at the start of a
      cache line of their own, and the slots behind it. */
  lemma HeaderLayout(line: nat)
    requires IsCacheLine(line)
    ensures var head := AlignUp(24, line);
            var tail := AlignUp(head + 8, line);
            && 24 <= head && head + 8 <= tail && tail + 8 <= HeaderBytes(line)
            && head % line == 0 && tail == head + line && HeaderBytes(line) == tail + line
            && HeaderBytes(line) <= AlignUp(HeaderBytes(line), line)
  {
    hide IsPow2, AlignUp;
    HeaderBound(line);
    var q, p := (24 + line - 1) / line, (AlignUp(24, line) + 8 + line - 1) / line;
    AlignUpIsNext(24, line, q);
    AlignUpIsNext(q * line + 8, line, p);
    OneLineOn(q, p, line);
  }

  lemma OneLineOn(q: nat, p: nat, line: nat)
    requires line >= 16 && q * line + 8 <= p * line < q * line + 8 + line
    ensures p * line == q * line + line && q * line % line == 0
  {
    NextMultiple(p, q, line, q * line + 8);
    assert (q + 1) * line == q * line + line;
    NextMultiple(p, q + 1, line, q * line + 8);
    ModUnique(q * line, line, q, 0);
  }

  lemma HeaderBound(line: nat)
    requires IsCacheLine(line)
    ensures HeaderBytes(line) <= AlignUp(HeaderBytes(line), line) < 0x2_8000_0000
  {
    hide IsPow2, AlignUp;
    AlignUpIsNext(24, line, (24 + line - 1) / line);
    AlignUpIsNext(HeaderBytes(line), line, (HeaderBytes(line) + line - 1) / line);
  }

  lemma Tile(slots: nat, i: nat, j: nat, n: nat, stride: nat)
    requires i < j < n <= 0x8000_0000 && stride < U32 && slots < 0x2_8000_0000
    ensures i * stride + stride <= j * stride
    ensures j * stride + stride <= n * stride && (slots + n * stride) % U64 == slots + n * stride
  {
    MulMonotonic(i + 1, j, stride);
    MulMonotonic(j + 1, n, stride);
    MulMonotonic(n, 0x8000_0000, stride);
    assert (i + 1) * stride == i * stride + stride && (j + 1) * stride == j * stride + stride;
    assert n * stride <= 0x8000_0000 * U32;
  }
}
