// The space-saving stack for pointer elements (Experimental48BPStack): each
// pointer keeps only its low 48 bits, as a 6-byte slot in a raw byte array.
//
// A push stores the whole 8-byte pointer, little-endian, at the start of its
// slot, so the top two (zero) bytes spill into the next slot; since slots are
// filled in order, the spill only ever lands on slots that are not live yet.
// A read either loads 8 bytes and masks them to 48 bits, or loads 4 bytes and
// 2 bytes and joins them.  Pointers are x86-64 addresses whose top 16 bits
// are zero.

module PackedStack {
  import opened Allocation
  import HybridStack

  const PointerBytes: nat := 8
  /** EXP48BP_PTR_SIZE(T): 3 * sizeof(T) / 4. */
  const SlotBytes: nat := (3 * PointerBytes) / 4
  /** The byte array inside the object: a cache line less two 16-bit fields
      and a pointer. */
  const InlineBytes: nat := HybridStack.CachelineSize - 2 - 2 - PointerBytes
  /** EXP48BP_STACK_SIZE(T) */
  const InlineSlots: nat := InlineBytes / SlotBytes
  /** The largest index the int16 index field holds. */
  const MaxIndex: nat := 32767

  const Low48: bv64 := 0x0000_ffff_ffff_ffff

  lemma Geometry()
    ensures SlotBytes == 6 && InlineBytes == 52 && InlineSlots == 8
    ensures SlotBytes * (InlineSlots - 1) + PointerBytes <= InlineBytes
  {
  }

  // ---------------------------------------------------------------------
  // Little-endian loads and stores on byte sequences
  // ---------------------------------------------------------------------

  /** Six bytes, least significant first, as a 48-bit number. */
  function Join48(b0: bv8, b1: bv8, b2: bv8, b3: bv8, b4: bv8, b5: bv8): bv64
  {
    (b0 as bv64) | ((b1 as bv64) << 8) | ((b2 as bv64) << 16)
    | ((b3 as bv64) << 24) | ((b4 as bv64) << 32) | ((b5 as bv64) << 40)
  }

  /** The 6 bytes at off as a 48-bit number. */
  function Load48(b: seq<bv8>, off: nat): bv64
    requires off + 6 <= |b|
  {
    Join48(b[off], b[off + 1], b[off + 2], b[off + 3], b[off + 4], b[off + 5])
  }

  /** *reinterpret_cast<intptr_t *>(b + off): 8 bytes, least significant first.
      The value's little-endian bytes are the bytes loaded. */
  function Load64(b: seq<bv8>, off: nat): (r: bv64)
    requires off + 8 <= |b|
    ensures LeBytes(r) == b[off..off + 8]
  {
    LeBytesOfBytes(b[off], b[off + 1], b[off + 2], b[off + 3], b[off + 4], b[off + 5], b[off + 6], b[off + 7]);
    assert b[off..off + 8] == [b[off], b[off + 1], b[off + 2], b[off + 3], b[off + 4], b[off + 5], b[off + 6], b[off + 7]];
    Load48(b, off) | ((b[off + 6] as bv64) << 48) | ((b[off + 7] as bv64) << 56)
  }

  /** Eight bytes joined least significant first split back into the same bytes. */
  lemma LeBytesOfBytes(b0: bv8, b1: bv8, b2: bv8, b3: bv8, b4: bv8, b5: bv8, b6: bv8, b7: bv8)
    ensures LeBytes(Join48(b0, b1, b2, b3, b4, b5) | ((b6 as bv64) << 48) | ((b7 as bv64) << 56))
            == [b0, b1, b2, b3, b4, b5, b6, b7]
  {
  }

  /** *reinterpret_cast<uint32_t *>(b + off): 4 bytes, least significant first. */
  function Load32(b: seq<bv8>, off: nat): (r: bv32)
    requires off + 4 <= |b|
    ensures (r & 0xff) as bv8 == b[off] && ((r >> 8) & 0xff) as bv8 == b[off + 1]
    ensures ((r >> 16) & 0xff) as bv8 == b[off + 2] && (r >> 24) as bv8 == b[off + 3]
  {
    b[off] as bv32 | ((b[off + 1] as bv32) << 8) | ((b[off + 2] as bv32) << 16) | ((b[off + 3] as bv32) << 24)
  }

  /** *reinterpret_cast<uint16_t *>(b + off): 2 bytes, least significant first. */
  function Load16(b: seq<bv8>, off: nat): (r: bv16)
    requires off + 2 <= |b|
    ensures (r & 0xff) as bv8 == b[off] && (r >> 8) as bv8 == b[off + 1]
  {
    b[off] as bv16 | ((b[off + 1] as bv16) << 8)
  }

  /** The 8 little-endian bytes of v. */
  function LeBytes(v: bv64): (r: seq<bv8>)
    ensures |r| == 8
  {
    [ (v & 0xff) as bv8, ((v >> 8) & 0xff) as bv8, ((v >> 16) & 0xff) as bv8,
      ((v >> 24) & 0xff) as bv8, ((v >> 32) & 0xff) as bv8, ((v >> 40) & 0xff) as bv8,
      ((v >> 48) & 0xff) as bv8, ((v >> 56) & 0xff) as bv8 ]
  }

  /** *reinterpret_cast<intptr_t *>(b + off) = v. */
  function Store64(b: seq<bv8>, off: nat, v: bv64): (r: seq<bv8>)
    requires off + 8 <= |b|
    ensures |r| == |b|
    ensures forall i :: 0 <= i < |b| && !(off <= i < off + 8) ==> r[i] == b[i]
    ensures forall k :: 0 <= k < 8 ==> r[off + k] == LeBytes(v)[k]
  {
    b[..off] + LeBytes(v) + b[off + 8..]
  }

  /** The 8-byte load masked to 48 bits is the 6-byte value. */
  lemma WideReadMasked(b: seq<bv8>, off: nat)
    requires off + 8 <= |b|
    ensures Load64(b, off) & Low48 == Load48(b, off)
  {
  }

  /** A 6-byte value has its top 16 bits clear. */
  lemma Load48Fits(b: seq<bv8>, off: nat)
    requires off + 6 <= |b|
    ensures Load48(b, off) & Low48 == Load48(b, off)
  {
  }

  /** (upper16 << 32) | lower32 is the 6-byte value. */
  lemma SplitReadJoins(b: seq<bv8>, off: nat)
    requires off + 6 <= |b|
    ensures ((Load16(b, off + 4) as bv64) << 32) | (Load32(b, off) as bv64) == Load48(b, off)
  {
  }

  /** The six bytes written for v read back as its low 48 bits. */
  lemma LeBytesLow48(v: bv64)
    ensures Join48(LeBytes(v)[0], LeBytes(v)[1], LeBytes(v)[2],
                   LeBytes(v)[3], LeBytes(v)[4], LeBytes(v)[5]) == v & Low48
  {
  }

  /** An 8-byte store followed by a 6-byte load at the same place gives the
      stored value's low 48 bits. */
  lemma StoreThenLoad(b: seq<bv8>, off: nat, v: bv64)
    requires off + 8 <= |b|
    ensures Load48(Store64(b, off, v), off) == v & Low48
  {
    var r := Store64(b, off, v);
    var bytes := LeBytes(v);
    assert r[off] == bytes[0] && r[off + 1] == bytes[1] && r[off + 2] == bytes[2];
    assert r[off + 3] == bytes[3] && r[off + 4] == bytes[4] && r[off + 5] == bytes[5];
    LeBytesLow48(v);
  }

  /** A store leaves every 6-byte value that ends at or before it unchanged. */
  lemma StoreKeepsEarlier(b: seq<bv8>, off: nat, v: bv64, off2: nat)
    requires off + 8 <= |b| && off2 + 6 <= off
    ensures Load48(Store64(b, off, v), off2) == Load48(b, off2)
  {
    var r := Store64(b, off, v);
    assert r[off2] == b[off2] && r[off2 + 1] == b[off2 + 1] && r[off2 + 2] == b[off2 + 2];
    assert r[off2 + 3] == b[off2 + 3] && r[off2 + 4] == b[off2 + 4] && r[off2 + 5] == b[off2 + 5];
  }

  // ---------------------------------------------------------------------
  // Slots
  // ---------------------------------------------------------------------

  /** The value of slot j: in the object's bytes below InlineSlots, in the
      heap bytes from there on. */
  function SlotValue(ib: seq<bv8>, hb: seq<bv8>, j: nat): bv64
    requires |ib| == InlineBytes
    requires j >= InlineSlots ==> SlotBytes * (j - InlineSlots) + SlotBytes <= |hb|
  {
    if j < InlineSlots then Load48(ib, SlotBytes * j)
    else Load48(hb, SlotBytes * (j - InlineSlots))
  }

  predicate SlotsFit(ib: seq<bv8>, hb: seq<bv8>, n: nat)
  {
    |ib| == InlineBytes && (n > InlineSlots ==> SlotBytes * (n - InlineSlots) <= |hb|)
  }

  /** The first n slot values. */
  function Slots(ib: seq<bv8>, hb: seq<bv8>, n: nat): (r: seq<bv64>)
    requires SlotsFit(ib, hb, n)
    ensures |r| == n
  {
    seq(n, j requires 0 <= j < n => SlotValue(ib, hb, j))
  }

  /** Storing slot n in the object's bytes appends its low 48 bits. */
  lemma PushInline(ib: seq<bv8>, hb: seq<bv8>, n: nat, v: bv64)
    requires |ib| == InlineBytes && n < InlineSlots
    ensures SlotsFit(Store64(ib, SlotBytes * n, v), hb, n + 1)
    ensures Slots(Store64(ib, SlotBytes * n, v), hb, n + 1) == Slots(ib, hb, n) + [v & Low48]
  {
    var ib' := Store64(ib, SlotBytes * n, v);
    forall j | 0 <= j < n
      ensures SlotValue(ib', hb, j) == SlotValue(ib, hb, j)
    {
      StoreKeepsEarlier(ib, SlotBytes * n, v, SlotBytes * j);
    }
    StoreThenLoad(ib, SlotBytes * n, v);
  }

  /** Storing slot n in the heap bytes appends its low 48 bits. */
  lemma PushHeap(ib: seq<bv8>, hb: seq<bv8>, n: nat, v: bv64)
    requires |ib| == InlineBytes && n >= InlineSlots
    requires SlotBytes * (n - InlineSlots) + PointerBytes <= |hb|
    ensures SlotsFit(ib, Store64(hb, SlotBytes * (n - InlineSlots), v), n + 1)
    ensures Slots(ib, Store64(hb, SlotBytes * (n - InlineSlots), v), n + 1) == Slots(ib, hb, n) + [v & Low48]
  {
    var off := SlotBytes * (n - InlineSlots);
    var hb' := Store64(hb, off, v);
    forall j | 0 <= j < n
      ensures SlotValue(ib, hb', j) == SlotValue(ib, hb, j)
    {
      if j >= InlineSlots {
        StoreKeepsEarlier(hb, off, v, SlotBytes * (j - InlineSlots));
      }
    }
    StoreThenLoad(hb, off, v);
  }

  /** Slot values only depend on the heap bytes they cover. */
  lemma SlotsKeptByPrefix(ib: seq<bv8>, hb: seq<bv8>, hb': seq<bv8>, n: nat)
    requires SlotsFit(ib, hb, n) && |hb| <= |hb'| && hb'[..|hb|] == hb
    ensures SlotsFit(ib, hb', n) && Slots(ib, hb', n) == Slots(ib, hb, n)
  {
    forall j | 0 <= j < n
      ensures SlotValue(ib, hb', j) == SlotValue(ib, hb, j)
    {
      if j >= InlineSlots {
        var off := SlotBytes * (j - InlineSlots);
        assert hb'[off] == hb[off] && hb'[off + 1] == hb[off + 1] && hb'[off + 2] == hb[off + 2];
        assert hb'[off + 3] == hb[off + 3] && hb'[off + 4] == hb[off + 4] && hb'[off + 5] == hb[off + 5];
      }
    }
  }

  /** Dropping the last slot leaves the others. */
  lemma SlotsPrefix(ib: seq<bv8>, hb: seq<bv8>, n: nat)
    requires SlotsFit(ib, hb, n) && n > 0
    ensures SlotsFit(ib, hb, n - 1)
    ensures Slots(ib, hb, n) == Slots(ib, hb, n - 1) + [Slots(ib, hb, n)[n - 1]]
  {
  }

  /** Where an 8-byte load at slot j stays inside the bytes. */
  predicate WideFits(ib: seq<bv8>, hb: seq<bv8>, j: nat)
  {
    |ib| == InlineBytes && (j >= InlineSlots ==> SlotBytes * (j - InlineSlots) + PointerBytes <= |hb|)
  }

  /** The default top(): an 8-byte load at off masked to 48 bits. */
  function WideLoad(b: seq<bv8>, off: nat): (v: bv64)
    requires off + 8 <= |b|
    ensures v == Load48(b, off)
  {
    WideReadMasked(b, off);
    Load64(b, off) & Low48
  }

  /** top() under EXPSTACK_PREVENT_PAGE_RELOAD: a 4-byte load at off and a
      2-byte load at off + 4, joined and masked to 48 bits. */
  function SplitLoad(b: seq<bv8>, off: nat): (v: bv64)
    requires off + 6 <= |b|
    ensures v == Load48(b, off)
  {
    var lower := Load32(b, off);
    var upper := Load16(b, off + 4);
    SplitReadJoins(b, off);
    Load48Fits(b, off);
    (((upper as bv64) << 32) | lower as bv64) & Low48
  }

  /** Slot j read with WideLoad. */
  function ReadWide(ib: seq<bv8>, hb: seq<bv8>, j: nat): (v: bv64)
    requires WideFits(ib, hb, j)
    ensures v == SlotValue(ib, hb, j)
  {
    if j < InlineSlots then WideLoad(ib, SlotBytes * j)
    else WideLoad(hb, SlotBytes * (j - InlineSlots))
  }

  /** Slot j read with SplitLoad. */
  function ReadSplit(ib: seq<bv8>, hb: seq<bv8>, j: nat): (v: bv64)
    requires WideFits(ib, hb, j)
    ensures v == SlotValue(ib, hb, j)
  {
    if j < InlineSlots then SplitLoad(ib, SlotBytes * j)
    else SplitLoad(hb, SlotBytes * (j - InlineSlots))
  }

  /** Both reads of slot j give the same value. */
  lemma ReadsAgree(ib: seq<bv8>, hb: seq<bv8>, j: nat)
    requires WideFits(ib, hb, j)
    ensures ReadWide(ib, hb, j) == ReadSplit(ib, hb, j)
  {
  }

  // ---------------------------------------------------------------------
  // Heap sizing
  // ---------------------------------------------------------------------

  /** Bytes the heap buffer holds for nHeap slots: the first allocation is
      aligned_alloc(64, 64 * sizeof(T)); later ones hold the slots plus the
      2 bytes an 8-byte store into the last slot spills past it. */
  function HeapBytes(nHeap: nat): (bytes: nat)
    ensures nHeap >= HybridStack.FirstHeapSlots ==> SlotBytes * (nHeap - 1) + PointerBytes <= bytes
  {
    if nHeap == HybridStack.FirstHeapSlots then HybridStack.FirstHeapSlots * PointerBytes
    else SlotBytes * nHeap + (PointerBytes - SlotBytes)
  }

  /** realloc(heap, _n_memb_heap * 2 * freePtrSize) as written. */
  function GrownHeapBytesAsWritten(nHeap: nat): (bytes: nat)
    ensures nHeap >= 1 ==> SlotBytes * (2 * nHeap - 1) + PointerBytes == bytes + 2
  {
    nHeap * 2 * SlotBytes
  }

  /** The doubled buffer as written: the 8-byte store into its last slot
      ends 2 bytes past the block. */
  lemma LastSlotOverrunsAsWritten(nHeap: nat)
    requires HybridStack.IsHeapCapacity(nHeap)
    ensures SlotBytes * (2 * nHeap - 1) + PointerBytes > GrownHeapBytesAsWritten(nHeap)
  {
    HybridStack.HeapCapacityAtLeastFirst(nHeap);
  }

  /** The doubled buffer with the 2 bytes of slack: every slot, including
      the last, takes its 8-byte store, and the old bytes still fit. */
  lemma GrownHeapHoldsStores(nHeap: nat)
    requires HybridStack.IsHeapCapacity(nHeap)
    ensures SlotBytes * (2 * nHeap - 1) + PointerBytes <= HeapBytes(2 * nHeap)
    ensures HeapBytes(nHeap) <= HeapBytes(2 * nHeap)
  {
    HybridStack.HeapCapacityAtLeastFirst(nHeap);
  }

  /** *reinterpret_cast<intptr_t *>(a + off) = v on an array. */
  method Store64At(a: array<bv8>, off: nat, v: bv64)
    requires off + 8 <= a.Length
    modifies a
    ensures a[..] == Store64(old(a[..]), off, v)
  {
    var bytes := LeBytes(v);
    forall k | 0 <= k < 8 {
      a[off + k] := bytes[k];
    }
  }

  // ---------------------------------------------------------------------
  // The stack
  // ---------------------------------------------------------------------

  class Experimental48BPStack {
    /** stack_allocated_array */
    const inline: array<bv8>
    /** index (int16) */
    var index: nat
    /** _n_memb_heap: heap slots, 0 while there is no heap buffer. */
    var nHeap: nat
    /** heap_allocated_array */
    var heap: array?<bv8>

    predicate Valid()
      reads this
    {
      && inline.Length == InlineBytes
      && (heap == null <==> nHeap == 0)
      && (heap != null ==> HybridStack.IsHeapCapacity(nHeap) && heap.Length == HeapBytes(nHeap) && heap != inline)
      && (heap != null ==> SlotBytes * nHeap + (PointerBytes - SlotBytes) <= heap.Length)
      && nHeap <= HybridStack.MaxHeapSlots
      && index <= InlineSlots + nHeap && index <= MaxIndex
    }

    function HeapContents(): seq<bv8>
      reads this, heap
    {
      if heap == null then [] else heap[..]
    }

    /** The 48-bit values of the live slots, bottom to top. */
    function Contents(): (s: seq<bv64>)
      reads this, inline, heap
      requires Valid()
      ensures |s| == index
    {
      Slots(inline[..], HeapContents(), index)
    }

    /** An empty stack with no heap buffer. */
    constructor ()
      ensures Valid() && Contents() == [] && fresh(inline) && heap == null && nHeap == 0
    {
      inline := new bv8[InlineBytes];
      index := 0;
      nHeap := 0;
      heap := null;
    }

    /** size() */
    function Size(): (n: nat)
      reads this, inline, heap
      requires Valid()
      ensures n == |Contents()|
    {
      index
    }

    /** top() with 8-byte loads. */
    function TopWide(): (v: bv64)
      reads this, inline, heap
      requires Valid() && index > 0
      ensures v == Contents()[index - 1]
    {
      ReadWide(inline[..], HeapContents(), index - 1)
    }

    /** top() under EXPSTACK_PREVENT_PAGE_RELOAD. */
    function TopSplit(): (v: bv64)
      reads this, inline, heap
      requires Valid() && index > 0
      ensures v == Contents()[index - 1]
    {
      ReadSplit(inline[..], HeapContents(), index - 1)
    }

    /** push(t): the 8 bytes of t go to slot index (in the object for the
        first 8 slots, then in the heap buffer), growing the heap buffer as
        Stack does; the int16 index stops at 32767. */
    method Push(t: bv64)
      requires Valid() && index < MaxIndex
      modifies this, inline, heap
      ensures Valid() && Contents() == old(Contents()) + [t & Low48]
      ensures old(index) < InlineSlots || old(index) - InlineSlots < old(nHeap) ==>
                heap == old(heap) && nHeap == old(nHeap)
      ensures old(heap) == null && old(index) >= InlineSlots ==>
                fresh(heap) && nHeap == HybridStack.FirstHeapSlots
      ensures old(heap) != null && old(index) == InlineSlots + old(nHeap) ==>
                fresh(heap) && nHeap == 2 * old(nHeap)
    {
      if index < InlineSlots {
        StoreInline(t);
      } else if heap != null && index - InlineSlots < nHeap {
        StoreHeap(t);
      } else if heap != null {
        Grow();
        StoreHeap(t);
      } else {
        AllocateHeap();
        StoreHeap(t);
      }
    }

    /** The store of push into slot index of the object's bytes. */
    method StoreInline(t: bv64)
      requires Valid() && index < InlineSlots
      modifies this, inline
      ensures Valid() && Contents() == old(Contents()) + [t & Low48]
      ensures heap == old(heap) && nHeap == old(nHeap)
    {
      PushInline(inline[..], HeapContents(), index, t);
      Store64At(inline, SlotBytes * index, t);
      index := index + 1;
    }

    /** The store of push into a free slot of the heap buffer. */
    method StoreHeap(t: bv64)
      requires Valid() && heap != null && InlineSlots <= index < InlineSlots + nHeap
      requires index < MaxIndex
      modifies this, heap
      ensures Valid() && Contents() == old(Contents()) + [t & Low48]
      ensures heap == old(heap) && nHeap == old(nHeap)
    {
      PushHeap(inline[..], heap[..], index, t);
      Store64At(heap, SlotBytes * (index - InlineSlots), t);
      index := index + 1;
    }

    /** The first overflow: aligned_alloc(64, 64 * sizeof(T)). */
    method AllocateHeap()
      requires Valid() && heap == null && index >= InlineSlots
      modifies this
      ensures Valid() && Contents() == old(Contents()) && index == old(index)
      ensures fresh(heap) && nHeap == HybridStack.FirstHeapSlots
    {
      var first := new bv8[HybridStack.FirstHeapSlots * PointerBytes];
      SlotsKeptByPrefix(inline[..], [], first[..], index);
      heap := first;
      nHeap := HybridStack.FirstHeapSlots;
    }

    /** The realloc branch of push: the heap buffer moves to a block of twice
        the slots (and the 2 spill bytes), keeping its bytes. */
    method Grow()
      requires Valid() && heap != null && index == InlineSlots + nHeap && index < MaxIndex
      modifies this
      ensures Valid() && Contents() == old(Contents())
      ensures fresh(heap) && nHeap == 2 * old(nHeap) && index == old(index)
    {
      assert HybridStack.IsHeapCapacity(2 * nHeap);
      assert HybridStack.IsHeapCapacity(HybridStack.MaxHeapSlots);
      HybridStack.HeapCapacityGap(nHeap, HybridStack.MaxHeapSlots);
      GrownHeapHoldsStores(nHeap);
      var bigger := Reallocate(heap, HeapBytes(2 * nHeap), 0);
      SlotsKeptByPrefix(inline[..], heap[..], bigger[..], index);
      heap := bigger;
      nHeap := 2 * nHeap;
    }

    /** pop(): returns top() and drops it. */
    method Pop() returns (t: bv64)
      requires Valid() && index > 0
      modifies this
      ensures Valid() && heap == old(heap) && nHeap == old(nHeap)
      ensures t == old(TopWide())
      ensures old(Contents()) == Contents() + [t]
    {
      ghost var ib, hb := inline[..], HeapContents();
      t := TopWide();
      SlotsPrefix(ib, hb, index);
      index := index - 1;
      assert inline[..] == ib && HeapContents() == hb;
    }
  }

  /** A 48-bit address keeps its value through the mask. */
  lemma AddressSurvivesMask(t: bv64)
    requires Is48Bit(t)
    ensures t & Low48 == t
  {
  }

  /** An x86-64 address with 48 significant bits. */
  predicate Is48Bit(t: bv64)
  {
    t & 0xffff_0000_0000_0000 == 0
  }

  /** push for each address of xs in turn. */
  method PushAll(s: Experimental48BPStack, xs: seq<bv64>)
    requires s.Valid() && s.index + |xs| <= MaxIndex
    requires forall k :: 0 <= k < |xs| ==> Is48Bit(xs[k])
    modifies s, s.inline, s.heap
    ensures s.Valid() && s.Contents() == old(s.Contents()) + xs
    ensures s.heap == old(s.heap) || fresh(s.heap)
  {
    ghost var start := s.Contents();
    var i := 0;
    while i < |xs|
      invariant 0 <= i <= |xs|
      invariant s.Valid() && s.Contents() == start + xs[..i]
      invariant s.heap == old(s.heap) || fresh(s.heap)
    {
      ghost var before := s.Contents();
      AddressSurvivesMask(xs[i]);
      s.Push(xs[i]);
      assert s.Contents() == before + [xs[i]];
      assert xs[..i + 1] == xs[..i] + [xs[i]];
      i := i + 1;
    }
    assert xs[..i] == xs;
  }

  /** One pop of PopMany: the popped value joins the reversed suffix. */
  method PopOnto(s: Experimental48BPStack, ghost start: seq<bv64>, ys: seq<bv64>) returns (zs: seq<bv64>)
    requires s.Valid() && s.index > 0 && start == s.Contents() + HybridStack.Reversed(ys)
    modifies s
    ensures s.Valid() && s.heap == old(s.heap) && s.index == old(s.index) - 1
    ensures start == s.Contents() + HybridStack.Reversed(zs) && |zs| == |ys| + 1
  {
    var t := s.Pop();
    HybridStack.ReversedSnoc(ys, t);
    zs := ys + [t];
  }

  /** pop n times: the values come back top first. */
  method PopMany(s: Experimental48BPStack, n: nat) returns (ys: seq<bv64>)
    requires s.Valid() && n <= |s.Contents()|
    modifies s
    ensures s.Valid() && s.heap == old(s.heap)
    ensures old(s.Contents()) == s.Contents() + HybridStack.Reversed(ys)
    ensures |ys| == n
  {
    ghost var start := s.Contents();
    ys := [];
    var i := 0;
    while i < n
      invariant 0 <= i <= n && s.index == |start| - i
      invariant s.Valid() && s.heap == old(s.heap)
      invariant start == s.Contents() + HybridStack.Reversed(ys)
      invariant |ys| == i
    {
      ys := PopOnto(s, start, ys);
      i := i + 1;
    }
  }

  /** Pushing 48-bit addresses and popping as many returns them reversed,
      although every push also wrote two bytes into the following slot, and
      leaves the stack as it was. */
  method PushAllPopAll(s: Experimental48BPStack, xs: seq<bv64>) returns (ys: seq<bv64>)
    requires s.Valid() && s.index + |xs| <= MaxIndex
    requires forall k :: 0 <= k < |xs| ==> Is48Bit(xs[k])
    modifies s, s.inline, s.heap
    ensures s.Valid() && s.Contents() == old(s.Contents())
    ensures ys == HybridStack.Reversed(xs)
  {
    ghost var start := s.Contents();
    PushAll(s, xs);
    ys := PopMany(s, |xs|);
    HybridStack.ReversedCancels(start, xs, s.Contents(), ys);
  }
}
