/** A 64-bit word holding a 48-bit address in its low bits and up to two bytes of
    auxiliary fields in its high 16 bits (PointerWithStorage).

    The auxiliary fields are described by the list of their byte widths in declaration
    order; a field is named by its position in that list, which stands for the
    compile-time lookup by type (positions are distinct, so the "no duplicate types"
    rule holds by construction). A field value is the number its bytes spell in
    little-endian order, so a value of a w-byte field is below 256^w. */
module TaggedPointer {

  /** The low 48 bits: the address part of the word. */
  const LowMask: bv64 := 0x0000_ffff_ffff_ffff
  /** The high 16 bits: the auxiliary part of the word. */
  const HighMask: bv64 := 0xffff_0000_0000_0000

  /** Total byte width of a field list (sum_sizeof). */
  function Sum(widths: seq<nat>): nat
  {
    if widths == [] then 0 else widths[0] + Sum(widths[1..])
  }

  /** What the static_asserts demand of the field list: every field a real type
      (at least one byte) and at most two bytes in all. */
  predicate ValidWidths(widths: seq<nat>)
  {
    (forall i :: 0 <= i < |widths| ==> 1 <= widths[i] <= 2) && Sum(widths) <= 2
  }

  /** The low w bytes set, for the widths a field can have: the value of
      (1U << (8 * w)) - 1 truncated to 16 bits (MaskIsShiftedOne). A value fits a
      w-byte field when it is at most this mask. */
  function Mask(w: nat): bv16
    requires w <= 2
  {
    if w == 0 then 0 else if w == 1 then 0xff else 0xffff
  }

  /** Mask(w) is the source's (1U << (thisSize * 8)) - 1, cut to a uint16. */
  lemma MaskIsShiftedOne(w: nat)
    requires w <= 2
    ensures Mask(w) == (((1 as bv32) << (8 * w)) - 1) as bv16
  {
    if w == 0 { assert 8 * w == 0; } else if w == 1 { assert 8 * w == 8; } else { assert 8 * w == 16; }
  }

  /** x << (8 * n) on a uint16, for the byte counts n a shift can have here. */
  function ShiftUpBytes(x: bv16, n: nat): bv16
    requires n <= 2
  {
    if n == 0 then x else if n == 1 then x << 8 else 0
  }

  /** x >> (8 * n) on a uint16, for the byte counts n a shift can have here. */
  function ShiftDownBytes(x: bv16, n: nat): bv16
    requires n <= 2
  {
    if n == 0 then x else if n == 1 then x >> 8 else 0
  }

  lemma ShiftUpBytesIsShift(x: bv16, n: nat)
    requires n <= 2
    ensures ShiftUpBytes(x, n) == x << (8 * n)
  {
    if n == 0 { assert 8 * n == 0; } else if n == 1 { assert 8 * n == 8; } else { assert 8 * n == 16; }
  }

  lemma ShiftDownBytesIsShift(x: bv16, n: nat)
    requires n <= 2
    ensures ShiftDownBytes(x, n) == x >> (8 * n)
  {
    if n == 0 { assert 8 * n == 0; } else if n == 1 { assert 8 * n == 8; } else { assert 8 * n == 16; }
  }

  /** Every value fits the byte width of its field (stated field by field, first
      field first; FieldsFitAt gives the indexed form). */
  predicate FieldsFit(widths: seq<nat>, values: seq<bv16>)
    requires |widths| == |values| && ValidWidths(widths)
  {
    widths == [] || (values[0] <= Mask(widths[0]) && FieldsFit(widths[1..], values[1..]))
  }

  /** The value of every field fits its width. */
  lemma {:induction false} FieldsFitAt(widths: seq<nat>, values: seq<bv16>, i: nat)
    requires |widths| == |values| && ValidWidths(widths) && FieldsFit(widths, values)
    requires i < |widths|
    ensures values[i] <= Mask(widths[i])
  {
    if i > 0 {
      TailFits(widths, values);
      FieldsFitAt(widths[1..], values[1..], i - 1);
    }
  }

  /** Byte offset of field i inside the high 16 bits (accumulateBefore): the widths of
      the fields declared before it, added up. The field ends within the list's total. */
  function Offset(widths: seq<nat>, i: nat): (off: nat)
    requires i < |widths|
    ensures off + widths[i] <= Sum(widths)
  {
    if i == 0 then 0 else widths[0] + Offset(widths[1..], i - 1)
  }

  /** The offset of field i is the total width of the fields before it. */
  lemma {:induction false} OffsetIsSumBefore(widths: seq<nat>, i: nat)
    requires i < |widths|
    ensures Offset(widths, i) == Sum(widths[..i])
  {
    if i > 0 {
      OffsetIsSumBefore(widths[1..], i - 1);
      assert widths[..i][1..] == widths[1..][..i - 1];
    }
  }

  /** Fields occupy disjoint byte ranges: a field declared earlier ends at or before
      the start of every field declared after it. */
  lemma {:induction false} FieldsDisjoint(widths: seq<nat>, i: nat, j: nat)
    requires i < j < |widths|
    ensures Offset(widths, i) + widths[i] <= Offset(widths, j)
  {
    if i > 0 {
      FieldsDisjoint(widths[1..], i - 1, j - 1);
    }
  }

  /** The w bytes at byte offset off of a 16-bit value: (top >> (8 * off)) & Mask(w). */
  function FieldAt(top: bv16, off: nat, w: nat): (r: bv16)
    requires off + w <= 2
    ensures r <= Mask(w)
  {
    ShiftDownBytes(top, off) & Mask(w)
  }

  /** A 16-bit value with the w bytes at offset off cleared and v ORed in there:
      (top & ~(Mask(w) << (8 * off))) | (v << (8 * off)). */
  function PutField(top: bv16, off: nat, w: nat, v: bv16): bv16
    requires off + w <= 2
  {
    (top & !ShiftUpBytes(Mask(w), off)) | ShiftUpBytes(v, off)
  }

  /** The high 16 bits of the word, as the uint16 the source shifts them into
      ((data & HighMask) >> 48; the mask is redundant once the shift has run). */
  function Top(data: bv64): bv16
  {
    (data >> 48) as bv16
  }

  /** A word made of the low 48 bits of low and the 16 bits top above them. */
  function Join(low: bv64, top: bv16): bv64
  {
    (low & LowMask) | ((top as bv64) << 48)
  }

  /** getPointer: the low 48 bits.  Its high 16 bits are clear, and joined with the
      high 16 bits of the word it gives the word back. */
  function PointerOf(data: bv64): (r: bv64)
    ensures r & HighMask == 0
    ensures Join(r, Top(data)) == data
  {
    data & LowMask
  }

  /** The thisSize bytes at byte cumSize of the high 16 bits (storage); the result fits
      in 8*thisSize bits. */
  function Storage(data: bv64, cumSize: nat, thisSize: nat): (r: bv16)
    requires cumSize + thisSize <= 2
    ensures r <= Mask(thisSize)
  {
    FieldAt(Top(data), cumSize, thisSize)
  }

  /** Dropping the first field keeps the list valid and the values fitting. */
  lemma TailFits(widths: seq<nat>, values: seq<bv16>)
    requires |widths| == |values| && ValidWidths(widths) && FieldsFit(widths, values)
    requires widths != []
    ensures ValidWidths(widths[1..]) && FieldsFit(widths[1..], values[1..])
  {
    assert forall k :: 0 <= k < |widths| - 1 ==> widths[1..][k] == widths[k + 1];
  }

  /** The auxiliary values packed little-endian in declaration order (packImpl): each
      value's bytes, then the remaining values shifted past them. The packed value
      uses no more bytes than the fields' total width. */
  function PackImpl(widths: seq<nat>, values: seq<bv16>): (r: bv16)
    requires |widths| == |values| && ValidWidths(widths) && FieldsFit(widths, values)
    ensures r <= Mask(Sum(widths))
    decreases |widths|
  {
    if widths == [] then 0
    else
      var rest, restValues := widths[1..], values[1..];
      TailFits(widths, values);
      var partial := values[0];
      var upper := PackImpl(rest, restValues);
      PackBound(partial, upper, widths[0], Sum(rest));
      partial | ShiftUpBytes(upper, widths[0])
  }

  /** The word the two-argument constructor builds: packed fields in the high 16 bits,
      the address with its high 16 bits cleared in the low 48.  The pointer reads back
      as the address masked to 48 bits and every field as the value passed for it. */
  function Construct(ptr: bv64, widths: seq<nat>, values: seq<bv16>): (r: bv64)
    requires |widths| == |values| && ValidWidths(widths) && FieldsFit(widths, values)
    ensures PointerOf(r) == ptr & LowMask
    ensures forall i :: 0 <= i < |widths| ==> StorageOf(r, widths, i) == values[i]
  {
    var packed := PackImpl(widths, values);
    TopOfJoin(ptr, packed);
    PointerOfJoin(ptr, packed);
    PackImplFields(widths, values);
    Join(ptr, packed)
  }

  /** getStorage of field i: its bytes read back as a value of its width. */
  function StorageOf(data: bv64, widths: seq<nat>, i: nat): (v: bv16)
    requires ValidWidths(widths) && i < |widths|
    ensures v <= Mask(widths[i])
  {
    Storage(data, Offset(widths, i), widths[i])
  }

  /** setPointer: the high 16 bits of the old word with the low 48 bits of p.  The
      pointer reads back as p masked to 48 bits and the high 16 bits are kept. */
  function WithPointer(data: bv64, p: bv64): (r: bv64)
    ensures PointerOf(r) == p & LowMask
    ensures Top(r) == Top(data)
  {
    (data & HighMask) | (p & LowMask)
  }

  /** setStorage of field i: clear the field's bytes in the high 16 bits, OR in the new
      value at the field's offset, and keep the low 48 bits.  The field then reads back
      as the value written, and the pointer is unchanged. */
  function WithStorage(data: bv64, widths: seq<nat>, i: nat, v: bv16): (r: bv64)
    requires ValidWidths(widths) && i < |widths| && v <= Mask(widths[i])
    ensures StorageOf(r, widths, i) == v
    ensures PointerOf(r) == PointerOf(data)
  {
    var off, w := Offset(widths, i), widths[i];
    var top := PutField(Top(data), off, w, v);
    TopOfJoin(data, top);
    PointerOfJoin(data, top);
    FieldWriteRead(Top(data), off, w, v);
    Join(data, top)
  }

  // ---------------------------------------------------------------------------
  // Bit-level facts, one per lemma

  /** The high 16 bits of a joined word are the ones joined in. */
  lemma TopOfJoin(low: bv64, top: bv16)
    ensures Top(Join(low, top)) == top
  {
  }

  /** The low 48 bits of a joined word are those of low. */
  lemma PointerOfJoin(low: bv64, top: bv16)
    ensures PointerOf(Join(low, top)) == low & LowMask
  {
  }

  // One lemma per byte layout of the 16 high bits: a one-byte field at byte 0 or at
  // byte 1, or a two-byte field at byte 0.

  lemma WriteReadLowByte(top: bv16, v: bv16)
    requires v <= 0xff
    ensures ((top & !0xff) | v) & 0xff == v
  {
  }

  lemma WriteReadHighByte(top: bv16, v: bv16)
    requires v <= 0xff
    ensures (((top & !(0xff << 8)) | (v << 8)) >> 8) & 0xff == v
  {
  }

  lemma WriteReadBothBytes(top: bv16, v: bv16)
    ensures ((top & !0xffff) | v) & 0xffff == v
  {
  }

  lemma WriteLowKeepsHigh(top: bv16, v: bv16)
    requires v <= 0xff
    ensures (((top & !0xff) | v) >> 8) & 0xff == (top >> 8) & 0xff
  {
  }

  lemma WriteHighKeepsLow(top: bv16, v: bv16)
    ensures ((top & !(0xff << 8)) | (v << 8)) & 0xff == top & 0xff
  {
  }

  lemma PackedLowByte(partial: bv16, upper: bv16)
    requires partial <= 0xff
    ensures (partial | (upper << 8)) & 0xff == partial
  {
  }

  lemma PackedHighByte(partial: bv16, upper: bv16)
    requires partial <= 0xff
    ensures ((partial | (upper << 8)) >> 8) & 0xff == upper & 0xff
  {
  }

  lemma PackedBothBytes(partial: bv16, upper: bv16)
    ensures (partial | (upper << 16)) & 0xffff == partial
  {
  }

  /** Reading back a field just written at (off, w) gives the value written. */
  lemma FieldWriteRead(top: bv16, off: nat, w: nat, v: bv16)
    requires off + w <= 2 && 1 <= w && v <= Mask(w)
    ensures FieldAt(PutField(top, off, w, v), off, w) == v
  {
    if off == 0 && w == 1 {
      WriteReadLowByte(top, v);
    } else if off == 0 {
      WriteReadBothBytes(top, v);
    } else {
      WriteReadHighByte(top, v);
    }
  }

  /** Writing a field at (off, w) leaves the bytes of a disjoint field (off2, w2) alone. */
  lemma FieldWriteOther(top: bv16, off: nat, w: nat, v: bv16, off2: nat, w2: nat)
    requires off + w <= 2 && off2 + w2 <= 2 && 1 <= w && 1 <= w2 && v <= Mask(w)
    requires off + w <= off2 || off2 + w2 <= off
    ensures FieldAt(PutField(top, off, w, v), off2, w2) == FieldAt(top, off2, w2)
  {
    if off == 0 {
      assert w == 1 && off2 == 1 && w2 == 1;
      WriteLowKeepsHigh(top, v);
    } else {
      assert off == 1 && w == 1 && off2 == 0 && w2 == 1;
      WriteHighKeepsLow(top, v);
    }
  }

  lemma PackedOneByte(partial: bv16)
    requires partial <= 0xff
    ensures (partial | (0 << 8)) <= 0xff
  {
  }

  lemma PackedTwoOneByteFields(partial: bv16, upper: bv16)
    requires partial <= 0xff && upper <= 0xff
    ensures (partial | (upper << 8)) <= 0xffff
  {
  }

  lemma PackedOneTwoByteField(partial: bv16, upper: bv16)
    requires upper == 0
    ensures (partial | (upper << 16)) <= 0xffff
  {
  }

  /** Packing a first field of w0 bytes before rest bytes of further fields uses no
      more than w0 + rest bytes. */
  lemma PackBound(partial: bv16, upper: bv16, w0: nat, restWidth: nat)
    requires 1 <= w0 && w0 + restWidth <= 2 && partial <= Mask(w0) && upper <= Mask(restWidth)
    ensures partial | ShiftUpBytes(upper, w0) <= Mask(w0 + restWidth)
  {
    if w0 == 2 {
      PackedOneTwoByteField(partial, upper);
    } else if restWidth == 0 {
      assert upper == 0;
      PackedOneByte(partial);
    } else {
      PackedTwoOneByteFields(partial, upper);
    }
  }

  /** Reading the first field of (partial | upper << 8*w0) gives partial. */
  lemma PackHead(partial: bv16, upper: bv16, w0: nat)
    requires 1 <= w0 <= 2 && partial <= Mask(w0)
    ensures FieldAt(partial | ShiftUpBytes(upper, w0), 0, w0) == partial
  {
    if w0 == 1 {
      PackedLowByte(partial, upper);
    } else {
      PackedBothBytes(partial, upper);
    }
  }

  /** Reading a later field of packed = (partial | upper << 8*w0) reads it from upper. */
  lemma PackTail(packed: bv16, partial: bv16, upper: bv16, w0: nat, off: nat, w: nat)
    requires 1 <= w0 && 1 <= w && w0 + off + w <= 2 && partial <= Mask(w0)
    requires packed == partial | ShiftUpBytes(upper, w0)
    ensures FieldAt(packed, w0 + off, w) == FieldAt(upper, off, w)
  {
    PackedHighByte(partial, upper);
  }

  /** One step of packImpl: the first value, then the packed rest above it. */
  lemma PackImplUnfold(widths: seq<nat>, values: seq<bv16>)
    requires |widths| == |values| && ValidWidths(widths) && FieldsFit(widths, values)
    requires widths != []
    ensures ValidWidths(widths[1..]) && FieldsFit(widths[1..], values[1..])
    ensures PackImpl(widths, values) == values[0] | ShiftUpBytes(PackImpl(widths[1..], values[1..]), widths[0])
  {
    TailFits(widths, values);
  }

  /** The first field of a non-empty list is one or two bytes wide and its value fits. */
  lemma HeadFits(widths: seq<nat>, values: seq<bv16>) returns (w0: nat, v0: bv16)
    requires |widths| == |values| && ValidWidths(widths) && FieldsFit(widths, values)
    requires widths != []
    ensures w0 == widths[0] && v0 == values[0]
    ensures 1 <= w0 <= 2 && v0 <= Mask(w0)
  {
    w0, v0 := widths[0], values[0];
  }

  /** The first field of a packed value holds values[0]. */
  lemma {:induction false} PackImplFirstField(widths: seq<nat>, values: seq<bv16>)
    requires |widths| == |values| && ValidWidths(widths) && FieldsFit(widths, values)
    requires widths != []
    ensures FieldAt(PackImpl(widths, values), 0, widths[0]) == values[0]
  {
    var w0, v0 := HeadFits(widths, values);
    PackImplUnfold(widths, values);
    PackHead(v0, PackImpl(widths[1..], values[1..]), w0);
  }

  /** Field i of a packed value holds values[i]. */
  lemma {:induction false} PackImplField(widths: seq<nat>, values: seq<bv16>, i: nat)
    requires |widths| == |values| && ValidWidths(widths) && FieldsFit(widths, values)
    requires i < |widths|
    ensures FieldAt(PackImpl(widths, values), Offset(widths, i), widths[i]) == values[i]
  {
    if i == 0 {
      PackImplFirstField(widths, values);
    } else {
      var rest, restValues := widths[1..], values[1..];
      PackImplUnfold(widths, values);
      var off := Offset(rest, i - 1);
      PackImplField(rest, restValues, i - 1);
      PackTail(PackImpl(widths, values), values[0], PackImpl(rest, restValues), widths[0], off, rest[i - 1]);
    }
  }

  /** Every field of a packed value holds its value. */
  lemma PackImplFields(widths: seq<nat>, values: seq<bv16>)
    requires |widths| == |values| && ValidWidths(widths) && FieldsFit(widths, values)
    ensures forall i :: 0 <= i < |widths| ==>
              FieldAt(PackImpl(widths, values), Offset(widths, i), widths[i]) == values[i]
  {
    forall i | 0 <= i < |widths|
      ensures FieldAt(PackImpl(widths, values), Offset(widths, i), widths[i]) == values[i]
    {
      PackImplField(widths, values, i);
    }
  }

  // ---------------------------------------------------------------------------
  // The promises of the constructor and the accessors

  /** getStorage never depends on the pointer bits: words with the same high 16 bits
      agree on every field. */
  lemma StorageIgnoresPointer(data: bv64, other: bv64, widths: seq<nat>, i: nat)
    requires ValidWidths(widths) && i < |widths|
    requires Top(other) == Top(data)
    ensures StorageOf(other, widths, i) == StorageOf(data, widths, i)
  {
  }

  /** setPointer then getPointer gives p masked to 48 bits, and every auxiliary field
      reads as before. */
  lemma SetPointerRoundTrip(data: bv64, p: bv64, widths: seq<nat>)
    requires ValidWidths(widths)
    ensures PointerOf(WithPointer(data, p)) == p & LowMask
    ensures forall i :: 0 <= i < |widths| ==> StorageOf(WithPointer(data, p), widths, i) == StorageOf(data, widths, i)
  {
    var r := WithPointer(data, p);
    forall i | 0 <= i < |widths| ensures StorageOf(r, widths, i) == StorageOf(data, widths, i) {
      StorageIgnoresPointer(data, r, widths, i);
    }
  }

  /** setStorage leaves every other field unchanged. */
  lemma SetStorageFrame(data: bv64, widths: seq<nat>, i: nat, v: bv16)
    requires ValidWidths(widths) && i < |widths| && v <= Mask(widths[i])
    ensures forall j :: 0 <= j < |widths| && j != i ==>
              StorageOf(WithStorage(data, widths, i, v), widths, j) == StorageOf(data, widths, j)
  {
    var off, w := Offset(widths, i), widths[i];
    var newTop := PutField(Top(data), off, w, v);
    TopOfJoin(data, newTop);
    forall j | 0 <= j < |widths| && j != i
      ensures StorageOf(WithStorage(data, widths, i, v), widths, j) == StorageOf(data, widths, j)
    {
      if i < j { FieldsDisjoint(widths, i, j); } else { FieldsDisjoint(widths, j, i); }
      FieldWriteOther(Top(data), off, w, v, Offset(widths, j), widths[j]);
    }
  }

  /** The tagged word as an object whose single field `data` the setters overwrite. */
  class PointerWithStorage {
    const widths: seq<nat>
    var data: bv64

    /** The field widths are a valid layout of the 16 auxiliary bits. */
    predicate Valid()
    {
      ValidWidths(widths)
    }

    /** Stores ptr in the low 48 bits and packs values into the high 16 bits. */
    constructor (ptr: bv64, widths: seq<nat>, values: seq<bv16>)
      requires |widths| == |values| && ValidWidths(widths) && FieldsFit(widths, values)
      ensures Valid() && this.widths == widths
      ensures GetPointer() == ptr & LowMask
      ensures forall i :: 0 <= i < |widths| ==> GetStorage(i) == values[i]
    {
      this.widths := widths;
      data := Construct(ptr, widths, values);
    }

    /** The address: its high 16 bits are clear, and with the auxiliary bits it makes up
        the whole word. */
    function GetPointer(): (v: bv64)
      reads this
      ensures v & HighMask == 0
      ensures Join(v, Top(data)) == data
    {
      PointerOf(data)
    }

    function GetStorage(i: nat): (v: bv16)
      reads this
      requires Valid() && i < |widths|
      ensures v <= Mask(widths[i])
    {
      StorageOf(data, widths, i)
    }

    /** Replaces the address; the auxiliary bits and so the fields keep their values. */
    method SetPointer(p: bv64)
      requires Valid()
      modifies this
      ensures Valid()
      ensures GetPointer() == p & LowMask
      ensures Top(data) == old(Top(data))
      ensures forall i :: 0 <= i < |widths| ==> GetStorage(i) == old(GetStorage(i))
    {
      SetPointerRoundTrip(data, p, widths);
      data := WithPointer(data, p);
    }

    /** Replaces field i; the address and the other fields keep their values. */
    method SetStorage(i: nat, v: bv16)
      requires Valid() && i < |widths| && v <= Mask(widths[i])
      modifies this
      ensures Valid()
      ensures GetStorage(i) == v
      ensures GetPointer() == old(GetPointer())
      ensures forall j :: 0 <= j < |widths| && j != i ==> GetStorage(j) == old(GetStorage(j))
    {
      SetStorageFrame(data, widths, i, v);
      data := WithStorage(data, widths, i, v);
    }
  }
}
