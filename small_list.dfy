// A growable list whose size and capacity live in the 16 auxiliary bits of
// its buffer pointer (SmallSizeList).
//
// The auxiliary field is one uint16.  Its low 13 bits hold the size and its
// high 3 bits an exponent k; the capacity is 16 << k, at most 2048.  The
// uint16 is modelled as its numeric value (an int below 2^16): `>> 13` is
// `/ 8192`, `& ((1 << 13) - 1)` is `% 8192`, `(e << 13) | s` with s < 8192 is
// `e * 8192 + s`, and uint16 `+ 1` / `- 1` wrap modulo 2^16.

module SmallList {
  import opened TaggedPointer
  import opened Allocation

  type Uint16 = n: int | 0 <= n < 0x1_0000

  /** The field list of the list's pointer: a single 2-byte field. */
  const AuxField: seq<nat> := [2]

  const DefaultCapacity: nat := 16
  const MaxExponent: nat := 7
  const MaxCapacity: nat := 2048
  /** 1 << 13: the size occupies the bits below this one. */
  const SizeLimit: nat := 8192

  lemma AuxFieldValid()
    ensures ValidWidths(AuxField) && |AuxField| == 1 && AuxField[0] == 2
  {
    assert AuxField[1..] == [];
  }

  // ---------------------------------------------------------------------
  // The uint16 field value as bits and as a number
  // ---------------------------------------------------------------------

  /** The four bits of a hexadecimal digit. */
  function NibbleBits(d: int): (b: bv16)
    requires 0 <= d < 16
    ensures b <= 0xf
  {
    if d < 8 then
      (if d < 4 then (if d < 2 then (if d == 0 then 0x0 else 0x1) else (if d == 2 then 0x2 else 0x3))
       else (if d < 6 then (if d == 4 then 0x4 else 0x5) else (if d == 6 then 0x6 else 0x7)))
    else
      (if d < 12 then (if d < 10 then (if d == 8 then 0x8 else 0x9) else (if d == 10 then 0xa else 0xb))
       else (if d < 14 then (if d == 12 then 0xc else 0xd) else (if d == 14 then 0xe else 0xf)))
  }

  /** The digit held in the low four bits. */
  function NibbleValue(b: bv16): (d: int)
    ensures 0 <= d < 16
  {
    var x := b & 0xf;
    if x < 8 then
      (if x < 4 then (if x < 2 then (if x == 0 then 0 else 1) else (if x == 2 then 2 else 3))
       else (if x < 6 then (if x == 4 then 4 else 5) else (if x == 6 then 6 else 7)))
    else
      (if x < 12 then (if x < 10 then (if x == 8 then 8 else 9) else (if x == 10 then 10 else 11))
       else (if x < 14 then (if x == 12 then 12 else 13) else (if x == 14 then 14 else 15)))
  }

  lemma NibbleRoundTrip(d: int)
    requires 0 <= d < 16
    ensures NibbleValue(NibbleBits(d)) == d
  {
  }

  /** The numeric value of a 16-bit field, digit by hexadecimal digit. */
  function Uint16Value(b: bv16): Uint16
  {
    NibbleValue(b >> 12) * 4096 + NibbleValue(b >> 8) * 256 + NibbleValue(b >> 4) * 16 + NibbleValue(b)
  }

  /** The 16-bit field holding the number n. */
  function Uint16Bits(n: Uint16): bv16
  {
    (NibbleBits(n / 4096) << 12) | (NibbleBits(n / 256 % 16) << 8)
    | (NibbleBits(n / 16 % 16) << 4) | NibbleBits(n % 16)
  }

  lemma NibblesApart(a: bv16, b: bv16, c: bv16, d: bv16)
    requires a <= 0xf && b <= 0xf && c <= 0xf && d <= 0xf
    ensures var w := (a << 12) | (b << 8) | (c << 4) | d;
      (w >> 12) & 0xf == a && (w >> 8) & 0xf == b && (w >> 4) & 0xf == c && w & 0xf == d
  {
  }

  lemma HexDigits(n: Uint16)
    ensures n / 4096 * 4096 + n / 256 % 16 * 256 + n / 16 % 16 * 16 + n % 16 == n
  {
    assert n / 256 == n / 4096 * 16 + n / 256 % 16;
    assert n / 16 == n / 256 * 16 + n / 16 % 16;
    assert n == n / 16 * 16 + n % 16;
  }

  lemma DigitsOfBits(n: Uint16)
    ensures var w := Uint16Bits(n);
      && NibbleValue(w >> 12) == n / 4096 && NibbleValue(w >> 8) == n / 256 % 16
      && NibbleValue(w >> 4) == n / 16 % 16 && NibbleValue(w) == n % 16
  {
    var a, b, c, d := n / 4096, n / 256 % 16, n / 16 % 16, n % 16;
    NibblesApart(NibbleBits(a), NibbleBits(b), NibbleBits(c), NibbleBits(d));
    NibbleRoundTrip(a);
    NibbleRoundTrip(b);
    NibbleRoundTrip(c);
    NibbleRoundTrip(d);
  }

  /** Reading back the bits written for a number gives that number. */
  lemma Uint16RoundTrip(n: Uint16)
    ensures Uint16Value(Uint16Bits(n)) == n
  {
    DigitsOfBits(n);
    HexDigits(n);
  }

  // ---------------------------------------------------------------------
  // Fields of the auxiliary word
  // ---------------------------------------------------------------------

  function Pow2(k: nat): (p: nat)
    ensures p >= 1
  {
    if k == 0 then 1 else 2 * Pow2(k - 1)
  }

  /** size(): the low 13 bits; what is left above them is a multiple of 2^13. */
  function SizeOf(aux: Uint16): (n: nat)
    ensures n < SizeLimit && (aux - n) % SizeLimit == 0
  {
    aux % SizeLimit
  }

  /** get_capacity_exponent(): the high 3 bits. */
  function ExponentOf(aux: Uint16): (e: nat)
    ensures e <= MaxExponent
  {
    aux / SizeLimit
  }

  /** capacity(): default_capacity << exponent. */
  function CapacityOf(e: nat): (c: nat)
    requires e <= MaxExponent
    ensures c >= DefaultCapacity
  {
    if e == 0 then DefaultCapacity else 2 * CapacityOf(e - 1)
  }

  /** With at most 3 exponent bits the capacity never passes 2048. */
  lemma {:induction false} CapacityAtMostMax(e: nat)
    requires e <= MaxExponent
    ensures CapacityOf(e) <= MaxCapacity
    decreases MaxExponent - e
  {
    if e < MaxExponent {
      CapacityAtMostMax(e + 1);
    }
  }

  /** (exponent << 13) | size, for a size that fits its 13 bits: the word
      reads back as that exponent and that size. */
  function Pack(e: nat, size: nat): (r: Uint16)
    requires e <= MaxExponent && size < SizeLimit
    ensures ExponentOf(r) == e && SizeOf(r) == size
  {
    e * SizeLimit + size
  }

  /** Every aux word is the packing of its own exponent and size. */
  lemma UnpackRoundTrip(aux: Uint16)
    ensures Pack(ExponentOf(aux), SizeOf(aux)) == aux
  {
  }

  /** The capacity is 16 * 2^k = 2^(k+4). */
  lemma {:induction false} CapacityIsPow2(e: nat)
    requires e <= MaxExponent
    ensures CapacityOf(e) == Pow2(e + 4)
  {
    if e == 0 {
      assert Pow2(4) == 16;
    } else {
      CapacityIsPow2(e - 1);
    }
  }

  /** The capacity is a power of two. */
  lemma CapacityIsPowerOfTwo(e: nat)
    requires e <= MaxExponent
    ensures CapacityOf(e) == Pow2(e + 4)
    ensures IsPowerOfTwo(CapacityOf(e))
  {
    CapacityIsPow2(e);
    Log2OfPow2(e + 4);
  }

  /** increment_capacity: the exponent grows by one and the size is kept;
      the source asserts the new exponent is at most 7. */
  function IncrementCapacity(aux: Uint16): (r: Uint16)
    requires ExponentOf(aux) < MaxExponent
    ensures ExponentOf(r) == ExponentOf(aux) + 1
    ensures SizeOf(r) == SizeOf(aux)
    ensures CapacityOf(ExponentOf(r)) == 2 * CapacityOf(ExponentOf(aux))
  {
    Pack(ExponentOf(aux) + 1, SizeOf(aux))
  }

  /** increment_size: uint16 + 1, with no check.  Below 8191 only the size
      changes; at 8191 the carry clears the size and bumps the exponent. */
  function IncrementSize(aux: Uint16): (r: Uint16)
    ensures SizeOf(aux) < SizeLimit - 1 ==>
              SizeOf(r) == SizeOf(aux) + 1 && ExponentOf(r) == ExponentOf(aux)
    ensures SizeOf(aux) == SizeLimit - 1 ==>
              SizeOf(r) == 0 && ExponentOf(r) == (ExponentOf(aux) + 1) % 8
  {
    (aux + 1) % 0x1_0000
  }

  /** decrement_size: uint16 - 1, with no check.  Above 0 only the size
      changes; at 0 the borrow sets the size to 8191 and lowers the exponent. */
  function DecrementSize(aux: Uint16): (r: Uint16)
    ensures SizeOf(aux) > 0 ==>
              SizeOf(r) == SizeOf(aux) - 1 && ExponentOf(r) == ExponentOf(aux)
    ensures SizeOf(aux) == 0 ==>
              SizeOf(r) == SizeLimit - 1 && ExponentOf(r) == (ExponentOf(aux) + 7) % 8
  {
    (aux + 0xffff) % 0x1_0000
  }

  /** Incrementing then decrementing the size restores the word, and so does
      decrementing then incrementing. */
  lemma IncrementDecrementSize(aux: Uint16)
    ensures DecrementSize(IncrementSize(aux)) == aux
    ensures IncrementSize(DecrementSize(aux)) == aux
  {
    DecrementUndoesIncrement(aux);
    IncrementUndoesDecrement(aux);
  }

  lemma DecrementUndoesIncrement(aux: Uint16)
    ensures DecrementSize(IncrementSize(aux)) == aux
  {
    var up := IncrementSize(aux);
    if aux == 0xffff {
      assert up == 0;
    } else {
      assert up == aux + 1;
    }
  }

  lemma IncrementUndoesDecrement(aux: Uint16)
    ensures IncrementSize(DecrementSize(aux)) == aux
  {
    var down := DecrementSize(aux);
    if aux == 0 {
      assert down == 0xffff;
    } else {
      assert down == aux - 1;
    }
  }

  /** What increment_capacity_and_size leaves behind: the word it stores,
      the capacity `16 << exponent` it would return, and whether it returns at
      all.  `completes` is false: its second assertion (1 == 0) can never hold
      when assertions are enabled. */
  datatype Completion = Completion(stored: Uint16, capacity: nat, completes: bool)

  /** increment_capacity_and_size as written, on the growth path of push_back.
      Below exponent 7 the stored word has the exponent raised and the size
      incremented.  At exponent 7 the raised exponent 8 no longer fits its 3
      bits: the stored word reads exponent 0 and the returned capacity is 4096. */
  function IncrementCapacityAndSizeAsWritten(aux: Uint16): (r: Completion)
    ensures !r.completes
    ensures ExponentOf(aux) < MaxExponent ==>
              r.stored == IncrementSize(IncrementCapacity(aux))
              && r.capacity == 2 * CapacityOf(ExponentOf(aux))
    ensures ExponentOf(aux) == MaxExponent ==>
              r.stored == IncrementSize(SizeOf(aux)) && r.capacity == 2 * MaxCapacity
  {
    var size := SizeOf(aux);
    var exponent := ExponentOf(aux) + 1;
    var packed := (exponent * SizeLimit + size) % 0x1_0000;
    assert exponent <= MaxExponent ==> packed == IncrementCapacity(aux);
    assert exponent > MaxExponent ==> packed == size;
    var stored := IncrementSize(packed);
    var capacity := if exponent <= MaxExponent then CapacityOf(exponent) else 2 * MaxCapacity;
    Completion(stored, capacity, exponent <= MaxExponent && 1 == 0)
  }

  /** With assertions disabled, growing a full list of 2048 elements stores
      size 2049 with exponent 0: the list then reports a capacity of 16, and
      the next growth reallocates the buffer down to 32 slots. */
  lemma GrowthPastMaxWraps()
    ensures var r := IncrementCapacityAndSizeAsWritten(Pack(MaxExponent, MaxCapacity));
            r.stored == 2049 && SizeOf(r.stored) == 2049 && ExponentOf(r.stored) == 0
            && r.capacity == 4096 && CapacityOf(ExponentOf(r.stored)) == DefaultCapacity
            && IncrementCapacityAndSizeAsWritten(r.stored).capacity == 32
  {
    var r := IncrementCapacityAndSizeAsWritten(Pack(MaxExponent, MaxCapacity));
    assert Pack(MaxExponent, MaxCapacity) == 7 * 8192 + 2048;
    assert r.stored == 2049;
  }

  // ---------------------------------------------------------------------
  // reserve's exponent: floor(log2 n) - 4
  // ---------------------------------------------------------------------

  /** (sizeof(int) * CHAR_BIT - 1) - __builtin_clz(n): floor of log2 n. */
  function Log2Floor(n: nat): (k: nat)
    requires n >= 1
    ensures Pow2(k) <= n < 2 * Pow2(k)
  {
    if n == 1 then 0 else 1 + Log2Floor(n / 2)
  }

  /** n & (n - 1) == 0 for a positive n. */
  predicate IsPowerOfTwo(n: int)
  {
    n >= 1 && Pow2(Log2Floor(n)) == n
  }

  /** IsPowerOfTwo holds exactly of the numbers 2^k. */
  lemma PowerOfTwoIff(n: int)
    ensures IsPowerOfTwo(n) <==> exists k: nat :: Pow2(k) == n
  {
    if exists k: nat :: Pow2(k) == n {
      var k: nat :| Pow2(k) == n;
      Log2OfPow2(k);
    }
  }

  lemma {:induction false} Log2OfPow2(k: nat)
    ensures Log2Floor(Pow2(k)) == k
  {
    if k > 0 {
      Log2OfPow2(k - 1);
      assert Pow2(k) / 2 == Pow2(k - 1);
    }
  }

  lemma {:induction false} Pow2Monotonic(a: nat, b: nat)
    requires a < b
    ensures Pow2(a) < Pow2(b)
  {
    if b > a + 1 {
      Pow2Monotonic(a, b - 1);
    }
  }

  /** The exponent reserve stores for n: the one whose capacity 2^(r+4) is the
      largest power of two not above n. */
  function ReserveExponent(n: nat): (r: nat)
    requires n > DefaultCapacity
    ensures Pow2(r + 4) <= n < 2 * Pow2(r + 4)
  {
    Log2Floor(n) - 4
  }

  /** For a power of two n with 16 < n <= 2048, the stored exponent is in
      range and the capacity it denotes is exactly n. */
  lemma ReserveExponentMeetsRequest(n: nat)
    requires DefaultCapacity < n <= MaxCapacity && IsPowerOfTwo(n)
    ensures 1 <= ReserveExponent(n) <= MaxExponent
    ensures CapacityOf(ReserveExponent(n)) == n
  {
    var k := Log2Floor(n);
    assert Pow2(4) == 16 && Pow2(11) == 2048;
    if k <= 4 {
      if k < 4 { Pow2Monotonic(k, 4); }
      assert false;
    }
    if k > 11 {
      Pow2Monotonic(11, k);
      assert false;
    }
    CapacityIsPowerOfTwo(k - 4);
  }

  /** With assertions disabled, reserve stores `(exponent << 13) | size` in a
      uint16 whatever n is: the bits above 16 drop, so the word keeps the size
      and the exponent modulo 8. */
  lemma ReserveWordAsWritten(n: nat, size: nat)
    requires n > DefaultCapacity && size < SizeLimit
    ensures var stored := (ReserveExponent(n) * SizeLimit + size) % 0x1_0000;
            ExponentOf(stored) == ReserveExponent(n) % 8 && SizeOf(stored) == size
  {
    WordDropsHighExponentBits(ReserveExponent(n), size);
  }

  lemma WordDropsHighExponentBits(e: nat, size: nat)
    requires size < SizeLimit
    ensures (e * SizeLimit + size) % 0x1_0000 == (e % 8) * SizeLimit + size
    ensures ExponentOf((e % 8) * SizeLimit + size) == e % 8
    ensures SizeOf((e % 8) * SizeLimit + size) == size
  {
    ExponentSplits(e);
    DropMultiple(e / 8, (e % 8) * SizeLimit + size);
    var low: Uint16 := (e % 8) * SizeLimit + size;
    UnpackRoundTrip(low);
  }

  /** e << 13 is the part of e above its low 3 bits, shifted past 16 bits, plus
      its low 3 bits shifted by 13. */
  lemma ExponentSplits(e: nat)
    ensures e * SizeLimit == (e / 8) * 0x1_0000 + (e % 8) * SizeLimit
  {
    var q, m := e / 8, e % 8;
    assert e == 8 * q + m;
    assert e * SizeLimit == (8 * q + m) * SizeLimit;
  }

  lemma DropMultiple(q: nat, low: nat)
    requires low < 0x1_0000
    ensures (q * 0x1_0000 + low) % 0x1_0000 == low
  {
  }

  /** reserve(4096) computes exponent 8, which the word keeps as 0: like
      push_back's growth at 2048, the capacity then reads 16. */
  lemma ReserveWrapsAt4096(size: nat)
    requires size < SizeLimit
    ensures ReserveExponent(4096) == 8
    ensures var stored := (ReserveExponent(4096) * SizeLimit + size) % 0x1_0000;
            ExponentOf(stored) == 0 && SizeOf(stored) == size
            && CapacityOf(ExponentOf(stored)) == DefaultCapacity
  {
    assert Pow2(12) == 4096;
    Log2OfPow2(12);
    ReserveWordAsWritten(4096, size);
  }

  // ---------------------------------------------------------------------
  // remove: the first occurrence goes, the rest keep their order
  // ---------------------------------------------------------------------

  /** s without its first element equal to t (s itself when t is absent). */
  function RemoveFirst<T(==)>(s: seq<T>, t: T): (r: seq<T>)
    ensures t in s ==> |r| == |s| - 1
    ensures t !in s ==> r == s
  {
    if s == [] then []
    else if s[0] == t then s[1..]
    else [s[0]] + RemoveFirst(s[1..], t)
  }

  /** The first occurrence of t is the last element exactly when t does not
      occur before the last position. */
  lemma FirstMatchIsLast<T>(s: seq<T>, t: T, i: nat)
    requires i < |s| && s[i] == t && t !in s[..i]
    ensures t !in s[..|s| - 1] <==> i == |s| - 1
  {
    if i < |s| - 1 {
      assert s[..|s| - 1][i] == t;
    } else {
      assert s[..|s| - 1] == s[..i];
    }
  }

  /** Removing the first occurrence at index i is cutting index i out. */
  lemma {:induction false} RemoveFirstAt<T>(s: seq<T>, t: T, i: nat)
    requires i < |s| && s[i] == t && t !in s[..i]
    ensures RemoveFirst(s, t) == s[..i] + s[i + 1..]
  {
    if i > 0 {
      assert s[0] in s[..i];
      assert s[1..][..i - 1] == s[1..i];
      RemoveFirstAt(s[1..], t, i - 1);
      assert s[..i] == [s[0]] + s[1..i];
      assert s[1..][i..] == s[i + 1..];
    }
  }

  /** Removing the first occurrence takes exactly one t out of the multiset. */
  lemma {:induction false} RemoveFirstMultiset<T>(s: seq<T>, t: T)
    ensures multiset(RemoveFirst(s, t)) == multiset(s) - multiset{t}
  {
    if s != [] {
      assert s == [s[0]] + s[1..];
      if s[0] != t {
        RemoveFirstMultiset(s[1..], t);
      }
    }
  }

  // ---------------------------------------------------------------------
  // malloc(sizeof(T *) * default_capacity)
  // ---------------------------------------------------------------------

  /** Slots of a T the constructor's allocation holds as written: the bytes
      of 16 pointers (8 bytes each), not of 16 elements. */
  function InitialSlotsAsWritten(elemSize: nat): (slots: nat)
    requires elemSize >= 1
    ensures elemSize <= 8 ==> slots >= DefaultCapacity
    ensures elemSize > 8 ==> slots < DefaultCapacity
  {
    (8 * DefaultCapacity) / elemSize
  }

  // ---------------------------------------------------------------------
  // The list
  // ---------------------------------------------------------------------

  datatype Failure = CapacityExhausted | ReserveTooLarge | ReserveNotPowerOfTwo

  /** Ok, or the assertion of the source that stops the program. */
  datatype Status = Ok | Failed(reason: Failure)

  /** memmove(a + i, a + i + 1, (s - i - 1) * sizeof(T)): slots i+1 .. s-1
      move down one; slot s-1 and everything after keep their old contents. */
  method CloseGap<T>(a: array<T>, i: nat, s: nat)
    requires i < s <= a.Length
    modifies a
    ensures a[..s - 1] == old(a[..i]) + old(a[i + 1..s])
    ensures a[s - 1..] == old(a[s - 1..])
  {
    ghost var before := a[..];
    var k := i;
    while k < s - 1
      invariant i <= k <= s - 1
      invariant a[..k] == before[..i] + before[i + 1..k + 1]
      invariant a[k..] == before[k..]
    {
      a[k] := a[k + 1];
      k := k + 1;
    }
  }

  class SmallSizeList<T(==)> {
    /** PointerWithStorage<T, uint16_t>: the buffer address and the aux word. */
    var ptr: bv64
    /** The elements the address points to. */
    var buf: array<T>
    /** The element whose bytes are all zero (what memset writes). */
    const zero: T

    function Aux(): Uint16
      reads this
    {
      AuxFieldValid();
      Uint16Value(StorageOf(ptr, AuxField, 0))
    }

    function Address(): bv64
      reads this
    {
      PointerOf(ptr)
    }

    function Size(): (n: nat)
      reads this
      ensures n < SizeLimit
    {
      SizeOf(Aux())
    }

    function CapacityExponent(): (e: nat)
      reads this
      ensures e <= MaxExponent
    {
      ExponentOf(Aux())
    }

    function Capacity(): (c: nat)
      reads this
      ensures DefaultCapacity <= c <= MaxCapacity
    {
      CapacityAtMostMax(ExponentOf(Aux()));
      CapacityOf(ExponentOf(Aux()))
    }

    /** The buffer holds exactly `capacity()` slots and the size fits in them. */
    predicate Valid()
      reads this
    {
      buf.Length == Capacity() && Size() <= Capacity()
    }

    /** The live elements, in order. */
    function Contents(): seq<T>
      reads this, buf
      requires Valid()
    {
      buf[..Size()]
    }

    /** A fresh list: 16 slots at addr, size 0 and exponent 0. */
    constructor (addr: bv64, zero: T)
      ensures Valid() && fresh(buf) && buf.Length == DefaultCapacity
      ensures Contents() == [] && CapacityExponent() == 0 && Capacity() == DefaultCapacity
      ensures Address() == addr & LowMask
    {
      this.zero := zero;
      buf := new T[DefaultCapacity](_ => zero);
      AuxFieldValid();
      ptr := Construct(addr, AuxField, [0]);
    }

    /** ptr.setStorage(aux): the address and the buffer are kept. */
    method SetAux(aux: Uint16)
      modifies this
      ensures Aux() == aux && Address() == old(Address())
      ensures buf == old(buf)
    {
      AuxFieldValid();
      var bits := Uint16Bits(aux);
      SetStorageFrame(ptr, AuxField, 0, bits);
      Uint16RoundTrip(aux);
      ptr := WithStorage(ptr, AuxField, 0, bits);
    }

    /** ptr.setPointer(p): the aux word and the buffer are kept. */
    method SetAddress(p: bv64)
      modifies this
      ensures Address() == p & LowMask && Aux() == old(Aux())
      ensures buf == old(buf)
    {
      AuxFieldValid();
      SetPointerRoundTrip(ptr, p, AuxField);
      ptr := WithPointer(ptr, p);
    }

    /** push_back.  With room, t goes to slot size and the size grows by one.
        On a full list the capacity doubles into a fresh buffer at grownAddr
        keeping the elements; at capacity 2048 the source's assertion fails. */
    method PushBack(t: T, grownAddr: bv64) returns (r: Status)
      requires Valid()
      modifies this, buf
      ensures Valid()
      ensures old(Size()) < old(Capacity()) ==>
                r == Ok && buf == old(buf) && buf[..] == old(buf[..])[old(Size()) := t]
                && CapacityExponent() == old(CapacityExponent()) && Address() == old(Address())
      ensures old(Size()) == old(Capacity()) && old(CapacityExponent()) < MaxExponent ==>
                r == Ok && fresh(buf) && CapacityExponent() == old(CapacityExponent()) + 1
                && Address() == grownAddr & LowMask
      ensures r == Ok ==> Contents() == old(Contents()) + [t] && Size() == old(Size()) + 1
      ensures old(Size()) == old(Capacity()) && old(CapacityExponent()) == MaxExponent ==>
                r == Failed(CapacityExhausted) && unchanged(this) && unchanged(buf)
    {
      var s := Size();
      var aux := Aux();
      if s < Capacity() {
        buf[s] := t;
        SetAux(IncrementSize(aux));
        r := Ok;
      } else if ExponentOf(aux) < MaxExponent {
        GrowAndAppend(t, grownAddr);
        r := Ok;
      } else {
        r := Failed(CapacityExhausted);
      }
    }

    /** The growth branch of push_back, with the capacity and the size raised
        as increment_capacity then increment_size do: the elements move to a
        fresh buffer of twice the capacity at grownAddr, then t is appended. */
    method GrowAndAppend(t: T, grownAddr: bv64)
      requires Valid() && Size() == Capacity() && CapacityExponent() < MaxExponent
      modifies this
      ensures Valid() && fresh(buf)
      ensures CapacityExponent() == old(CapacityExponent()) + 1
      ensures Address() == grownAddr & LowMask
      ensures Contents() == old(Contents()) + [t]
    {
      ghost var c := Contents();
      var s := Size();
      var grown := IncrementSize(IncrementCapacity(Aux()));
      SetAux(grown);
      var p := Reallocate(buf, CapacityOf(ExponentOf(grown)), zero);
      assert p[..s] == c;
      buf := p;
      SetAddress(grownAddr);
      buf[s] := t;
      assert buf[..s + 1] == c + [t];
    }

    /** reserve(n).  A request within the capacity is a no-op.  Otherwise n
        must be at most 2048 and a power of two; the capacity becomes n, the
        elements move to a fresh buffer at addr, and the size is kept. */
    method Reserve(n: int, addr: bv64) returns (r: Status)
      requires Valid()
      modifies this
      ensures Valid()
      ensures n <= old(Capacity()) ==> r == Ok && unchanged(this)
      ensures old(Capacity()) < n && n > MaxCapacity ==>
                r == Failed(ReserveTooLarge) && unchanged(this)
      ensures old(Capacity()) < n <= MaxCapacity && !IsPowerOfTwo(n) ==>
                r == Failed(ReserveNotPowerOfTwo) && unchanged(this)
      ensures old(Capacity()) < n <= MaxCapacity && IsPowerOfTwo(n) ==>
                r == Ok && Capacity() == n && Contents() == old(Contents())
                && fresh(buf) && Address() == addr & LowMask
    {
      if n <= Capacity() {
        return Ok;
      }
      if n > MaxCapacity {
        return Failed(ReserveTooLarge);
      }
      if !IsPowerOfTwo(n) {
        return Failed(ReserveNotPowerOfTwo);
      }
      ReserveExponentMeetsRequest(n);
      var exponent := ReserveExponent(n);
      var s := Size();
      SetAux(Pack(exponent, s));
      var p := Reallocate(buf, n, zero);
      buf := p;
      SetAddress(addr);
      r := Ok;
    }

    /** reserve(n) as written: the aux word takes the new capacity, but the
        block realloc returns is dropped, so the buffer keeps its old length
        and the list claims slots it does not have. */
    method ReserveAsWritten(n: int)
      requires Valid() && Capacity() < n <= MaxCapacity && IsPowerOfTwo(n)
      modifies this
      ensures Capacity() == n && buf == old(buf) && Address() == old(Address())
      ensures buf.Length < Capacity()
    {
      ReserveExponentMeetsRequest(n);
      var exponent := ReserveExponent(n);
      SetAux(Pack(exponent, Size()));
    }

    /** removeAtIndex(i): slots i+1 .. size-1 move down one (memmove), or
        slot i is zero-filled when it is the last; the size drops by one. */
    method RemoveAtIndex(i: int)
      requires Valid() && 0 <= i < Size()
      modifies this, buf
      ensures Valid() && buf == old(buf)
      ensures CapacityExponent() == old(CapacityExponent()) && Address() == old(Address())
      ensures Contents() == old(Contents()[..i] + Contents()[i + 1..])
      ensures i == old(Size()) - 1 ==> buf[i] == zero
      ensures i < old(Size()) - 1 ==> buf[old(Size()) - 1] == old(buf[Size() - 1])
    {
      ghost var c := Contents();
      var s := Size();
      var aux := Aux();
      if i != s - 1 {
        ghost var last := buf[s - 1];
        CloseGap(buf, i, s);
        assert buf[s - 1] == buf[s - 1..][0] == last;
      } else {
        buf[i] := zero;
      }
      assert buf[..s - 1] == c[..i] + c[i + 1..];
      SetAux(DecrementSize(aux));
    }

    /** The search loop of remove(t): the index of the first element equal to
        t, or the size when there is none. */
    method IndexOf(t: T) returns (i: nat)
      requires Valid()
      ensures i <= Size() && t !in Contents()[..i]
      ensures i < Size() ==> Contents()[i] == t
    {
      var s := Size();
      i := 0;
      while i < s
        invariant 0 <= i <= s
        invariant t !in buf[..i]
      {
        if t == buf[i] {
          assert Contents()[..i] == buf[..i];
          return;
        }
        i := i + 1;
      }
      assert Contents()[..i] == buf[..i];
    }

    /** remove(t): the first element equal to t is removed; without one the
        list is unchanged.  The slot the last element leaves is zero-filled when
        that element was the one removed. */
    method Remove(t: T)
      requires Valid()
      modifies this, buf
      ensures Valid() && buf == old(buf)
      ensures CapacityExponent() == old(CapacityExponent()) && Address() == old(Address())
      ensures Contents() == RemoveFirst(old(Contents()), t)
      ensures t in old(Contents()) && t !in old(Contents())[..old(Size()) - 1] ==>
                buf[old(Size()) - 1] == zero
    {
      var i := IndexOf(t);
      if i < Size() {
        RemoveMatch(t, i);
      } else {
        assert Contents()[..i] == Contents();
      }
    }

    /** The body of remove(t) once the search stopped at index i, the first
        slot holding t. */
    method RemoveMatch(t: T, i: nat)
      requires Valid() && i < Size() && Contents()[i] == t && t !in Contents()[..i]
      modifies this, buf
      ensures Valid() && buf == old(buf)
      ensures CapacityExponent() == old(CapacityExponent()) && Address() == old(Address())
      ensures Contents() == RemoveFirst(old(Contents()), t)
      ensures t !in old(Contents())[..old(Size()) - 1] ==> buf[old(Size()) - 1] == zero
    {
      ghost var c := Contents();
      RemoveFirstAt(c, t, i);
      FirstMatchIsLast(c, t, i);
      RemoveAtIndex(i);
    }

    /** operator[](idx) read through the returned reference. */
    function At(idx: int): (v: T)
      reads this, buf
      requires Valid() && 0 <= idx < buf.Length
      ensures idx < Size() ==> v == Contents()[idx]
    {
      buf[idx]
    }

    /** operator[](idx) written through the returned reference. */
    method Put(idx: int, v: T)
      requires Valid() && 0 <= idx < buf.Length
      modifies buf
      ensures Valid() && buf[..] == old(buf[..])[idx := v]
      ensures idx < Size() ==> Contents() == old(Contents())[idx := v]
    {
      buf[idx] := v;
    }
  }
}
