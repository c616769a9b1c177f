# Compact containers: tagged pointer, small list and small-buffer stacks

This project models four C++ container headers in Dafny and proves their
properties:

- `PointerWithStorage` (a tagged pointer) is one 64-bit word. Its low 48 bits
  hold an address and its high 16 bits hold up to two bytes of auxiliary
  fields.
- `SmallSizeList` is a growable list. Its size and capacity live in the
  auxiliary bits of its own buffer pointer.
- `Stack` keeps its first elements inside the object, within one cache line.
  The remaining elements go to a heap buffer that starts at 64 slots and
  doubles when full.
- `Experimental48BPStack` is the same stack for pointers only. Each element
  is stored as 6 bytes, and each push writes 8 bytes.

The modules and what each models:

- `TaggedPointer` (`tagged_pointer.dfy`):
  - The word is a `bv64`.
  - The field list is a sequence of byte widths. Each width is 1 or 2 and the
    widths sum to at most 2. A field is named by its position, which stands
    in for the compile-time type lookup.
  - The pure bit expressions (`storage`, `packImpl`, `getPointer`) are
    functions.
  - The class `PointerWithStorage` holds the word in a field that
    `SetPointer` and `SetStorage` overwrite.
- `SmallList` (`small_list.dfy`):
  - The aux word is modelled as the number its 16 bits hold: a shift right by
    13 is `/ 8192`, the 13-bit mask is `% 8192`, and uint16 `+ 1`/`- 1` wrap
    modulo 2^16.
  - A nibble table (`Uint16Bits`/`Uint16Value`) carries that number to and
    from the 16-bit field of the tagged pointer.
  - The class `SmallSizeList` holds the tagged pointer word and the element
    buffer as an `array<T>`.
- `HybridStack` (`stack.dfy`): the class `Stack`, with an inline `array<T>`
  and a heap `array?<T>`.
- `PackedStack` (`packed_stack.dfy`):
  - The class `Experimental48BPStack` keeps both regions as `array<bv8>`.
  - Stores are 8-byte little-endian writes, and reads are either an 8-byte
    load masked to 48 bits or a 4-byte load joined with a 2-byte load.
- `Allocation` (`allocation.dfy`): `realloc` as a copy into a fresh, larger
  array.

Where the header comment of `small_list.h` (a maximum of 4095 elements)
disagrees with its code, the model follows the code. Three exponent bits of
at most 7 give at most 2048 elements.

## Model

| member | source | states |
|---|---|---|
| TaggedPointer.Offset | include/containers/padded_pointer.h:42-49 | field i's byte range, from its offset for its width, ends within the total width of the fields |
| TaggedPointer.OffsetIsSumBefore | include/containers/padded_pointer.h:42-49 | the byte offset of field i is the sum of the widths of the fields declared before it |
| TaggedPointer.FieldsDisjoint | include/containers/padded_pointer.h:42-49 | an earlier field ends at or before the offset of a later one, so fields never overlap |
| TaggedPointer.Storage | include/containers/padded_pointer.h:75-78 | the value read for a field fits in 8*width bits |
| TaggedPointer.StorageIgnoresPointer | include/containers/padded_pointer.h:75-78 | a field's value depends only on the top 16 bits, never on the address bits |
| TaggedPointer.MaskIsShiftedOne | include/containers/padded_pointer.h:77 | the width mask equals `(1 << 8*width) - 1` |
| TaggedPointer.ShiftUpBytesIsShift | include/containers/padded_pointer.h:87 | the byte shift used for packing equals `x << 8*n` |
| TaggedPointer.ShiftDownBytesIsShift | include/containers/padded_pointer.h:77 | the byte shift used for reading equals `x >> 8*n` |
| TaggedPointer.PackImpl | include/containers/padded_pointer.h:80-88 | the packed fields fit in 8 times the sum of their widths in bits |
| TaggedPointer.PointerOf | include/containers/padded_pointer.h:98 | the pointer has its high 16 bits clear, and joined with the word's high 16 bits it gives the word back |
| TaggedPointer.StorageOf | include/containers/padded_pointer.h:101-109 | the value read for field i fits the field's width |
| TaggedPointer.Construct | include/containers/padded_pointer.h:92-96 | the constructed word's pointer is the address with its top 16 bits cleared, and every field reads back as the value passed for it |
| TaggedPointer.WithPointer | include/containers/padded_pointer.h:111-115 | after setPointer(p) the pointer reads back as p masked to 48 bits and the high 16 bits are unchanged |
| TaggedPointer.WithStorage | include/containers/padded_pointer.h:117-128 | after setStorage(v) the field reads back as v, for v within the field's width, and the pointer is unchanged |
| TaggedPointer.PackImplField | include/containers/padded_pointer.h:82-88 | reading the packed word at field i's offset and width gives back value i |
| TaggedPointer.SetPointerRoundTrip | include/containers/padded_pointer.h:111-115 | after setPointer(p) the pointer reads back as p masked to 48 bits and every field is unchanged |
| TaggedPointer.SetStorageFrame | include/containers/padded_pointer.h:121-127 | setStorage leaves every other field unchanged |
| TaggedPointer.FieldWriteOther | include/containers/padded_pointer.h:122-126 | writing one byte range of the top 16 bits leaves a disjoint byte range unchanged |
| TaggedPointer.PointerWithStorage.constructor | include/containers/padded_pointer.h:92-96 | a new object's pointer is the masked address and each field holds its value |
| TaggedPointer.PointerWithStorage.GetPointer | include/containers/padded_pointer.h:98 | the address has its high 16 bits clear, and with the auxiliary bits it makes up the whole word |
| TaggedPointer.PointerWithStorage.GetStorage | include/containers/padded_pointer.h:101-109 | a field's value fits its width |
| TaggedPointer.PointerWithStorage.SetPointer | include/containers/padded_pointer.h:111-115 | the new pointer is p masked to 48 bits, the high 16 bits are unchanged and every field keeps its value |
| TaggedPointer.PointerWithStorage.SetStorage | include/containers/padded_pointer.h:117-128 | field i becomes v, and the pointer and every other field keep their values |
| SmallList.Uint16RoundTrip | include/containers/small_list.h:45-50 | a uint16 written to the aux field reads back as the same number |
| SmallList.SizeOf | include/containers/small_list.h:94-98 | the size is below 2^13, and what the word holds above it is a multiple of 2^13 |
| SmallList.SmallSizeList.Size | include/containers/small_list.h:94-98 | the list's size is below 2^13 |
| SmallList.ExponentOf | include/containers/small_list.h:32-35 | the exponent (the high 3 bits) is at most 7 |
| SmallList.SmallSizeList.CapacityExponent | include/containers/small_list.h:32-35 | the list's exponent is at most 7 |
| SmallList.CapacityOf | include/containers/small_list.h:37-41 | `16 << k` is at least the default capacity 16 |
| SmallList.SmallSizeList.Capacity | include/containers/small_list.h:37-41 | the capacity lies between 16 and 2048 |
| SmallList.CapacityAtMostMax | include/containers/small_list.h:30 | `16 << k` for k <= 7 is at most max_capacity, 2048 |
| SmallList.CapacityIsPowerOfTwo | include/containers/small_list.h:37-41 | `16 << k` is 2^(k+4), a power of two |
| SmallList.Pack | include/containers/small_list.h:46-49 | `(exponent << 13) \| size` with a 13-bit size reads back as that exponent and size |
| SmallList.UnpackRoundTrip | include/containers/small_list.h:44-49 | every aux word is the packing of its own exponent and size |
| SmallList.IncrementCapacity | include/containers/small_list.h:44-54 | the exponent grows by one, the size is kept and the capacity doubles |
| SmallList.IncrementSize | include/containers/small_list.h:56-61 | below 8191 the size grows by one with the exponent kept; at 8191 the carry clears the size and bumps the exponent (mod 8) |
| SmallList.DecrementSize | include/containers/small_list.h:63-67 | a positive size drops by one with the exponent kept; at 0 the borrow sets the size to 8191 and lowers the exponent (mod 8) |
| SmallList.IncrementDecrementSize | include/containers/small_list.h:56-67 | increment_size and decrement_size undo each other on every aux word |
| SmallList.IncrementCapacityAndSizeAsWritten | include/containers/small_list.h:69-81 | the combined growth helper never returns with assertions enabled; below exponent 7 it stores the word with the exponent raised and the size incremented and would return twice the capacity; at exponent 7 it stores size + 1 with exponent 0 and would return 4096 |
| SmallList.GrowthPastMaxWraps | include/containers/small_list.h:69-81 | with assertions disabled, growing a full list of 2048 elements stores size 2049 with exponent 0, so the capacity reads 16 and the next growth returns 32 |
| SmallList.Log2Floor | include/containers/small_list.h:107-109 | the computed k satisfies 2^k <= n < 2^(k+1) |
| SmallList.Log2OfPow2 | include/containers/small_list.h:106-109 | the floor log of 2^k is k |
| SmallList.PowerOfTwoIff | include/containers/small_list.h:106 | the power-of-two test holds exactly of the numbers 2^k |
| SmallList.ReserveExponent | include/containers/small_list.h:107-109 | the stored exponent r is the one with 2^(r+4) <= n < 2^(r+5) |
| SmallList.ReserveExponentMeetsRequest | include/containers/small_list.h:104-115 | for a power of two n with 16 < n <= 2048 the stored exponent is within 1..7 and denotes capacity exactly n |
| SmallList.ReserveWordAsWritten | include/containers/small_list.h:109-113 | with assertions disabled, the uint16 word reserve stores keeps the size and the computed exponent modulo 8 |
| SmallList.ReserveWrapsAt4096 | include/containers/small_list.h:109-113 | reserve(4096) computes exponent 8, which the word keeps as 0, so the capacity reads 16 |
| SmallList.RemoveFirst | include/containers/small_list.h:135-149 | removing t shortens the list by one when t occurs and is the identity when it does not |
| SmallList.RemoveFirstAt | include/containers/small_list.h:138-146 | when the first t sits at index i, removing t cuts out exactly index i |
| SmallList.FirstMatchIsLast | include/containers/small_list.h:138-143 | the first t is the last element exactly when t does not occur before the last position, the case remove zero-fills |
| SmallList.RemoveFirstMultiset | include/containers/small_list.h:135-149 | removing t takes exactly one t out of the multiset of elements |
| SmallList.InitialSlotsAsWritten | include/containers/small_list.h:85 | an allocation of 16 pointer sizes holds fewer than 16 elements of a type wider than 8 bytes |
| SmallList.CloseGap | include/containers/small_list.h:141 | the memmove shifts slots i+1..s-1 down one, and the slots from s-1 on keep their old values |
| SmallList.SmallSizeList.constructor | include/containers/small_list.h:84-87 | a new list is empty, with exponent 0, capacity 16, a 16-slot buffer and the given address |
| SmallList.SmallSizeList.SetAux | include/containers/small_list.h:50 | the aux word becomes the given number, and the address and buffer are kept |
| SmallList.SmallSizeList.SetAddress | include/containers/small_list.h:130 | the address becomes p masked to 48 bits, and the aux word is kept |
| SmallList.SmallSizeList.PushBack | include/containers/small_list.h:120-133 | with room, t goes to slot size and nothing else changes; a full list below capacity 2048 doubles into a fresh buffer; t is appended either way; at capacity 2048 it fails and changes nothing |
| SmallList.SmallSizeList.GrowAndAppend | include/containers/small_list.h:128-131 | the exponent grows by one, the buffer is fresh and sits at the new address, and t is appended after the kept elements |
| SmallList.SmallSizeList.Reserve | include/containers/small_list.h:100-118 | n within the capacity is a no-op; too large or not a power of two fails with the state unchanged; otherwise the capacity becomes n in a fresh buffer and the elements are kept |
| SmallList.SmallSizeList.ReserveAsWritten | include/containers/small_list.h:109-117 | discarding the realloc result leaves a buffer smaller than the recorded capacity |
| SmallList.SmallSizeList.RemoveAtIndex | include/containers/small_list.h:151-161 | the live elements become the old ones without index i; the last slot is zero-filled when i was last and keeps its old value otherwise; exponent and address are kept |
| SmallList.SmallSizeList.IndexOf | include/containers/small_list.h:136-139 | the search stops at the first slot holding t, or at the size when no live slot does |
| SmallList.SmallSizeList.RemoveMatch | include/containers/small_list.h:139-146 | with the first t at index i, the live elements lose exactly that t, and the last slot is zero-filled when t occurs nowhere before it |
| SmallList.SmallSizeList.Remove | include/containers/small_list.h:135-149 | the live elements become the old ones with their first t removed (the same list when t is absent); the last slot is zero-filled when the removed t was the last element |
| SmallList.SmallSizeList.At | include/containers/small_list.h:163-166 | a live index reads the element at that position |
| SmallList.SmallSizeList.Put | include/containers/small_list.h:163-166 | writing through the reference replaces exactly that slot |
| HybridStack.StackSize | include/containers/stack.h:8 | the inline slot count is the largest n with n elements fitting into 64 - 2*2 - 8 bytes |
| HybridStack.StackSizeOfPointer | include/containers/stack.h:8 | an 8-byte element gives 6 inline slots |
| HybridStack.HeapCapacityGap | include/containers/stack.h:43-51 | two different heap slot counts (64 * 2^k) differ at least by a doubling |
| HybridStack.Stack.constructor | include/containers/stack.h:23-27 | a new stack is empty, has no heap buffer and has 0 heap slots |
| HybridStack.Stack.Slot | include/containers/stack.h:39-42 | position j lives in the inline array below the inline capacity and in the heap buffer from there on |
| HybridStack.Stack.Size | include/containers/stack.h:75 | size is the number of elements |
| HybridStack.Stack.Top | include/containers/stack.h:55-62 | top is the last element |
| HybridStack.Stack.Push | include/containers/stack.h:37-53 | t is appended; the buffer is kept while there is room, allocated with 64 slots on the first overflow, or doubled with its old elements kept when full |
| HybridStack.Stack.Grow | include/containers/stack.h:43-47 | the heap buffer is replaced by a fresh one of twice the slots holding the old ones, and t is appended |
| HybridStack.Stack.Pop | include/containers/stack.h:69-73 | pop returns the old top and removes exactly it |
| HybridStack.PushAll | include/containers/stack.h:37-53 | pushing xs appends xs in order, whichever region each value lands in |
| HybridStack.PopMany | include/containers/stack.h:69-73 | n pops return the top n elements, top first |
| HybridStack.PushAllPopAll | include/containers/stack.h:37-73 | pushing xs and popping as many returns xs reversed and restores the stack |
| Allocation.Reallocate | include/containers/stack.h:44 | realloc gives a fresh buffer of the new size whose prefix is the old buffer |
| PackedStack.Geometry | include/containers/stack_ptrt.h:11-12 | a slot is 6 bytes, the inline region is 52 bytes, it holds 8 slots, and the 8-byte write to its last slot stays inside it |
| PackedStack.Store64 | include/containers/stack_ptrt.h:67 | the 8-byte write puts the little-endian bytes of the value at the offset and changes no other byte |
| PackedStack.Store64At | include/containers/stack_ptrt.h:67 | the in-place 8-byte write leaves the array equal to that store |
| PackedStack.StoreThenLoad | include/containers/stack_ptrt.h:67 | the 6 bytes written at an offset read back as the value masked to 48 bits |
| PackedStack.StoreKeepsEarlier | include/containers/stack_ptrt.h:55-67 | a store at a slot leaves every earlier slot's 6 bytes as they were |
| PackedStack.WideReadMasked | include/containers/stack_ptrt.h:88-95 | the 8-byte load masked to 48 bits is the 6-byte value of the slot |
| PackedStack.SplitReadJoins | include/containers/stack_ptrt.h:74-86 | `(upper16 << 32) \| lower32` is the 6-byte value of the slot |
| PackedStack.Load64 | include/containers/stack_ptrt.h:90-92 | the 8-byte load is the value whose little-endian bytes are the 8 bytes loaded |
| PackedStack.Load32 | include/containers/stack_ptrt.h:79 | the 4-byte load is the value whose little-endian bytes are the 4 bytes loaded |
| PackedStack.Load16 | include/containers/stack_ptrt.h:78 | the 2-byte load is the value whose little-endian bytes are the 2 bytes loaded |
| PackedStack.LeBytesLow48 | include/containers/stack_ptrt.h:67 | the first 6 little-endian bytes of a value make up its low 48 bits |
| PackedStack.PushInline | include/containers/stack_ptrt.h:54-55 | storing slot n in the object appends the value masked to 48 bits to the slot values |
| PackedStack.PushHeap | include/containers/stack_ptrt.h:56-57 | storing slot n in the heap region appends the value masked to 48 bits to the slot values |
| PackedStack.SlotsKeptByPrefix | include/containers/stack_ptrt.h:58-61 | a heap region that keeps the old bytes as its prefix keeps every slot value |
| PackedStack.SlotsPrefix | include/containers/stack_ptrt.h:99-102 | the first n slot values are the first n-1 followed by slot n-1 |
| PackedStack.WideLoad | include/containers/stack_ptrt.h:88-95 | the 8-byte load masked to 48 bits equals the slot's 6-byte value |
| PackedStack.SplitLoad | include/containers/stack_ptrt.h:74-86 | the 4-byte plus 2-byte load equals the slot's 6-byte value |
| PackedStack.ReadWide | include/containers/stack_ptrt.h:88-95 | the wide read of position j is slot j's value in whichever region holds it |
| PackedStack.ReadSplit | include/containers/stack_ptrt.h:74-86 | the split read of position j is slot j's value in whichever region holds it |
| PackedStack.ReadsAgree | include/containers/stack_ptrt.h:74-95 | both top() variants return the same value |
| PackedStack.HeapBytes | include/containers/stack_ptrt.h:59-63 | a heap region of n >= 64 slots leaves room for the 8-byte write to its last slot |
| PackedStack.GrownHeapBytesAsWritten | include/containers/stack_ptrt.h:59 | the 12n bytes realloc asks for are 2 fewer than the write to the last of 2n slots needs |
| PackedStack.LastSlotOverrunsAsWritten | include/containers/stack_ptrt.h:59-67 | after any doubling, the 8-byte write to the last slot runs past the reallocated bytes |
| PackedStack.GrownHeapHoldsStores | include/containers/stack_ptrt.h:58-61 | the grown region holds the write to its last slot and is not smaller than before |
| PackedStack.Experimental48BPStack.constructor | include/containers/stack_ptrt.h:40-44 | a new stack is empty and has no heap region |
| PackedStack.Experimental48BPStack.Size | include/containers/stack_ptrt.h:105 | size is the number of elements |
| PackedStack.Experimental48BPStack.TopWide | include/containers/stack_ptrt.h:88-96 | top with 8-byte loads is the last element |
| PackedStack.Experimental48BPStack.TopSplit | include/containers/stack_ptrt.h:74-86 | top with split loads is the last element |
| PackedStack.Experimental48BPStack.Push | include/containers/stack_ptrt.h:50-69 | push appends t masked to 48 bits, despite the 2 bytes the write spills into the next slot; the heap region is kept, allocated with 64 slots or doubled as in Stack |
| PackedStack.Experimental48BPStack.StoreInline | include/containers/stack_ptrt.h:54-55 | the store into the object appends t masked to 48 bits |
| PackedStack.Experimental48BPStack.StoreHeap | include/containers/stack_ptrt.h:56-57 | the store into the heap region appends t masked to 48 bits |
| PackedStack.Experimental48BPStack.AllocateHeap | include/containers/stack_ptrt.h:62-65 | the first heap region has 64 slots and the elements are unchanged |
| PackedStack.Experimental48BPStack.Grow | include/containers/stack_ptrt.h:58-61 | the heap region doubles into a fresh array and the elements are unchanged |
| PackedStack.Experimental48BPStack.Pop | include/containers/stack_ptrt.h:99-103 | pop returns the old top and removes exactly it |
| PackedStack.AddressSurvivesMask | include/containers/stack_ptrt.h:95 | masking a 48-bit address to 48 bits gives the address back |
| PackedStack.PushAll | include/containers/stack_ptrt.h:50-69 | pushing 48-bit addresses appends them in order |
| PackedStack.PopMany | include/containers/stack_ptrt.h:99-103 | n pops return the top n elements, top first |
| PackedStack.PushAllPopAll | include/containers/stack_ptrt.h:50-103 | pushing 48-bit addresses and popping as many returns them reversed and restores the stack, even though each push overwrites 2 bytes of the next slot |

## Left out

- Allocation failure is not modelled: `malloc`, `realloc` and `aligned_alloc` always succeed, as a fresh array. The destructors and `free` have no behaviour to state.
- Real addresses are not modelled. The address `malloc`/`realloc` return to `SmallSizeList` is a parameter (`addr`, `grownAddr`), and the pointer bits are not tied to the `array` that stands for the buffer.
- Buffer contents beyond the live size are unconstrained, except for the slot the last element leaves. `removeAtIndex` zero-fills it or keeps its old bytes, and `remove` zero-fills it when the removed element was last.
- SmallList.SmallSizeList.Remove: does not state that the slot the last element leaves keeps its old bytes when the removed element was not last. `RemoveAtIndex` states it.
- Assertions are modelled as enabled: an `assert` that fails ends the program, whereas under `NDEBUG` it is skipped. There is one exception: the growth branch of `SmallList.SmallSizeList.PushBack` below capacity 2048. With assertions enabled, the source always aborts there at `assert(1 == 0)`. The model instead grows in two steps (`GrowAndAppend`). That is the corrected behaviour, and it is also what an `NDEBUG` build does. Under `NDEBUG`, at capacity 2048 the exponent 8 does not fit its 3 bits: the word reads size 2049 with exponent 0 (`GrowthPastMaxWraps`), and the next growth reallocates the buffer down to 32 slots. `reserve` with an n that is not a power of two, or above 2048, goes on to store `(floor(log2 n) - 4) mod 8`, because the uint16 drops the bits above 16 (`ReserveWordAsWritten`). From n = 4096 on, the exponent wraps like `push_back`'s at 2048 (`ReserveWrapsAt4096`). The `Reserve` method models the source with its assertions enabled; only these lemmas state `NDEBUG` outcomes.
- SmallList.SmallSizeList.PushBack: at capacity 2048 the source's assertion aborts the program. The model returns `Failed(CapacityExhausted)` and leaves the state unchanged.
- SmallList.SmallSizeList.Reserve: the source's assertions on n abort the program. The model returns a `Failed` status and leaves the state unchanged.
- HybridStack.Stack.Push: requires fewer than `inlineCap + 32768` elements. Past that, the uint16 `_n_memb_heap` wraps to 0 on the next doubling.
- PackedStack.Experimental48BPStack.Grow: reallocates `12n + 2` bytes where the source asks for `_n_memb_heap * 2 * freePtrSize` = `12n`. The 2 extra bytes keep the 8-byte write to the last slot inside the array. The as-written size and its overrun are `GrownHeapBytesAsWritten` and `LastSlotOverrunsAsWritten`.
- PackedStack.Experimental48BPStack.Push: requires fewer than 32767 elements, because the int16 `index` would overflow.
- The bit tricks `n & (n - 1)` and `__builtin_clz` are modelled by their meaning: `IsPowerOfTwo` and `Log2Floor`.
- The 57-bit addressing mode is not modelled. Instead, 48-bit addresses are a precondition (`Is48Bit`).
- Cache-line alignment is not modelled; it has no observable semantics.
- The `EXPSTACK_PREVENT_PAGE_RELOAD` switch itself is not modelled. Both read strategies are modelled, and they are proved equal.
- The compile-time checks of `PointerWithStorage` (`sum_sizeof`, `are_unique`, `Contains`, `IndexOf`) become preconditions on the width list (`ValidWidths`). Fields are indexed by position, so the rule against duplicate types holds by construction.
- The tagged pointer stores each field's value as its bits (`bv16`). Field values are not of an arbitrary type `T`, so a value reads back as the same bits, as a `memcpy` would give.

## Findings

| source | as written | input that shows it | evidently intended | confidence | as-written member | corrected member |
|---|---|---|---|---|---|---|
| include/containers/small_list.h:69-81 | the growth path of `push_back` calls `increment_capacity_and_size`, which ends in `assert(1 == 0)`; with assertions enabled the program stops there, and under `NDEBUG` growth works until capacity 2048, where the exponent wraps to 0 and the size reads 2049 | any `push_back` on a full list with assertions enabled, e.g. the 17th push onto a new list | grow the capacity, then increment the size as two separate updates, and append | not executed | SmallList.IncrementCapacityAndSizeAsWritten | SmallList.SmallSizeList.GrowAndAppend |
| include/containers/small_list.h:116-117 | `reserve` stores the new exponent but drops the pointer `realloc` returns | `reserve(32)` on a new list: capacity reads 32 while the buffer still holds 16 slots; `realloc` may also move the block and free the old one, leaving the kept pointer dangling | store the reallocated buffer in the pointer | not executed | SmallList.SmallSizeList.ReserveAsWritten | SmallList.SmallSizeList.Reserve |
| include/containers/small_list.h:85 | the constructor allocates `sizeof(T *) * 16` bytes | `T` of 16 bytes: 128 bytes hold 8 elements, but the capacity reads 16 | allocate `sizeof(T) * 16` bytes | not executed | SmallList.InitialSlotsAsWritten | SmallList.SmallSizeList.constructor |
| include/containers/stack_ptrt.h:59 | growth reallocates `6 * 2n` bytes, but the 8-byte write to slot 2n-1 needs `6 * (2n - 1) + 8` | the 128th heap push (n = 64): the write to slot 127 (bytes 762 to 769) needs 770 bytes of a 768-byte region | reallocate 2 bytes more than the slots need | not executed | PackedStack.LastSlotOverrunsAsWritten | PackedStack.GrownHeapHoldsStores |
