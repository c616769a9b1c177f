// A stack that keeps its first elements inside the object (one cache line)
// and the rest in a heap buffer that starts at 64 slots and doubles (Stack).
//
// Logical position j lives in inline[j] when j < inlineCap, otherwise in
// heap[j - inlineCap].

module HybridStack {
  import opened Allocation

  const CachelineSize: nat := 64
  const PointerSize: nat := 8
  /** Slots of the first heap buffer. */
  const FirstHeapSlots: nat := 64
  /** The largest heap buffer whose slot count the uint16 _n_memb_heap holds
      after doubling. */
  const MaxHeapSlots: nat := 32768

  /** STACK_SIZE(T): the slots left in a cache line after two uint16 fields
      and a pointer. */
  function StackSize(elemSize: nat): (n: nat)
    requires elemSize >= 1
    ensures n * elemSize <= CachelineSize - 2 * 2 - PointerSize < (n + 1) * elemSize
  {
    (CachelineSize - 2 * 2 - PointerSize) / elemSize
  }

  /** An 8-byte element leaves room for six in the object. */
  lemma StackSizeOfPointer()
    ensures StackSize(8) == 6
  {
    assert 6 * 8 <= 52 < 7 * 8;
  }

  /** 64 * 2^k: the heap slot counts push produces. */
  predicate IsHeapCapacity(n: nat)
  {
    n == FirstHeapSlots || (n > FirstHeapSlots && n % 2 == 0 && IsHeapCapacity(n / 2))
  }

  lemma {:induction false} HeapCapacityAtLeastFirst(n: nat)
    requires IsHeapCapacity(n)
    ensures n >= FirstHeapSlots
  {
    if n != FirstHeapSlots {
      HeapCapacityAtLeastFirst(n / 2);
    }
  }

  /** Between two heap slot counts there is at least a doubling. */
  lemma {:induction false} HeapCapacityGap(n: nat, m: nat)
    requires IsHeapCapacity(n) && IsHeapCapacity(m) && n < m
    ensures 2 * n <= m
  {
    HeapCapacityAtLeastFirst(m / 2);
    if n != FirstHeapSlots {
      HeapCapacityGap(n / 2, m / 2);
    }
  }

  function Reversed<T>(s: seq<T>): (r: seq<T>)
    ensures |r| == |s|
    ensures forall i :: 0 <= i < |s| ==> r[i] == s[|s| - 1 - i]
  {
    if s == [] then [] else [s[|s| - 1]] + Reversed(s[..|s| - 1])
  }

  lemma ReversedSnoc<T>(ys: seq<T>, t: T)
    ensures Reversed(ys + [t]) == [t] + Reversed(ys)
  {
    assert (ys + [t])[..|ys|] == ys;
  }

  /** What remains after taking a reversed suffix off start + xs. */
  lemma ReversedCancels<T>(start: seq<T>, xs: seq<T>, rest: seq<T>, ys: seq<T>)
    requires start + xs == rest + Reversed(ys) && |ys| == |xs|
    ensures rest == start && ys == Reversed(xs)
  {
    assert rest == (rest + Reversed(ys))[..|rest|];
    assert start == (start + xs)[..|start|];
    assert Reversed(ys) == (rest + Reversed(ys))[|rest|..];
    assert xs == (start + xs)[|start|..];
    forall k | 0 <= k < |ys|
      ensures ys[k] == Reversed(xs)[k]
    {
      assert Reversed(ys)[|ys| - 1 - k] == ys[k];
    }
  }

  class Stack<T(0)> {
    /** STACK_SIZE(T) */
    const inlineCap: nat
    /** stack_allocated_array */
    const inline: array<T>
    var index: nat
    /** _n_memb_heap: slots of the heap buffer, 0 while there is none. */
    var nHeap: nat
    /** heap_allocated_array */
    var heap: array?<T>

    predicate Valid()
      reads this
    {
      && inline.Length == inlineCap
      && (heap == null <==> nHeap == 0)
      && (heap != null ==> heap.Length == nHeap && heap != inline && IsHeapCapacity(nHeap))
      && nHeap <= MaxHeapSlots
      && index <= inlineCap + nHeap
    }

    /** The elements bottom to top. */
    function Contents(): (s: seq<T>)
      reads this, inline, heap
      requires Valid()
      ensures |s| == index
    {
      if index <= inlineCap then inline[..index]
      else inline[..] + heap[..index - inlineCap]
    }

    /** Where position j lives: inline[j] below inlineCap, heap[j - inlineCap]
        from there on. */
    function Slot(j: nat): (v: T)
      reads this, inline, heap
      requires Valid() && j < index
      ensures v == Contents()[j]
    {
      if j < inlineCap then inline[j] else heap[j - inlineCap]
    }

    /** An empty stack with no heap buffer; elemSize is sizeof(T). */
    constructor (elemSize: nat)
      requires elemSize >= 1
      ensures Valid() && Contents() == [] && fresh(inline)
      ensures inlineCap == StackSize(elemSize) && heap == null && nHeap == 0
    {
      inlineCap := StackSize(elemSize);
      inline := new T[StackSize(elemSize)];
      index := 0;
      nHeap := 0;
      heap := null;
    }

    /** size() */
    function Size(): (n: nat)
      reads this, inline, heap
      requires Valid()
      ensures n == |Contents()|
    {
      index
    }

    /** top(): the element at position index - 1. */
    function Top(): (v: T)
      reads this, inline, heap
      requires Valid() && index > 0
      ensures v == Contents()[|Contents()| - 1]
    {
      if index <= inlineCap then inline[index - 1] else heap[index - inlineCap - 1]
    }

    /** push(t): t goes to position index, in the object while there is room,
        then in the heap buffer; the first overflow allocates 64 slots and a
        full heap buffer doubles, keeping its elements.  The uint16 slot
        count wraps past 32768 slots, so push stops short of that. */
    method Push(t: T)
      requires Valid() && index < inlineCap + MaxHeapSlots
      modifies this, inline, heap
      ensures Valid() && Contents() == old(Contents()) + [t]
      ensures old(index) < inlineCap || old(index) - inlineCap < old(nHeap) ==>
                heap == old(heap) && nHeap == old(nHeap)
      ensures old(heap) == null && old(index) >= inlineCap ==>
                fresh(heap) && nHeap == FirstHeapSlots
      ensures old(heap) != null && old(index) == inlineCap + old(nHeap) ==>
                fresh(heap) && nHeap == 2 * old(nHeap) && heap[..old(nHeap)] == old(heap[..])
    {
      if index < inlineCap {
        inline[index] := t;
        index := index + 1;
      } else if heap != null && index - inlineCap < nHeap {
        heap[index - inlineCap] := t;
        index := index + 1;
      } else if heap != null {
        Grow(t);
      } else {
        heap := new T[FirstHeapSlots];
        nHeap := FirstHeapSlots;
        heap[index - inlineCap] := t;
        index := index + 1;
      }
    }

    /** The third branch of push: the full heap buffer is reallocated at twice
        its slots and t goes to its first new slot. */
    method Grow(t: T)
      requires Valid() && heap != null && index == inlineCap + nHeap && nHeap < MaxHeapSlots
      modifies this
      ensures Valid() && Contents() == old(Contents()) + [t]
      ensures fresh(heap) && nHeap == 2 * old(nHeap) && heap[..old(nHeap)] == old(heap[..])
    {
      assert IsHeapCapacity(2 * nHeap);
      assert IsHeapCapacity(MaxHeapSlots);
      HeapCapacityGap(nHeap, MaxHeapSlots);
      var bigger := Reallocate(heap, 2 * nHeap, t);
      heap := bigger;
      nHeap := 2 * nHeap;
      heap[index - inlineCap] := t;
      index := index + 1;
    }

    /** pop(): returns top() and drops it. */
    method Pop() returns (t: T)
      requires Valid() && index > 0
      modifies this
      ensures Valid() && heap == old(heap) && nHeap == old(nHeap)
      ensures t == old(Top())
      ensures old(Contents()) == Contents() + [t]
    {
      t := Top();
      index := index - 1;
    }
  }

  /** push for each value of xs in turn. */
  method PushAll<T(0)>(s: Stack<T>, xs: seq<T>)
    requires s.Valid() && s.index + |xs| <= s.inlineCap + MaxHeapSlots
    modifies s, s.inline, s.heap
    ensures s.Valid() && s.Contents() == old(s.Contents()) + xs
    ensures s.heap == old(s.heap) || fresh(s.heap)
  {
    ghost var start := s.Contents();
    var i := 0;
    while i < |xs|
      invariant 0 <= i <= |xs|
      invariant s.Valid() && s.Contents() == start + xs[..i]
      invariant s.heap == old(s.heap) || fresh(s.heap)
    {
      s.Push(xs[i]);
      assert xs[..i + 1] == xs[..i] + [xs[i]];
      i := i + 1;
    }
    assert xs[..i] == xs;
  }

  /** One pop of PopMany: the popped value joins the reversed suffix. */
  method PopOnto<T(0)>(s: Stack<T>, ghost start: seq<T>, ys: seq<T>) returns (zs: seq<T>)
    requires s.Valid() && s.index > 0 && start == s.Contents() + Reversed(ys)
    modifies s
    ensures s.Valid() && s.heap == old(s.heap) && s.index == old(s.index) - 1
    ensures start == s.Contents() + Reversed(zs) && |zs| == |ys| + 1
  {
    var t := s.Pop();
    ReversedSnoc(ys, t);
    zs := ys + [t];
  }

  /** pop n times: the values come back top first. */
  method PopMany<T(0)>(s: Stack<T>, n: nat) returns (ys: seq<T>)
    requires s.Valid() && n <= |s.Contents()|
    modifies s
    ensures s.Valid() && s.heap == old(s.heap)
    ensures old(s.Contents()) == s.Contents() + Reversed(ys)
    ensures |ys| == n
  {
    ghost var start := s.Contents();
    ys := [];
    var i := 0;
    while i < n
      invariant 0 <= i <= n && s.index == |start| - i
      invariant s.Valid() && s.heap == old(s.heap)
      invariant start == s.Contents() + Reversed(ys)
      invariant |ys| == i
    {
      ys := PopOnto(s, start, ys);
      i := i + 1;
    }
  }

  /** Pushing xs onto a stack and popping as many values returns xs reversed,
      whether the values sit in the object, the heap buffer or both, and
      leaves the stack as it was. */
  method PushAllPopAll<T(0)>(s: Stack<T>, xs: seq<T>) returns (ys: seq<T>)
    requires s.Valid() && s.index + |xs| <= s.inlineCap + MaxHeapSlots
    modifies s, s.inline, s.heap
    ensures s.Valid() && s.Contents() == old(s.Contents())
    ensures ys == Reversed(xs)
  {
    ghost var start := s.Contents();
    PushAll(s, xs);
    ys := PopMany(s, |xs|);
    ReversedCancels(start, xs, s.Contents(), ys);
  }
}
