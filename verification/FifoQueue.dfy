/** The fixed-capacity ring buffer of src/common/fifo_queue.h.

    `head`, `tail` and `size` index a buffer that wraps at its capacity. The abstract value of a queue
    is `Contents()`, a sequence. The capacity is any 32-bit number. The one index sum of the original
    that can wrap around 2^32 is that of `Peek`; every other one is at most the capacity.

    Every method says what the whole new state is: two queues with the same head, size, capacity and
    contents are indistinguishable. The bulk operations carry the same contract as the
    element-by-element ones. */
module FifoQueue {
  import Bytes

  const WORD := 0x1_0000_0000

  function Min(a: nat, b: nat): nat {
    if a < b then a else b
  }

  /** The slot at distance i from slot `start`: one wrap at most. */
  function Slot(start: nat, i: nat, capacity: nat): (slot: nat)
    requires start < capacity && i <= capacity
  {
    if start + i < capacity then start + i else start + i - capacity
  }

  /** This is the remainder that the original computes. */
  lemma SlotIsRemainder(start: nat, i: nat, capacity: nat)
    requires start < capacity && i <= capacity
    ensures Slot(start, i, capacity) == (start + i) % capacity
  {
    Bytes.OneWrap(start + i, capacity);
  }

  /** The slot that `Peek` reads: its 32-bit sum may wrap around. */
  function PeekSlot(head: nat, offset: nat, capacity: nat): nat
    requires capacity > 0
  {
    (head + offset) % WORD % capacity
  }

  /** It is the right one exactly if the sum does not wrap around; with a capacity of at most 2^31 it never
      does. */
  lemma PeekSlotExactly(head: nat, offset: nat, capacity: nat)
    requires head < capacity < WORD && offset < capacity
    ensures PeekSlot(head, offset, capacity) == Slot(head, offset, capacity) <==> head + offset < WORD
    ensures 2 * capacity <= WORD ==> head + offset < WORD
  {
    Bytes.OneWrap(head + offset, WORD);
    Bytes.OneWrap(if head + offset < WORD then head + offset else head + offset - WORD, capacity);
  }

  /** A queue of the greatest capacity, its head at the last slot but one: element 3 is in slot 2, and slot 1
      is read. */
  lemma PeekWraps()
    ensures Slot(0xFFFF_FFFE, 3, 0xFFFF_FFFF) == 2 && PeekSlot(0xFFFF_FFFE, 3, 0xFFFF_FFFF) == 1
  {
  }

  /** The sequence read off a buffer from slot `head`, wrapping at the end. */
  function Unwrap<T>(buffer: seq<T>, head: nat, size: nat): (s: seq<T>)
    requires head < |buffer| && size <= |buffer|
    ensures |s| == size
  {
    seq(size, i requires 0 <= i < size => buffer[Slot(head, i, |buffer|)])
  }

  /** The buffer after a copy of `data` to slot `at`. */
  function Overwritten<T>(buffer: seq<T>, at: nat, data: seq<T>): (after: seq<T>)
    requires at + |data| <= |buffer|
    ensures |after| == |buffer|
  {
    seq(|buffer|, k requires 0 <= k < |buffer| => if at <= k < at + |data| then data[k - at] else buffer[k])
  }

  lemma OverwriteOne<T>(buffer: seq<T>, at: nat, value: T)
    requires at < |buffer|
    ensures Overwritten(buffer, at, [value]) == buffer[at := value]
  {
  }

  /** Copying an unbroken segment to the first free slots extends the sequence by that segment,
      wherever the sequence itself wraps. */
  lemma UnwrapAppend<T>(buffer: seq<T>, head: nat, size: nat, data: seq<T>)
    requires head < |buffer| && size + |data| <= |buffer|
    requires Slot(head, size, |buffer|) + |data| <= |buffer|
    ensures Unwrap(Overwritten(buffer, Slot(head, size, |buffer|), data), head, size + |data|)
         == Unwrap(buffer, head, size) + data
  {
    var after := Overwritten(buffer, Slot(head, size, |buffer|), data);
    assert forall i :: 0 <= i < size ==> after[Slot(head, i, |buffer|)] == buffer[Slot(head, i, |buffer|)];
  }

  class Queue<T(0)> {
    const buffer: array<T>
    var head: nat
    var tail: nat
    var size: nat

    function Capacity(): nat {
      buffer.Length
    }

    ghost predicate Valid()
      reads this
    {
      && 0 < Capacity() < WORD
      && head < Capacity() && size <= Capacity()
      && tail == Slot(head, size, Capacity())
      && (size == 0 ==> head == 0 && tail == 0)
    }

    ghost function Contents(): (s: seq<T>)
      requires Valid()
      reads this, buffer
      ensures |s| == size
    {
      Unwrap(buffer[..], head, size)
    }

    constructor (capacity: nat)
      requires 0 < capacity < WORD
      ensures Valid() && fresh(buffer) && Capacity() == capacity && Contents() == []
    {
      buffer := new T[capacity];
      head, tail, size := 0, 0, 0;
    }

    method GetSpace() returns (space: nat)
      requires Valid()
      ensures space == Capacity() - |Contents()|
    {
      space := Capacity() - size;
    }

    /** The elements in one piece at the read pointer are a prefix of the contents, and it is all of
        them unless the queue wraps. */
    method GetContiguousSize() returns (n: nat)
      requires Valid()
      ensures n <= |Contents()| && head + n <= Capacity()
      ensures buffer[head..head + n] == Contents()[..n]
      ensures n < |Contents()| ==> head + n == Capacity()
    {
      n := Min(Capacity() - head, size);
    }

    /** The n slots from the write pointer hold no element, and one more slot would either leave the
        buffer or be in use. */
    method GetContiguousSpace() returns (n: nat)
      requires Valid()
      ensures tail + n <= Capacity()
      ensures forall i :: 0 <= i < size ==> !(tail <= Slot(head, i, Capacity()) < tail + n)
      ensures tail + n < Capacity() ==> size > 0 && tail + n == head
    {
      if tail == head && size > 0 {
        n := 0;
      } else if tail >= head {
        n := Capacity() - tail;
      } else {
        n := head - tail;
      }
    }

    method Clear()
      requires Valid()
      modifies this
      ensures Valid() && Contents() == []
    {
      head, tail, size := 0, 0, 0;
    }

    /** Claims the next free slot; `slot` is the reference the original returns. */
    method PushAndGetReference() returns (slot: nat)
      requires Valid() && size < Capacity()
      modifies this
      ensures Valid() && head == old(head) && size == old(size) + 1
      ensures slot == old(tail) < Capacity()
      ensures slot == Slot(head, old(size), Capacity())
    {
      slot := tail;
      SlotIsRemainder(tail, 1, Capacity());
      tail := (tail + 1) % Capacity();
      size := size + 1;
    }

    method Push(value: T)
      requires Valid() && size < Capacity()
      modifies this, buffer
      ensures Valid() && head == old(head)
      ensures Contents() == old(Contents()) + [value]
    {
      ghost var was := Contents();
      ghost var count := size;
      var slot := PushAndGetReference();
      buffer[slot] := value;
      assert Contents() == was + [value];
    }

    /** Element `offset`, where the index sum fits 32 bits; see PeekSlotExactly. */
    method Peek(offset: nat) returns (value: T)
      requires Valid() && offset < size
      ensures value == buffer[PeekSlot(head, offset, Capacity())]
      ensures head + offset < WORD ==> value == Contents()[offset]
    {
      PeekSlotExactly(head, offset, Capacity());
      value := buffer[(head + offset) % WORD % Capacity()];
    }

    /** Drops `count` elements in one step of the head, then resets an empty queue. Shared by the
        removal operations, whose representations after the call are all this one. */
    ghost predicate Dropped(wasHead: nat, wasSize: nat, count: nat)
      reads this
      requires wasHead < Capacity() && count <= wasSize <= Capacity()
    {
      && size == wasSize - count
      && head == (if size == 0 then 0 else Slot(wasHead, count, Capacity()))
    }

    method Remove(count: nat)
      requires Valid() && count <= size
      modifies this
      ensures Valid() && Dropped(old(head), old(size), count)
      ensures Contents() == old(Contents())[count..]
    {
      ghost var h, n, was := head, size, Contents();
      var i := 0;
      while i < count
        invariant 0 <= i <= count
        invariant size == n - i && head == Slot(h, i, Capacity())
        invariant tail == old(tail)
      {
        SlotIsRemainder(head, 1, Capacity());
        head := (head + 1) % Capacity();
        size := size - 1;
        i := i + 1;
      }
      ResetIfEmpty(h, n, count, was);
    }

    /** The tail of every removal: an empty queue starts again at slot 0. */
    method ResetIfEmpty(ghost h: nat, ghost n: nat, ghost count: nat, ghost was: seq<T>)
      requires 0 < Capacity() < WORD && h < Capacity() && count <= n <= Capacity()
      requires was == Unwrap(buffer[..], h, n)
      requires head == Slot(h, count, Capacity()) && size == n - count && tail == Slot(h, n, Capacity())
      modifies this
      ensures Valid() && Dropped(h, n, count)
      ensures Contents() == was[count..]
    {
      assert tail == Slot(head, size, Capacity());
      head := if size == 0 then 0 else head;
      tail := if size == 0 then 0 else tail;
    }

    method RemoveOne()
      requires Valid() && size > 0
      modifies this
      ensures Valid() && Dropped(old(head), old(size), 1)
      ensures Contents() == old(Contents())[1..]
    {
      ghost var h, n, was := head, size, Contents();
      SlotIsRemainder(head, 1, Capacity());
      head := (head + 1) % Capacity();
      size := size - 1;
      ResetIfEmpty(h, n, 1, was);
    }

    method Pop() returns (value: T)
      requires Valid() && size > 0
      modifies this
      ensures Valid() && Dropped(old(head), old(size), 1)
      ensures value == old(Contents())[0] && Contents() == old(Contents())[1..]
    {
      ghost var h, n, was := head, size, Contents();
      value := buffer[head];
      SlotIsRemainder(head, 1, Capacity());
      head := (head + 1) % Capacity();
      size := size - 1;
      ResetIfEmpty(h, n, 1, was);
    }

    /** memcpy into consecutive slots. */
    method CopyIn(at: nat, data: seq<T>)
      requires at + |data| <= buffer.Length
      modifies buffer
      ensures buffer[..] == Overwritten(old(buffer[..]), at, data)
    {
      for k := 0 to |data|
        invariant buffer[..] == Overwritten(old(buffer[..]), at, data[..k])
      {
        buffer[at + k] := data[k];
      }
    }

    /** The overload for plain data: one copy up to the end of the buffer, one from its start. */
    method PushRange(data: seq<T>)
      requires Valid() && size + |data| <= Capacity()
      modifies this, buffer
      ensures Valid() && head == old(head)
      ensures Contents() == old(Contents()) + data
    {
      hide Unwrap;
      hide Overwritten;
      ghost var before, n := buffer[..], size;
      var spaceBeforeEnd := Capacity() - tail;
      var sizeBeforeEnd := if |data| > spaceBeforeEnd then spaceBeforeEnd else |data|;
      var sizeAfterEnd := |data| - sizeBeforeEnd;
      UnwrapAppend(before, head, n, data[..sizeBeforeEnd]);
      CopyIn(tail, data[..sizeBeforeEnd]);
      SlotIsRemainder(tail, sizeBeforeEnd, Capacity());
      tail := (tail + sizeBeforeEnd) % Capacity();
      if sizeAfterEnd > 0 {
        UnwrapAppend(buffer[..], head, n + sizeBeforeEnd, data[sizeBeforeEnd..]);
        CopyIn(tail, data[sizeBeforeEnd..]);
        SlotIsRemainder(tail, sizeAfterEnd, Capacity());
        tail := (tail + sizeAfterEnd) % Capacity();
      }
      size := size + |data|;
      assert data[..sizeBeforeEnd] + data[sizeBeforeEnd..] == data;
    }

    /** The overload for other element types. */
    method PushRangeEach(data: seq<T>)
      requires Valid() && size + |data| <= Capacity()
      modifies this, buffer
      ensures Valid() && head == old(head)
      ensures Contents() == old(Contents()) + data
    {
      var k := 0;
      while k < |data|
        invariant 0 <= k <= |data|
        invariant Valid() && head == old(head) && size == old(size) + k
        invariant Contents() == old(Contents()) + data[..k]
      {
        Push(data[k]);
        k := k + 1;
      }
    }

    /** The overload for plain data: whole segments, in a loop that wraps at most once. The output
        pointer of the original is the sequence `out`. */
    method PopRange(count: nat) returns (out: seq<T>)
      requires Valid() && count <= size
      modifies this
      ensures Valid() && Dropped(old(head), old(size), count)
      ensures out == old(Contents())[..count] && Contents() == old(Contents())[count..]
    {
      ghost var h, n, was := head, size, Contents();
      out := [];
      var left := count;
      var first := true;
      while first || left > 0
        invariant 0 <= left <= count && |out| == count - left && out == was[..|out|]
        invariant head == Slot(h, |out|, Capacity()) && size == n - |out| && tail == old(tail)
        invariant first ==> left == count
        decreases first, left
      {
        var contiguous := Min(left, Capacity() - head);
        ghost var done := |out|;
        out := out + buffer[head..head + contiguous];
        SlotIsRemainder(head, contiguous, Capacity());
        head := (head + contiguous) % Capacity();
        size := size - contiguous;
        left := left - contiguous;
        first := false;
      }
      ResetIfEmpty(h, n, count, was);
    }

    /** The overload for other element types. */
    method PopRangeEach(count: nat) returns (out: seq<T>)
      requires Valid() && count <= size
      modifies this
      ensures Valid() && Dropped(old(head), old(size), count)
      ensures out == old(Contents())[..count] && Contents() == old(Contents())[count..]
    {
      ghost var h, n, was := head, size, Contents();
      out := [];
      for i := 0 to count
        invariant out == was[..i]
        invariant size == n - i && head == Slot(h, i, Capacity()) && tail == old(tail)
      {
        out := out + [buffer[head]];
        SlotIsRemainder(head, 1, Capacity());
        head := (head + 1) % Capacity();
        size := size - 1;
      }
      ResetIfEmpty(h, n, count, was);
    }

    /** One round of PushFromQueue: a slot here is claimed before the other queue gives up its front. */
    method MoveOne(other: Queue<T>)
      requires Valid() && other.Valid() && other != this && other.buffer != buffer
      requires other.size > 0 && size < Capacity()
      modifies this, buffer, other
      ensures Valid() && other.Valid() && head == old(head)
      ensures Contents() == old(Contents()) + [old(other.Contents())[0]]
      ensures other.Contents() == old(other.Contents())[1..]
      ensures other.Dropped(old(other.head), old(other.size), 1)
    {
      hide Unwrap;
      hide Overwritten;
      ghost var before := buffer[..];
      var slot := PushAndGetReference();
      var value := other.Pop();
      buffer[slot] := value;
      OverwriteOne(before, slot, value);
      UnwrapAppend(before, head, size - 1, [value]);
    }

    /** Moves elements until the other queue is empty or this one is full. Nothing is lost, doubled
        or reordered, and the number moved is exact. */
    method PushFromQueue(other: Queue<T>)
      requires Valid() && other.Valid() && other != this && other.buffer != buffer
      modifies this, buffer, other
      ensures Valid() && other.Valid() && head == old(head)
      ensures Contents() + other.Contents() == old(Contents()) + old(other.Contents())
      ensures size == old(size) + Min(old(other.size), Capacity() - old(size))
      ensures other.Dropped(old(other.head), old(other.size), size - old(size))
    {
      hide Unwrap;
      ghost var mine, theirs, moved := Contents(), other.Contents(), 0;
      while other.size > 0 && size < Capacity()
        invariant Valid() && other.Valid() && head == old(head)
        invariant 0 <= moved <= |theirs| && size == |mine| + moved
        invariant other.Dropped(old(other.head), |theirs|, moved)
        invariant Contents() == mine + theirs[..moved]
        invariant other.Contents() == theirs[moved..]
        decreases other.size
      {
        MoveOne(other);
        assert theirs[..moved + 1] == theirs[..moved] + [theirs[moved]];
        moved := moved + 1;
      }
    }

    /** Publishes elements that the caller stored at the write pointer. */
    method AdvanceTail(count: nat)
      requires Valid() && size + count <= Capacity() && tail + count <= Capacity()
      modifies this
      ensures Valid() && head == old(head)
      ensures Contents() == old(Contents()) + buffer[old(tail)..old(tail) + count]
    {
      ghost var was, n, t := Contents(), size, tail;
      SlotIsRemainder(tail, count, Capacity());
      tail := (tail + count) % Capacity();
      size := size + count;
      assert Contents() == was + buffer[t..t + count];
    }
  }
}
