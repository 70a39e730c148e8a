/** RingBuffer<T>: a fixed-capacity circular buffer that keeps the most recently
    added elements, with logical indexing (0 = oldest retained), equality and a
    forward iterator over the logical indices. */
module RingBuffers {
  import opened RingIndex

  /** `std::numeric_limits<size_t>::max()` on a 64-bit target. */
  const SIZE_MAX: nat := 0xFFFF_FFFF_FFFF_FFFF

  /** The largest capacity a `std::vector` can have (`PTRDIFF_MAX`); below it the
      index arithmetic `ptr + size - len + ind` never wraps. */
  const MAX_CAPACITY: nat := 0x7FFF_FFFF_FFFF_FFFF

  const IndexOutOfBounds: string := "ringbuffer index out of bounds"
  const PtrOutOfBounds: string := "ptr out of bounds"

  /** A value, or the `std::runtime_error` thrown instead. */
  datatype Result<T> = Ok(value: T) | Err(msg: string)

  /** Completion of an operation without a value, or the `std::runtime_error` thrown. */
  datatype Outcome = Done | Fail(msg: string)

  /** `a - b` on `size_t`: wraps modulo 2^64. */
  function SizeSub(a: nat, b: nat): (r: nat)
    requires a <= SIZE_MAX && b <= SIZE_MAX
    ensures r <= SIZE_MAX
    ensures b <= a ==> r == a - b
    ensures a < b ==> r == SIZE_MAX + 1 + a - b
  {
    (a - b) % (SIZE_MAX + 1)
  }

  class RingBuffer<T(0,==)> {
    /** The backing storage; its size is the capacity and never changes. */
    const data: array<T>
    /** The write cursor: the slot the next `add` overwrites. */
    var ptr: nat
    /** The logical length. */
    var len: nat

    ghost predicate Valid()
      reads this
    {
      data.Length <= MAX_CAPACITY && Fits(data.Length, ptr, len)
    }

    /** The logical contents, oldest first. */
    ghost function Contents(): (r: seq<T>)
      reads this, data
      requires Valid()
      ensures |r| == len
    {
      Logical(data[..], ptr, len)
    }

    /** Storage of `size` value-initialised slots, empty, cursor at slot 0. */
    constructor (size: nat)
      requires size <= MAX_CAPACITY
      ensures Valid() && fresh(data)
      ensures data.Length == size && ptr == 0 && len == 0
      ensures Contents() == []
    {
      data := new T[size];
      ptr, len := 0, 0;
    }

    /** Writes `v` into every physical slot; cursor and length stay as they are, so
        every retained element now reads as `v`. */
    method InitTo(v: T)
      requires Valid()
      modifies data
      ensures forall i :: 0 <= i < data.Length ==> data[i] == v
      ensures Contents() == seq(len, _ => v)
    {
      var i := 0;
      while i < data.Length
        invariant 0 <= i <= data.Length
        invariant forall j :: 0 <= j < i ==> data[j] == v
      {
        data[i] := v;
        i := i + 1;
      }
    }

    /** The element at logical index `ind`. An index above the length is rejected;
        the length itself is accepted and reads the slot under the write cursor,
        which is the oldest element when the buffer is full and a slot outside the
        logical contents otherwise. */
    function Get(ind: nat): (r: Result<T>)
      reads this, data
      requires Valid()
      requires data.Length > 0 || ind > len
      ensures r.Err? <==> ind > len
      ensures r.Err? ==> r.msg == IndexOutOfBounds
      ensures ind < len ==> r == Ok(Contents()[ind])
      ensures ind == len ==> r == Ok(data[ptr])
      ensures ind == len == data.Length ==> r == Ok(Contents()[0])
    {
      if ind > len then Err(IndexOutOfBounds)
      else
        PastEndSlot(data.Length, ptr, len);
        Ok(data[(ptr + data.Length - len + ind) % data.Length])
    }

    /** Stores `t` under the cursor and advances it; once full, the oldest element
        is overwritten. A buffer of capacity 0 rejects every add. */
    method Add(t: T) returns (r: Outcome)
      requires Valid()
      modifies this, data
      ensures Valid()
      ensures r == if data.Length == 0 then Fail(PtrOutOfBounds) else Done
      ensures r.Fail? ==> ptr == old(ptr) && len == old(len) && data[..] == old(data[..])
      ensures r.Done? ==> data[..] == old(data[..])[old(ptr) := t]
      ensures r.Done? ==> ptr == (old(ptr) + 1) % data.Length
      ensures r.Done? ==> len == Min(old(len) + 1, data.Length)
      ensures r.Done? ==> Contents() == Window(old(Contents()) + [t], data.Length)
      ensures r.Done? ==> Get(len - 1) == Ok(t) && Last() == Ok(t)
    {
      if ptr >= data.Length {
        return Fail(PtrOutOfBounds);
      }
      AddStep(data[..], ptr, len, t);
      data[ptr] := t;
      ptr := ptr + 1;
      ptr := ptr % data.Length;
      len := Min(len + 1, data.Length);
      r := Done;
    }

    /** The logical length. */
    function Size(): (n: nat)
      reads this
      requires Valid()
      ensures n == len && n <= SizeMax()
    {
      len
    }

    /** The capacity. */
    function SizeMax(): (n: nat)
      ensures n == data.Length
    {
      data.Length
    }

    /** Forgets every element; storage is left as it is. */
    method Clear()
      requires Valid()
      modifies this
      ensures Valid() && len == 0 && ptr == 0
      ensures Contents() == []
    {
      len := 0;
      ptr := 0;
    }

    /** The newest element; on an empty buffer `size() - 1` wraps to SIZE_MAX, which
        `get` rejects. */
    function Last(): (r: Result<T>)
      reads this, data
      requires Valid()
      ensures r.Err? <==> len == 0
      ensures r.Err? ==> r.msg == IndexOutOfBounds
      ensures len > 0 ==> r == Ok(Contents()[len - 1])
    {
      Get(SizeSub(Size(), 1))
    }

    /** Equal length, equal capacity and equal elements at every logical index. */
    method Equals(other: RingBuffer<T>) returns (eq: bool)
      requires Valid() && other.Valid()
      ensures eq <==> len == other.len && data.Length == other.data.Length &&
                      forall i :: 0 <= i < len ==> Get(i) == other.Get(i)
      ensures eq <==> len == other.len && data.Length == other.data.Length &&
                      Contents() == other.Contents()
    {
      if len != other.len || data.Length != other.data.Length {
        return false;
      }
      var i := 0;
      while i < len
        invariant i <= len
        invariant forall j :: 0 <= j < i ==> Get(j) == other.Get(j)
      {
        if Get(i) != other.Get(i) {
          return false;
        }
        i := i + 1;
      }
      forall j | 0 <= j < len ensures Contents()[j] == other.Contents()[j] {
        assert Get(j) == other.Get(j);
      }
      return true;
    }

    /** An iterator at logical index 0. */
    method Begin() returns (it: Iterator<T>)
      ensures fresh(it) && it.rb == this && it.ind == 0
    {
      it := new Iterator(this, 0);
    }

    /** An iterator at logical index `len`, one past the newest element. */
    method End() returns (it: Iterator<T>)
      ensures fresh(it) && it.rb == this && it.ind == len
    {
      it := new Iterator(this, len);
    }
  }

  /** A position in a ring buffer, by logical index. */
  class Iterator<T(0,==)> {
    const rb: RingBuffer<T>
    var ind: nat

    constructor (rb: RingBuffer<T>, ind: nat)
      ensures this.rb == rb && this.ind == ind
    {
      this.rb := rb;
      this.ind := ind;
    }

    /** The element the iterator stands on (`operator*`). */
    function Deref(): (r: Result<T>)
      reads this, rb, rb.data
      requires rb.Valid()
      requires rb.data.Length > 0 || ind > rb.len
      ensures r.Err? <==> ind > rb.len
      ensures ind < rb.len ==> r == Ok(rb.Contents()[ind])
    {
      rb.Get(ind)
    }

    /** Moves to the next logical index (`operator++`). */
    method Next()
      modifies this
      ensures ind == old(ind) + 1
    {
      ind := ind + 1;
    }

    /** Two iterators are equal when their buffers compare equal and their indices
        agree (`operator==`; `operator!=` is its negation). */
    method Equals(b: Iterator<T>) returns (eq: bool)
      requires rb.Valid() && b.rb.Valid()
      ensures eq <==> rb.len == b.rb.len && rb.data.Length == b.rb.data.Length &&
                      rb.Contents() == b.rb.Contents() && ind == b.ind
    {
      eq := rb.Equals(b.rb);
      eq := eq && ind == b.ind;
    }
  }

  /** A range-for loop over the buffer: from `begin()` until the iterator equals
      `end()`, dereference and advance. It visits `get(0)`, …, `get(len - 1)`. */
  method Traverse<T(0,==)>(rb: RingBuffer<T>) returns (visited: seq<T>)
    requires rb.Valid()
    ensures visited == rb.Contents()
    ensures forall i :: 0 <= i < |visited| ==> rb.Get(i) == Ok(visited[i])
  {
    var it := rb.Begin();
    var end := rb.End();
    visited := [];
    var atEnd := it.Equals(end);
    while !atEnd
      invariant fresh(it) && it.rb == rb && end.rb == rb && end.ind == rb.len
      invariant it.ind <= rb.len
      invariant atEnd <==> it.ind == rb.len
      invariant visited == rb.Contents()[..it.ind]
      decreases rb.len - it.ind
    {
      var v := it.Deref();
      visited := visited + [v.value];
      it.Next();
      atEnd := it.Equals(end);
    }
  }
}
