/** `Utils.Deque<T>`: a double-ended queue over a ring buffer whose
  * capacity is a power of two, at least 2, doubled when full. */
module Deques {
  import opened Outcomes
  import opened ModArith

  predicate IsPowerOfTwo(n: int)
    decreases n
  {
    n == 1 || (n >= 2 && n % 2 == 0 && IsPowerOfTwo(n / 2))
  }

  /** The smallest power of two that is at least `n` (1 for `n <= 1`). */
  function NextPowerOfTwo(n: int): (p: int)
    ensures IsPowerOfTwo(p) && p >= n
    ensures forall q :: IsPowerOfTwo(q) && q >= n ==> p <= q
  {
    PowerOfTwoAtLeast(1, n)
  }

  /** The doubling search from `p`: the least power of two at or above
    * both `n` and `p`. */
  function PowerOfTwoAtLeast(p: int, n: int): (r: int)
    requires IsPowerOfTwo(p)
    ensures IsPowerOfTwo(r) && r >= n && r >= p
    ensures forall q :: IsPowerOfTwo(q) && q >= n && q >= p ==> r <= q
    decreases n - p
  {
    if p >= n then p
    else
      NextPowerIsDouble(p);
      PowerOfTwoAtLeast(2 * p, n)
  }

  /** No power of two lies strictly between `p` and `2 * p`. */
  lemma {:induction false} PowersApart(p: int, q: int)
    requires IsPowerOfTwo(p) && IsPowerOfTwo(q) && q > p
    ensures q >= 2 * p
    decreases q
  {
    if p != 1 {
      PowersApart(p / 2, q / 2);
    }
  }

  lemma NextPowerIsDouble(p: int)
    requires IsPowerOfTwo(p)
    ensures IsPowerOfTwo(2 * p)
    ensures forall q :: IsPowerOfTwo(q) && q > p ==> q >= 2 * p
  {
    DoubleIsPowerOfTwo(p);
    forall q | IsPowerOfTwo(q) && q > p
      ensures q >= 2 * p
    {
      PowersApart(p, q);
    }
  }

  lemma DoubleIsPowerOfTwo(n: int)
    requires IsPowerOfTwo(n)
    ensures IsPowerOfTwo(2 * n)
  {
    assert (2 * n) / 2 == n;
  }

  /** `elems` laid out in the ring `buf` from slot `head` on, wrapping
    * around at the end. */
  ghost predicate Ring<T>(elems: seq<T>, buf: seq<T>, head: nat)
  {
    head < |buf| && |elems| <= |buf| &&
    forall i :: 0 <= i < |elems| ==> elems[i] == buf[(head + i) % |buf|]
  }

  lemma RingFront<T>(elems: seq<T>, buf: seq<T>, head: nat)
    requires Ring(elems, buf, head) && |elems| > 0
    ensures elems[0] == buf[head]
  {
    assert elems[0] == buf[(head + 0) % |buf|];
  }

  /** Writing after the last element appends it. */
  lemma RingPushBack<T>(elems: seq<T>, buf: seq<T>, head: nat, v: T)
    requires Ring(elems, buf, head) && |elems| < |buf|
    ensures (head + |elems|) % |buf| == head + |elems| - (if head + |elems| < |buf| then 0 else |buf|)
    ensures Ring(elems + [v], buf[(head + |elems|) % |buf| := v], head)
  {
    var n := |buf|;
    ModSmall(head + |elems|, n);
    var buf' := buf[(head + |elems|) % n := v];
    forall i | 0 <= i < |elems| + 1
      ensures (elems + [v])[i] == buf'[(head + i) % n]
    {
      ModSmall(head + i, n);
    }
  }

  /** Writing before the first element prepends it. */
  lemma RingPushFront<T>(elems: seq<T>, buf: seq<T>, head: nat, v: T)
    requires Ring(elems, buf, head) && |elems| < |buf|
    ensures (head - 1) % |buf| == if head == 0 then |buf| - 1 else head - 1
    ensures Ring([v] + elems, buf[(head - 1) % |buf| := v], (head - 1) % |buf|)
  {
    var n := |buf|;
    ModSmall(head - 1, n);
    var h := (head - 1) % n;
    var buf' := buf[h := v];
    forall i | 0 <= i < |elems| + 1
      ensures ([v] + elems)[i] == buf'[(h + i) % n]
    {
      ModSmall(h + i, n);
      if i > 0 {
        ModSmall(head + i - 1, n);
      }
    }
  }

  /** Moving the head on drops the first element. */
  lemma RingPopFront<T>(elems: seq<T>, buf: seq<T>, head: nat)
    requires Ring(elems, buf, head) && |elems| > 0
    ensures (head + 1) % |buf| == if head + 1 == |buf| then 0 else head + 1
    ensures Ring(elems[1..], buf, (head + 1) % |buf|)
  {
    var n := |buf|;
    ModSmall(head + 1, n);
    var h := (head + 1) % n;
    forall i | 0 <= i < |elems| - 1
      ensures elems[1..][i] == buf[(h + i) % n]
    {
      ModSmall(h + i, n);
      ModSmall(head + i + 1, n);
    }
  }

  /** Dropping the last element. */
  lemma RingPopBack<T>(elems: seq<T>, buf: seq<T>, head: nat)
    requires Ring(elems, buf, head) && |elems| > 0
    ensures elems[|elems| - 1] == buf[(head + |elems| - 1) % |buf|]
    ensures Ring(elems[..|elems| - 1], buf, head)
  {
  }

  /** A buffer starting with the elements holds them from slot 0. */
  lemma RingAtStart<T>(elems: seq<T>, buf: seq<T>)
    requires |elems| <= |buf| && 0 < |buf| && buf[..|elems|] == elems
    ensures Ring(elems, buf, 0)
  {
    forall i | 0 <= i < |elems|
      ensures elems[i] == buf[(0 + i) % |buf|]
    {
      ModSmall(i, |buf|);
    }
  }

  class Deque<T(0)> {
    /** The elements from front to back. */
    ghost var Elements: seq<T>
    ghost var Repr: set<object>

    var buffer: array<T>
    var head: nat
    var count: nat

    ghost predicate Valid()
      reads this, Repr
      ensures Valid() ==> this in Repr
    {
      this in Repr && buffer in Repr &&
      buffer.Length >= 2 && IsPowerOfTwo(buffer.Length) &&
      |Elements| == count && Ring(Elements, buffer[..], head)
    }

    function Count(): (n: nat)
      reads this, Repr
      requires Valid()
      ensures n == |Elements|
    {
      count
    }

    function Capacity(): (c: nat)
      reads this, Repr
      requires Valid()
      ensures c >= 2 && IsPowerOfTwo(c) && c >= |Elements|
    {
      buffer.Length
    }

    /** `new Deque<T>(capacity)`: `Mathsf.NextPowerOfTwo` is taken to give
      * the smallest power of two not below its argument. */
    constructor (capacity: int)
      ensures Valid() && fresh(Repr)
      ensures Elements == []
      ensures Capacity() == if NextPowerOfTwo(capacity) < 2 then 2 else NextPowerOfTwo(capacity)
    {
      var p := NextPowerOfTwo(capacity);
      if p < 2 {
        DoubleIsPowerOfTwo(1);
      }
      buffer := new T[if p < 2 then 2 else p];
      head := 0;
      count := 0;
      Elements := [];
      Repr := {this, buffer};
    }

    /** The indexer: the `index`-th element from the front. */
    method Get(index: int) returns (r: Result<T>)
      requires Valid()
      ensures r.Ok? <==> 0 <= index < |Elements|
      ensures r.Ok? ==> r.value == Elements[index]
      ensures r.Err? ==> r.failure == ArgumentOutOfRange
    {
      if index < 0 || index >= count {
        return Err(ArgumentOutOfRange);
      }
      r := Ok(buffer[(head + index) % buffer.Length]);
    }

    method Front() returns (r: Result<T>)
      requires Valid()
      ensures r.Ok? <==> |Elements| > 0
      ensures r.Ok? ==> r.value == Elements[0]
      ensures r.Err? ==> r.failure == InvalidOperation
    {
      if count == 0 {
        return Err(InvalidOperation);
      }
      RingFront(Elements, buffer[..], head);
      r := Ok(buffer[head]);
    }

    method Back() returns (r: Result<T>)
      requires Valid()
      ensures r.Ok? <==> |Elements| > 0
      ensures r.Ok? ==> r.value == Elements[|Elements| - 1]
      ensures r.Err? ==> r.failure == InvalidOperation
    {
      if count == 0 {
        return Err(InvalidOperation);
      }
      r := Ok(buffer[(head + count - 1) % buffer.Length]);
    }

    /** Doubles the buffer when `size` exceeds it, copying the elements to
      * the start of the new buffer. */
    method EnsureCapacity(size: int)
      requires Valid()
      requires size <= 2 * Capacity()
      modifies this
      ensures Valid() && fresh(Repr - old(Repr))
      ensures Elements == old(Elements)
      ensures Capacity() == if size <= old(Capacity()) then old(Capacity()) else 2 * old(Capacity())
      ensures size <= Capacity()
    {
      if size <= buffer.Length {
        return;
      }
      var newBuf := Unrolled(2 * buffer.Length);
      DoubleIsPowerOfTwo(buffer.Length);
      RingAtStart(Elements, newBuf[..]);
      buffer := newBuf;
      head := 0;
      Repr := Repr + {newBuf};
    }

    /** A new buffer of `newCap` slots holding the elements from slot 0. */
    method Unrolled(newCap: nat) returns (newBuf: array<T>)
      requires Valid() && count <= newCap
      ensures fresh(newBuf) && newBuf.Length == newCap && newBuf[..count] == Elements
    {
      newBuf := new T[newCap];
      var i := 0;
      while i < count
        invariant 0 <= i <= count
        invariant forall j :: 0 <= j < i ==> newBuf[j] == Elements[j]
      {
        newBuf[i] := buffer[(head + i) % buffer.Length];
        i := i + 1;
      }
    }

    method PushFront(value: T)
      requires Valid()
      modifies Repr
      ensures Valid() && fresh(Repr - old(Repr))
      ensures Elements == [value] + old(Elements)
      ensures Capacity() == if old(|Elements|) < old(Capacity()) then old(Capacity()) else 2 * old(Capacity())
    {
      EnsureCapacity(count + 1);
      RingPushFront(Elements, buffer[..], head, value);
      head := (head - 1) % buffer.Length;
      buffer[head] := value;
      count := count + 1;
      Elements := [value] + Elements;
    }

    method PushBack(value: T)
      requires Valid()
      modifies Repr
      ensures Valid() && fresh(Repr - old(Repr))
      ensures Elements == old(Elements) + [value]
      ensures Capacity() == if old(|Elements|) < old(Capacity()) then old(Capacity()) else 2 * old(Capacity())
    {
      EnsureCapacity(count + 1);
      RingPushBack(Elements, buffer[..], head, value);
      buffer[(head + count) % buffer.Length] := value;
      count := count + 1;
      Elements := Elements + [value];
    }

    /** Removes and returns the front element.  The vacated slot is reset
      * to `default` in the source, which only matters to the garbage
      * collector; the model leaves it. */
    method PopFront() returns (r: Result<T>)
      requires Valid()
      modifies this
      ensures Valid() && Repr == old(Repr)
      ensures r.Ok? <==> old(|Elements|) > 0
      ensures r.Ok? ==> r.value == old(Elements)[0] && Elements == old(Elements)[1..]
      ensures r.Err? ==> r.failure == InvalidOperation && Elements == old(Elements)
      ensures Capacity() == old(Capacity())
    {
      if count == 0 {
        return Err(InvalidOperation);
      }
      RingFront(Elements, buffer[..], head);
      RingPopFront(Elements, buffer[..], head);
      r := Ok(buffer[head]);
      head := (head + 1) % buffer.Length;
      count := count - 1;
      Elements := Elements[1..];
    }

    /** Removes and returns the back element. */
    method PopBack() returns (r: Result<T>)
      requires Valid()
      modifies this
      ensures Valid() && Repr == old(Repr)
      ensures r.Ok? <==> old(|Elements|) > 0
      ensures r.Ok? ==> r.value == old(Elements)[old(|Elements|) - 1] && Elements == old(Elements)[..old(|Elements|) - 1]
      ensures r.Err? ==> r.failure == InvalidOperation && Elements == old(Elements)
      ensures Capacity() == old(Capacity())
    {
      if count == 0 {
        return Err(InvalidOperation);
      }
      RingPopBack(Elements, buffer[..], head);
      r := Ok(buffer[(head + count - 1) % buffer.Length]);
      count := count - 1;
      Elements := Elements[..count];
    }

    /** Empties the deque and moves the head back to slot 0.  The source also
      * resets the vacated slots when `T` is a reference type; no element can
      * be read from them afterwards, so the model does not. */
    method Clear()
      requires Valid()
      modifies this
      ensures Valid() && Repr == old(Repr)
      ensures Elements == [] && Capacity() == old(Capacity())
    {
      if count == 0 {
        return;
      }
      head := 0;
      count := 0;
      Elements := [];
    }

    /** `Iter`: the elements from front to back. */
    method Iter() returns (r: seq<T>)
      requires Valid()
      ensures r == Elements
    {
      r := [];
      var i := 0;
      while i < count
        invariant 0 <= i <= count
        invariant r == Elements[..i]
      {
        r := r + [buffer[(head + i) % buffer.Length]];
        i := i + 1;
      }
    }
  }
}
