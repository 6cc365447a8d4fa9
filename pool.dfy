/** `Game.Sim.Pool<T>`: a fixed array of `(item, valid)` slots and a FIFO
  * free list of slot indices.  Spawn takes the front of the free list,
  * Release puts a slot back at the end and detects double frees. */
module Pools {
  import opened Outcomes

  /** The abstract state of a pool: the slot array and the free list's
    * contents from front to back. */
  datatype PoolState<T> = PoolState(slots: seq<(T, bool)>, free: seq<int>)

  /** `(uint)ind < (uint)Capacity`: the unsigned cast sends every negative
    * index out of range. */
  predicate InRange<T>(s: PoolState<T>, ind: int)
  {
    0 <= ind < |s.slots|
  }

  predicate Distinct(xs: seq<int>)
  {
    forall a, b :: 0 <= a < b < |xs| ==> xs[a] != xs[b]
  }

  /** The pool's invariant: the free list holds each invalid slot, and
    * nothing else, exactly once. */
  predicate Exact<T>(s: PoolState<T>)
  {
    Distinct(s.free) &&
    (forall k :: 0 <= k < |s.free| ==> InRange(s, s.free[k]) && !s.slots[s.free[k]].1) &&
    (forall i :: 0 <= i < |s.slots| && !s.slots[i].1 ==> i in s.free)
  }

  /** The pool a successful `new Pool<T>(maxObjects)` builds; `NewPool`
    * makes the argument check first. */
  function Fresh<T>(maxObjects: int, blank: T): (s: PoolState<T>)
    requires maxObjects > 0
  {
    PoolState(seq(maxObjects, _ => (blank, false)), seq(maxObjects, i => i))
  }

  /** `Spawn`: the front free slot becomes valid with a default item.  The
    * index is popped before the corruption check, as in the source. */
  function Spawned<T>(s: PoolState<T>, blank: T): (r: (Result<int>, PoolState<T>))
  {
    if |s.free| == 0 then (Err(InvalidOperation), s)
    else
      var ind := s.free[0];
      if !InRange(s, ind) then (Err(IndexOutOfRange), PoolState(s.slots, s.free[1..]))
      else if s.slots[ind].1 then (Err(InvalidOperation), PoolState(s.slots, s.free[1..]))
      else (Ok(ind), PoolState(s.slots[ind := (blank, true)], s.free[1..]))
  }

  /** `Release`: a valid slot is reset to the default `(item, false)` and
    * appended to the free list. */
  function Released<T>(s: PoolState<T>, ind: int, blank: T): (r: (Outcome, PoolState<T>))
  {
    if !InRange(s, ind) then (Fail(ArgumentOutOfRange), s)
    else if !s.slots[ind].1 then (Fail(InvalidOperation), s)
    else (Pass, PoolState(s.slots[ind := (blank, false)], s.free + [ind]))
  }

  /** `Get`. */
  function Got<T>(s: PoolState<T>, ind: int): (r: Result<T>)
  {
    if !InRange(s, ind) then Err(ArgumentOutOfRange)
    else if !s.slots[ind].1 then Err(InvalidOperation)
    else Ok(s.slots[ind].0)
  }

  /** `IsValid`. */
  predicate IsValidSlot<T>(s: PoolState<T>, ind: int)
  {
    InRange(s, ind) && s.slots[ind].1
  }

  /** The number of valid slots. */
  function ValidCount<T>(slots: seq<(T, bool)>): (n: nat)
    ensures n <= |slots|
  {
    if slots == [] then 0
    else ValidCount(slots[..|slots| - 1]) + (if slots[|slots| - 1].1 then 1 else 0)
  }

  function InvalidSet<T>(slots: seq<(T, bool)>): set<int>
  {
    set i | 0 <= i < |slots| && !slots[i].1
  }

  function Elements(xs: seq<int>): set<int>
  {
    set k | 0 <= k < |xs| :: xs[k]
  }

  /** `n` successive spawns: the indices they return, as long as they
    * succeed, and the state after them. */
  function SpawnedMany<T>(s: PoolState<T>, n: nat, blank: T): (r: (seq<int>, PoolState<T>))
    decreases n
  {
    if n == 0 then ([], s)
    else
      var (first, s') := Spawned(s, blank);
      if first.Err? then ([], s')
      else
        var (rest, s'') := SpawnedMany(s', n - 1, blank);
        ([first.value] + rest, s'')
  }

  // ----- the invariant -----

  /** A fresh pool has every slot free and invalid, in index order. */
  lemma {:induction false} FreshIsExact<T>(maxObjects: int, blank: T)
    requires maxObjects > 0
    ensures Exact(Fresh(maxObjects, blank))
    ensures |Fresh(maxObjects, blank).slots| == maxObjects
    ensures ValidCount(Fresh(maxObjects, blank).slots) == 0
    ensures forall i :: 0 <= i < maxObjects ==> !IsValidSlot(Fresh(maxObjects, blank), i)
  {
    var s := Fresh(maxObjects, blank);
    forall i | 0 <= i < |s.slots| && !s.slots[i].1
      ensures i in s.free
    {
      assert s.free[i] == i;
    }
    NoneValid(s.slots);
  }

  lemma {:induction false} NoneValid<T>(slots: seq<(T, bool)>)
    requires forall i :: 0 <= i < |slots| ==> !slots[i].1
    ensures ValidCount(slots) == 0
    decreases |slots|
  {
    if slots != [] {
      NoneValid(slots[..|slots| - 1]);
    }
  }

  /** Under the invariant Spawn never reports corruption: it fails only
    * when no slot is free, and otherwise hands out the front of the free
    * list. */
  lemma {:induction false} SpawnFromExact<T>(s: PoolState<T>, blank: T)
    requires Exact(s)
    ensures Spawned(s, blank).0.Err? <==> |s.free| == 0
    ensures |s.free| > 0 ==> Spawned(s, blank).0 == Ok(s.free[0])
    ensures |s.free| > 0 ==> IsValidSlot(Spawned(s, blank).1, s.free[0])
  {
  }

  lemma {:induction false} SpawnKeepsExact<T>(s: PoolState<T>, blank: T)
    requires Exact(s)
    ensures Exact(Spawned(s, blank).1)
  {
    if |s.free| > 0 {
      var ind := s.free[0];
      var t := Spawned(s, blank).1;
      assert t.free == s.free[1..];
      forall a, b | 0 <= a < b < |t.free|
        ensures t.free[a] != t.free[b]
      {
        assert t.free[a] == s.free[a + 1] && t.free[b] == s.free[b + 1];
      }
      forall k | 0 <= k < |t.free|
        ensures InRange(t, t.free[k]) && !t.slots[t.free[k]].1
      {
        assert t.free[k] == s.free[k + 1];
        assert s.free[k + 1] != s.free[0];
      }
      forall i | 0 <= i < |t.slots| && !t.slots[i].1
        ensures i in t.free
      {
        assert i != ind;
        var k :| 0 <= k < |s.free| && s.free[k] == i;
        assert k != 0;
        assert t.free[k - 1] == i;
      }
    }
  }

  lemma {:induction false} ReleaseKeepsExact<T>(s: PoolState<T>, ind: int, blank: T)
    requires Exact(s)
    ensures Exact(Released(s, ind, blank).1)
  {
    var t := Released(s, ind, blank).1;
    if InRange(s, ind) && s.slots[ind].1 {
      assert ind !in s.free;
      forall a, b | 0 <= a < b < |t.free|
        ensures t.free[a] != t.free[b]
      {
        if b == |s.free| {
          assert t.free[a] == s.free[a];
        } else {
          assert t.free[a] == s.free[a] && t.free[b] == s.free[b];
        }
      }
      forall k | 0 <= k < |t.free|
        ensures InRange(t, t.free[k]) && !t.slots[t.free[k]].1
      {
        if k < |s.free| {
          assert t.free[k] == s.free[k];
        }
      }
      forall i | 0 <= i < |t.slots| && !t.slots[i].1
        ensures i in t.free
      {
        if i == ind {
          assert t.free[|s.free|] == ind;
        } else {
          var k :| 0 <= k < |s.free| && s.free[k] == i;
          assert t.free[k] == i;
        }
      }
    }
  }

  /** Release rejects an index that is not a valid slot, so a second
    * release of the same slot is caught as a double free. */
  lemma {:induction false} DoubleFreeDetected<T>(s: PoolState<T>, ind: int, blank: T)
    requires Released(s, ind, blank).0 == Pass
    ensures Released(Released(s, ind, blank).1, ind, blank) ==
            (Fail(InvalidOperation), Released(s, ind, blank).1)
    ensures !IsValidSlot(Released(s, ind, blank).1, ind)
  {
  }

  /** `Get` succeeds exactly on the slots `IsValid` reports, with the slot's
    * item, and its failures say why. */
  lemma {:induction false} GetMatchesIsValid<T>(s: PoolState<T>, ind: int)
    ensures Got(s, ind).Ok? <==> IsValidSlot(s, ind)
    ensures Got(s, ind).Ok? ==> Got(s, ind).value == s.slots[ind].0
    ensures Got(s, ind) == Err(ArgumentOutOfRange) <==> (ind < 0 || ind >= |s.slots|)
    ensures Got(s, ind) == Err(InvalidOperation) <==> InRange(s, ind) && !s.slots[ind].1
  {
  }

  // ----- counting -----

  lemma {:induction false} ValidCountSplit<T>(slots: seq<(T, bool)>)
    ensures ValidCount(slots) + |InvalidSet(slots)| == |slots|
    decreases |slots|
  {
    if slots != [] {
      var n := |slots| - 1;
      var init := slots[..n];
      ValidCountSplit(init);
      assert InvalidSet(slots) == InvalidSet(init) + (if slots[n].1 then {} else {n});
    }
  }

  lemma {:induction false} DistinctElements(xs: seq<int>)
    requires Distinct(xs)
    ensures |Elements(xs)| == |xs|
    decreases |xs|
  {
    if xs != [] {
      var n := |xs| - 1;
      var init := xs[..n];
      assert Distinct(init) by {
        forall a, b | 0 <= a < b < |init| ensures init[a] != init[b] {
          assert init[a] == xs[a] && init[b] == xs[b];
        }
      }
      DistinctElements(init);
      assert Elements(xs) == Elements(init) + {xs[n]};
      assert xs[n] !in Elements(init);
    }
  }

  /** The valid slots and the free list together account for every slot
    * exactly once. */
  lemma {:induction false} ValidPlusFree<T>(s: PoolState<T>)
    requires Exact(s)
    ensures ValidCount(s.slots) + |s.free| == |s.slots|
  {
    ValidCountSplit(s.slots);
    DistinctElements(s.free);
    forall i | i in Elements(s.free) ensures i in InvalidSet(s.slots) {
      var k :| 0 <= k < |s.free| && s.free[k] == i;
    }
    forall i | i in InvalidSet(s.slots) ensures i in Elements(s.free) {
      var k :| 0 <= k < |s.free| && s.free[k] == i;
    }
    assert Elements(s.free) == InvalidSet(s.slots);
  }

  // ----- FIFO reuse -----

  /** Successive spawns hand out the free list from the front. */
  lemma {:induction false} SpawnsInFreeListOrder<T>(s: PoolState<T>, n: nat, blank: T)
    requires Exact(s) && n <= |s.free|
    ensures SpawnedMany(s, n, blank).0 == s.free[..n]
    decreases n
  {
    if n > 0 {
      SpawnFromExact(s, blank);
      SpawnKeepsExact(s, blank);
      var t := Spawned(s, blank).1;
      SpawnsInFreeListOrder(t, n - 1, blank);
      assert t.free == s.free[1..];
      assert s.free[..n] == [s.free[0]] + t.free[..n - 1];
    }
  }

  /** A released slot is handed out again only after every slot that was
    * free before it. */
  lemma {:induction false} ReleasedReusedLast<T>(s: PoolState<T>, ind: int, blank: T)
    requires Exact(s) && Released(s, ind, blank).0 == Pass
    ensures SpawnedMany(Released(s, ind, blank).1, |s.free| + 1, blank).0 == s.free + [ind]
  {
    var t := Released(s, ind, blank).1;
    ReleaseKeepsExact(s, ind, blank);
    SpawnsInFreeListOrder(t, |s.free| + 1, blank);
    assert t.free[..|s.free| + 1] == s.free + [ind];
  }

  /** `new Pool<T>(maxObjects)`: a size that is not positive throws
    * ArgumentOutOfRange; any other gives a fresh pool with every slot free. */
  method NewPool<T>(maxObjects: int, blank: T) returns (r: Result<Pool<T>>)
    ensures r.Err? <==> maxObjects <= 0
    ensures r.Err? ==> r.failure == ArgumentOutOfRange
    ensures r.Ok? ==> fresh(r.value) && fresh(r.value.objects) && r.value.Valid()
    ensures r.Ok? ==> r.value.State() == Fresh(maxObjects, blank)
  {
    if maxObjects <= 0 {
      return Err(ArgumentOutOfRange);
    }
    var p := new Pool(maxObjects, blank);
    return Ok(p);
  }

  /** `Pool<T>` over an array of slots; the free list's contents are the
    * sequence `freeList` (the `Deque` class models its storage). */
  class Pool<T> {
    const objects: array<(T, bool)>
    var freeList: seq<int>
    const blank: T

    ghost function State(): PoolState<T>
      reads this, objects
    {
      PoolState(objects[..], freeList)
    }

    ghost predicate Valid()
      reads this, objects
    {
      Exact(State())
    }

    /** `Capacity`. */
    function Capacity(): (n: int)
      reads this
      ensures n == objects.Length
    {
      objects.Length
    }

    /** The body of `new Pool<T>(maxObjects)` after its argument check
      * (see `NewPool`): it pushes 0 .. maxObjects-1 onto the free list. */
    constructor (maxObjects: int, blank: T)
      requires maxObjects > 0
      ensures Valid() && State() == Fresh(maxObjects, blank) && this.blank == blank
      ensures fresh(objects)
    {
      objects := new (T, bool)[maxObjects](_ => (blank, false));
      this.blank := blank;
      var free: seq<int> := [];
      for i := 0 to maxObjects
        invariant free == seq(i, k => k)
      {
        free := free + [i];
      }
      freeList := free;
      new;
      assert objects[..] == Fresh(maxObjects, blank).slots;
      FreshIsExact(maxObjects, blank);
    }

    method Spawn() returns (r: Result<int>)
      requires Valid()
      modifies this, objects
      ensures Valid() && (r, State()) == Spawned(old(State()), blank)
    {
      ghost var s := State();
      if |freeList| == 0 {
        return Err(InvalidOperation);
      }
      var ind := freeList[0];
      freeList := freeList[1..];
      if !(0 <= ind < objects.Length) {
        return Err(IndexOutOfRange);
      }
      if objects[ind].1 {
        return Err(InvalidOperation);
      }
      objects[ind] := (blank, true);
      r := Ok(ind);
      assert State() == Spawned(s, blank).1;
      SpawnKeepsExact(s, blank);
    }

    method Release(ind: int) returns (o: Outcome)
      requires Valid()
      modifies this, objects
      ensures Valid() && (o, State()) == Released(old(State()), ind, blank)
    {
      ghost var s := State();
      if !(0 <= ind < objects.Length) {
        return Fail(ArgumentOutOfRange);
      }
      if !objects[ind].1 {
        return Fail(InvalidOperation);
      }
      objects[ind] := (blank, false);
      freeList := freeList + [ind];
      o := Pass;
      assert State() == Released(s, ind, blank).1;
      ReleaseKeepsExact(s, ind, blank);
    }

    /** The indexer `this[index]`: no validity check, only the array's own
      * bounds check. */
    function Item(index: int): (r: Result<T>)
      reads this, objects
      ensures r.Ok? <==> 0 <= index < objects.Length
      ensures r.Ok? ==> r.value == objects[index].0
    {
      if 0 <= index < objects.Length then Ok(objects[index].0) else Err(IndexOutOfRange)
    }

    function Get(ind: int): (r: Result<T>)
      reads this, objects
      ensures r == Got(State(), ind)
    {
      if !(0 <= ind < objects.Length) then Err(ArgumentOutOfRange)
      else if !objects[ind].1 then Err(InvalidOperation)
      else Ok(objects[ind].0)
    }

    predicate IsValid(ind: int)
      reads this, objects
      ensures IsValid(ind) <==> IsValidSlot(State(), ind)
    {
      0 <= ind < objects.Length && objects[ind].1
    }
  }
}
