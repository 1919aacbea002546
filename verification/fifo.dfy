/** The bounded queue between packet producers and consumers: a ring of slots with two cursors. */
module Fifo {

  datatype PushError = Pushed | Closed | TailDropped | WredDropped

  /** One pass of the blocking pop: an item, the end of a closed queue, or a wait. */
  datatype Popped<T> = Item(value: T) | Ended | MustWait

  function Wrap(i: nat, n: nat): nat
    requires i <= 2 * n
  {
    if i < n then i else i - n
  }

  lemma NextIsWrap(i: nat, n: nat)
    requires i < n
    ensures (i + 1) % n == Wrap(i + 1, n)
  {
    if i + 1 < n {
      SmallMod(i + 1, n);
    }
  }

  lemma SmallMod(i: nat, n: nat)
    requires i < n
    ensures i % n == i
  {
  }

  /** The `elems` values from slot `r` on, around the ring. */
  function Ring<T>(slots: seq<T>, r: nat, elems: nat): (s: seq<T>)
    requires r <= |slots| && elems <= |slots|
    ensures |s| == elems
  {
    if r + elems <= |slots| then slots[r..r + elems] else slots[r..] + slots[..r + elems - |slots|]
  }

  /** Every slot outside the ring's `elems` values is zero: no popped item is kept alive. */
  ghost predicate FreeSlotsZero<T>(slots: seq<T>, r: nat, elems: nat, zero: T) {
    forall i :: 0 <= i < |slots| && !(r <= i < r + elems) && !(i < r + elems - |slots|) ==> slots[i] == zero
  }

  lemma RingAt<T>(slots: seq<T>, r: nat, elems: nat, i: nat)
    requires r <= |slots| && elems <= |slots| && i < elems
    ensures Ring(slots, r, elems)[i] == slots[Wrap(r + i, |slots|)]
  {
  }

  /** The slot behind the last value takes one more. */
  lemma RingPush<T>(slots: seq<T>, r: nat, elems: nat, item: T, zero: T)
    requires r < |slots| && elems < |slots|
    ensures FreeSlotsZero(slots, r, elems, zero) ==>
              FreeSlotsZero(slots[Wrap(r + elems, |slots|) := item], r, elems + 1, zero)
    ensures Ring(slots[Wrap(r + elems, |slots|) := item], r, elems + 1) == Ring(slots, r, elems) + [item]
  {
    hide Ring;
    var slots' := slots[Wrap(r + elems, |slots|) := item];
    forall i | 0 <= i < elems + 1
      ensures Ring(slots', r, elems + 1)[i] == (Ring(slots, r, elems) + [item])[i]
    {
      RingAt(slots', r, elems + 1, i);
      if i < elems {
        RingAt(slots, r, elems, i);
      }
    }
  }

  lemma FreedSlot<T>(slots: seq<T>, r: nat, elems: nat, zero: T)
    requires r < |slots| && 0 < elems <= |slots|
    ensures FreeSlotsZero(slots, r, elems, zero) ==>
              FreeSlotsZero(slots[r := zero], Wrap(r + 1, |slots|), elems - 1, zero)
  {
  }

  /** Zeroing the slot of the first value leaves the others. */
  lemma RingPop<T>(slots: seq<T>, r: nat, elems: nat, zero: T)
    requires r < |slots| && 0 < elems <= |slots|
    ensures FreeSlotsZero(slots, r, elems, zero) ==>
              FreeSlotsZero(slots[r := zero], Wrap(r + 1, |slots|), elems - 1, zero)
    ensures Ring(slots, r, elems)[0] == slots[r]
    ensures Ring(slots[r := zero], Wrap(r + 1, |slots|), elems - 1) == Ring(slots, r, elems)[1..]
  {
    hide Ring, FreeSlotsZero;
    FreedSlot(slots, r, elems, zero);
    RingAt(slots, r, elems, 0);
    var slots', r' := slots[r := zero], Wrap(r + 1, |slots|);
    forall i | 0 <= i < elems - 1
      ensures Ring(slots', r', elems - 1)[i] == Ring(slots, r, elems)[1..][i]
    {
      RingAt(slots', r', elems - 1, i);
      RingAt(slots, r, elems, i + 1);
    }
  }

  class FIFO<T(==)> {
    const zero: T
    const length: nat
    const queue: array<T>
    var elems: nat
    var rCursor: nat
    var wCursor: nat
    var closed: bool

    /** The cursors stand `elems` slots apart, and the free slots are zero. */
    ghost predicate Valid()
      reads this, queue
    {
      && queue.Length == length && elems <= length
      && (length == 0 ==> rCursor == wCursor == 0)
      && (length > 0 ==> rCursor < length && wCursor == Wrap(rCursor + elems, length))
      && FreeSlotsZero(queue[..], rCursor, elems, zero)
    }

    ghost function Contents(): seq<T>
      reads this, queue
      requires Valid()
    {
      Ring(queue[..], rCursor, elems)
    }

    constructor (length: nat, zero: T)
      ensures Valid() && fresh(queue) && this.length == length && this.zero == zero
      ensures Contents() == [] && !closed
    {
      this.zero, this.length := zero, length;
      queue := new T[length](_ => zero);
      elems, rCursor, wCursor, closed := 0, 0, 0, false;
    }

    /** Appends unless the queue is closed, full, or the drop decision says no. Signals only when
        the queue was empty. */
    method Push(item: T, drop: bool) returns (err: PushError, signal: bool)
      requires Valid()
      modifies this`elems, this`wCursor, queue
      ensures Valid()
      ensures err == if closed then Closed else if |old(Contents())| == length then TailDropped
                     else if drop then WredDropped else Pushed
      ensures Contents() == old(Contents()) + if err.Pushed? then [item] else []
      ensures signal <==> err.Pushed? && old(Contents()) == []
    {
      if closed {
        return Closed, false;
      }
      if elems == length {
        return TailDropped, false;
      }
      if drop {
        return WredDropped, false;
      }
      hide Ring, FreeSlotsZero;
      RingPush(queue[..], rCursor, elems, item, zero);
      NextIsWrap(wCursor, length);
      queue[wCursor] := item;
      wCursor := (wCursor + 1) % length;
      elems := elems + 1;
      return Pushed, elems == 1;
    }

    /** Takes the oldest item off a queue that is not empty. */
    method TakeFirst() returns (item: T)
      requires Valid() && Contents() != []
      modifies this`elems, this`rCursor, queue
      ensures Valid() && old(Contents()) == [item] + Contents()
    {
      hide Ring, FreeSlotsZero;
      RingPop(queue[..], rCursor, elems, zero);
      NextIsWrap(rCursor, length);
      item := queue[rCursor];
      queue[rCursor] := zero;
      rCursor := (rCursor + 1) % length;
      elems := elems - 1;
    }

    /** One pass of the blocking pop. */
    method Pop() returns (r: Popped<T>)
      requires Valid()
      modifies this`elems, this`rCursor, queue
      ensures Valid()
      ensures r == if old(Contents()) != [] then Item(old(Contents())[0]) else if closed then Ended else MustWait
      ensures Contents() == if old(Contents()) != [] then old(Contents())[1..] else []
    {
      if elems == 0 {
        return if closed then Ended else MustWait;
      }
      var item := TakeFirst();
      r := Item(item);
    }

    /** One pass of the blocking pop of everything, oldest first. */
    method PopAll() returns (r: Popped<seq<T>>)
      requires Valid()
      modifies this`elems, this`rCursor, queue
      ensures Valid() && Contents() == []
      ensures r == if old(Contents()) != [] then Item(old(Contents())) else if closed then Ended else MustWait
    {
      if elems == 0 {
        return if closed then Ended else MustWait;
      }
      var items := Drain();
      r := Item(items);
    }

    method Drain() returns (items: seq<T>)
      requires Valid()
      modifies this`elems, this`rCursor, queue
      ensures Valid() && Contents() == [] && items == old(Contents())
    {
      hide Ring, FreeSlotsZero;
      items := [];
      ghost var all := Contents();
      for i := 0 to elems
        invariant Valid() && elems == |all| - i
        invariant all == items + Contents()
      {
        ghost var rest := Contents();
        var item := TakeFirst();
        assert items + rest == (items + [item]) + Contents();
        items := items + [item];
      }
      assert items + Contents() == items;
    }

    /** Pops if there is an item, and tells whether the queue is empty afterwards. */
    method TryPop() returns (val: T, empty: bool, wasClosed: bool)
      requires Valid()
      modifies this`elems, this`rCursor, queue
      ensures Valid() && wasClosed == closed && empty == (Contents() == [])
      ensures old(Contents()) == (if old(Contents()) == [] then [] else [val]) + Contents()
    {
      wasClosed := closed;
      if elems == 0 {
        return zero, true, wasClosed;
      }
      val := TakeFirst();
      empty := elems == 0;
    }

    method TryPopAll() returns (vals: seq<T>, empty: bool, wasClosed: bool)
      requires Valid()
      modifies this`elems, this`rCursor, queue
      ensures Valid() && wasClosed == closed && Contents() == []
      ensures vals == old(Contents()) && empty == (vals == [])
    {
      wasClosed := closed;
      var r := PopAll();
      vals := if r.Item? then r.value else [];
      empty := vals == [];
    }

    /** Closes the queue; the broadcast to the waiters follows once the lock is released. */
    method Close()
      requires Valid()
      modifies this`closed
      ensures Valid() && closed && Contents() == old(Contents())
    {
      closed := true;
    }
  }
}
