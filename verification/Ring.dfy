/** The bounded ring that the monitor queue protects with its mutex: `head`, `length` and
    `elem[]`, changed in place one statement at a time. */
module Ring {

  /** The three fields of the queue that its mutex protects; the capacity N is `|elem|`. */
  datatype Ring = Ring(head: nat, length: nat, elem: seq<int>) {
    ghost predicate Valid() {
      head < |elem| && length <= |elem|
    }

    // elem[(head + length) % N] = x
    function Store(x: int): Ring
      requires Valid()
    {
      this.(elem := elem[Slot(head, length, |elem|) := x])
    }

    // length++
    function Grow(): Ring {
      this.(length := length + 1)
    }

    // head = (head + 1) % N
    function Advance(): Ring
      requires Valid()
    {
      this.(head := Slot(head, 1, |elem|))
    }

    // length--
    function Shrink(): Ring
      requires length > 0
    {
      this.(length := length - 1)
    }

    /** The queue as a list, oldest element first. */
    ghost function Contents(): (s: seq<int>)
      requires Valid()
      ensures |s| == length
    {
      seq(length, i requires 0 <= i < length => elem[Slot(head, i, |elem|)])
    }
  }

  /** The array index of the i-th element when the oldest one is at `head`. */
  function Slot(head: nat, i: nat, n: nat): (slot: nat)
    requires n > 0
    ensures slot < n
    ensures head < n && i < n ==> slot == if head + i < n then head + i else head + i - n
  {
    var slot := (head + i) % n;
    assert head < n && i < n ==> slot == if head + i < n then head + i else head + i - n by {
      if head < n && i < n && n <= head + i { Overshoot(head + i - n, n); }
    }
    slot
  }

  lemma Overshoot(a: nat, n: nat)
    requires a < n
    ensures (a + n) % n == a
  {
  }

  /** Writing the slot past the last element leaves the list alone; counting it in appends it. */
  lemma StoreThenGrow(r: Ring, x: int)
    requires r.Valid() && r.length != |r.elem|
    ensures r.Store(x).Valid() && r.Store(x).Contents() == r.Contents()
    ensures r.Store(x).elem[Slot(r.head, r.length, |r.elem|)] == x
    ensures r.Store(x).Grow().Valid()
    ensures r.Store(x).Grow().Contents() == r.Contents() + [x]
  {
    GrowAppends(r.Store(x));
  }

  /** Counting in a slot appends whatever the slot holds. */
  lemma GrowAppends(r: Ring)
    requires r.Valid() && r.length != |r.elem|
    ensures r.Grow().Valid()
    ensures r.Grow().Contents() == r.Contents() + [r.elem[Slot(r.head, r.length, |r.elem|)]]
  {
  }

  /** Moving the head and then counting down removes exactly the oldest element. */
  lemma AdvanceThenShrink(r: Ring)
    requires r.Valid() && r.length > 0
    ensures r.Advance().Valid() && r.Advance().Shrink().Valid()
    ensures r.Contents() == [r.elem[r.head]] + r.Advance().Shrink().Contents()
  {
    var n := |r.elem|;
    var next := r.Advance().Shrink();
    assert Slot(r.head, 0, n) == r.head;
    forall i | 0 <= i < next.length
      ensures Slot(next.head, i, n) == Slot(r.head, i + 1, n)
    {
    }
  }

  /** The struct itself. The lock and the waiting are modelled in `MonitorQueue`; these are the
      statements a thread executes on the fields while it holds the mutex. */
  class RingBuffer {
    var head: nat
    var length: nat
    const elem: array<int>

    ghost function Value(): Ring
      reads this, elem
    {
      Ring(head, length, elem[..])
    }

    // queue_init: the storage keeps whatever it held before.
    constructor (storage: array<int>)
      requires storage.Length > 0
      ensures elem == storage && Value().Valid() && Value().Contents() == []
      ensures elem[..] == old(storage[..])
    {
      head := 0;
      length := 0;
      elem := storage;
    }

    method Append(x: int)
      requires Value().Valid() && length != elem.Length
      modifies this, elem
      ensures Value() == old(Value()).Store(x).Grow()
      ensures Value().Valid() && Value().Contents() == old(Value().Contents()) + [x]
    {
      StoreThenGrow(Value(), x);
      elem[Slot(head, length, elem.Length)] := x;
      length := length + 1;
    }

    method Remove() returns (oldest: int)
      requires Value().Valid() && length != 0
      modifies this
      ensures Value() == old(Value()).Advance().Shrink()
      ensures Value().Valid() && old(Value().Contents()) == [oldest] + Value().Contents()
    {
      AdvanceThenShrink(Value());
      oldest := elem[head];
      head := Slot(head, 1, elem.Length);
      length := length - 1;
    }
  }
}
