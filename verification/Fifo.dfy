/** The ring buffer behind every message queue. */
module Fifos {
  import opened Basics

  /** P4_BG_QUEUE_SIZE. */
  const QUEUE_SIZE: nat := 1024

  /** What adding to a queue means: at capacity the element is dropped silently. */
  function Push<T>(q: seq<T>, x: T): seq<T> {
    if |q| < QUEUE_SIZE then q + [x] else q
  }

  /** The slot of the i-th queued element. */
  function Slot(head: nat, i: nat): nat {
    (head + i) % QUEUE_SIZE
  }

  class Fifo<T(0)> {
    const slots: array<T>
    var head: int
    var size: int
    var tail: int

    ghost predicate Valid()
      reads this
    {
      && slots.Length == QUEUE_SIZE
      && 0 <= head < QUEUE_SIZE && 0 <= size <= QUEUE_SIZE
      && -1 <= tail < QUEUE_SIZE && (tail + 1) % QUEUE_SIZE == Slot(head, size)
    }

    /** The queued elements, oldest first. */
    ghost function Contents(): (s: seq<T>)
      requires Valid()
      reads this, slots
      ensures |s| == size
    {
      seq(size, i requires 0 <= i < size && Valid() reads this, slots => slots[Slot(head, i)])
    }

    /** fifo_init. */
    constructor ()
      ensures Valid() && fresh(slots) && Contents() == []
    {
      slots := new T[QUEUE_SIZE];
      head, size, tail := 0, 0, -1;
    }

    method AddMsg(element: T)
      requires Valid()
      modifies this, slots
      ensures Valid() && Contents() == Push(old(Contents()), element)
    {
      if size < QUEUE_SIZE {
        ghost var before := Contents();
        SlotSuccessor(head, size);
        forall i | 0 <= i < size ensures Slot(head, i) != Slot(head, size) {
          DistinctSlots(head, i, size);
        }
        tail := (tail + 1) % QUEUE_SIZE;
        size := size + 1;
        hide Slot;
        slots[tail] := element;
        assert Contents() == before + [element];
      }
    }

    method RemoveMsg() returns (result: Option<T>)
      requires Valid()
      modifies this
      ensures Valid()
      ensures result == if old(Contents()) == [] then None else Some(old(Contents())[0])
      ensures Contents() == if old(Contents()) == [] then [] else old(Contents())[1..]
    {
      if size > 0 {
        ghost var before := Contents();
        result := Some(slots[head]);
        var next := (head + 1) % QUEUE_SIZE;
        forall i | 0 <= i < size ensures Slot(next, i) == Slot(head, i + 1) {
          NextSlot(head, i);
        }
        NextSlot(head, size - 1);
        assert Slot(head, 0) == head;
        hide Slot;
        head := next;
        size := size - 1;
        assert Contents() == before[1..];
      } else {
        result := None;
      }
    }
  }

  /** Positions less than a full turn apart use different slots. */
  lemma DistinctSlots(head: nat, i: nat, j: nat)
    requires head < QUEUE_SIZE && i < j < QUEUE_SIZE
    ensures Slot(head, i) != Slot(head, j)
  {
  }

  lemma SlotSuccessor(head: nat, i: nat)
    requires head < QUEUE_SIZE && i < QUEUE_SIZE
    ensures Slot(head, i) < QUEUE_SIZE && (Slot(head, i) + 1) % QUEUE_SIZE == Slot(head, i + 1)
  {
  }

  lemma NextSlot(head: nat, i: nat)
    requires head < QUEUE_SIZE && i < QUEUE_SIZE
    ensures Slot((head + 1) % QUEUE_SIZE, i) == Slot(head, i + 1)
  {
  }

  // ----- a queue over its whole life -----

  datatype Op<T> = Add(element: T) | Remove

  /** The queue after the operations, and what the removes gave back. */
  function Served<T>(ops: seq<Op<T>>): (seq<T>, seq<T>) {
    if ops == [] then ([], []) else
      var (q, out) := Served(ops[..|ops| - 1]);
      match ops[|ops| - 1]
      case Add(x) => (Push(q, x), out)
      case Remove => if q == [] then (q, out) else (q[1..], out + [q[0]])
  }

  /** How many elements wait: counted, without looking at them. */
  function Waiting<T>(ops: seq<Op<T>>): nat {
    if ops == [] then 0 else
      var n := Waiting(ops[..|ops| - 1]);
      if ops[|ops| - 1].Remove? then (if n == 0 then 0 else n - 1) else if n == QUEUE_SIZE then n else n + 1
  }

  /** The elements whose add found room, in the order of the adds. */
  function Accepted<T>(ops: seq<Op<T>>): seq<T> {
    if ops == [] then [] else
      var before, op := ops[..|ops| - 1], ops[|ops| - 1];
      Accepted(before) + if op.Add? && Waiting(before) < QUEUE_SIZE then [op.element] else []
  }

  /** Over any sequence of adds and removes the accepted elements come out in order, each once, and the
      rest of them are in the queue: an add that finds the queue full loses its own element. */
  lemma {:induction false} ServedInOrder<T>(ops: seq<Op<T>>)
    ensures var (q, out) := Served(ops); out + q == Accepted(ops) && |q| == Waiting(ops) <= QUEUE_SIZE
  {
    if ops != [] {
      var before, op := ops[..|ops| - 1], ops[|ops| - 1];
      var (q, out) := Served(before);
      ServedInOrder(before);
      if op.Add? {
        assert out + (q + [op.element]) == out + q + [op.element];
      } else if q != [] {
        assert out + q == out + [q[0]] + q[1..];
      }
      assert Accepted(before) + [] == Accepted(before);
    }
  }
}
