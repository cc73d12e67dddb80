/**
  `SimplestThreadSafeQueue`: a double-ended queue of events. Producers append at
  the back (`put`) or jump the line at the front (`put_prioritized`); the actor's
  worker pops from the front. The mutex and the condition variable only serialise
  these operations, so each one is modelled as one atomic step on the contents.
 */
module ThreadSafeQueue {

  datatype Option<T> = None | Some(value: T)

  class EventQueue<T> {
    /** `m_queue`, front first. */
    var items: seq<T>

    constructor ()
      ensures items == []
    {
      items := [];
    }

    /** `put`: appends at the back. */
    method Put(element: T)
      modifies this
      ensures items == old(items) + [element]
    {
      items := items + [element];
    }

    /** `put_prioritized`: inserts at the front, ahead of everything already queued. */
    method PutPrioritized(element: T)
      modifies this
      ensures items == [element] + old(items)
    {
      items := [element] + items;
    }

    /**
      `wait_and_pop`: blocks until the queue is non-empty, then removes and returns
      the front. With no other thread in the model, a call on an empty queue would
      never return, so the queue must hold something.
     */
    method WaitAndPop() returns (result: T)
      requires items != []
      modifies this
      ensures result == old(items)[0] && items == old(items)[1..]
    {
      result := items[0];
      items := items[1..];
    }

    /**
      `wait_and_pop_for`: like `wait_and_pop` when an element is there; when the
      wait times out on an empty queue it returns the default-constructed value
      (`None`, a null event pointer) and leaves the queue as it was.
     */
    method WaitAndPopFor() returns (result: Option<T>)
      modifies this
      ensures old(items) == [] ==> result == None && items == []
      ensures old(items) != [] ==> result == Some(old(items)[0]) && items == old(items)[1..]
    {
      if items == [] {
        result := None;
      } else {
        result := Some(items[0]);
        items := items[1..];
      }
    }

    /** `empty`. */
    method Empty() returns (b: bool)
      ensures b <==> items == []
    {
      b := items == [];
    }

    /** `reset`: replaces the contents by a fresh, empty deque. */
    method Reset()
      modifies this
      ensures items == []
    {
      items := [];
    }

    /** `clear`: drops every pending element. */
    method Clear()
      modifies this
      ensures items == []
    {
      items := [];
    }
  }

  /** A fresh queue that received `elements` by plain puts, in order. */
  method Filled<T>(elements: seq<T>) returns (q: EventQueue<T>)
    ensures fresh(q) && q.items == elements
  {
    q := new EventQueue<T>();
    var k := 0;
    while k < |elements|
      invariant k <= |elements|
      invariant q.items == elements[..k]
    {
      q.Put(elements[k]);
      assert elements[..k + 1] == elements[..k] + [elements[k]];
      k := k + 1;
    }
    assert elements[..k] == elements;
  }

  /** `s` back to front. */
  function Reversed<T>(s: seq<T>): (r: seq<T>)
    ensures |r| == |s|
    ensures forall i :: 0 <= i < |s| ==> r[i] == s[|s| - 1 - i]
  {
    if s == [] then [] else Reversed(s[1..]) + [s[0]]
  }

  /** Pops a queue empty, front first, and returns what came out. */
  method Drain<T>(q: EventQueue<T>) returns (out: seq<T>)
    modifies q
    ensures out == old(q.items) && q.items == []
  {
    out := [];
    while q.items != []
      invariant out + q.items == old(q.items)
      decreases |q.items|
    {
      var x := q.WaitAndPop();
      assert old(q.items) == (out + [x]) + q.items;
      out := out + [x];
    }
  }

  /** Plain puts come out in the order they went in, whatever their number. */
  method FifoOrder<T>(elements: seq<T>) returns (out: seq<T>)
    ensures out == elements
  {
    var q := Filled(elements);
    out := Drain(q);
  }

  /** A prioritized element overtakes every element already waiting. */
  method PriorityOvertakes<T>(pending: seq<T>, urgent: T) returns (x: T, rest: seq<T>)
    ensures x == urgent && rest == pending
  {
    var q := Filled(pending);
    q.PutPrioritized(urgent);
    x := q.WaitAndPop();
    rest := q.items;
  }

  /** Back-to-back prioritized puts come out newest first, whatever their number. */
  method PrioritizedIsLifo<T>(elements: seq<T>) returns (out: seq<T>)
    ensures out == Reversed(elements)
  {
    var q := new EventQueue<T>();
    var k := 0;
    while k < |elements|
      invariant k <= |elements|
      invariant q.items == Reversed(elements[..k])
    {
      q.PutPrioritized(elements[k]);
      assert [elements[k]] + Reversed(elements[..k]) == Reversed(elements[..k + 1]);
      k := k + 1;
    }
    assert elements[..k] == elements;
    out := Drain(q);
  }

  /** After `clear` the queue reports empty, and a timed pop gets the default value. */
  method ClearThenTimedPop<T>(pending: seq<T>) returns (wasEmpty: bool, r: Option<T>)
    ensures wasEmpty && r == None
  {
    var q := Filled(pending);
    q.Clear();
    wasEmpty := q.Empty();
    r := q.WaitAndPopFor();
  }

  /** `empty` distinguishes a queue holding one element from a fresh one. */
  method EmptyAfterPut<T>(x: T) returns (before: bool, after: bool)
    ensures before && !after
  {
    var q := new EventQueue<T>();
    before := q.Empty();
    q.Put(x);
    after := q.Empty();
  }
}
