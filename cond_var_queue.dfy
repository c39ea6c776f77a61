// A first-in first-out queue shared between threads. The mutex and the
// condition variable only order the accesses; what they protect is a deque
// that `Push` appends to and `Pop` takes from the front of. This module models
// that deque and the two operations one at a time.

module CondVarQueue {

  class Queue<T> {
    /** The contents, front first. */
    var items: seq<T>

    /** A new queue holds nothing: its deque is default-constructed. */
    constructor ()
      ensures items == []
    {
      items := [];
    }

    /** Appends `element` at the back; every element already stored keeps its place. */
    method Push(element: T)
      modifies this
      ensures items == old(items) + [element]
      ensures |items| == |old(items)| + 1 && items[|items| - 1] == element
      ensures forall i :: 0 <= i < |old(items)| ==> items[i] == old(items)[i]
    {
      items := items + [element];
    }

    /**
     * Removes and returns the front element. A caller blocks until the queue is
     * non-empty; in this sequential model that wait is the precondition.
     */
    method Pop() returns (result: T)
      requires items != []
      modifies this
      ensures result == old(items)[0]
      ensures items == old(items)[1..]
      ensures [result] + items == old(items)
    {
      result := items[0];
      items := items[1..];
    }
  }

  /**
   * FIFO order: pushing `values` and then popping until the queue is empty
   * hands back what was already queued followed by `values`, in order.
   */
  method PushAllThenDrain<T>(q: Queue<T>, values: seq<T>) returns (popped: seq<T>)
    modifies q
    ensures popped == old(q.items) + values
    ensures q.items == []
  {
    var i := 0;
    while i < |values|
      invariant 0 <= i <= |values|
      invariant q.items == old(q.items) + values[..i]
    {
      q.Push(values[i]);
      assert values[..i + 1] == values[..i] + [values[i]];
      i := i + 1;
    }
    assert values[..i] == values;
    popped := [];
    while q.items != []
      invariant popped + q.items == old(q.items) + values
      decreases |q.items|
    {
      var front := q.Pop();
      popped := popped + [front];
    }
  }
}
