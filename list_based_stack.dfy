/**
  ListBasedStack<T>: a LIFO stack over a linked list whose first node is the
  top. The linked list is modelled by the sequence of its values, first node
  first.
*/
module Stacks {
  import opened Wrappers

  /** The elements of s in the opposite order. */
  function Reverse<T>(s: seq<T>): (r: seq<T>)
    ensures |r| == |s|
  {
    if s == [] then [] else [s[|s| - 1]] + Reverse(s[..|s| - 1])
  }

  /** Element k of the reversal is element |s| - 1 - k of the original. */
  lemma {:induction false} ReverseAt<T>(s: seq<T>, k: int)
    requires 0 <= k < |s|
    ensures Reverse(s)[k] == s[|s| - 1 - k]
  {
    if k > 0 {
      ReverseAt(s[..|s| - 1], k - 1);
    }
  }

  class ListBasedStack<T(==)> {
    /** The values of the backing LinkedList<T>, First first: index 0 is the top. */
    var stack: seq<T>

    constructor ()
      ensures stack == []
    {
      stack := [];
    }

    /** The single-item constructor pushes its item. */
    constructor Single(item: T)
      ensures stack == [item] && Count() == 1
    {
      stack := [];
      new;
      Push(item);
    }

    /** The sequence constructor pushes the items in order, so the last one ends on top. */
    constructor FromSeq(items: seq<T>)
      ensures stack == Reverse(items) && Count() == |items|
    {
      stack := [];
      new;
      for i := 0 to |items|
        invariant stack == Reverse(items[..i])
      {
        assert items[..i + 1][..i] == items[..i];
        Push(items[i]);
      }
      assert items[..|items|] == items;
    }

    function Count(): (n: nat)
      reads this
      ensures n == |stack|
    {
      |stack|
    }

    method Clear()
      modifies this
      ensures stack == [] && Count() == 0
    {
      stack := [];
    }

    /** LinkedList<T>.Contains: some stored value equals the item. */
    function Contains(item: T): (b: bool)
      reads this
      ensures b <==> exists i :: 0 <= i < Count() && stack[i] == item
    {
      item in stack
    }

    /** The top value without removing it; None stands for InvalidOperationException("Stack is empty"). */
    function Peek(): (r: Option<T>)
      reads this
      ensures r.None? <==> Count() == 0
      ensures r.Some? ==> r.value == stack[0]
    {
      if stack == [] then None else Some(stack[0])
    }

    /** Removes and returns the top value; None stands for InvalidOperationException("Stack is empty"). */
    method Pop() returns (r: Option<T>)
      modifies this
      ensures old(stack) == [] ==> r == None && stack == old(stack)
      ensures old(stack) != [] ==> r == Some(old(stack)[0]) && stack == old(stack)[1..]
      ensures old(stack) != [] ==> Count() == old(Count()) - 1
    {
      if stack == [] {
        return None;
      }
      var item := stack[0];
      stack := stack[1..];
      return Some(item);
    }

    /** AddFirst: the item becomes the new top. */
    method Push(item: T)
      modifies this
      ensures stack == [item] + old(stack)
      ensures Count() == old(Count()) + 1
    {
      stack := [item] + stack;
    }
  }

  /** A push followed by a pop returns the pushed item and restores the previous contents. */
  method PushThenPop<T(==)>(s: ListBasedStack<T>, x: T) returns (r: Option<T>)
    modifies s
    ensures r == Some(x)
    ensures s.stack == old(s.stack)
  {
    s.Push(x);
    r := s.Pop();
  }

  /** Popping a stack built from a sequence until it is empty yields the items last first. */
  method DrainFromSeq<T(==)>(items: seq<T>) returns (popped: seq<T>)
    ensures popped == Reverse(items)
    ensures forall k :: 0 <= k < |items| ==> popped[k] == items[|items| - 1 - k]
  {
    var s := new ListBasedStack.FromSeq(items);
    popped := [];
    while s.Count() > 0
      invariant popped + s.stack == Reverse(items)
      decreases |s.stack|
    {
      var top := s.Pop();
      popped := popped + [top.value];
    }
    forall k | 0 <= k < |items|
      ensures popped[k] == items[|items| - 1 - k]
    {
      ReverseAt(items, k);
    }
  }
}
