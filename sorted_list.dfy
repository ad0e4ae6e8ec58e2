/**
  SortedList<T> specialised to int with the default comparer: a list kept in
  ascending order by inserting every element at the index that a binary
  search finds.
*/
module SortedLists {
  import opened Wrappers

  /** Ascending order, duplicates allowed. */
  ghost predicate Sorted(s: seq<int>) {
    forall i, j :: 0 <= i < j < |s| ==> s[i] <= s[j]
  }

  /** Two ascending sequences holding the same elements are the same sequence. */
  lemma {:induction false} SortedUnique(a: seq<int>, b: seq<int>)
    requires Sorted(a) && Sorted(b) && multiset(a) == multiset(b)
    ensures a == b
  {
    if a != [] {
      assert |b| == |multiset(b)| == |multiset(a)| == |a| > 0;
      assert b[0] in multiset(a) && a[0] in multiset(b);
      HeadIsLeast(a, b[0]);
      HeadIsLeast(b, a[0]);
      SameHeadTailMultiset(a, b);
      SortedTail(a);
      SortedTail(b);
      SortedUnique(a[1..], b[1..]);
      SameHeadSameTail(a, b);
    }
  }

  lemma SameHeadSameTail(a: seq<int>, b: seq<int>)
    requires a != [] && b != [] && a[0] == b[0] && a[1..] == b[1..]
    ensures a == b
  {
    assert a == [a[0]] + a[1..] && b == [b[0]] + b[1..];
  }

  /** The first element of an ascending sequence is its least. */
  lemma HeadIsLeast(s: seq<int>, x: int)
    requires Sorted(s) && x in multiset(s)
    ensures s[0] <= x
  {
    var i :| 0 <= i < |s| && s[i] == x;
  }

  lemma SortedTail(s: seq<int>)
    requires Sorted(s) && s != []
    ensures Sorted(s[1..])
  {
  }

  lemma SameHeadTailMultiset(a: seq<int>, b: seq<int>)
    requires a != [] && b != [] && a[0] == b[0] && multiset(a) == multiset(b)
    ensures multiset(a[1..]) == multiset(b[1..])
  {
    TailMultiset(a);
    TailMultiset(b);
  }

  lemma TailMultiset(s: seq<int>)
    requires s != []
    ensures multiset(s[1..]) == multiset(s) - multiset{s[0]}
  {
    assert s == [s[0]] + s[1..];
  }

  /** Inserting at a position with nothing larger before it and nothing smaller after it keeps the order. */
  lemma InsertKeepsSorted(s: seq<int>, k: int, x: int)
    requires Sorted(s) && 0 <= k <= |s|
    requires forall j :: 0 <= j < k ==> s[j] <= x
    requires forall j :: k <= j < |s| ==> x <= s[j]
    ensures Sorted(s[..k] + [x] + s[k..])
  {
    var t := s[..k] + [x] + s[k..];
    forall i, j | 0 <= i < j < |t|
      ensures t[i] <= t[j]
    {
      if j < k {
        assert t[i] == s[i] && t[j] == s[j];
      } else if i > k {
        assert t[i] == s[i - 1] && t[j] == s[j - 1];
      } else if i < k {
        assert t[i] == s[i];
      } else if i == k {
        assert t[j] == s[j - 1];
      }
    }
  }

  /** Removing one element keeps the order. */
  lemma RemoveKeepsSorted(s: seq<int>, k: int)
    requires Sorted(s) && 0 <= k < |s|
    ensures Sorted(s[..k] + s[k + 1..])
  {
    var t := s[..k] + s[k + 1..];
    forall i, j | 0 <= i < j < |t|
      ensures t[i] <= t[j]
    {
      var i', j' := if i < k then i else i + 1, if j < k then j else j + 1;
      assert t[i] == s[i'] && t[j] == s[j'];
    }
  }

  const Int32Max: int := 0x7FFF_FFFF

  /** The midpoint IndexFor probes, written so that no intermediate value leaves [left, right]. */
  function Midpoint(left: int, right: int): (mid: int)
    requires 0 <= left < right
    ensures left <= mid < right
    ensures mid == (left + right) / 2
  {
    left + (right - left) / 2
  }

  /** C# unchecked int addition: the result wrapped to 32-bit two's complement. */
  function Wrap32(x: int): (r: int)
    ensures -Int32Max - 1 <= r <= Int32Max
    ensures (r - x) % 0x1_0000_0000 == 0
  {
    var m := x % 0x1_0000_0000;
    if m > Int32Max then m - 0x1_0000_0000 else m
  }

  /** C# int division by a positive divisor, truncating toward zero. */
  function TruncDiv(a: int, b: int): int
    requires b > 0
  {
    if a >= 0 then a / b else -((-a) / b)
  }

  /**
    The midpoint as the source computes it: (left + right) / 2 in 32-bit int
    arithmetic. It is always half of some int, and while left + right fits in
    an int it is the model's Midpoint.
  */
  function MidpointAsWritten(left: int, right: int): (mid: int)
    ensures -0x4000_0000 <= mid <= 0x3FFF_FFFF
    ensures 0 <= left < right && left + right <= Int32Max ==> mid == Midpoint(left, right)
  {
    TruncDiv(Wrap32(left + right), 2)
  }

  /**
    A list of the largest length .NET allows (0x7FFFFFC7 elements), searched
    for an item above its middle element: after the first step left is
    0x3FFFFFE4 and right 0x7FFFFFC7, their sum wraps negative and so does
    the probed index.
  */
  lemma MidpointAsWrittenOverflows()
    ensures var left, right := 0x3FFF_FFE4, 0x7FFF_FFC7;
      left == Midpoint(0, right) + 1 && MidpointAsWritten(left, right) < 0
  {
  }

  class SortedList {
    /** The backing List<T>, in ascending order. */
    var memory: seq<int>

    ghost predicate Valid()
      reads this
    {
      Sorted(memory)
    }

    constructor ()
      ensures Valid() && memory == []
    {
      memory := [];
    }

    function Count(): (n: nat)
      reads this
      ensures n == |memory|
    {
      |memory|
    }

    /** The indexer this[i]; None stands for ArgumentOutOfRangeException. */
    function Get(i: int): (r: Option<int>)
      reads this
      ensures r.Some? <==> 0 <= i < Count()
      ensures r.Some? ==> r.value == memory[i]
    {
      if 0 <= i < |memory| then Some(memory[i]) else None
    }

    /**
      Binary search: either an index holding the item, or the index where
      the item belongs, with every element before it smaller and every
      element from it on larger.
    */
    method IndexFor(item: int) returns (index: int, found: bool)
      requires Valid()
      ensures 0 <= index <= |memory|
      ensures found ==> index < |memory| && memory[index] == item
      ensures !found ==> forall j :: 0 <= j < index ==> memory[j] < item
      ensures !found ==> forall j :: index <= j < |memory| ==> item < memory[j]
    {
      var left := 0;
      var right := |memory|;
      while right - left > 0
        invariant 0 <= left <= right <= |memory|
        invariant forall j :: 0 <= j < left ==> memory[j] < item
        invariant forall j :: right <= j < |memory| ==> item < memory[j]
        decreases right - left
      {
        var mid := Midpoint(left, right);
        if item > memory[mid] {
          left := mid + 1;
        } else if item < memory[mid] {
          right := mid;
        } else {
          return mid, true;
        }
      }
      return left, false;
    }

    /** Inserts the item where IndexFor puts it; equal elements may already be there. */
    method Add(item: int)
      requires Valid()
      modifies this
      ensures Valid()
      ensures Count() == old(Count()) + 1
      ensures multiset(memory) == multiset(old(memory)) + multiset{item}
      ensures exists k :: 0 <= k <= |old(memory)| && memory == old(memory)[..k] + [item] + old(memory)[k..]
    {
      var k, found := IndexFor(item);
      InsertKeepsSorted(memory, k, item);
      assert memory == memory[..k] + memory[k..];
      memory := memory[..k] + [item] + memory[k..];
    }

    method Clear()
      modifies this
      ensures Valid() && Count() == 0
    {
      memory := [];
    }

    /** Whether some stored element equals the item. */
    method Contains(item: int) returns (found: bool)
      requires Valid()
      ensures found <==> item in memory
    {
      var index;
      index, found := IndexFor(item);
    }

    /** Removes one element equal to the item when there is one; reports whether it did. */
    method TryRemove(item: int) returns (found: bool)
      requires Valid()
      modifies this
      ensures Valid()
      ensures found <==> item in old(memory)
      ensures found ==> Count() == old(Count()) - 1
      ensures found ==> multiset(memory) == multiset(old(memory)) - multiset{item}
      ensures found ==> exists k :: 0 <= k < |old(memory)| && old(memory)[k] == item
                                 && memory == old(memory)[..k] + old(memory)[k + 1..]
      ensures !found ==> memory == old(memory)
    {
      var index;
      index, found := IndexFor(item);
      if found {
        RemoveKeepsSorted(memory, index);
        assert memory == memory[..index] + [item] + memory[index + 1..];
        memory := memory[..index] + memory[index + 1..];
      }
    }
  }
}
