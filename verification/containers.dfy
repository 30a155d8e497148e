/**
 The linear-structures panel: a stack, a queue and a list held side by side,
 each a plain sequence of integers with its front at index 0. Every
 operation changes only its own structure.
 */
module Containers {

  datatype Structures = Structures(stack: seq<int>, queue: seq<int>, linkedList: seq<int>)

  /** Push onto the top of the stack, its end. */
  function PushStack(s: Structures, value: int): (r: Structures)
    ensures |r.stack| == |s.stack| + 1 && r.stack[|s.stack|] == value
    ensures r.stack[..|s.stack|] == s.stack
    ensures r.queue == s.queue && r.linkedList == s.linkedList
  {
    s.(stack := s.stack + [value])
  }

  /** Drop the top of the stack; an empty stack is left alone. */
  function PopStack(s: Structures): (r: Structures)
    ensures |s.stack| > 0 ==> r.stack + [s.stack[|s.stack| - 1]] == s.stack
    ensures |s.stack| == 0 ==> r == s
    ensures r.queue == s.queue && r.linkedList == s.linkedList
  {
    if |s.stack| > 0 then s.(stack := s.stack[..|s.stack| - 1]) else s
  }

  function ClearStack(s: Structures): (r: Structures)
    ensures r.stack == [] && r.queue == s.queue && r.linkedList == s.linkedList
  {
    s.(stack := [])
  }

  /** Join the queue at its back, the end of the sequence. */
  function Enqueue(s: Structures, value: int): (r: Structures)
    ensures |r.queue| == |s.queue| + 1 && r.queue[|s.queue|] == value
    ensures r.queue[..|s.queue|] == s.queue
    ensures r.stack == s.stack && r.linkedList == s.linkedList
  {
    s.(queue := s.queue + [value])
  }

  /** Leave the queue from its front; an empty queue is left alone. */
  function Dequeue(s: Structures): (r: Structures)
    ensures |s.queue| > 0 ==> [s.queue[0]] + r.queue == s.queue
    ensures |s.queue| == 0 ==> r == s
    ensures r.stack == s.stack && r.linkedList == s.linkedList
  {
    if |s.queue| > 0 then s.(queue := s.queue[1..]) else s
  }

  function ClearQueue(s: Structures): (r: Structures)
    ensures r.queue == [] && r.stack == s.stack && r.linkedList == s.linkedList
  {
    s.(queue := [])
  }

  /** Append to the tail of the list. */
  function InsertLinkedList(s: Structures, value: int): (r: Structures)
    ensures |r.linkedList| == |s.linkedList| + 1 && r.linkedList[|s.linkedList|] == value
    ensures r.linkedList[..|s.linkedList|] == s.linkedList
    ensures r.stack == s.stack && r.queue == s.queue
  {
    s.(linkedList := s.linkedList + [value])
  }

  /** The first position holding `value`, or -1, as the array search for a
      value does. */
  function IndexOf(l: seq<int>, value: int): (r: int)
    ensures -1 <= r < |l|
    ensures r == -1 <==> value !in l
    ensures r >= 0 ==> l[r] == value && value !in l[..r]
    decreases |l|
  {
    if |l| == 0 then -1
    else if l[0] == value then 0
    else
      var k := IndexOf(l[1..], value);
      assert k >= 0 ==> l[..k + 1] == [l[0]] + l[1..][..k];
      if k == -1 then -1 else k + 1
  }

  /** Remove the first occurrence of `value` from the list, splicing out
      its position; a value not in the list changes nothing. */
  function DeleteLinkedList(s: Structures, value: int): (r: Structures)
    ensures multiset(r.linkedList) == multiset(s.linkedList) - multiset{value}
    ensures value !in s.linkedList ==> r == s
    ensures r.stack == s.stack && r.queue == s.queue
  {
    DeleteAt(s.linkedList, value);
    DeleteRemovesOne(s.linkedList, value);
    var index := IndexOf(s.linkedList, value);
    if index != -1 then
      s.(linkedList := s.linkedList[..index] + s.linkedList[index + 1..])
    else s
  }

  function ClearLinkedList(s: Structures): (r: Structures)
    ensures r.linkedList == [] && r.stack == s.stack && r.queue == s.queue
  {
    s.(linkedList := [])
  }

  /** Reference definition: walk the list and drop the first match. */
  function RemoveFirst(l: seq<int>, value: int): seq<int> {
    if |l| == 0 then []
    else if l[0] == value then l[1..]
    else [l[0]] + RemoveFirst(l[1..], value)
  }

  /** Deletion by position is the same as dropping the first match. */
  lemma {:induction false} DeleteIsRemoveFirst(s: Structures, value: int)
    ensures DeleteLinkedList(s, value).linkedList == RemoveFirst(s.linkedList, value)
  {
    var l := s.linkedList;
    var i := IndexOf(l, value);
    DeleteAt(l, value);
    if i != -1 {
      assert DeleteLinkedList(s, value).linkedList == l[..i] + l[i + 1..];
    } else {
      assert DeleteLinkedList(s, value) == s;
    }
  }

  lemma {:induction false} DeleteAt(l: seq<int>, value: int)
    ensures IndexOf(l, value) != -1 ==>
      l[..IndexOf(l, value)] + l[IndexOf(l, value) + 1..] == RemoveFirst(l, value)
    ensures IndexOf(l, value) == -1 ==> l == RemoveFirst(l, value)
    decreases |l|
  {
    if |l| > 0 && l[0] != value {
      DeleteAt(l[1..], value);
      var k := IndexOf(l[1..], value);
      assert IndexOf(l, value) == if k == -1 then -1 else k + 1;
      assert RemoveFirst(l, value) == [l[0]] + RemoveFirst(l[1..], value);
      if k != -1 {
        SpliceCons(l, k);
      } else {
        assert l == [l[0]] + l[1..];
      }
    } else if |l| > 0 {
      assert IndexOf(l, value) == 0 && RemoveFirst(l, value) == l[1..];
      assert l[..0] + l[1..] == l[1..];
    }
  }

  /** Cutting position `k + 1` out of `l` keeps the head and cuts position
      `k` out of the tail. */
  lemma SpliceCons(l: seq<int>, k: int)
    requires 0 <= k && k + 1 < |l|
    ensures l[..k + 1] + l[k + 2..] == [l[0]] + (l[1..][..k] + l[1..][k + 1..])
  {
    assert l[..k + 1] == [l[0]] + l[1..][..k];
    assert l[k + 2..] == l[1..][k + 1..];
  }

  /** Deleting removes one copy of `value` when present and leaves a list
      without `value` alone. */
  lemma {:induction false} DeleteRemovesOne(l: seq<int>, value: int)
    ensures multiset(RemoveFirst(l, value)) == multiset(l) - multiset{value}
    ensures value !in l ==> RemoveFirst(l, value) == l
    decreases |l|
  {
    if |l| > 0 {
      var rest := RemoveFirst(l[1..], value);
      DeleteRemovesOne(l[1..], value);
      assert l == [l[0]] + l[1..];
      assert multiset(l) == multiset{l[0]} + multiset(l[1..]);
      if l[0] != value {
        assert multiset([l[0]] + rest) == multiset{l[0]} + multiset(rest);
      }
    }
  }

  /** Deleting keeps the relative order of the values it does not remove:
      the result is the list with one position cut out, every value before
      it differing from `value`. */
  lemma DeleteKeepsOrder(l: seq<int>, value: int)
    requires value in l
    ensures exists i :: (0 <= i < |l| && l[i] == value && value !in l[..i]
                         && RemoveFirst(l, value) == l[..i] + l[i + 1..])
  {
    DeleteAt(l, value);
    var i := IndexOf(l, value);
    assert 0 <= i < |l| && l[i] == value && value !in l[..i];
  }

  /** Deleting a value just appended to a list that did not hold it
      restores the list. */
  lemma DeleteAfterInsert(s: Structures, value: int)
    requires value !in s.linkedList
    ensures DeleteLinkedList(InsertLinkedList(s, value), value) == s
  {
    var l := s.linkedList + [value];
    var i := IndexOf(l, value);
    assert l[|s.linkedList|] == value;
    assert i == |s.linkedList|;
    assert l[..i] + l[i + 1..] == s.linkedList;
  }

  /** Popping undoes pushing. */
  lemma PopAfterPush(s: Structures, value: int)
    ensures PopStack(PushStack(s, value)) == s
  {
    assert (s.stack + [value])[..|s.stack|] == s.stack;
  }

  function PushAll(s: Structures, xs: seq<int>): Structures
    decreases |xs|
  {
    if |xs| == 0 then s else PushAll(PushStack(s, xs[0]), xs[1..])
  }

  function PopN(s: Structures, k: nat): Structures
    decreases k
  {
    if k == 0 then s else PopN(PopStack(s), k - 1)
  }

  /** Last in, first out: pushing `xs` then popping `k` of them leaves the
      stack with the first `|xs| - k` pushed values on top of the old one. */
  lemma {:induction false} LastInFirstOut(s: Structures, xs: seq<int>, k: nat)
    requires k <= |xs|
    ensures PopN(PushAll(s, xs), k).stack == s.stack + xs[..|xs| - k]
    decreases |xs|
  {
    PushAllStack(s, xs);
    PopNStack(PushAll(s, xs), k);
    assert (s.stack + xs)[..|s.stack| + |xs| - k] == s.stack + xs[..|xs| - k];
  }

  lemma {:induction false} PushAllStack(s: Structures, xs: seq<int>)
    ensures PushAll(s, xs).stack == s.stack + xs
    decreases |xs|
  {
    if |xs| > 0 {
      PushAllStack(PushStack(s, xs[0]), xs[1..]);
      assert (s.stack + [xs[0]]) + xs[1..] == s.stack + xs;
    }
  }

  lemma {:induction false} PopNStack(s: Structures, k: nat)
    requires k <= |s.stack|
    ensures PopN(s, k).stack == s.stack[..|s.stack| - k]
    decreases k
  {
    if k > 0 {
      PopNStack(PopStack(s), k - 1);
      assert s.stack[..|s.stack| - 1][..|s.stack| - k] == s.stack[..|s.stack| - k];
    }
  }

  function EnqueueAll(s: Structures, xs: seq<int>): Structures
    decreases |xs|
  {
    if |xs| == 0 then s else EnqueueAll(Enqueue(s, xs[0]), xs[1..])
  }

  function DequeueN(s: Structures, k: nat): Structures
    decreases k
  {
    if k == 0 then s else DequeueN(Dequeue(s), k - 1)
  }

  /** First in, first out: after enqueueing `xs`, dequeueing `k` values
      removes exactly the `k` oldest. */
  lemma {:induction false} FirstInFirstOut(s: Structures, xs: seq<int>, k: nat)
    requires k <= |s.queue| + |xs|
    ensures DequeueN(EnqueueAll(s, xs), k).queue == (s.queue + xs)[k..]
  {
    EnqueueAllQueue(s, xs);
    DequeueNQueue(EnqueueAll(s, xs), k);
  }

  lemma {:induction false} EnqueueAllQueue(s: Structures, xs: seq<int>)
    ensures EnqueueAll(s, xs).queue == s.queue + xs
    decreases |xs|
  {
    if |xs| > 0 {
      EnqueueAllQueue(Enqueue(s, xs[0]), xs[1..]);
      assert (s.queue + [xs[0]]) + xs[1..] == s.queue + xs;
    }
  }

  lemma {:induction false} DequeueNQueue(s: Structures, k: nat)
    requires k <= |s.queue|
    ensures DequeueN(s, k).queue == s.queue[k..]
    decreases k
  {
    if k > 0 {
      DequeueNQueue(Dequeue(s), k - 1);
      assert s.queue[1..][k - 1..] == s.queue[k..];
    }
  }

  /** On a non-empty queue, joining at the back and leaving at the front
      commute. */
  lemma EnqueueDequeueCommute(s: Structures, value: int)
    requires |s.queue| > 0
    ensures Dequeue(Enqueue(s, value)) == Enqueue(Dequeue(s), value)
  {
    assert (s.queue + [value])[1..] == s.queue[1..] + [value];
  }
}
