/**
 * The queue of data_structures/queue: a linked list with a `rear` node and an
 * optional maximum length. The source class extends `LinkedList`; here the
 * queue holds its list in `list` and works on that list's fields directly.
 */
module Queues {
  import opened Wrappers
  import opened LinkedLists

  /** The errors the queue throws. */
  datatype QueueError =
    | MaxLengthNotPositiveInteger
    | MaxLengthBelowInitialLength
    | AtMaximumCapacity
    | DequeueEmpty
    | ListFailure(cause: ListError)

  /** The message of the `Error` thrown for `e`. */
  function Message(e: QueueError): (m: string)
    ensures m != []
  {
    match e
    case MaxLengthNotPositiveInteger => "maxLength must be a positive integer or undefined"
    case MaxLengthBelowInitialLength => "maxLength must be greater than the length of the provided initial array"
    case AtMaximumCapacity => "Queue at maximum capacity"
    case DequeueEmpty => "dequeueing empty queue"
    case ListFailure(cause) => LinkedLists.Message(cause)
  }

  /** The errors are told apart by their messages. */
  lemma MessageInjective(a: QueueError, b: QueueError)
    requires Message(a) == Message(b)
    ensures a == b
  {
    if a.ListFailure? && b.ListFailure? {
      LinkedLists.MessageInjective(a.cause, b.cause);
    }
  }

  /** An integer read as a JavaScript number. */
  function IntToReal(n: int): real
  {
    n as real
  }

  /** `Number.isInteger` on a finite number: whether it is a whole number. */
  function IsInteger(x: real): (b: bool)
    ensures b <==> exists n: int :: IntToReal(n) == x
  {
    assert IntToReal(x.Floor) == x.Floor as real;
    x.Floor as real == x
  }

  /**
   * The constructor's checks of `maxLength`, in the source's order: absent is
   * no limit; otherwise it must be an integer, at least 1, and, for an array
   * argument, no smaller than the array.
   */
  function CheckMaxLength<T>(initial: Initial<T>, maxLength: Option<real>): (r: Result<Option<int>, QueueError>)
    ensures maxLength.None? ==> r == Success(None)
    ensures r.Success? && r.value.Some? ==>
              maxLength == Some(r.value.value as real) && r.value.value >= 1 &&
              (initial.FromArray? ==> r.value.value >= |initial.items|)
    ensures r.Failure? <==>
              maxLength.Some? &&
              (!IsInteger(maxLength.value) || maxLength.value < 1.0 ||
               (initial.FromArray? && maxLength.value < |initial.items| as real))
    ensures r.Success? ==> r.value == if maxLength.None? then None else Some(maxLength.value.Floor)
    ensures r.Failure? ==>
              (r.error == MaxLengthNotPositiveInteger <==> !IsInteger(maxLength.value) || maxLength.value < 1.0) &&
              (r.error == MaxLengthBelowInitialLength <==>
                 IsInteger(maxLength.value) && maxLength.value >= 1.0 &&
                 initial.FromArray? && maxLength.value < |initial.items| as real)
  {
    if maxLength.None? then Success(None)
    else if !IsInteger(maxLength.value) then Failure(MaxLengthNotPositiveInteger)
    else if maxLength.value < 1.0 then Failure(MaxLengthNotPositiveInteger)
    else if initial.FromArray? && maxLength.value < |initial.items| as real then Failure(MaxLengthBelowInitialLength)
    else Success(Some(maxLength.value.Floor))
  }

  class Queue<T> {
    /** The linked list the source queue inherits from. */
    const list: LinkedList<T>
    /** The last node enqueued (or the last node of the initial list). */
    var rear: LLNode<T>
    /** `null` in the source when there is no limit. */
    const maxLength: Option<int>

    /**
     * While the queue holds nodes, `rear` is the last of them; once it has been
     * emptied, `rear` is left on the node dequeued last.
     */
    ghost predicate Valid()
      reads this, list, list.nodes`next
    {
      list.Valid() &&
      (list.nodes != [] ==> rear == list.nodes[|list.nodes| - 1]) &&
      (maxLength.Some? ==> maxLength.value >= 1)
    }

    /** The object state after the constructor body. */
    constructor FromParts(list: LinkedList<T>, rear: LLNode<T>, maxLength: Option<int>)
      ensures this.list == list && this.rear == rear && this.maxLength == maxLength
    {
      this.list := list;
      this.rear := rear;
      this.maxLength := maxLength;
    }

    /**
     * `new Queue(initial, maxLength)`: builds the list, checks `maxLength`,
     * then takes `access(length - 1)` as the rear, which throws for an empty
     * initial array. For a node argument, `chain` is the chain reached from it.
     */
    static method Create(initial: Initial<T>, ghost chain: seq<LLNode<T>>, maxLength: Option<real>)
      returns (r: Result<Queue<T>, QueueError>)
      requires initial.FromNode? ==> IsChain(initial.node, chain)
      ensures r.Success? <==> CheckMaxLength(initial, maxLength).Success? && InitialValues(initial, chain) != []
      ensures r.Failure? ==>
                r.error == if CheckMaxLength(initial, maxLength).Failure?
                           then CheckMaxLength(initial, maxLength).error
                           else ListFailure(IndexOutOfRange)
      ensures r.Success? ==>
                var q := r.value;
                fresh(q) && fresh(q.list) && q.Valid() &&
                Values(q.list.nodes) == InitialValues(initial, chain) &&
                q.list.length == |q.list.nodes| &&
                q.maxLength == CheckMaxLength(initial, maxLength).value &&
                (initial.FromArray? ==> forall n :: n in q.list.nodes ==> fresh(n))
    {
      var list := new LinkedList(initial, chain);
      var checked := CheckMaxLength(initial, maxLength);
      if checked.Failure? {
        return Failure(checked.error);
      }
      var last := list.Access(list.length - 1);
      if last.Failure? {
        return Failure(ListFailure(last.error));
      }
      var q := new Queue.FromParts(list, last.value, checked.value);
      return Success(q);
    }

    /**
     * `enqueue(value)`: throws when `length` equals `maxLength`; otherwise a
     * new node is linked after `rear` and becomes the rear. `length` is not
     * changed, and a queue emptied by `dequeue` links the node to the detached
     * old rear, so it does not become reachable from `head`.
     */
    method Enqueue(value: T) returns (r: Outcome<QueueError>)
      requires Valid()
      modifies this, list, rear
      ensures Valid()
      ensures r.Fail? <==> maxLength == Some(list.length)
      ensures r.Fail? ==> r.error == AtMaximumCapacity && rear == old(rear) && unchanged(old(rear)) && unchanged(list)
      ensures r.Pass? ==>
                fresh(rear) && rear.value == value && rear.next == null && rear.prev == old(rear) &&
                old(rear).next == rear && old(rear).prev == old(rear.prev)
      ensures r.Pass? ==>
                list.nodes == (if old(list.nodes) == [] then [] else old(list.nodes) + [rear]) &&
                Values(list.nodes) == (if old(list.nodes) == [] then [] else old(Values(list.nodes)) + [value])
      ensures list.head == old(list.head) && list.length == old(list.length)
    {
      if maxLength == Some(list.length) {
        return Fail(AtMaximumCapacity);
      }
      ghost var before := list.nodes;
      var newRear := new LLNode(value, null);
      rear.next := newRear;
      newRear.prev := rear;
      if before != [] {
        forall j | 0 <= j < |before| - 1
          ensures before[j].next == NextOr(before, j)
        {
          assert before[j] != rear && old(before[j].next) == NextOr(before, j);
        }
        AppendIsChain(list.head, before, newRear);
        list.nodes := before + [newRear];
        ValuesConcat(before, [newRear]);
        assert Values([newRear]) == [value];
      }
      rear := newRear;
      return Pass;
    }

    /**
     * `dequeue()`: throws on an empty queue; otherwise the head's successor
     * loses its `prev` link and becomes the head. `length` and `rear` are not
     * changed.
     */
    method Dequeue() returns (r: Outcome<QueueError>)
      requires Valid()
      modifies list, list.nodes
      ensures Valid()
      ensures r.Fail? <==> old(list.nodes) == []
      ensures r.Fail? ==> r.error == DequeueEmpty && unchanged(list)
      ensures r.Pass? ==>
                list.nodes == old(list.nodes)[1..] &&
                Values(list.nodes) == old(Values(list.nodes))[1..] &&
                (list.nodes != [] ==> list.nodes[0].prev == null)
      ensures forall j :: 0 <= j < |old(list.nodes)| ==> old(list.nodes)[j].next == old(list.nodes[j].next)
      ensures forall j :: 0 <= j < |old(list.nodes)| && j != 1 ==> old(list.nodes)[j].prev == old(list.nodes[j].prev)
      ensures list.length == old(list.length)
    {
      if list.head == null {
        return Fail(DequeueEmpty);
      }
      ghost var before := list.nodes;
      assert list.head.next == NextOr(before, 0);
      if list.head.next != null {
        list.head.next.prev := null;
      }
      list.head := list.head.next;
      list.nodes := before[1..];
      assert forall j :: 0 <= j < |list.nodes| ==> list.nodes[j] == before[j + 1];
      assert before == [before[0]] + list.nodes;
      ValuesConcat([before[0]], list.nodes);
      return Pass;
    }

    /**
     * `enqueue` as evidently intended: the count is kept, so `maxLength` bounds
     * the number of nodes, and on an emptied queue the new node becomes the head.
     * The test is `length >= maxLength`, so a queue built from a node whose chain
     * is already longer than `maxLength` (which the constructor does not check)
     * refuses to grow further.
     */
    method EnqueueCounted(value: T) returns (r: Outcome<QueueError>)
      requires Valid() && list.length == |list.nodes|
      modifies this, list, rear
      ensures Valid() && list.length == |list.nodes|
      ensures r.Fail? <==> maxLength.Some? && |old(list.nodes)| >= maxLength.value
      ensures r.Fail? ==> r.error == AtMaximumCapacity && rear == old(rear) && unchanged(old(rear)) && unchanged(list)
      ensures r.Pass? ==>
                fresh(rear) && rear.value == value && rear.next == null &&
                list.nodes == old(list.nodes) + [rear] &&
                Values(list.nodes) == old(Values(list.nodes)) + [value]
      ensures r.Pass? && old(list.nodes) != [] ==>
                rear.prev == old(rear) && old(rear).next == rear && old(rear).prev == old(rear.prev)
      ensures r.Pass? && old(list.nodes) == [] ==> rear.prev == null && unchanged(old(rear))
      ensures maxLength.Some? ==>
                |list.nodes| <= if |old(list.nodes)| > maxLength.value then |old(list.nodes)| else maxLength.value
    {
      if maxLength.Some? && list.length >= maxLength.value {
        return Fail(AtMaximumCapacity);
      }
      ghost var before := list.nodes;
      var newRear := new LLNode(value, null);
      if list.head == null {
        list.head := newRear;
      } else {
        rear.next := newRear;
        newRear.prev := rear;
      }
      if before != [] {
        forall j | 0 <= j < |before| - 1
          ensures before[j].next == NextOr(before, j)
        {
          assert before[j] != rear && old(before[j].next) == NextOr(before, j);
        }
        AppendIsChain(list.head, before, newRear);
      }
      list.nodes := before + [newRear];
      list.length := list.length + 1;
      ValuesConcat(before, [newRear]);
      assert Values([newRear]) == [value];
      rear := newRear;
      return Pass;
    }

    /** `dequeue` as evidently intended: the count goes down with the nodes. */
    method DequeueCounted() returns (r: Outcome<QueueError>)
      requires Valid() && list.length == |list.nodes|
      modifies list, list.nodes
      ensures Valid() && list.length == |list.nodes|
      ensures r.Fail? <==> old(list.nodes) == []
      ensures r.Fail? ==> r.error == DequeueEmpty && unchanged(list)
      ensures r.Pass? ==>
                list.nodes == old(list.nodes)[1..] &&
                Values(list.nodes) == old(Values(list.nodes))[1..] &&
                (list.nodes != [] ==> list.nodes[0].prev == null)
      ensures forall j :: 0 <= j < |old(list.nodes)| ==> old(list.nodes)[j].next == old(list.nodes[j].next)
      ensures forall j :: 0 <= j < |old(list.nodes)| && j != 1 ==> old(list.nodes)[j].prev == old(list.nodes[j].prev)
    {
      r := Dequeue();
      if r.Pass? {
        list.length := list.length - 1;
      }
    }
  }

  /**
   * `new Queue([1], 2)` followed by two `enqueue` calls: both succeed, since
   * `length` stays 1, and the queue ends up with three values under a
   * maximum length of two.
   */
  method CapacityNotEnforced() returns (held: seq<int>, limit: Option<int>)
    ensures held == [1, 2, 3] && limit == Some(2)
  {
    var created := Queue.Create(FromArray([1]), [], Some(2.0));
    var q := created.value;
    assert q.rear in q.list.nodes;
    var first := q.Enqueue(2);
    var second := q.Enqueue(3);
    held := q.list.Traverse();
    limit := q.maxLength;
  }

  /** The same calls on the corrected operations: the second `enqueue` throws. */
  method CapacityEnforced() returns (held: seq<int>, second: Outcome<QueueError>)
    ensures held == [1, 2] && second == Fail(AtMaximumCapacity)
  {
    var created := Queue.Create(FromArray([1]), [], Some(2.0));
    var q := created.value;
    assert q.rear in q.list.nodes;
    var first := q.EnqueueCounted(2);
    second := q.EnqueueCounted(3);
    held := q.list.Traverse();
  }

  /**
   * `new Queue([1])`, `dequeue()`, `enqueue(2)`: the enqueue succeeds, but
   * the new node hangs off the detached old rear and `traverse()` is empty.
   */
  method EnqueueAfterEmptyingLost() returns (held: seq<int>, r: Outcome<QueueError>)
    ensures r == Pass && held == []
  {
    var created := Queue.Create(FromArray([1]), [], None);
    var q := created.value;
    assert q.rear in q.list.nodes;
    var d := q.Dequeue();
    r := q.Enqueue(2);
    held := q.list.Traverse();
  }

  /** The same calls on the corrected operations: `traverse()` yields `[2]`. */
  method EnqueueAfterEmptyingKept() returns (held: seq<int>, r: Outcome<QueueError>)
    ensures r == Pass && held == [2]
  {
    var created := Queue.Create(FromArray([1]), [], None);
    var q := created.value;
    assert q.rear in q.list.nodes;
    var d := q.DequeueCounted();
    r := q.EnqueueCounted(2);
    held := q.list.Traverse();
  }
}
