/**
 * The pointer-based linked list: nodes with `next` and `prev` fields, a
 * `head` pointer and a `length` counter.
 *
 * The list's invariant is about `next` only: the ghost sequence `nodes` is
 * the chain reached from `head` by following `next`. The `prev` fields are
 * not kept consistent by the list (the array constructor never sets them and
 * `remove` never repairs them), so the contracts state `prev` only where an
 * operation assigns it, and otherwise say that it is left alone.
 */
module LinkedLists {
  import opened Wrappers

  /** The two errors the list throws. */
  datatype ListError = NodeNotPresent | IndexOutOfRange

  /** The message of the `Error` the list throws. */
  function Message(e: ListError): (m: string)
    ensures m != []
  {
    match e
    case NodeNotPresent => "Node not present in linked list"
    case IndexOutOfRange => "index out of range"
  }

  /** The two errors are told apart by their messages. */
  lemma MessageInjective(a: ListError, b: ListError)
    requires Message(a) == Message(b)
    ensures a == b
  {
  }

  /** A node of the list; `next` and `prev` start out null. */
  class LLNode<T> {
    var next: LLNode?<T>
    var prev: LLNode?<T>
    /** Never reassigned by the list operations, so kept constant here. */
    const value: T

    /** `new LLNode(value, next)`: also points `next.prev` back at the new node. */
    constructor (value: T, next: LLNode?<T>)
      modifies next
      ensures this.value == value && this.next == next && this.prev == null
      ensures next != null ==>
                next.prev == this && next.next == old(next.next)
    {
      this.value := value;
      this.next := next;
      this.prev := null;
      new;
      if next != null {
        next.prev := this;
      }
    }

    /** The object spread `{...node}`: a new object with the same three fields. */
    constructor Spread(node: LLNode<T>)
      ensures value == node.value && next == node.next && prev == node.prev
    {
      value := node.value;
      next := node.next;
      prev := node.prev;
    }
  }

  /**
   * `nodes` is what one reaches from `head` by following `next`: distinct
   * nodes, each linked to the following one, the last one's `next` null.
   */
  ghost predicate IsChain<T>(head: LLNode?<T>, nodes: seq<LLNode<T>>)
    reads nodes`next
  {
    head == (if nodes == [] then null else nodes[0])
    && (forall i {:trigger nodes[i].next} :: 0 <= i < |nodes| ==> nodes[i].next == NextOr(nodes, i))
    && Distinct(nodes)
  }

  /** The node after position `j`, or null after the last one. */
  ghost function NextOr<T>(nodes: seq<LLNode<T>>, j: nat): LLNode?<T>
    requires j < |nodes|
  {
    if j + 1 < |nodes| then nodes[j + 1] else null
  }

  ghost predicate Distinct<T>(nodes: seq<LLNode<T>>)
  {
    forall i, j :: 0 <= i < j < |nodes| ==> nodes[i] != nodes[j]
  }

  /** The values stored in `nodes`, in order: what `traverse()` returns. */
  ghost function Values<T>(nodes: seq<LLNode<T>>): (vs: seq<T>)
    ensures |vs| == |nodes|
  {
    if nodes == [] then [] else [nodes[0].value] + Values(nodes[1..])
  }

  /** The value at each position of `Values(nodes)` is the value of the node there. */
  lemma {:induction false} ValuesAt<T>(nodes: seq<LLNode<T>>, i: nat)
    requires i < |nodes|
    ensures Values(nodes)[i] == nodes[i].value
  {
    if i > 0 {
      ValuesAt(nodes[1..], i - 1);
    }
  }

  /** `Values` distributes over concatenation. */
  lemma {:induction false} ValuesConcat<T>(a: seq<LLNode<T>>, b: seq<LLNode<T>>)
    ensures Values(a + b) == Values(a) + Values(b)
  {
    if a == [] {
      assert a + b == b;
    } else {
      assert (a + b)[1..] == a[1..] + b;
      ValuesConcat(a[1..], b);
    }
  }

  /** The values after inserting `x` after position `i`: `x.value` lands at position `i + 1`. */
  lemma ValuesInsertAt<T>(nodes: seq<LLNode<T>>, i: nat, x: LLNode<T>)
    requires i < |nodes|
    ensures Values(nodes[..i + 1] + [x] + nodes[i + 1..]) ==
            Values(nodes)[..i + 1] + [x.value] + Values(nodes)[i + 1..]
  {
    var after := nodes[..i + 1] + [x] + nodes[i + 1..];
    var vs := Values(nodes);
    var w := vs[..i + 1] + [x.value] + vs[i + 1..];
    forall j | 0 <= j < |after|
      ensures Values(after)[j] == w[j]
    {
      ValuesAt(after, j);
      if j <= i {
        assert after[j] == nodes[j] && w[j] == vs[j];
        ValuesAt(nodes, j);
      } else if j == i + 1 {
        assert after[j] == x && w[j] == x.value;
      } else {
        assert after[j] == nodes[j - 1] && w[j] == vs[j - 1];
        ValuesAt(nodes, j - 1);
      }
    }
    assert |Values(after)| == |w|;
  }

  /** The values after dropping position `k + 1`: the value there is dropped. */
  lemma ValuesDropAt<T>(nodes: seq<LLNode<T>>, k: nat)
    requires k + 1 < |nodes|
    ensures Values(nodes[..k + 1] + nodes[k + 2..]) == Values(nodes)[..k + 1] + Values(nodes)[k + 2..]
  {
    var after := nodes[..k + 1] + nodes[k + 2..];
    var vs := Values(nodes);
    var w := vs[..k + 1] + vs[k + 2..];
    forall j | 0 <= j < |after|
      ensures Values(after)[j] == w[j]
    {
      ValuesAt(after, j);
      if j <= k {
        assert after[j] == nodes[j] && w[j] == vs[j];
        ValuesAt(nodes, j);
      } else {
        assert after[j] == nodes[j + 1] && w[j] == vs[j + 1];
        ValuesAt(nodes, j + 1);
      }
    }
    assert |Values(after)| == |w|;
  }

  /** The position of the first occurrence of `n` in `nodes`. */
  ghost function IndexOf<T>(nodes: seq<LLNode<T>>, n: LLNode<T>): (i: nat)
    requires n in nodes
    ensures i < |nodes| && nodes[i] == n && n !in nodes[..i]
  {
    if nodes[0] == n then 0 else 1 + IndexOf(nodes[1..], n)
  }

  /** In a chain of distinct nodes, a node's first occurrence is its only one. */
  lemma IndexOfDistinct<T>(nodes: seq<LLNode<T>>, k: nat)
    requires Distinct(nodes) && k < |nodes|
    ensures IndexOf(nodes, nodes[k]) == k
  {
  }

  /** Dropping the element a splice put at position `i + 1` gives back the original. */
  lemma DropAfterSplice<T>(vs: seq<T>, i: nat, v: T)
    requires i < |vs|
    ensures var ws := vs[..i + 1] + [v] + vs[i + 1..];
            ws[..i + 1] + ws[i + 2..] == vs
  {
    var ws := vs[..i + 1] + [v] + vs[i + 1..];
    assert ws[..i + 1] == vs[..i + 1];
    assert ws[i + 2..] == vs[i + 1..];
  }

  /** The constructor's argument: an array of values, an existing node, or a single value. */
  datatype Initial<T> = FromArray(items: seq<T>) | FromNode(node: LLNode<T>) | FromValue(value: T)

  /**
   * What `traverse()` returns after construction from `initial`; for a node,
   * `chain` is the chain reached from it.
   */
  ghost function InitialValues<T>(initial: Initial<T>, chain: seq<LLNode<T>>): seq<T>
  {
    if initial.FromArray? then initial.items
    else if initial.FromNode? then Values(chain)
    else [initial.value]
  }

  /**
   * `initial.map(element => new LLNode(element))` followed by the loop that
   * links each node to the next; `head` is the first node, or null for an
   * empty array (where the source reads `nodification[0]`, i.e. undefined).
   */
  method Nodify<T>(items: seq<T>) returns (head: LLNode?<T>, ghost nodes: seq<LLNode<T>>)
    ensures IsChain(head, nodes)
    ensures Values(nodes) == items
    ensures forall n :: n in nodes ==> fresh(n) && n.prev == null
  {
    var nodification: seq<LLNode<T>> := [];
    for i := 0 to |items|
      invariant |nodification| == i
      invariant forall k :: 0 <= k < i ==>
                  fresh(nodification[k]) && nodification[k].value == items[k] &&
                  nodification[k].next == null && nodification[k].prev == null
      invariant forall k, l :: 0 <= k < l < i ==> nodification[k] != nodification[l]
      invariant Values(nodification) == items[..i]
    {
      var node := new LLNode(items[i], null);
      ValuesConcat(nodification, [node]);
      assert items[..i + 1] == items[..i] + [items[i]];
      nodification := nodification + [node];
    }
    assert items[..|items|] == items;
    var i := 0;
    while i < |nodification| - 1
      invariant 0 <= i && (i == 0 || i < |nodification|)
      invariant forall k :: 0 <= k < |nodification| ==>
                  fresh(nodification[k]) && nodification[k].value == items[k] &&
                  nodification[k].prev == null
      invariant forall k :: 0 <= k < i ==> nodification[k].next == nodification[k + 1]
      invariant forall k :: i <= k < |nodification| ==> nodification[k].next == null
      invariant Values(nodification) == items
    {
      nodification[i].next := nodification[i + 1];
      i := i + 1;
    }
    head := if |nodification| > 0 then nodification[0] else null;
    nodes := nodification;
  }

  /**
   * Inserting `x` after position `i` of a chain keeps it a chain, given the
   * `next` fields the insertion leaves: `before[i]` now points to `x`, `x` to
   * the old successor, and every other node as before (stated on `after`).
   */
  lemma SpliceIsChain<T>(head: LLNode?<T>, before: seq<LLNode<T>>, i: nat, x: LLNode<T>, after: seq<LLNode<T>>)
    requires i < |before| && x !in before
    requires after == before[..i + 1] + [x] + before[i + 1..]
    requires head == before[0]
    requires before[i].next == x
    requires x.next == (if i + 1 < |before| then before[i + 1] else null)
    requires forall j :: 0 <= j < |before| && j != i ==> before[j].next == NextOr(before, j)
    requires Distinct(before)
    ensures IsChain(head, after)
  {
    forall j | 0 <= j < |after|
      ensures after[j].next == NextOr(after, j)
    {
      if j < i {
        assert after[j] == before[j] && after[j + 1] == before[j + 1];
      } else if j == i {
      } else if j == i + 1 {
      } else {
        assert after[j] == before[j - 1];
      }
    }
  }

  /**
   * Appending `x` to a non-empty chain keeps it a chain, given the `next`
   * fields the append leaves: the last node points to `x`, `x` to null, every
   * other node as before.
   */
  lemma AppendIsChain<T>(head: LLNode?<T>, before: seq<LLNode<T>>, x: LLNode<T>)
    requires before != [] && x !in before && head == before[0]
    requires before[|before| - 1].next == x && x.next == null
    requires forall j :: 0 <= j < |before| - 1 ==> before[j].next == NextOr(before, j)
    requires Distinct(before)
    ensures IsChain(head, before + [x])
  {
    var after := before + [x];
    forall j | 0 <= j < |after|
      ensures after[j].next == NextOr(after, j)
    {
      if j < |before| - 1 {
        assert after[j] == before[j] && after[j + 1] == before[j + 1];
      }
    }
  }

  /**
   * Unlinking position `k + 1` of a chain keeps it a chain, given the `next`
   * fields the removal leaves: `before[k]` now points past the removed node,
   * every other node as before.
   */
  lemma UnspliceIsChain<T>(head: LLNode?<T>, before: seq<LLNode<T>>, k: nat, after: seq<LLNode<T>>)
    requires k + 1 < |before|
    requires after == before[..k + 1] + before[k + 2..]
    requires head == before[0]
    requires before[k].next == NextOr(before, k + 1)
    requires forall j :: 0 <= j < |before| && j != k ==> before[j].next == NextOr(before, j)
    requires Distinct(before)
    ensures IsChain(head, after)
  {
    forall j | 0 <= j < |after|
      ensures after[j].next == NextOr(after, j)
    {
      if j < k {
        assert after[j] == before[j] && after[j + 1] == before[j + 1];
      } else if j == k {
      } else {
        assert after[j] == before[j + 1];
      }
    }
  }

  class LinkedList<T> {
    var head: LLNode?<T>
    /** A counter the operations adjust; it is not derived from the nodes. */
    var length: int
    /** The nodes reached from `head`, in order. */
    ghost var nodes: seq<LLNode<T>>

    ghost predicate Valid()
      reads this, nodes`next
    {
      IsChain(head, nodes)
    }

    /**
     * `new LinkedList(initial)`. For a node argument, `chain` is the chain
     * reached from that node, which the new list then shares after its
     * copied head.
     */
    constructor (initial: Initial<T>, ghost chain: seq<LLNode<T>>)
      requires initial.FromNode? ==> IsChain(initial.node, chain)
      ensures Valid()
      ensures Values(nodes) == InitialValues(initial, chain)
      ensures length == |nodes|
      ensures initial.FromArray? ==> forall n :: n in nodes ==> fresh(n) && n.prev == null
      ensures initial.FromValue? ==>
                nodes == [head] && fresh(head) && head.value == initial.value &&
                head.next == null && head.prev == null
      ensures initial.FromNode? ==>
                |nodes| == |chain| && fresh(nodes[0]) && nodes[1..] == chain[1..] &&
                head.prev == initial.node.prev
    {
      length := 0;
      if initial.FromArray? {
        var h, ns := Nodify(initial.items);
        head := h;
        nodes := ns;
      } else if initial.FromNode? {
        var copy := new LLNode.Spread(initial.node);
        head := copy;
        nodes := [copy] + chain[1..];
      } else {
        var single := new LLNode(initial.value, null);
        head := single;
        nodes := [single];
      }
      new;
      var t := Traverse();
      length := |t|;
    }

    /** `traverse()`: the values along the `next` chain from `head`. */
    method Traverse() returns (result: seq<T>)
      requires Valid()
      ensures result == Values(nodes)
    {
      if head == null {
        return [];
      }
      result := [head.value];
      var current := head;
      ghost var k := 0;
      while current.next != null
        invariant 0 <= k < |nodes| && current == nodes[k]
        invariant result == Values(nodes[..k + 1])
        decreases |nodes| - k
      {
        assert nodes[..k + 2] == nodes[..k + 1] + [current.next];
        ValuesConcat(nodes[..k + 1], [current.next]);
        result := result + [current.next.value];
        current := current.next;
        k := k + 1;
      }
      assert nodes[..k + 1] == nodes;
    }

    /**
     * `insert(nodeValue, insertAfter)`: a new node goes right after
     * `insertAfter`, and `length` grows by one. When `insertAfter` is not in
     * the list, the list's chain is unchanged, though `length` still grows.
     */
    method Insert(nodeValue: T, insertAfter: LLNode<T>)
      requires Valid()
      modifies this, nodes, insertAfter, insertAfter.next
      ensures Valid()
      ensures head == old(head) && length == old(length) + 1
      ensures insertAfter.next != null && fresh(insertAfter.next) && insertAfter.next.value == nodeValue
      ensures insertAfter.next.next == old(insertAfter.next) && insertAfter.next.prev == insertAfter
      ensures old(insertAfter.next) != null ==> old(insertAfter.next).prev == insertAfter.next
      ensures forall n :: n in old(nodes) && n != old(insertAfter.next) ==> n.prev == old(n.prev)
      ensures insertAfter !in old(nodes) ==> nodes == old(nodes)
      ensures old(insertAfter.next) != insertAfter ==> insertAfter.prev == old(insertAfter.prev)
      ensures old(insertAfter.next) != null && old(insertAfter.next) != insertAfter ==>
                old(insertAfter.next).next == old(insertAfter.next.next)
      ensures insertAfter in old(nodes) ==>
                var i := IndexOf(old(nodes), insertAfter);
                nodes == old(nodes)[..i + 1] + [insertAfter.next] + old(nodes)[i + 1..] &&
                Values(nodes) == old(Values(nodes))[..i + 1] + [nodeValue] + old(Values(nodes))[i + 1..]
    {
      ghost var before := nodes;
      ghost var inList := insertAfter in nodes;
      ghost var i := if inList then IndexOf(nodes, insertAfter) else 0;
      var oldAfter := insertAfter.next;
      assert inList ==> oldAfter == NextOr(nodes, i);
      var newNode := new LLNode(nodeValue, oldAfter);
      insertAfter.next := newNode;
      newNode.prev := insertAfter;
      length := length + 1;
      if inList {
        nodes := before[..i + 1] + [newNode] + before[i + 1..];
        forall j | 0 <= j < |before| && j != i
          ensures before[j].next == NextOr(before, j)
        {
          assert before[j] != insertAfter;
          assert old(before[j].next) == NextOr(before, j);
        }
        SpliceIsChain(head, before, i, newNode, nodes);
        ValuesInsertAt(before, i, newNode);
      } else {
        forall j | 0 <= j < |before|
          ensures before[j].next == NextOr(before, j)
        {
          assert before[j] != insertAfter;
          assert old(before[j].next) == NextOr(before, j);
        }
      }
    }

    /**
     * `remove(node)`: unlinks the exact object `node`; throws when the list is
     * empty or `node` is not reached from `head`. Only one `next` field
     * changes; no `prev` field is touched.
     */
    method Remove(node: LLNode<T>) returns (r: Outcome<ListError>)
      requires Valid()
      modifies this, nodes
      ensures Valid()
      ensures r.Pass? <==> node in old(nodes)
      ensures r.Fail? ==> r.error == NodeNotPresent && unchanged(this) && unchanged(old(nodes))
      ensures node in old(nodes) ==>
                var i := IndexOf(old(nodes), node);
                nodes == old(nodes)[..i] + old(nodes)[i + 1..] &&
                Values(nodes) == old(Values(nodes))[..i] + old(Values(nodes))[i + 1..] &&
                length == old(length) - 1
      ensures forall n :: n in old(nodes) ==> n.prev == old(n.prev)
      ensures node.next == old(node.next)
    {
      if head == null {
        return Fail(NodeNotPresent);
      }
      if node == head {
        RemoveHead();
        assert IndexOf(old(nodes), node) == 0;
        return Pass;
      }
      // The source unlinks and returns from inside its search loop; here the
      // search and the unlinking are two steps.
      var current, k := Predecessor(node);
      if current == null {
        return Fail(NodeNotPresent);
      }
      UnlinkAfter(current, k);
      assert IndexOf(old(nodes), node) == k + 1;
      return Pass;
    }

    /** The head case of `remove`: `head` moves to its successor. */
    method RemoveHead()
      requires Valid() && head != null
      modifies this
      ensures Valid()
      ensures nodes == old(nodes)[1..] && Values(nodes) == old(Values(nodes))[1..]
      ensures length == old(length) - 1
    {
      ghost var before := nodes;
      assert NextOr(nodes, 0) == head.next;
      head := head.next;
      length := length - 1;
      nodes := nodes[1..];
      assert forall j :: 0 <= j < |nodes| ==> nodes[j] == before[j + 1];
      assert before == [before[0]] + nodes;
      ValuesConcat([before[0]], nodes);
    }

    /**
     * The search loop of `remove`, which walks from `head` while the current
     * node has a successor: the node whose `next` is `node`, and its position,
     * or null when no node after the head is `node`.
     */
    method Predecessor(node: LLNode<T>) returns (current: LLNode?<T>, ghost k: nat)
      requires Valid() && head != null
      ensures current == null <==> node !in nodes[1..]
      ensures current != null ==> k + 1 < |nodes| && nodes[k] == current && nodes[k + 1] == node
    {
      current := head;
      k := 0;
      while current.next != null
        invariant k < |nodes| && current == nodes[k]
        invariant node !in nodes[1..k + 1]
        decreases |nodes| - k
      {
        assert current.next == NextOr(nodes, k);
        if current.next == node {
          return;
        }
        assert nodes[1..k + 2] == nodes[1..k + 1] + [nodes[k + 1]];
        current := current.next;
        k := k + 1;
      }
      assert nodes[1..k + 1] == nodes[1..];
      current := null;
    }

    /** The unlinking step of `remove`: the node after `current` leaves the chain. */
    method UnlinkAfter(current: LLNode<T>, ghost k: nat)
      requires Valid() && k + 1 < |nodes| && nodes[k] == current
      modifies this, current
      ensures Valid()
      ensures nodes == old(nodes)[..k + 1] + old(nodes)[k + 2..]
      ensures Values(nodes) == old(Values(nodes))[..k + 1] + old(Values(nodes))[k + 2..]
      ensures head == old(head) && length == old(length) - 1
      ensures current.next == old(nodes[k + 1].next)
      ensures current.prev == old(current.prev)
    {
      ghost var before := nodes;
      var node := current.next;
      assert node == before[k + 1] && node.next == NextOr(before, k + 1);
      current.next := node.next;
      length := length - 1;
      nodes := before[..k + 1] + before[k + 2..];
      forall j | 0 <= j < |before| && j != k
        ensures before[j].next == NextOr(before, j)
      {
        assert before[j] != current;
      }
      UnspliceIsChain(head, before, k, nodes);
      ValuesDropAt(before, k);
    }

    /**
     * `access(index)`: the node `index` steps along `next` from `head`. A
     * negative index takes no step and yields `head`.
     */
    method Access(index: int) returns (r: Result<LLNode<T>, ListError>)
      requires Valid()
      ensures r.Success? <==> nodes != [] && index < |nodes|
      ensures r.Success? ==> r.value == nodes[if index < 0 then 0 else index]
      ensures r.Failure? ==> r.error == IndexOutOfRange
    {
      if head == null {
        return Failure(IndexOutOfRange);
      }
      var current := head;
      var i := 0;
      while i < index
        invariant 0 <= i < |nodes| && current == nodes[i]
        invariant i == 0 || i <= index
      {
        if current.next != null {
          current := current.next;
        } else {
          assert current.next == NextOr(nodes, i);
          return Failure(IndexOutOfRange);
        }
        i := i + 1;
      }
      return Success(current);
    }
  }

  /**
   * `remove` undoes `insert`: removing the node just inserted after a node of
   * the list succeeds and gives back the values the list had before.
   */
  method InsertThenRemove<T>(list: LinkedList<T>, nodeValue: T, insertAfter: LLNode<T>)
    returns (r: Outcome<ListError>)
    requires list.Valid() && insertAfter in list.nodes
    modifies list, list.nodes
    ensures list.Valid() && r == Pass
    ensures Values(list.nodes) == old(Values(list.nodes)) && list.length == old(list.length)
  {
    ghost var vs := Values(list.nodes);
    ghost var i := IndexOf(list.nodes, insertAfter);
    list.Insert(nodeValue, insertAfter);
    var inserted: LLNode<T> := insertAfter.next;
    IndexOfDistinct(list.nodes, i + 1);
    r := list.Remove(inserted);
    DropAfterSplice(vs, i, nodeValue);
  }
}
