# typescript_dsa data structures in Dafny

This project models the pointer-based data structures of the `typescript_dsa`
library and proves what their operations do. It covers the doubly linked
`LinkedList` and its `LLNode`, the `Queue` built on that list, the
array-backed `Stack`, and the two pieces of the `Hashmap` that the source
contains: the constructor and the default string hash.

The model keeps the source's imperative form:

- **Nodes** are objects with mutable `next` and `prev` fields.
- **`LinkedList`** holds `head` and a `length` counter. A ghost sequence
  `nodes` records the chain reached from `head` through `next`. The list
  invariant `Valid()` (`IsChain`) says `nodes` is that chain: distinct nodes,
  each one's `next` the following one, the last one's `next` null.
- **Contracts** state what `traverse()` returns before and after each
  operation, through `Values(nodes)`. They also give the change to `length`
  and the `prev` fields the operation assigns.
- **`prev` fields** are not part of the invariant, exactly as in the source.
  The array constructor never sets them, and `remove` never repairs the
  successor's `prev`.

Thrown errors become `Result`/`Outcome` values that carry the error. Each
error datatype has a `Message` function giving the source's exact message
text.

Modules:

- `Wrappers`: `Option`, `Result`, `Outcome`.
- `JsArrays`: the JavaScript `Array` object used by the stack and the
  hashmap. It is a class held by reference, with in-place `push` and `pop`.
- `LinkedLists`: `LLNode`, `LinkedList`, and the chain predicates and lemmas.
- `Queues`: `Queue`. A Dafny class cannot extend another class, so the queue
  holds its `LinkedList` in a `list` field and works on that list's fields
  directly, as the inherited fields are used in the source.
- `Stacks`: `Stack`.
- `Hashmaps`: ECMAScript `ToInt32`, the hash loop, Java's `String.hashCode`
  as an independent reference, and the `Hashmap` constructor.

Constructors that can throw are modelled as static `Create` methods that
return a `Result`: `Queue.Create` and `Hashmap.Create`. A plain constructor
then sets the fields. The JavaScript `instanceof`/`typeof` dispatch on
constructor arguments becomes a datatype: `Initial` for the list and the
queue, `StackInitial` for the stack, and `ValuesArg` for the hashmap.

## Model

| member | source | states |
|---|---|---|
| LinkedLists.Message | data_structures/linked_list/LinkedList.ts:118-160 | the text thrown for a missing node (lines 118, 138) and for a bad index (lines 151, 160); the contract promises a non-empty text |
| LinkedLists.MessageInjective | data_structures/linked_list/LinkedList.ts:118-160 | the two list errors throw distinct messages |
| LinkedLists.LLNode.constructor | data_structures/linked_list/LinkedList.ts:17-21 | the new node holds `value` and `next`, its `prev` is null; a non-null `next` gets `prev` pointing back to the new node, with its own `next` untouched |
| LinkedLists.LLNode.Spread | data_structures/linked_list/LinkedList.ts:66 | the spread copy `{...initial}` is a new object with the same `value`, `next` and `prev` |
| LinkedLists.Nodify | data_structures/linked_list/LinkedList.ts:57-64 | mapping the array to fresh nodes and linking each to the next yields a chain whose values are the array in order, every node's `prev` null; an empty array yields no head |
| LinkedLists.LinkedList.constructor | data_structures/linked_list/LinkedList.ts:56-72 | from an array, `traverse()` is the array and `length` its size; from one value, a single fresh node with that value and null links and `length` 1; from a node, a fresh copy of it heads the node's own chain, so `traverse()` is that chain's values and `length` its size |
| LinkedLists.LinkedList.Traverse | data_structures/linked_list/LinkedList.ts:80-94 | returns the values along the `next` chain from `head` in order, `[]` when `head` is null |
| LinkedLists.LinkedList.Insert | data_structures/linked_list/LinkedList.ts:102-109 | for `insertAfter` at position i, `traverse()` becomes old[..i+1] + [v] + old[i+1..]; for a node outside the list, the chain is unchanged; either way `length` grows by 1, `head` is unchanged, the new node's `prev` is `insertAfter`, the old successor's `prev` is the new node, and no other list node's `prev` changes; `insertAfter.prev` and the old successor's `next` are left alone (unless `insertAfter` was its own successor) |
| LinkedLists.LinkedList.Remove | data_structures/linked_list/LinkedList.ts:116-139 | succeeds exactly when `node` is in the list; then the node at its position i is dropped from the chain and from `traverse()`, and `length` drops by 1; otherwise it fails with "Node not present in linked list" and changes nothing; no `prev` field and not `node.next` is ever changed |
| LinkedLists.LinkedList.RemoveHead | data_structures/linked_list/LinkedList.ts:121-125 | removing the head drops the first value from `traverse()` and the first node from the chain, and decrements `length` |
| LinkedLists.LinkedList.Predecessor | data_structures/linked_list/LinkedList.ts:127-136 | the search from `head` finds the node whose `next` is `node` exactly when `node` occurs after the head, and then gives its position |
| LinkedLists.LinkedList.UnlinkAfter | data_structures/linked_list/LinkedList.ts:130-133 | setting `current.next` to `node.next` drops position k+1 from the chain and from `traverse()`, decrements `length`, and touches no `prev` |
| LinkedLists.LinkedList.Access | data_structures/linked_list/LinkedList.ts:149-165 | succeeds exactly when the list is non-empty and the index is below its size; returns the node at that index (the head for a negative index); otherwise fails with "index out of range" |
| LinkedLists.InsertThenRemove | data_structures/linked_list/LinkedList.ts:102-139 | `remove` of the node just inserted succeeds and gives back the previous `traverse()` and `length` |
| LinkedLists.IndexOf | data_structures/linked_list/LinkedList.ts:129-131 | the position `remove` finds a node at is its first occurrence in the chain |
| LinkedLists.ValuesInsertAt | data_structures/linked_list/LinkedList.ts:102-109 | splicing a node into the chain after position i splices its value into the traversal at i+1 |
| LinkedLists.ValuesDropAt | data_structures/linked_list/LinkedList.ts:130-133 | dropping position k+1 from the chain drops exactly that value from the traversal |
| LinkedLists.SpliceIsChain | data_structures/linked_list/LinkedList.ts:102-109 | with the `next` fields that `insert` leaves, the spliced sequence is again the chain from `head` |
| LinkedLists.UnspliceIsChain | data_structures/linked_list/LinkedList.ts:130-133 | with the `next` field that `remove` leaves, the sequence without position k+1 is again the chain from `head` |
| LinkedLists.AppendIsChain | data_structures/queue/Queue.ts:63-66 | linking a new last node after the last one keeps the chain |
| Queues.CheckMaxLength | data_structures/queue/Queue.ts:32-45 | fails exactly when `maxLength` is given and is not an integer, is below 1, or (for an array argument) is below the array's length; a non-integer or a value below 1 fails with "maxLength must be a positive integer or undefined", otherwise the failure is the "greater than the length" error; on success the limit is none when `maxLength` is absent and that integer otherwise |
| Queues.IsInteger | data_structures/queue/Queue.ts:33 | `Number.isInteger` holds exactly when the number equals some integer |
| Queues.Message | data_structures/queue/Queue.ts:34-77 | the text thrown for each queue error, as at lines 34, 37, 40, 61 and 77, and the list's message for a list failure; the contract promises a non-empty text |
| Queues.MessageInjective | data_structures/queue/Queue.ts:34-77 | distinct queue errors throw distinct messages |
| Queues.Queue.Create | data_structures/queue/Queue.ts:29-48 | the queue is built exactly when the `maxLength` checks pass and the initial list is non-empty; the `maxLength` errors take precedence, and an empty initial array fails with "index out of range" from `access(-1)`; `rear` is the last node and `traverse()` is the initial values |
| Queues.Queue.FromParts | data_structures/queue/Queue.ts:42-47 | the queue's fields are the list, the rear node and the limit |
| Queues.Queue.Enqueue | data_structures/queue/Queue.ts:59-68 | fails with "Queue at maximum capacity", changing nothing, exactly when `length` equals `maxLength`; otherwise the new node becomes `rear`, linked after the old rear in both directions, and `traverse()` gains the value at the end; `length` never changes; on a queue emptied by `dequeue` the chain stays empty |
| Queues.Queue.Dequeue | data_structures/queue/Queue.ts:75-85 | fails with "dequeueing empty queue", changing nothing, exactly when the queue is empty; otherwise `traverse()` loses its first value and the new head's `prev` is null; no node's `next` changes and no other `prev` changes, so the dequeued node keeps both its links; `length` never changes |
| Queues.Queue.EnqueueCounted | data_structures/queue/Queue.ts:59-68 | corrected `enqueue`: keeps `length` equal to the number of nodes; fails, changing nothing (`rear` included), exactly when the queue holds `maxLength` nodes or more; otherwise appends a fresh rear node holding the value, also to an emptied queue; the new rear's `prev` is the old rear, which links forward to it and keeps its own `prev`, while on an emptied queue the new rear's `prev` is null and the detached old rear is untouched; the node count never rises above the larger of `maxLength` and the count before the call |
| Queues.Queue.DequeueCounted | data_structures/queue/Queue.ts:75-85 | corrected `dequeue`: keeps `length` equal to the number of nodes; fails with "dequeueing empty queue", changing nothing, exactly when the queue is empty; otherwise drops the first node and value, and the new head's `prev` is null; no `next` and no other `prev` changes |
| Queues.CapacityNotEnforced | data_structures/queue/Queue.ts:59-85 | `new Queue([1], 2)` then two enqueues holds `[1, 2, 3]` under a limit of 2 |
| Queues.CapacityEnforced | data_structures/queue/Queue.ts:59-68 | with the corrected operations, the same calls hold `[1, 2]` and the second enqueue fails at capacity |
| Queues.EnqueueAfterEmptyingLost | data_structures/queue/Queue.ts:59-85 | `new Queue([1])`, `dequeue()`, `enqueue(2)` succeeds but `traverse()` is `[]` |
| Queues.EnqueueAfterEmptyingKept | data_structures/queue/Queue.ts:59-85 | with the corrected operations, the same calls give `traverse()` = `[2]` |
| Stacks.Stack.constructor | data_structures/stack/Stack.ts:39-47 | an array argument becomes the content itself (shared with the caller); one value gives a fresh `[value]`; no argument gives a fresh `[]` |
| Stacks.Message | data_structures/stack/Stack.ts:22 | the text "Stack is empty" thrown by `pop`; the contract promises a non-empty text |
| Stacks.Stack.Pop | data_structures/stack/Stack.ts:20-26 | fails with "Stack is empty" exactly when the content is empty, which stays empty; otherwise returns the last element and removes exactly it |
| Stacks.Stack.Push | data_structures/stack/Stack.ts:32-34 | appends the value at the end of the content |
| Stacks.PushThenPop | data_structures/stack/Stack.ts:20-34 | `pop` right after `push(x)` returns `x` and restores the previous content |
| JsArrays.JsArray.constructor | data_structures/hashmap/Hashmap.ts:36-37 | an array literal or spread copy is a new array holding the given elements |
| JsArrays.JsArray.Push | data_structures/stack/Stack.ts:33 | the built-in `push` appends one element |
| JsArrays.JsArray.Pop | data_structures/stack/Stack.ts:24 | the built-in `pop` removes and returns the last element, and yields undefined on an empty array |
| Hashmaps.ToInt32 | data_structures/hashmap/Hashmap.ts:21 | the 32-bit conversion behind `<<` gives the unique value in [-2^31, 2^31) congruent to its argument modulo 2^32 |
| Hashmaps.ToInt32Congruent | data_structures/hashmap/Hashmap.ts:21 | arguments congruent modulo 2^32 convert to the same 32-bit value |
| Hashmaps.ShiftLeft5 | data_structures/hashmap/Hashmap.ts:21 | `x << 5` is a signed 32-bit value congruent to `32 * x` modulo 2^32 |
| Hashmaps.ShiftLeft0 | data_structures/hashmap/Hashmap.ts:21 | `x << 0` is a signed 32-bit value congruent to `x` modulo 2^32, and equal to `x` when `x` already is one |
| Hashmaps.HashStep | data_structures/hashmap/Hashmap.ts:21 | one loop step `((hash << 5) - hash + c) << 0` is a signed 32-bit value congruent to `31 * hash + c` modulo 2^32 |
| Hashmaps.HashStepIs31 | data_structures/hashmap/Hashmap.ts:21 | one loop step `((hash << 5) - hash + c) << 0` equals `31 * hash + c` wrapped to 32 bits |
| Hashmaps.HashSumSnoc | data_structures/hashmap/Hashmap.ts:20-22 | extending the key by one code unit c takes the polynomial sum S to 31·S + c |
| Hashmaps.HashStepExtends | data_structures/hashmap/Hashmap.ts:20-22 | one loop step takes the hash of a prefix of the key to the hash of the prefix one unit longer |
| Hashmaps.StringHashCodeRecurrence | data_structures/hashmap/Hashmap.ts:21 | Java's recurrence: the hash of s + [c] is `31 * hash(s) + c` wrapped to 32 bits |
| Hashmaps.StringHashCode | data_structures/hashmap/Hashmap.ts:12-25 | Java's hash, defined as Σ key[i]·31^(n-1-i) read as a signed 32-bit integer, lies in [-2^31, 2^31), and the empty key hashes to 0 |
| Hashmaps.DefaultHashFunction | data_structures/hashmap/Hashmap.ts:12-25 | the source's loop over the key's UTF-16 code units computes exactly Java's `String.hashCode` of the key |
| Hashmaps.Message | data_structures/hashmap/Hashmap.ts:1-4 | the two `HashmapErrors` texts thrown at lines 29 and 33; the contract promises a non-empty text |
| Hashmaps.MessageInjective | data_structures/hashmap/Hashmap.ts:1-4 | the two errors have distinct messages |
| Hashmaps.Hashmap.FromParts | data_structures/hashmap/Hashmap.ts:36-43 | the map's fields are the two arrays and the hash function |
| Hashmaps.Hashmap.Create | data_structures/hashmap/Hashmap.ts:27-44 | fails with the type-mismatch error when `initial_values` is not an array, checked first, then with the length-mismatch error when the lengths differ; otherwise `values` and `keys` are fresh copies equal to the arguments, and the hash function is the given one or, when none is given, the default hash |

## Left out

- Hashmap buckets, `insert`, `access`, `delete`, `rehash`, load factors and element counts: the library's tests call them, but data_structures/hashmap/Hashmap.ts does not define them.
- algorithms/statistics (mean, variance, random generators) and data_structures/tree: not part of this model. They are floating-point and random-number code, and a value holder with no operations.
- JavaScript numbers: indices, lengths and `maxLength` are mathematical integers and reals, so NaN, infinities and fractional `access` indices are not modelled. `CheckMaxLength` reads `maxLength` as a finite real.
- LinkedLists.LinkedList.constructor: for a node argument, the node's `next` chain must be finite and acyclic (given as `chain`). On a cyclic chain the source's `traverse` never ends.
- LinkedLists.LinkedList.constructor: a list built from a node shares every node after the head with whoever else holds that chain. After an `insert` or `remove` through the other holder, the source's `traverse()` on this list shows the change while its `length` is stale; the model's `Valid()` no longer holds for this list then, so the model says nothing about it.
- LinkedLists.LLNode.Spread: in JavaScript `{...initial}` is a plain object, not an `LLNode`. So building a list from the head of a list that was itself built from a node takes the single-value branch and gives a one-node list holding that object as its value. The model treats the copy as an `LLNode`.
- LinkedLists.LLNode: `value` is a constant, because no code in the library reassigns it.
- LinkedLists.LinkedList.Remove: the source unlinks and returns from inside its search loop. The model does the search (`Predecessor`) and the unlinking (`UnlinkAfter`) as two steps, with the same effect.
- Queues.Queue: the list operations a `Queue` inherits (`insert`, `remove`, `access`, `traverse`) are reachable through `list`. `access` and `traverse` change nothing, but `Valid()` does not promise that `rear` survives `insert` or `remove`.
- Hashmaps.Hashmap.Create: a caller-supplied hash function is an opaque function from strings to integers. A function returning a non-integer number is not modelled.
- Hashmaps.JsString: keys are sequences of UTF-16 code units, which `charCodeAt` reads. How a host string is encoded into them is not modelled.
- Type-level features: TypeScript types such as `notLLNode` and argument checks the type checker already enforces (e.g. `initial_keys` being an array) are not modelled.

## Findings

| source | as written | input that shows it | evidently intended | confidence | as-written member | corrected member |
|---|---|---|---|---|---|---|
| data_structures/queue/Queue.ts:59-85 | `enqueue` and `dequeue` never change the inherited `length`, so the capacity check compares `maxLength` with the length at construction | `new Queue([1], 2)`, then `enqueue(2)` and `enqueue(3)`: both succeed and the queue holds 3 values | `enqueue` throws once the queue holds `maxLength` values | high; not executed | Queues.CapacityNotEnforced | Queues.Queue.EnqueueCounted |
| data_structures/queue/Queue.ts:59-68 | after the last value is dequeued, `rear` still points at the removed node, and `enqueue` links the new node there while `head` stays null | `new Queue([1])`, `dequeue()`, `enqueue(2)`: `traverse()` returns `[]` | the enqueued value becomes the queue's only value | high; not executed | Queues.EnqueueAfterEmptyingLost | Queues.Queue.EnqueueCounted |

Queues.CapacityEnforced and Queues.EnqueueAfterEmptyingKept run the same
calls on the corrected operations. The queue's `Enqueue` and `Dequeue` model
the code as written. `EnqueueCounted` and `DequeueCounted` are the corrected
operations, which keep `length == |nodes|`. The corrected capacity test is
`length >= maxLength`, because a queue built from a node chain longer than
`maxLength` passes the constructor.
