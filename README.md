# Verified model of three single-threaded containers

This project models three classes of the `gakesson.util.collections` package
in Dafny and proves their behaviour:

- **ArrayStack**: a LIFO stack over a growable `E[]` buffer and a logical
  size. A push that finds the buffer full grows it by half. The new length is
  computed in Java's 32-bit arithmetic and clamps near `Integer.MAX_VALUE`.
- **BoundedQueue**: a decorator that caps the element count of a
  caller-supplied FIFO backing queue. `offer` and `addAll` check the cap
  before they delegate. `addAll` also rejects `null`, the queue itself and its
  backing queue.
- **AbstractLazyMap**: a map decorator that is backed by the shared empty map
  until a write or `getLazilyCreatedMap` creates the real backing map.

Files, one module each:

- `java.dfy` (`Java`): the 32-bit `int` (`int32`), Java's wrap-around of a
  sum or difference (`Wrap`), the exceptions thrown (`Exception`), `null`
  (`Option`), and a call that returns or throws (`Result`, `Completion`).
- `array_stack.dfy` (`ArrayStacks`): the capacity arithmetic as functions
  and lemmas, `Arrays.copyOf` and `growStack` as methods, and the class
  `ArrayStack`. Its fields are `elements: array<Option<E>>` (where `None` is
  `null`), `size: int32` and a ghost `contents`. `Valid()` says slots
  `[0, size)` hold the contents in push order and every slot above is `null`.
- `bounded_queue.dfy` (`BoundedQueues`): the class `BoundedQueue`.
  - `elements` holds the backing queue's contents, head first.
  - `capacity` is a constant.
  - `accepts` is the backing queue's own `offer` decision, given its
    contents. A `LinkedList` accepts everything.
  - The argument of `addAll` is a `Collection`: `Null`, `ThisQueue`,
    `BackingQueue` or `Other(items)`. This lets the identity checks be
    stated.
  - `AddEach` is the effect of `addAll`'s element-by-element loop.
- `lazy_map.dfy` (`LazyMaps`): the class `LazyMap`. Its field `backing` is
  `null` while the decorator is still backed by the shared empty map.
  `BackingMap` stands for the mutable map that `createMap()` returns.

Each of the three files ends with client methods that put the source's tests
into words: N pushes then N pops, filling a queue to its cap, FIFO polling,
and the lazy map's life cycle.

Modelling choices:

- Each mutating method states its whole new state in terms of the old
  state.
- Each read-only method states its result in terms of the state.
- Java's `null` elements (pushing `null`, a `LinkedList` holding `null`)
  are ordinary values of `E` here. A `null` slot or a `null` answer is
  `None`.
- The concrete lazy subclasses differ only in which JDK map `createMap()`
  makes. They are all modelled as one `map<K, V>`.

## Model

| member | source | states |
|---|---|---|
| `ArrayStacks.ArrayStack.constructor` | ArrayStack.java:38-41 | an empty stack whose buffer has the requested length, all slots null; the size-within-buffer invariant holds |
| `ArrayStacks.ArrayStack.WithDefaultSize` | ArrayStack.java:28-31 | an empty stack over a buffer of DEFAULT_INITIAL_SIZE (10) slots |
| `ArrayStacks.ArrayStack.IsEmpty` | ArrayStack.java:75-78 | true exactly when the stack holds no element, i.e. when size() is 0 |
| `ArrayStacks.ArrayStack.Size` | ArrayStack.java:81-84 | the number of elements on the stack |
| `ArrayStacks.ArrayStack.Peek` | ArrayStack.java:64-72 | EmptyStackException on an empty stack; otherwise the top element, the one in slot size-1; changes nothing |
| `ArrayStacks.ArrayStack.Push` | ArrayStack.java:44-48 | appends the element on top and keeps the invariant; reallocates only when the buffer is full; a buffer full at Integer.MAX_VALUE slots gives OutOfMemoryError and no change |
| `ArrayStacks.ArrayStack.Pop` | ArrayStack.java:51-61 | EmptyStackException and no change on an empty stack; otherwise returns the top, removes it, nulls the vacated slot and leaves every other slot and the buffer itself unchanged |
| `ArrayStacks.ArrayStack.EnsureStackCapacity` | ArrayStack.java:92-98 | reallocates only when the overflow-conscious guard `required - length > 0` holds (the corrected form of the comparison at :94, see Findings); the new buffer has the length growStack computes and starts with the old slots, or OutOfMemoryError leaves the buffer as it was; contents and size unchanged |
| `ArrayStacks.GrowStack` | ArrayStack.java:106-122 | a fresh buffer at least as long as required and longer than the old one; its first old-length slots equal the old slots and its new slots are null; or OutOfMemoryError exactly when the capacity computation gives one |
| `ArrayStacks.CopyOf` | ArrayStack.java:121 | Arrays.copyOf: a fresh array of the new length holding the original's slots in order, null elsewhere |
| `ArrayStacks.HugeStackCapacity` | ArrayStack.java:131-140 | OutOfMemoryError exactly for a negative (wrapped) requirement; otherwise Integer.MAX_VALUE when the requirement exceeds MAX_STACK_SIZE, else MAX_STACK_SIZE, which always covers the requirement |
| `ArrayStacks.NewCapacity` | ArrayStack.java:108-119 | growStack's 32-bit capacity computation: it fails only with OutOfMemoryError and only for a negative (wrapped) requirement, and it never gives more than MAX_STACK_SIZE unless the requirement exceeds MAX_STACK_SIZE, when it gives Integer.MAX_VALUE; its full rule is `CapacityRule` |
| `ArrayStacks.CapacityRule` | ArrayStack.java:106-119 | for a real requirement above the old length, the new length is max(old + old/2, required) when that is at most MAX_STACK_SIZE; otherwise Integer.MAX_VALUE if required exceeds MAX_STACK_SIZE, else MAX_STACK_SIZE; despite the 32-bit wrap of old + old/2 |
| `ArrayStacks.NewCapacityMeetsRequirement` | ArrayStack.java:109-139 | when growth is needed, the computed length holds the requirement and exceeds the old length; a requirement that wrapped to Integer.MIN_VALUE ends in OutOfMemoryError |
| `ArrayStacks.NeedsGrowth` | ArrayStack.java:94 | the corrected guard `required - length > 0` in 32 bits holds exactly when the requirement exceeds the length or lies so far below it that the difference wraps |
| `ArrayStacks.GrowsAsWritten` | ArrayStack.java:94 | the guard as written, `required > length`: wherever it grows, the corrected guard grows too, and the corrected guard grows where it does not only for a negative (wrapped) requirement; `AsWrittenGuardMissesOverflow` gives that input |
| `ArrayStacks.GuardsAgreeWithoutOverflow` | ArrayStack.java:94 | for non-negative requirements the plain comparison of ensureStackCapacity and the overflow-conscious one agree |
| `ArrayStacks.AsWrittenGuardMissesOverflow` | ArrayStack.java:92-98 | on a full buffer of Integer.MAX_VALUE slots, mySize + 1 wraps to Integer.MIN_VALUE and the guard as written asks for no growth, while the overflow-conscious guard asks for growth that ends in OutOfMemoryError |
| `ArrayStacks.PushThenPop` | ArrayStack.java:44-61 | a push that succeeds (it does exactly when the size is below Integer.MAX_VALUE) followed by a pop returns the pushed element and restores the contents |
| `ArrayStacks.PushAllThenPopAll` | ArrayStackTest.java:11-31 | for every initial capacity and every N up to Integer.MAX_VALUE, N pushes onto a new stack then N pops return the elements in reverse push order and leave size 0, across buffer growth |
| `BoundedQueues.BoundedQueue.constructor` | BoundedQueue.java:32-36 | the queue decorates the given backing queue (contents and offer decision) with the given capacity |
| `BoundedQueues.BoundedQueue.GetCapacity` | BoundedQueue.java:43-46 | the capacity passed to the constructor (a constant field, so it never changes) |
| `BoundedQueues.BoundedQueue.Size` | BoundedQueue.java:156-159 | the backing queue's size |
| `BoundedQueues.BoundedQueue.Peek` | BoundedQueue.java:134-137 | the head without removing it; null on an empty queue |
| `BoundedQueues.BoundedQueue.Poll` | BoundedQueue.java:123-126 | removes and returns the head; null and no change on an empty queue; keeps size <= capacity |
| `BoundedQueues.BoundedQueue.Offer` | BoundedQueue.java:59-69 | at or above the cap: false and no change; below it: the backing queue's answer, with the element appended at the tail exactly when it accepted; keeps size <= capacity |
| `BoundedQueues.BoundedQueue.Add` | BoundedQueue.java:108 | add is offer, or IllegalStateException with no change when offer returns false |
| `BoundedQueues.BoundedQueue.AddAll` | BoundedQueue.java:94-115 | NullPointerException for null, IllegalArgumentException for this queue or its backing queue, IllegalStateException when size + |c| exceeds the cap, each with no change; otherwise the loop's effect: contents become old + c when every add succeeds, and the result is true exactly when c is non-empty; keeps size <= capacity |
| `BoundedQueues.CheckNotNull` | BoundedQueue.java:166-172 | NullPointerException exactly for a null argument |
| `BoundedQueues.CheckNotSame` | BoundedQueue.java:179-185 | IllegalArgumentException exactly when both references are the same object |
| `BoundedQueues.AddEach` | BoundedQueue.java:106-113 | the effect of addAll's add loop: the old contents stay in front, at most the whole collection is appended, and the loop completes exactly when all of it went in; `AddEachAppendsPrefix` says which elements |
| `BoundedQueues.AddEachAppendsPrefix` | BoundedQueue.java:106-113 | the add loop appends a prefix of the collection in iteration order and rolls nothing back; it completes exactly when the whole collection went in |
| `BoundedQueues.AddEachWithinCapacity` | BoundedQueue.java:101-113 | the add loop never takes a queue within its cap above it |
| `BoundedQueues.AddEachIntoAcceptingQueue` | BoundedQueue.java:101-114 | over a backing queue that accepts everything, a collection that fits under the cap goes in completely: old + c |
| `BoundedQueues.OfferBeyondCapacity` | BoundedQueueTest.java:83-95 | a queue of capacity K takes K offers, refuses the next one and keeps size K |
| `BoundedQueues.PollInOfferOrder` | BoundedQueueTest.java:127-144 | peek and poll return the offered elements in offer order, and one more poll of the emptied queue returns null |
| `BoundedQueues.AddAllAppends` | BoundedQueueTest.java:147-157 | a successful addAll into an unrestricted backing queue appends the collection and reports whether it was non-empty |
| `LazyMaps.Lookup` | AbstractLazyMap.java:50-52 | get's answer: the bound value when the key is present, null otherwise |
| `LazyMaps.LazyMap.constructor` | AbstractLazyMap.java:18-27 | a new lazy map is uncreated and reads as empty |
| `LazyMaps.LazyMap.Size` | AbstractLazyMap.java:30-32 | the number of bindings of the current map |
| `LazyMaps.LazyMap.IsEmpty` | AbstractLazyMap.java:35-37 | true exactly when the current map has no binding |
| `LazyMaps.LazyMap.ContainsKey` | AbstractLazyMap.java:40-42 | true exactly when the key is bound |
| `LazyMaps.LazyMap.ContainsValue` | AbstractLazyMap.java:45-47 | true exactly when some key is bound to the value |
| `LazyMaps.LazyMap.Get` | AbstractLazyMap.java:50-52 | the bound value, or null when the key is absent |
| `LazyMaps.LazyMap.Equals` | AbstractLazyMap.java:95-97 | true exactly when the contents equal the other map |
| `LazyMaps.LazyMap.GetLazyMap` | AbstractLazyMap.java:121-126 | creates a fresh, empty backing map only when uncreated; once created, always returns the same map; contents unchanged |
| `LazyMaps.LazyMap.GetLazilyCreatedMap` | AbstractLazyMap.java:112-114 | the backing map, created on first use and the same map on every later call |
| `LazyMaps.LazyMap.Put` | AbstractLazyMap.java:55-57 | creates the backing map if needed (at most once), binds the key to the value and returns the previous binding |
| `LazyMaps.LazyMap.PutAll` | AbstractLazyMap.java:65-67 | creates the backing map if needed; contents become old + m, m's bindings overriding |
| `LazyMaps.LazyMap.Remove` | AbstractLazyMap.java:60-62 | never creates the backing map; removes the key and returns its previous binding, null on an uncreated map |
| `LazyMaps.LazyMap.Clear` | AbstractLazyMap.java:70-72 | empties the contents and never changes which map backs the decorator |
| `LazyMaps.FreshMapReadsEmpty` | AbstractLazyMapTest.java:12-67 | on a new lazy map size is 0, isEmpty holds, containsKey, containsValue and get find nothing, it equals the empty map, and none of these reads creates the backing map |
| `LazyMaps.PutThenRead` | AbstractLazyMapTest.java:157-164 | the first put returns null, after which get, containsKey and containsValue see the binding, size is 1, and the map no longer equals the empty map |
| `LazyMaps.RemoveBeforeAndAfterPut` | AbstractLazyMapTest.java:70-79 | remove on a new map returns null and creates nothing; after a put it returns the stored value and removes the key |
| `LazyMaps.ClearKeepsCreated` | AbstractLazyMapTest.java:82-94 | clear after a put empties the map and leaves it created |
| `LazyMaps.GetLazilyCreatedMapTwice` | AbstractLazyMap.java:112-126 | two calls return the same backing map, which is the one already present if the map was created |

## Findings

| source | as written | input that shows it | evidently intended | confidence | as-written member | corrected member |
|---|---|---|---|---|---|---|
| ArrayStack.java:94 | `ensureStackCapacity` grows only if `requiredCapacity > myElements.length`, a plain comparison | a stack whose size and buffer length are both `Integer.MAX_VALUE`, then `push(e)`: `mySize + 1` wraps to `Integer.MIN_VALUE`, nothing grows, and the store at index `Integer.MAX_VALUE` is out of bounds after `mySize++` has set `mySize` to `Integer.MIN_VALUE` | the overflow-conscious `requiredCapacity - myElements.length > 0` (the `java.util.ArrayList` form), which sends the wrapped requirement to `hugeStackCapacity` and so to `OutOfMemoryError`, leaving the stack unchanged; as written, that branch of `hugeStackCapacity` cannot be reached | not executed; medium: reaching it needs a JVM that allocates an array of `Integer.MAX_VALUE` slots | `ArrayStacks.AsWrittenGuardMissesOverflow` | `ArrayStacks.ArrayStack.Push` |

## Left out

- ArrayStacks.ArrayStack.EnsureStackCapacity: uses the overflow-conscious guard `NeedsGrowth` from Findings, not the plain comparison at ArrayStack.java:94. For the requirement `Integer.MIN_VALUE` it therefore asks growStack for growth and reports OutOfMemoryError, where the code as written does nothing. The two guards agree for every non-negative requirement (`GuardsAgreeWithoutOverflow`).
- ArrayStacks.ArrayStack.Push: uses the overflow-conscious guard from Findings, not the plain comparison as written. The two agree whenever `mySize + 1` does not wrap (`GuardsAgreeWithoutOverflow`).
- `ArrayStack(int)` with a negative initial size: the model requires `initialSize >= 0` and does not model `NegativeArraySizeException`.
- JVM allocation failure inside `Arrays.copyOf`: not modelled. A Dafny array of up to `Integer.MAX_VALUE` slots is always allocated.
- ArrayStacks.GrowStack: accepts only the requirements `push` can produce: a real length, or `Integer.MIN_VALUE` after wrap-around. For other negative requirements the Java arithmetic can end in `NegativeArraySizeException`, which is not modelled.
- BoundedQueues.BoundedQueue.AddAll: computes `size() + collectionToAdd.size()` in mathematical integers. The 32-bit overflow of that sum is not modelled.
- A backing queue whose `offer` throws, such as `NullPointerException` for a `null` element, is not modelled. The model covers a backing queue that refuses by returning false. That refusal makes `add` throw `IllegalStateException` part-way through `addAll`, and the earlier insertions stay (`AddEachAppendsPrefix`).
- Changing the argument collection while `addAll` runs: not modelled, because the source documents the result as undefined. A different collection that shares the backing queue (for example a second decorator over it) is treated as an ordinary collection.
- Backing queues that are not FIFO, such as priority queues: not modelled. The backing queue takes elements at the tail and yields them from the head.
- `BoundedQueue.iterator()`, and the `keySet`, `values` and `entrySet` views of the lazy map: not modelled, because they are live JDK views and iterator objects. The model exposes contents only (`elements`, `Contents()`, and `Contents().Keys` for the key set).
- The inherited `AbstractQueue` methods other than `add` (`remove`, `element`, `isEmpty`): not modelled, because they are JDK code.
- `AbstractLazyMap.hashCode()`: not modelled, because its integer value is JDK hashing. Equality of contents is stated instead (`Equals`).
- LazyMaps.LazyMap.Equals: takes a map, not an arbitrary `Object`. The result of `equals` on something that is not a map (always false in Java) is not modelled.
- The concrete subclasses `LazyHashMap`, `LazyLinkedHashMap`, `LazyTreeMap` and `LazyIdentityHashMap`: not modelled. They only choose a JDK map in `createMap()`, so one key-equality, unordered `map<K, V>` stands for all of them. Identity keys and iteration order are not modelled.
- Thread-safety: not modelled, because all three classes are documented as not thread-safe.
- The test classes: not part of the model. They are used only as statements of expected behaviour.
