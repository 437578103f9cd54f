/**
 * ArrayStack: a last-in-first-out stack over a growable array. The buffer
 * grows by half its length when a push finds it full; the computation of the
 * new length is written with Java's wrap-around `int` arithmetic and clamps
 * near `Integer.MAX_VALUE`.
 */
module ArrayStacks {
  import opened Java

  const DEFAULT_INITIAL_SIZE: int32 := 10
  /** The largest length the growth policy asks for unless more is required. */
  const MAX_STACK_SIZE: int32 := 0x7fff_ffff - 8

  function Max(a: int, b: int): (r: int)
    ensures a <= r && b <= r && (r == a || r == b)
  {
    if a < b then b else a
  }

  // ---------------------------------------------------------------------------
  // Capacity arithmetic

  /**
   * hugeStackCapacity: the capacity granted when the growth policy overshoots
   * MAX_STACK_SIZE. A negative requirement means `mySize + 1` wrapped around,
   * and is refused with OutOfMemoryError.
   */
  function HugeStackCapacity(requiredCapacity: int32): (r: Result<int32>)
    ensures r.Err? <==> requiredCapacity < 0
    ensures r.Err? ==> r.error == OutOfMemory
    ensures r.Ok? ==> r.value == MAX_STACK_SIZE || r.value == INT_MAX
    ensures r.Ok? ==> (r.value == INT_MAX <==> requiredCapacity > MAX_STACK_SIZE)
    ensures r.Ok? ==> requiredCapacity <= r.value
  {
    if requiredCapacity < 0 then Err(OutOfMemory)
    else if requiredCapacity > MAX_STACK_SIZE then Ok(INT_MAX)
    else Ok(MAX_STACK_SIZE)
  }

  /**
   * The length growStack gives the new buffer, computed with the source's
   * 32-bit arithmetic: `old + (old >> 1)`, raised to the requirement when that
   * undershoots, and handed to HugeStackCapacity when it exceeds
   * MAX_STACK_SIZE. Both comparisons are the source's overflow-conscious
   * `a - b < 0` and `a - b > 0`. (`old >> 1` is `old / 2` for `old >= 0`.)
   */
  function NewCapacity(oldCapacity: int32, requiredCapacity: int32): (r: Result<int32>)
    requires 0 <= oldCapacity
    ensures r.Err? ==> r.error == OutOfMemory && requiredCapacity < 0
    ensures r.Ok? && r.value > MAX_STACK_SIZE ==> r.value == INT_MAX && requiredCapacity > MAX_STACK_SIZE
  {
    var grown := Wrap(oldCapacity + oldCapacity / 2);
    var candidate := if Wrap(grown - requiredCapacity) < 0 then requiredCapacity else grown;
    if Wrap(candidate - MAX_STACK_SIZE) > 0 then HugeStackCapacity(requiredCapacity)
    else Ok(candidate)
  }

  /**
   * The capacity rule in mathematical integers: for a real (non-wrapped)
   * requirement above the current length, the new length is the larger of
   * 1.5 times the old length and the requirement, unless that exceeds
   * MAX_STACK_SIZE, in which case it is Integer.MAX_VALUE when the requirement
   * itself exceeds MAX_STACK_SIZE and MAX_STACK_SIZE otherwise.
   */
  lemma CapacityRule(oldCapacity: int32, requiredCapacity: int32)
    requires 0 <= oldCapacity < requiredCapacity
    ensures var m := Max(oldCapacity + oldCapacity / 2, requiredCapacity);
            NewCapacity(oldCapacity, requiredCapacity)
            == Ok(if m <= MAX_STACK_SIZE then m
                  else if requiredCapacity > MAX_STACK_SIZE then INT_MAX
                  else MAX_STACK_SIZE)
  {
  }

  /**
   * The guard ensureStackCapacity is meant to apply, in the overflow-conscious
   * form `required - length > 0` that java.util.ArrayList uses.
   */
  predicate NeedsGrowth(length: int32, requiredCapacity: int32): (r: bool)
    requires 0 <= length
    ensures r <==> requiredCapacity > length || requiredCapacity - length < INT_MIN
  {
    Wrap(requiredCapacity - length) > 0
  }

  /**
   * ensureStackCapacity's guard as written: the plain comparison `required >
   * length`. It never grows where the overflow-conscious guard does not, and
   * it misses growth only for a requirement that wrapped to a negative value.
   */
  predicate GrowsAsWritten(length: int32, requiredCapacity: int32): (r: bool)
    requires 0 <= length
    ensures r ==> NeedsGrowth(length, requiredCapacity)
    ensures NeedsGrowth(length, requiredCapacity) && !r ==> requiredCapacity < 0
  {
    requiredCapacity > length
  }

  /** Without wrap-around the two guards agree. */
  lemma GuardsAgreeWithoutOverflow(length: int32, requiredCapacity: int32)
    requires 0 <= length && 0 <= requiredCapacity
    ensures NeedsGrowth(length, requiredCapacity) <==> GrowsAsWritten(length, requiredCapacity)
  {
  }

  /**
   * The input on which the guard as written goes wrong: a full buffer of
   * length Integer.MAX_VALUE. `mySize + 1` wraps to Integer.MIN_VALUE, the
   * plain comparison sees nothing to grow, and push goes on to store at index
   * Integer.MAX_VALUE of a buffer that has no such slot, after the
   * post-increment has already left mySize at Integer.MIN_VALUE. The
   * overflow-conscious guard instead reaches HugeStackCapacity, which reports
   * OutOfMemoryError.
   */
  lemma AsWrittenGuardMissesOverflow()
    ensures Wrap(INT_MAX + 1) == INT_MIN
    ensures !GrowsAsWritten(INT_MAX, Wrap(INT_MAX + 1))
    ensures NeedsGrowth(INT_MAX, Wrap(INT_MAX + 1))
    ensures NewCapacity(INT_MAX, Wrap(INT_MAX + 1)) == Err(OutOfMemory)
  {
  }

  /**
   * Whenever the (corrected) guard asks for growth with a requirement push can
   * produce (`mySize + 1`, which is either a real length or Integer.MIN_VALUE
   * after wrap-around), growStack either reports OutOfMemoryError, exactly for
   * the wrapped value, or yields a length that holds the requirement.
   */
  lemma NewCapacityMeetsRequirement(oldCapacity: int32, requiredCapacity: int32)
    requires 0 <= oldCapacity && NeedsGrowth(oldCapacity, requiredCapacity)
    requires 0 <= requiredCapacity || requiredCapacity as int == INT_MIN
    ensures requiredCapacity < 0 ==> NewCapacity(oldCapacity, requiredCapacity) == Err(OutOfMemory)
    ensures 0 <= requiredCapacity ==>
              && oldCapacity < requiredCapacity
              && NewCapacity(oldCapacity, requiredCapacity).Ok?
              && requiredCapacity <= NewCapacity(oldCapacity, requiredCapacity).value
  {
  }

  // ---------------------------------------------------------------------------
  // The buffer

  /**
   * Arrays.copyOf: a new array of the given length holding the original's
   * slots where both have one, and null everywhere else.
   */
  method CopyOf<T>(original: array<Option<T>>, newLength: int32) returns (copy: array<Option<T>>)
    requires 0 <= newLength
    ensures fresh(copy) && copy.Length == newLength as int
    ensures forall i :: 0 <= i < copy.Length ==>
              copy[i] == (if i < original.Length then original[i] else None)
  {
    copy := new Option<T>[newLength](_ => None);
    var n := if original.Length < newLength as int then original.Length else newLength as int;
    for i := 0 to n
      invariant forall k :: 0 <= k < i ==> copy[k] == original[k]
      invariant forall k :: i <= k < copy.Length ==> copy[k] == None
    {
      copy[i] := original[i];
    }
  }

  /**
   * growStack: a fresh buffer of length NewCapacity(...) whose first
   * `oldCapacity` slots are the old ones, in order, and whose new slots are
   * null; or OutOfMemoryError.
   */
  method GrowStack<E>(stackElements: array<Option<E>>, requiredCapacity: int32)
    returns (r: Result<array<Option<E>>>)
    requires stackElements.Length <= INT_MAX
    requires NeedsGrowth(stackElements.Length, requiredCapacity)
    requires 0 <= requiredCapacity || requiredCapacity as int == INT_MIN
    ensures r.Ok? <==> NewCapacity(stackElements.Length, requiredCapacity).Ok?
    ensures NewCapacity(stackElements.Length, requiredCapacity).Err? ==>
              r == Err(NewCapacity(stackElements.Length, requiredCapacity).error)
    ensures r.Ok? ==>
              && fresh(r.value)
              && NewCapacity(stackElements.Length, requiredCapacity) == Ok(r.value.Length)
              && requiredCapacity <= r.value.Length
              && stackElements.Length < r.value.Length
              && r.value[..stackElements.Length] == stackElements[..]
              && forall i :: stackElements.Length <= i < r.value.Length ==> r.value[i] == None
  {
    NewCapacityMeetsRequirement(stackElements.Length, requiredCapacity);
    match NewCapacity(stackElements.Length, requiredCapacity)
    case Err(e) =>
      r := Err(e);
    case Ok(newCapacity) =>
      var grown := CopyOf(stackElements, newCapacity);
      assert grown[..stackElements.Length] == stackElements[..];
      r := Ok(grown);
  }

  // ---------------------------------------------------------------------------
  // The stack

  class ArrayStack<E> {
    var elements: array<Option<E>>
    var size: int32
    /** The logical contents, bottom first: slot `size - 1` is the top. */
    ghost var contents: seq<E>

    /**
     * The buffer holds the contents in slots [0, size), in push order, and
     * null in every slot above them; a Java array is at most Integer.MAX_VALUE long.
     */
    ghost predicate Valid()
      reads this, elements
    {
      && 0 <= size as int <= elements.Length <= INT_MAX
      && |contents| == size as int
      && (forall i :: 0 <= i < size as int ==> elements[i] == Some(contents[i]))
      && (forall i :: size as int <= i < elements.Length ==> elements[i] == None)
    }

    /** ArrayStack(initialSize): an empty stack over a buffer of that length. */
    constructor (initialSize: int32)
      requires 0 <= initialSize
      ensures Valid() && fresh(elements)
      ensures elements.Length == initialSize as int && contents == []
    {
      elements := new Option<E>[initialSize](_ => None);
      size := 0;
      contents := [];
    }

    /** ArrayStack(): an empty stack over a buffer of DEFAULT_INITIAL_SIZE slots. */
    constructor WithDefaultSize()
      ensures Valid() && fresh(elements)
      ensures elements.Length == DEFAULT_INITIAL_SIZE as int && contents == []
    {
      elements := new Option<E>[DEFAULT_INITIAL_SIZE](_ => None);
      size := 0;
      contents := [];
    }

    /** isEmpty. */
    method IsEmpty() returns (empty: bool)
      requires Valid()
      ensures empty <==> contents == []
    {
      empty := size == 0;
    }

    /** size. */
    method Size() returns (n: int32)
      requires Valid()
      ensures n as int == |contents|
    {
      n := size;
    }

    /** peek: the top element, or EmptyStackException; nothing changes. */
    method Peek() returns (r: Result<E>)
      requires Valid()
      ensures contents == [] ==> r == Err(EmptyStack)
      ensures contents != [] ==> r == Ok(contents[|contents| - 1]) && elements[size - 1] == Some(r.value)
    {
      var empty := IsEmpty();
      if empty {
        return Err(EmptyStack);
      }
      r := Ok(elements[size - 1].value);
    }

    /**
     * ensureStackCapacity: reallocates only when the requirement exceeds the
     * current length (with the overflow-conscious guard), keeping the contents.
     */
    method EnsureStackCapacity(requiredCapacity: int32) returns (outcome: Completion)
      requires Valid()
      requires 0 <= requiredCapacity || requiredCapacity as int == INT_MIN  // mySize + 1
      modifies this
      ensures Valid() && contents == old(contents) && size == old(size)
      ensures !NeedsGrowth(old(elements.Length), requiredCapacity) ==>
                outcome == Done && elements == old(elements)
      ensures NeedsGrowth(old(elements.Length), requiredCapacity) ==>
                match NewCapacity(old(elements.Length), requiredCapacity)
                case Err(e) => outcome == Fail(e) && elements == old(elements)
                case Ok(c) =>
                  && outcome == Done && fresh(elements) && elements.Length == c
                  && elements[..old(elements.Length)] == old(elements[..])
    {
      outcome := Done;
      if NeedsGrowth(elements.Length, requiredCapacity) {
        var grown := GrowStack(elements, requiredCapacity);
        match grown
        case Err(e) =>
          outcome := Fail(e);
        case Ok(a) =>
          elements := a;
      }
    }

    /**
     * push: appends `e` on top, growing the buffer first when it is full. A
     * buffer that is full at Integer.MAX_VALUE slots reports OutOfMemoryError
     * and the stack is left as it was.
     */
    method Push(e: E) returns (outcome: Completion)
      requires Valid()
      modifies this, elements
      ensures Valid()
      ensures outcome == if old(size) as int == INT_MAX then Fail(OutOfMemory) else Done
      ensures outcome.Done? ==> contents == old(contents) + [e]
      ensures outcome.Fail? ==> contents == old(contents) && elements == old(elements)
      ensures old(size) as int < old(elements.Length) ==> elements == old(elements)
      ensures elements != old(elements) ==>
                && fresh(elements)
                && NewCapacity(old(elements.Length), Wrap(old(size) + 1)) == Ok(elements.Length)
    {
      var required := Wrap(size + 1);
      if NeedsGrowth(elements.Length, required) {
        NewCapacityMeetsRequirement(elements.Length, required);
      }
      outcome := EnsureStackCapacity(required);
      if outcome.Fail? {
        return;
      }
      elements[size] := Some(e);
      size := size + 1;
      contents := contents + [e];
    }

    /**
     * pop: removes and returns the top element and clears the slot it
     * vacates; on an empty stack, EmptyStackException and nothing changes.
     */
    method Pop() returns (r: Result<E>)
      requires Valid()
      modifies this, elements
      ensures Valid() && elements == old(elements)
      ensures old(contents) == [] ==>
                r == Err(EmptyStack) && size == old(size) && contents == old(contents)
                && elements[..] == old(elements[..])
      ensures old(contents) != [] ==>
                && r == Ok(old(contents)[|old(contents)| - 1])
                && contents == old(contents)[..|old(contents)| - 1]
                && elements[..] == old(elements[..])[size := None]
    {
      var empty := IsEmpty();
      if empty {
        return Err(EmptyStack);
      }
      var top := elements[size - 1];
      size := size - 1;
      elements[size] := None;
      contents := contents[..size];
      r := Ok(top.value);
    }
  }

  // ---------------------------------------------------------------------------
  // LIFO, as the stack's callers see it

  /** The reverse of a sequence. */
  function Reverse<T>(s: seq<T>): (r: seq<T>)
    ensures |r| == |s|
    ensures forall k :: 0 <= k < |s| ==> r[k] == s[|s| - 1 - k]
  {
    if s == [] then [] else Reverse(s[1..]) + [s[0]]
  }

  /** A push followed by a pop returns the pushed element and restores the contents. */
  method PushThenPop<E>(stack: ArrayStack<E>, e: E) returns (pushed: Completion, popped: Result<E>)
    requires stack.Valid()
    modifies stack, stack.elements
    ensures stack.Valid()
    ensures pushed.Done? <==> old(stack.size) as int < INT_MAX
    ensures pushed.Done? ==> popped == Ok(e)
    ensures stack.contents == old(stack.contents)
  {
    pushed := stack.Push(e);
    if pushed.Fail? {
      popped := Err(pushed.error);
      return;
    }
    popped := stack.Pop();
  }

  /**
   * N pushes onto a new stack of any initial capacity followed by N pops
   * return the pushed elements in reverse order and leave the stack empty,
   * however often the buffer grew on the way.
   */
  method PushAllThenPopAll<E>(initialSize: int32, xs: seq<E>) returns (popped: seq<E>, finalSize: int32)
    requires 0 <= initialSize
    requires |xs| <= INT_MAX
    ensures popped == Reverse(xs)
    ensures finalSize == 0
  {
    var stack := new ArrayStack<E>(initialSize);
    for i := 0 to |xs|
      invariant stack.Valid() && fresh(stack) && fresh(stack.elements)
      invariant stack.contents == xs[..i]
    {
      var pushed := stack.Push(xs[i]);
      assert xs[..i + 1] == xs[..i] + [xs[i]];
    }
    popped := [];
    var j := |xs|;
    while j > 0
      invariant 0 <= j <= |xs|
      invariant stack.Valid() && fresh(stack) && fresh(stack.elements)
      invariant stack.contents == xs[..j]
      invariant popped == Reverse(xs[j..])
    {
      var top := stack.Pop();
      assert xs[j - 1..][1..] == xs[j..];
      assert xs[..j][..j - 1] == xs[..j - 1];
      j := j - 1;
      popped := popped + [top.value];
    }
    finalSize := stack.Size();
  }
}
