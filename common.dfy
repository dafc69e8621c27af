/**
 * Vocabulary shared by the three layers of the copy-on-write stack
 * (Stack.h): the buffer's reference count with its UNSHAREABLE sentinel,
 * the errors an operation can raise, the growth constants, and the pure
 * specification functions the imperative classes are proved against,
 * together with the lemmas about them.
 */
module Common {

  /** Capacity of a freshly constructed buffer (ArrImpl::INITIAL_MAX_SIZE). */
  const INITIAL_MAX_SIZE: nat := 5

  /** Factor by which a full buffer grows on append (ArrImpl::RESIZE_FACTOR). */
  const RESIZE_FACTOR: nat := 2

  /** INT_MAX, the number the source stores as the UNSHAREABLE sentinel. */
  const INT_MAX: nat := 0x7fff_ffff

  /**
   * A buffer's `_count_refs`: the number of handles sharing it, or the
   * sentinel that freezes the buffer against any further sharing.
   */
  datatype RefCount = Count(n: nat) | Unshareable

  /** The number the source keeps in `_count_refs`: the count itself, or INT_MAX for the sentinel. */
  function Stored(rc: RefCount): nat
  {
    match rc
    case Count(n) => n
    case Unshareable => INT_MAX
  }

  /** `_count_refs > 1` as the source evaluates it: the sentinel is a large number. */
  predicate MoreThanOne(rc: RefCount)
    ensures MoreThanOne(rc) <==> Stored(rc) > 1
  {
    rc.Unshareable? || rc.n > 1
  }

  /**
   * The test `deep_copy` makes before duplicating: shared, and not frozen.
   * It agrees with the source's numeric test as long as no count has
   * climbed to the sentinel's value.
   */
  predicate Shared(rc: RefCount)
    ensures Shared(rc) ==> MoreThanOne(rc)
    ensures (rc.Count? ==> rc.n != INT_MAX) ==>
              (Shared(rc) <==> Stored(rc) > 1 && Stored(rc) != INT_MAX)
  {
    rc.Count? && rc.n > 1
  }

  /** `--_count_refs`; on the sentinel this yields INT_MAX - 1, an ordinary count. */
  function Decrement(rc: RefCount): (r: RefCount)
    requires MoreThanOne(rc)
    ensures r.Count? && r.n >= 1
    ensures Stored(r) + 1 == Stored(rc)
  {
    match rc
    case Count(n) => Count(n - 1)
    case Unshareable => Count(INT_MAX - 1)
  }

  /** Errors the core raises: `std::out_of_range` on an empty stack, and an exception thrown by an element's constructor. */
  datatype Error = OutOfRange | CopyFailed

  datatype Option<T> = None | Some(value: T)

  datatype Result<R> = Ok(value: R) | Err(error: Error)

  /** The outcome of a mutator that returns nothing: it completed, or it threw. */
  datatype Outcome = Done | Threw(error: Error)

  /**
   * Every element of `s` can be constructed from (copy or move) without its
   * constructor throwing; `throwsOnCopy` stands for the element type's
   * constructor, together with whatever global state it consults.
   */
  predicate Copyable<T>(s: seq<T>, throwsOnCopy: T -> bool)
  {
    forall i :: 0 <= i < |s| ==> !throwsOnCopy(s[i])
  }

  /**
   * `deep_copy` succeeds: either the buffer is not shared and is kept, or
   * every element can be copied into the private duplicate.
   */
  predicate CanPrivatize<T>(rc: RefCount, s: seq<T>, throwsOnCopy: T -> bool)
  {
    !Shared(rc) || Copyable(s, throwsOnCopy)
  }

  /**
   * `_push_back` succeeds on a private buffer holding `s` with capacity
   * `cap`: the new element can be constructed and, if the buffer is full,
   * so can every element transplanted into the grown one.
   */
  predicate CanAppend<T>(s: seq<T>, cap: nat, elem: T, throwsOnCopy: T -> bool)
  {
    !throwsOnCopy(elem) && (|s| == cap ==> Copyable(s, throwsOnCopy))
  }

  /**
   * Capacity after one successful append to a buffer of `size` elements and
   * capacity `cap`: it changes only when the buffer was full, and a
   * non-empty buffer then has room for the new element.
   */
  function GrownCapacity(size: nat, cap: nat): (c: nat)
    ensures c != cap ==> size == cap
    ensures 0 < cap && size <= cap ==> size < c
    ensures cap <= c
  {
    if size == cap then cap * RESIZE_FACTOR else cap
  }

  /** Capacity after `n` successful appends, starting from `size` elements and capacity `cap`. */
  function CapacityAfter(size: nat, cap: nat, n: nat): nat
    decreases n
  {
    if n == 0 then cap else CapacityAfter(size + 1, GrownCapacity(size, cap), n - 1)
  }

  /** How many of those `n` appends found the buffer full and doubled it. */
  function Doublings(size: nat, cap: nat, n: nat): nat
    decreases n
  {
    if n == 0 then 0
    else (if size == cap then 1 else 0) + Doublings(size + 1, GrownCapacity(size, cap), n - 1)
  }

  function Pow2(k: nat): nat
  {
    if k == 0 then 1 else 2 * Pow2(k - 1)
  }

  /** Elements in the order successive `top`/`pop` calls hand them out. */
  function Reverse<T>(s: seq<T>): (r: seq<T>)
  {
    if s == [] then [] else Reverse(s[1..]) + [s[0]]
  }

  /**
   * Growth arithmetic of `_push_back`: after any number of appends the
   * capacity is the starting capacity doubled once per growth event, it
   * holds every element, and once it has grown it is less than twice the
   * number of elements (it doubled only when full).
   */
  lemma {:induction false} CapacityAfterAppends(size: nat, cap: nat, n: nat)
    requires 0 < cap && size <= cap
    ensures CapacityAfter(size, cap, n) == cap * Pow2(Doublings(size, cap, n))
    ensures size + n <= CapacityAfter(size, cap, n)
    ensures Doublings(size, cap, n) > 0 ==> CapacityAfter(size, cap, n) < 2 * (size + n)
    decreases n
  {
    if n > 0 {
      var g := GrownCapacity(size, cap);
      CapacityAfterAppends(size + 1, g, n - 1);
      var k := Doublings(size + 1, g, n - 1);
      if size == cap {
        calc {
          CapacityAfter(size, cap, n);
          g * Pow2(k);
          cap * (2 * Pow2(k));
          cap * Pow2(k + 1);
        }
      }
    }
  }

  /** One more append on top of `n` applies GrownCapacity to the capacity reached after `n`. */
  lemma {:induction false} CapacityAfterStep(size: nat, cap: nat, n: nat)
    ensures CapacityAfter(size, cap, n + 1) == GrownCapacity(size + n, CapacityAfter(size, cap, n))
    decreases n
  {
    if n > 0 {
      CapacityAfterStep(size + 1, GrownCapacity(size, cap), n - 1);
    }
  }

  lemma {:induction false} Pow2Monotone(j: nat, k: nat)
    requires j <= k
    ensures Pow2(j) <= Pow2(k)
    decreases k
  {
    if j < k {
      Pow2Monotone(j, k - 1);
    }
  }

  /**
   * A stack that starts from the default capacity and receives `n` elements
   * ends with the least capacity of the form 5 * 2^k that holds them.
   */
  lemma DefaultCapacityIsLeastFit(n: nat)
    ensures n <= CapacityAfter(0, INITIAL_MAX_SIZE, n)
    ensures CapacityAfter(0, INITIAL_MAX_SIZE, n) == INITIAL_MAX_SIZE * Pow2(Doublings(0, INITIAL_MAX_SIZE, n))
    ensures forall j: nat :: j < Doublings(0, INITIAL_MAX_SIZE, n) ==> INITIAL_MAX_SIZE * Pow2(j) < n
  {
    var k := Doublings(0, INITIAL_MAX_SIZE, n);
    CapacityAfterAppends(0, INITIAL_MAX_SIZE, n);
    forall j: nat | j < k
      ensures INITIAL_MAX_SIZE * Pow2(j) < n
    {
      Pow2Monotone(j, k - 1);
      assert Pow2(k) == 2 * Pow2(k - 1);
    }
  }

  /** A hundred pushes leave a default stack with capacity 160 (main.cpp:43). */
  lemma HundredAppendsCapacity()
    ensures CapacityAfter(0, INITIAL_MAX_SIZE, 100) == 160
  {
    DefaultCapacityIsLeastFit(100);
    var k := Doublings(0, INITIAL_MAX_SIZE, 100);
    if k >= 6 {
      Pow2Monotone(6, k);
    } else if k < 5 {
      Pow2Monotone(k, 4);
    }
  }

  /** Pushing one element puts it first in the order in which pops hand elements back. */
  lemma {:induction false} ReverseAppend<T>(s: seq<T>, x: T)
    ensures Reverse(s + [x]) == [x] + Reverse(s)
    decreases |s|
  {
    if s == [] {
      assert Reverse([x]) == Reverse([]) + [x];
    } else {
      calc {
        Reverse(s + [x]);
        { assert (s + [x])[1..] == s[1..] + [x]; }
        Reverse(s[1..] + [x]) + [s[0]];
        { ReverseAppend(s[1..], x); }
        [x] + Reverse(s[1..]) + [s[0]];
      }
    }
  }
}
