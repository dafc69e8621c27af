/**
 * Client code of the stack, following the scenarios the repository's own
 * drivers run (main.cpp, unittest.h). Each one is proved from the classes'
 * contracts alone.
 */
module Demo {
  import opened Common
  import opened Buffer
  import opened Cow
  import opened Stacks

  /**
   * Pushes `xs` in order, as `createRandomStack` does with its random
   * values (unittest.h:193-200). When nothing can throw, every push
   * succeeds and the capacity follows the growth rule push by push.
   */
  method PushAll<T(0)>(st: Stack<T>, xs: seq<T>, throwsOnCopy: T -> bool)
    requires st.Valid() && Copyable(st.Contents() + xs, throwsOnCopy)
    modifies st.arr, st.arr.impl, st.arr.impl.data
    ensures st.Valid() && st.Contents() == old(st.Contents()) + xs
    ensures st.Capacity() == CapacityAfter(old(st.Size()), old(st.Capacity()), |xs|)
    ensures |xs| > 0 ==> st.arr.impl.refs == Count(1)
    ensures (st.arr.impl == old(st.arr.impl) && st.arr.impl.data == old(st.arr.impl.data))
            || (fresh(st.arr.impl) && fresh(st.arr.impl.data))
  {
    ghost var s0, c0 := st.Contents(), st.Capacity();
    var i := 0;
    while i < |xs|
      invariant 0 <= i <= |xs|
      invariant st.Valid() && st.Contents() == s0 + xs[..i]
      invariant st.Capacity() == CapacityAfter(|s0|, c0, i)
      invariant i > 0 ==> st.arr.impl.refs == Count(1)
      invariant (st.arr.impl == old(st.arr.impl) && st.arr.impl.data == old(st.arr.impl.data))
                || (fresh(st.arr.impl) && fresh(st.arr.impl.data))
    {
      assert Copyable(st.Contents(), throwsOnCopy) by {
        assert st.Contents() == (s0 + xs)[..|s0| + i];
      }
      assert !throwsOnCopy(xs[i]) by {
        assert xs[i] == (s0 + xs)[|s0| + i];
      }
      var r := st.Push(xs[i], throwsOnCopy);
      CapacityAfterStep(|s0|, c0, i);
      assert xs[..i + 1] == xs[..i] + [xs[i]];
      i := i + 1;
    }
    assert xs[..i] == xs;
  }

  /**
   * Empties a stack the way main.cpp:106-110 prints it in reverse: `top`,
   * then `pop`, until empty. The elements come out in reverse push order.
   */
  method PopAll<T(0)>(st: Stack<T>, throwsOnCopy: T -> bool) returns (tops: seq<T>)
    requires st.Valid() && CanPrivatize(st.arr.impl.refs, st.Contents(), throwsOnCopy)
    modifies st.arr, st.arr.impl`refs, st.arr.impl`curSize
    ensures st.Valid() && st.Contents() == [] && st.Capacity() == old(st.Capacity())
    ensures tops == Reverse(old(st.Contents()))
  {
    tops := [];
    while !st.Empty()
      invariant st.Valid() && CanPrivatize(st.arr.impl.refs, st.Contents(), throwsOnCopy)
      invariant tops + Reverse(st.Contents()) == Reverse(old(st.Contents()))
      invariant st.arr.impl == old(st.arr.impl) || fresh(st.arr.impl)
      invariant st.Capacity() == old(st.Capacity())
      decreases |st.Contents()|
    {
      ghost var before := st.Contents();
      var top := st.Top();
      var r := st.Pop(throwsOnCopy);
      assert r.Done? && st.arr.impl.refs == Count(1);
      assert before == st.Contents() + [top.value];
      ReverseAppend(st.Contents(), top.value);
      tops := tops + [top.value];
    }
  }

  /**
   * A push followed by a pop restores the elements and the size, never
   * reduces the capacity, and in between the pushed element is the top.
   */
  method PushThenPop<T(0)>(st: Stack<T>, x: T, throwsOnCopy: T -> bool) returns (top: Result<T>, r: Outcome)
    requires st.Valid()
    modifies st.arr, st.arr.impl, st.arr.impl.data
    ensures st.Valid()
    ensures r.Done? <==> CanPrivatize(old(st.arr.impl.refs), old(st.Contents()), throwsOnCopy)
                         && CanAppend(old(st.Contents()), old(st.Capacity()), x, throwsOnCopy)
    ensures r.Done? ==> top == Ok(x)
    ensures r.Done? ==> st.Contents() == old(st.Contents()) && st.Size() == old(st.Size())
    ensures st.Capacity() >= old(st.Capacity())
  {
    top := Err(OutOfRange);
    r := st.Push(x, throwsOnCopy);
    if r.Threw? {
      return;
    }
    top := st.Top();
    r := st.Pop(throwsOnCopy);
  }

  /**
   * main.cpp:12-18. Two copies of a five-element stack share its buffer:
   * no element is copied and the count reaches three.
   */
  method ShareOnCopy() returns (s1: Stack<char>, s2: Stack<char>, s3: Stack<char>)
    ensures s1.Valid() && s2.Valid() && s3.Valid()
    ensures fresh(s1.arr) && fresh(s2.arr) && fresh(s3.arr) && s1.arr != s2.arr && s1.arr != s3.arr && s2.arr != s3.arr
    ensures fresh(s1.arr.impl) && fresh(s1.arr.impl.data)
    ensures s2.arr.impl == s1.arr.impl && s3.arr.impl == s1.arr.impl && s1.arr.impl.refs == Count(3)
    ensures s1.Contents() == "abcde" && s1.Capacity() == 5
  {
    var noThrow := (c: char) => false;
    s1 := new Stack<char>();
    PushAll(s1, "abcde", noThrow);
    var c2 := Stack.Copy(s1, noThrow);
    s2 := c2.value;
    var c3 := Stack.Copy(s2, noThrow);
    s3 := c3.value;
  }

  /**
   * main.cpp:19-27. Taking a mutable reference into `s1` gives it a private
   * frozen buffer; the copy made next duplicates that buffer instead of
   * sharing it; and writing through the reference changes `s1` only.
   */
  method FreezeThenWrite(s1: Stack<char>, s2: Stack<char>, s3: Stack<char>) returns (s4: Stack<char>)
    requires s1.Valid() && s2.Valid() && s3.Valid()
    requires s1.arr != s2.arr && s1.arr != s3.arr && s2.arr != s3.arr
    requires s2.arr.impl == s1.arr.impl && s3.arr.impl == s1.arr.impl && s1.arr.impl.refs == Count(3)
    requires s1.Contents() == "abcde" && s1.Capacity() == 5
    modifies s1.arr, s1.arr.impl`refs
    ensures s1.Valid() && s2.Valid() && s3.Valid() && s4.Valid()
    ensures s1.arr.impl.refs == Unshareable && fresh(s1.arr.impl) && fresh(s1.arr.impl.data)
    ensures s1.Contents() == "Abcde" && s1.Capacity() == 5
    ensures s2.arr.impl == s3.arr.impl && s2.arr.impl.refs == Count(2)
    ensures s2.Contents() == "abcde" && s3.Contents() == "abcde"
    ensures fresh(s4.arr) && fresh(s4.arr.impl) && s4.arr.impl.refs == Count(1) && s4.Contents() == "abcde"
  {
    var noThrow := (c: char) => false;
    var rch := s1.MutableAt(0, noThrow);
    var c4 := Stack.Copy(s1, noThrow);
    s4 := c4.value;
    WriteThrough(rch.value, 'A');
    assert s1.Contents() == "abcde"[0 := 'A'];
  }

  /**
   * main.cpp:28-31. A push into the frozen, full buffer grows it and makes
   * it shareable again (count one), so the copy made next shares it.
   */
  method PushUnfreezes(s1: Stack<char>) returns (s5: Stack<char>)
    requires s1.Valid() && s1.arr.impl.refs == Unshareable
    requires s1.Contents() == "Abcde" && s1.Capacity() == 5
    modifies s1.arr, s1.arr.impl, s1.arr.impl.data
    ensures s1.Valid() && s5.Valid() && fresh(s5.arr)
    ensures fresh(s1.arr.impl) && fresh(s1.arr.impl.data)
    ensures s1.Contents() == "Abcdef" && s1.Capacity() == 10
    ensures s5.arr.impl == s1.arr.impl && s1.arr.impl.refs == Count(2)
  {
    var noThrow := (c: char) => false;
    var pushed := s1.Push('f', noThrow);
    var c5 := Stack.Copy(s1, noThrow);
    s5 := c5.value;
  }

  /**
   * main.cpp:32-34. Pushes onto the sharing copy privatize it first, so
   * the stack it was copied from keeps its elements and is again the only
   * holder of its buffer.
   */
  method PushDiverges(s1: Stack<char>, s5: Stack<char>)
    requires s1.Valid() && s5.Valid() && s1.arr != s5.arr
    requires s5.arr.impl == s1.arr.impl && s1.arr.impl.refs == Count(2)
    requires s1.Contents() == "Abcdef" && s1.Capacity() == 10
    modifies s5.arr, s5.arr.impl, s5.arr.impl.data
    ensures s1.Valid() && s5.Valid() && s5.arr.impl != s1.arr.impl
    ensures s1.arr.impl == old(s1.arr.impl) && s1.Contents() == "Abcdef" && s1.arr.impl.refs == Count(1)
    ensures s5.Contents() == "Abcdefz." && fresh(s5.arr.impl)
  {
    var noThrow := (c: char) => false;
    var pushed := s5.Push('z', noThrow);
    assert fresh(s5.arr.impl) && fresh(s5.arr.impl.data);
    assert s1.Contents() == "Abcdef" && s1.arr.impl.refs == Count(1);
    pushed := s5.Push('.', noThrow);
  }

  /**
   * main.cpp:12-34 as a whole: copies share; a mutable reference
   * privatizes and freezes, so the next copy duplicates and a write
   * through the reference reaches no other stack; the next push unfreezes
   * the buffer, so the copy after it shares again until it is pushed to.
   */
  method LazyCopyScenario() returns (s1: Stack<char>, s2: Stack<char>, s3: Stack<char>, s4: Stack<char>, s5: Stack<char>)
    ensures s1.Valid() && s2.Valid() && s3.Valid() && s4.Valid() && s5.Valid()
    ensures s1.Contents() == "Abcdef" && s5.Contents() == "Abcdefz."
    ensures s2.Contents() == "abcde" && s3.Contents() == "abcde" && s4.Contents() == "abcde"
    ensures s2.arr.impl == s3.arr.impl && s2.arr.impl.refs == Count(2)
    ensures s1.arr.impl.refs == Count(1) && s4.arr.impl.refs == Count(1)
  {
    s1, s2, s3 := ShareOnCopy();
    s4 := FreezeThenWrite(s1, s2, s3);
    s5 := PushUnfreezes(s1);
    PushDiverges(s1, s5);
  }

  /**
   * The freeze of the non-const `operator[]` lasts only until the next push
   * (Stack.h:290): a push with room keeps the buffer, now with count 1, so
   * a copy made after it shares the buffer, and a write through the
   * reference taken before the push shows in that copy too.
   */
  method FreezeResetLeaks() returns (s1: Stack<char>, s2: Stack<char>)
    ensures s1.Valid() && s2.Valid() && s2.arr.impl == s1.arr.impl && s1.arr.impl.refs == Count(2)
    ensures s1.Contents() == "Xb" && s2.Contents() == "Xb"
  {
    var noThrow := (c: char) => false;
    s1 := new Stack<char>();
    var pushed := s1.Push('a', noThrow);
    var rch := s1.MutableAt(0, noThrow);
    pushed := s1.Push('b', noThrow);
    var c2 := Stack.Copy(s1, noThrow);
    s2 := c2.value;
    WriteThrough(rch.value, 'X');
    assert s1.Contents() == "ab"[0 := 'X'];
  }

  /**
   * A moved-from stack can be copy-assigned a shareable stack: that branch
   * of the assignment never reads the buffer it held, and afterwards the
   * two stacks share one buffer.
   */
  method ReassignMovedFrom() returns (s1: Stack<int>, s2: Stack<int>)
    ensures s1.Valid() && s2.Valid() && s1.arr.impl == s2.arr.impl && s2.arr.impl.refs == Count(2)
    ensures s1.Contents() == [7] && s2.Contents() == [7]
  {
    var noThrow := (x: int) => false;
    s1 := new Stack<int>();
    var pushed := s1.Push(7, noThrow);
    s2 := new Stack.Move(s1);
    var r := s1.CopyAssign(s2, noThrow);
  }

  /**
   * main.cpp:46-62. Twenty `top`/`pop` rounds on a copy: the first pop
   * privatizes the copy, so the original keeps all its elements and is
   * again the only holder of its buffer.
   */
  method PopTwentyFromCopy<T(0)>(st: Stack<T>, throwsOnCopy: T -> bool) returns (st1: Stack<T>)
    requires st.Valid() && st.arr.impl.refs == Count(1) && |st.Contents()| >= 20
    requires Copyable(st.Contents(), throwsOnCopy)
    modifies st.arr.impl`refs, st.arr.impl`curSize
    ensures st.Valid() && st1.Valid() && st1.arr != st.arr
    ensures st1.Capacity() == old(st.Capacity())
    ensures st.Contents() == old(st.Contents()) && st.arr.impl.refs == Count(1)
    ensures st1.Contents() == old(st.Contents())[..|old(st.Contents())| - 20]
    ensures fresh(st1.arr.impl) && st1.arr.impl.refs == Count(1)
  {
    var c := Stack.Copy(st, throwsOnCopy);
    st1 := c.value;
    ghost var xs := st.Contents();
    var r := st1.Pop(throwsOnCopy);
    var i := 1;
    while i < 20
      invariant 1 <= i <= 20
      invariant st.Valid() && st1.Valid() && st1.arr != st.arr
      invariant st.Contents() == xs && st.arr.impl.refs == Count(1)
      invariant fresh(st1.arr.impl) && st1.arr.impl.refs == Count(1)
      invariant st1.Contents() == xs[..|xs| - i] && st1.Capacity() == old(st.Capacity())
    {
      var top := st1.Top();
      r := st1.Pop(throwsOnCopy);
      i := i + 1;
    }
  }

  /**
   * main.cpp:43-66: a hundred pushes onto a default stack (capacity 160),
   * a copy that loses twenty elements, and the original emptied by `pop`.
   */
  method HundredElementScenario(xs: seq<int>) returns (st: Stack<int>, st1: Stack<int>)
    requires |xs| == 100
    ensures st.Valid() && st1.Valid()
    ensures st.Contents() == [] && st.Capacity() == 160
    ensures st1.Contents() == xs[..80] && st1.Capacity() == 160
  {
    var noThrow := (x: int) => false;
    st := new Stack<int>();
    PushAll(st, xs, noThrow);
    HundredAppendsCapacity();
    st1 := PopTwentyFromCopy(st, noThrow);
    var tops := PopAll(st, noThrow);
  }

  /** The element type of unittest.h:37-88, reduced to what decides whether its move constructor throws. */
  datatype Probe = Probe(n: int, throwInMove: bool, throwLater: bool)

  /** The move constructor of that type, given its static `ms_bThrowDeferred` flag. */
  function ProbeThrows(deferred: bool): (t: Probe -> bool)
    ensures forall p: Probe :: p.throwInMove ==> t(p)
    ensures forall p: Probe :: !p.throwInMove && !p.throwLater ==> !t(p)
    ensures !deferred ==> forall p: Probe :: t(p) <==> p.throwInMove
    ensures deferred ==> forall p: Probe :: p.throwLater ==> t(p)
  {
    (p: Probe) => p.throwInMove || (p.throwLater && deferred)
  }

  /** unittest.h:113-119: ten pushes fill a default stack exactly, so the loop topping it up does nothing. */
  method FillToCapacity() returns (s1: Stack<Probe>)
    ensures s1.Valid() && fresh(s1.arr) && fresh(s1.arr.impl) && fresh(s1.arr.impl.data)
    ensures s1.Contents() == seq(10, i => Probe(i, false, false))
    ensures s1.Capacity() == 10 && s1.arr.impl.refs == Count(1)
  {
    s1 := new Stack<Probe>();
    PushAll(s1, seq(10, i => Probe(i, false, false)), ProbeThrows(false));
  }

  /**
   * unittest.h:126-153. On a full stack a push whose element throws while
   * being moved in leaves elements and capacity as they were; a good push
   * then doubles the capacity; a throwing push into the free slot again
   * changes nothing.
   */
  method PushGuarantee(s1: Stack<Probe>)
    requires s1.Valid() && s1.Size() == 10 && s1.Capacity() == 10 && s1.arr.impl.refs == Count(1)
    requires Copyable(s1.Contents(), ProbeThrows(false))
    modifies s1.arr, s1.arr.impl, s1.arr.impl.data
    ensures s1.Valid() && s1.Contents() == old(s1.Contents()) + [Probe(10, false, false)]
    ensures s1.Capacity() == 20 && s1.arr.impl.refs == Count(1)
    ensures (s1.arr.impl == old(s1.arr.impl) && s1.arr.impl.data == old(s1.arr.impl.data))
            || (fresh(s1.arr.impl) && fresh(s1.arr.impl.data))
  {
    var calm := ProbeThrows(false);
    var r := s1.Push(Probe(999, true, false), calm);
    assert r.Threw? && s1.Contents() == old(s1.Contents()) && s1.Capacity() == 10;
    assert s1.arr.impl == old(s1.arr.impl);
    r := s1.Push(Probe(10, false, false), calm);
    assert r.Done? && s1.Capacity() == 20;
    ghost var grown := s1.Contents();
    r := s1.Push(Probe(9999, true, false), calm);
    assert r.Threw? && s1.Contents() == grown;
  }

  /**
   * unittest.h:155-169. With the deferred-throw flag armed an element of
   * `s1` can no longer be moved, yet copying `s1` succeeds: the copy shares
   * the buffer and constructs no element. Destroying the copy gives the
   * count back.
   */
  method DeferredCopyShares(s1: Stack<Probe>)
    requires s1.Valid() && s1.arr.impl.refs == Count(1)
    requires s1.Size() == 11 && s1.Capacity() == 20 && Copyable(s1.Contents(), ProbeThrows(false))
    modifies s1.arr, s1.arr.impl, s1.arr.impl.data
    ensures s1.Valid() && s1.Size() == 13 && s1.Capacity() == 20 && s1.arr.impl.refs == Count(1)
    ensures !Copyable(s1.Contents(), ProbeThrows(true))
    ensures (s1.arr.impl == old(s1.arr.impl) && s1.arr.impl.data == old(s1.arr.impl.data))
            || (fresh(s1.arr.impl) && fresh(s1.arr.impl.data))
  {
    var calm := ProbeThrows(false);
    var r := s1.Push(Probe(11, false, true), calm);
    r := s1.Push(Probe(12, false, false), calm);
    var armed := ProbeThrows(true);
    assert armed(s1.Contents()[11]);
    var c2 := Stack.Copy(s1, armed);
    assert c2.Ok? && s1.arr.impl.refs == Count(2);
    c2.value.arr.Destroy();
  }

  /**
   * unittest.h:173-185. Copy-assigning the armed `s1` to another stack
   * also succeeds by sharing; the buffer `s3` held before is left with
   * its count of one (it is never released).
   */
  method DeferredCopyAssignShares(s1: Stack<Probe>)
    requires s1.Valid() && s1.arr.impl.refs == Count(1)
    modifies s1.arr.impl`refs
    ensures s1.Valid() && s1.arr.impl.refs == Count(2)
  {
    var armed := ProbeThrows(true);
    var s3 := new Stack<Probe>();
    var r := s3.Push(Probe(111, false, false), armed);
    var previous := s3.arr.impl;
    r := s3.CopyAssign(s1, armed);
    assert r.Done? && s3.Contents() == s1.Contents() && s3.arr.impl == s1.arr.impl;
    assert previous != s1.arr.impl && previous.refs == Count(1);
  }

  /**
   * unittest.h:108-190 as a whole: pushes give the strong guarantee, and
   * copy construction and copy assignment of a stack whose elements can
   * no longer be moved still succeed.
   */
  method StrongGuaranteeScenario() returns (s1: Stack<Probe>)
    ensures s1.Valid() && s1.Size() == 13 && s1.Capacity() == 20 && s1.arr.impl.refs == Count(2)
  {
    s1 := FillToCapacity();
    PushGuarantee(s1);
    DeferredCopyShares(s1);
    DeferredCopyAssignShares(s1);
  }
}
