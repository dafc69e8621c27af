/**
 * The copy-on-write handle, `DynArr<T>` of Stack.h. Copying a handle
 * shares its buffer and bumps the buffer's count; every mutator first
 * privatizes (`DeepCopy`), and appending to a full buffer builds the grown
 * buffer in a temporary handle that is swapped in only once it is complete.
 *
 * Element construction may throw: `throwsOnCopy(x)` says whether
 * constructing a copy of `x` throws, which the methods that construct
 * elements report as `CopyFailed`.
 */
module Cow {
  import opened Common
  import opened Buffer

  class DynArr<T(0)> {
    /** `_impl`; null only once the handle has been moved from or destroyed. */
    var impl: ArrImpl?<T>

    ghost predicate Valid()
      reads this, impl
    {
      impl != null && impl.Valid()
    }

    /** The elements this handle shows, bottom first. */
    ghost function Contents(): seq<T>
      reads this, impl, impl.data
      requires Valid()
    {
      impl.Contents()
    }

    /** `DynArr(size_t initial_sz = INITIAL_MAX_SIZE)`: a handle on a new, empty, unshared buffer. */
    constructor (initialSize: nat := INITIAL_MAX_SIZE)
      ensures Valid() && fresh(impl) && fresh(impl.data)
      ensures Contents() == [] && Capacity() == initialSize && impl.refs == Count(1)
    {
      impl := new ArrImpl<T>(initialSize);
    }

    /** A handle on a buffer whose count already includes it. */
    constructor Adopt(b: ArrImpl<T>)
      ensures impl == b
    {
      impl := b;
    }

    /**
     * The copy constructor `DynArr(const DynArr&)`. A shareable buffer is
     * shared and its count goes up by one, with no element copied; a frozen
     * buffer is duplicated, which throws if an element's constructor does.
     */
    static method Copy(other: DynArr<T>, throwsOnCopy: T -> bool) returns (r: Result<DynArr<T>>)
      requires other.Valid()
      modifies other.impl`refs
      ensures other.Valid() && other.impl == old(other.impl)
      ensures other.Contents() == old(other.Contents())
      ensures old(other.impl.refs).Count? ==>
                r.Ok? && r.value.impl == other.impl && other.impl.refs == Count(old(other.impl.refs).n + 1)
      ensures old(other.impl.refs).Unshareable? ==>
                other.impl.refs == Unshareable && (r.Ok? <==> Copyable(other.Contents(), throwsOnCopy))
      ensures old(other.impl.refs).Unshareable? && r.Ok? ==>
                fresh(r.value.impl) && fresh(r.value.impl.data) && r.value.impl.refs == Count(1)
      ensures r.Ok? ==> fresh(r.value) && r.value.Valid()
      ensures r.Ok? ==> r.value.Contents() == other.Contents() && r.value.Capacity() == other.Capacity()
      ensures r.Err? ==> r.error == CopyFailed
    {
      if other.impl.refs != Unshareable {
        other.impl.refs := Count(other.impl.refs.n + 1);
        var h := new DynArr.Adopt(other.impl);
        return Ok(h);
      }
      var dup := ArrImpl.Duplicate(other.impl, throwsOnCopy);
      if dup.None? {
        return Err(CopyFailed);
      }
      var h := new DynArr.Adopt(dup.value);
      return Ok(h);
    }

    /** The move constructor `DynArr(DynArr&&)`: takes the buffer and leaves `other` empty-handed. */
    constructor Move(other: DynArr<T>)
      modifies other
      ensures impl == old(other.impl) && other.impl == null
    {
      impl := other.impl;
      new;
      other.impl := null;
    }

    /**
     * Copy assignment `operator=(const DynArr&)`, as written. From a
     * shareable source it shares and bumps the count but never releases
     * the buffer this handle held before. From a frozen source it first
     * duplicates, then decrements the old buffer if its count reads as more
     * than one (the sentinel does) and otherwise drops it.
     */
    method CopyAssign(other: DynArr<T>, throwsOnCopy: T -> bool) returns (r: Outcome)
      requires other.Valid()
      requires other.impl.refs.Unshareable? ==> Valid()
      modifies this, other.impl`refs, impl
      ensures Valid()
      ensures old(other.impl).Valid() && old(other.impl).Contents() == old(other.Contents())
      ensures r.Done? ==> Contents() == old(other.Contents()) && Capacity() == old(other.Capacity())
      ensures r.Threw? ==> r.error == CopyFailed
      ensures old(other.impl.refs).Count? ==>
                r.Done? && impl == old(other.impl) && impl.refs == Count(old(other.impl.refs).n + 1)
      ensures old(other.impl.refs).Count? && old(impl) != null && old(impl) != old(other.impl) ==>
                old(impl).refs == old(impl.refs)
      ensures old(other.impl.refs).Unshareable? ==>
                (r.Done? <==> Copyable(old(other.Contents()), throwsOnCopy))
      ensures old(other.impl.refs).Unshareable? && r.Threw? ==>
                impl == old(impl) && impl.refs == old(impl.refs) && old(other.impl).refs == Unshareable
                && Contents() == old(Contents()) && Capacity() == old(Capacity())
      ensures old(other.impl.refs).Unshareable? && r.Done? ==>
                fresh(impl) && fresh(impl.data) && impl.refs == Count(1)
      ensures old(other.impl.refs).Unshareable? && r.Done? ==>
                old(impl).refs == if MoreThanOne(old(impl.refs)) then Decrement(old(impl.refs)) else old(impl.refs)
      ensures old(other.impl.refs).Unshareable? && old(impl) != old(other.impl) ==>
                old(other.impl).refs == Unshareable
      ensures old(Valid()) ==>
                old(impl).Valid() && old(impl).Contents() == old(Contents()) && old(impl).maxSize == old(Capacity())
    {
      if other.impl.refs != Unshareable {
        impl := other.impl;
        impl.refs := Count(impl.refs.n + 1);
        return Done;
      }
      var dup := ArrImpl.Duplicate(other.impl, throwsOnCopy);
      if dup.None? {
        return Threw(CopyFailed);
      }
      if MoreThanOne(impl.refs) {
        impl.refs := Decrement(impl.refs);
      }
      impl := dup.value;
      r := Done;
    }

    /** `DynArr::swap`: exchanges the buffers of two handles. */
    method Swap(other: DynArr<T>)
      modifies this, other
      ensures impl == old(other.impl) && other.impl == old(impl)
    {
      var held := impl;
      impl := other.impl;
      other.impl := held;
    }

    /** Move assignment `operator=(DynArr&&)`: a swap of buffers. */
    method MoveAssign(other: DynArr<T>)
      modifies this, other
      ensures impl == old(other.impl) && other.impl == old(impl)
    {
      Swap(other);
    }

    /** `size()`. */
    function Size(): (n: nat)
      reads this, impl, impl.data
      requires Valid()
      ensures n == |Contents()|
    {
      impl.curSize
    }

    /** `capacity()`: never less than the number of elements. */
    function Capacity(): (c: nat)
      reads this, impl, impl.data
      requires Valid()
      ensures |Contents()| <= c
    {
      impl.maxSize
    }

    /** `empty()`. */
    function Empty(): (b: bool)
      reads this, impl, impl.data
      requires Valid()
      ensures b <==> Contents() == []
    {
      impl.curSize == 0
    }

    /** The const `operator[]`: a copy of element `index`, with no privatization. */
    function Get(index: nat): (x: T)
      reads this, impl, impl.data
      requires Valid() && index < |Contents()|
      ensures x == Contents()[index]
    {
      impl.data[index]
    }

    /**
     * `deep_copy(markUnshareable)`: a handle whose buffer is shared moves
     * to a duplicate and the shared buffer's count drops by one; then the
     * handle's buffer gets count 1, or the sentinel when asked. A frozen
     * buffer is never duplicated, so this is also where an append or a pop
     * unfreezes it. The elements of the buffer held before are untouched.
     */
    method DeepCopy(markUnshareable: bool, throwsOnCopy: T -> bool) returns (r: Outcome)
      requires Valid()
      modifies this, impl`refs
      ensures Valid()
      ensures Contents() == old(Contents()) && Capacity() == old(Capacity())
      ensures r.Done? <==> CanPrivatize(old(impl.refs), old(Contents()), throwsOnCopy)
      ensures r.Done? ==> impl.refs == if markUnshareable then Unshareable else Count(1)
      ensures r.Threw? ==> r.error == CopyFailed && impl == old(impl) && impl.refs == old(impl.refs)
      ensures !Shared(old(impl.refs)) ==> impl == old(impl)
      ensures Shared(old(impl.refs)) && r.Done? ==>
                fresh(impl) && fresh(impl.data) && old(impl).refs == Decrement(old(impl.refs))
      ensures old(impl).Valid() && old(impl).Contents() == old(Contents())
    {
      if Shared(impl.refs) {
        var held := impl;
        var dup := ArrImpl.Duplicate(impl, throwsOnCopy);
        if dup.None? {
          return Threw(CopyFailed);
        }
        impl := dup.value;
        held.refs := Decrement(held.refs);
      }
      impl.refs := if markUnshareable then Unshareable else Count(1);
      r := Done;
    }

    /**
     * `push_back`: privatize, then append. On success the elements are the
     * old ones followed by `elem` and the capacity doubles exactly when the
     * buffer was full. If anything throws, this handle still shows the same
     * elements and capacity. A buffer that was shared keeps its elements
     * for the other handles, and loses this handle's count once the
     * duplicate exists.
     */
    method PushBack(elem: T, throwsOnCopy: T -> bool) returns (r: Outcome)
      requires Valid() && Capacity() > 0
      modifies this, impl, impl.data
      // PushBack and PushBackImpl call each other only through the temporary
      // handle of a growth, which has twice the room it is filled to and so is
      // never full: the call from PushBackImpl (2) reaches PushBack at 1, and
      // the call from PushBack (3) reaches PushBackImpl at 2 or less.
      decreases if Size() == Capacity() then 3 else 1
      ensures Valid()
      ensures r.Done? <==> CanPrivatize(old(impl.refs), old(Contents()), throwsOnCopy)
                           && CanAppend(old(Contents()), old(Capacity()), elem, throwsOnCopy)
      ensures r.Done? ==> Contents() == old(Contents()) + [elem]
      ensures r.Done? ==> Capacity() == GrownCapacity(old(Size()), old(Capacity()))
      ensures r.Threw? ==> r.error == CopyFailed && Contents() == old(Contents()) && Capacity() == old(Capacity())
      ensures CanPrivatize(old(impl.refs), old(Contents()), throwsOnCopy) ==> impl.refs == Count(1)
      ensures !CanPrivatize(old(impl.refs), old(Contents()), throwsOnCopy) ==>
                impl == old(impl) && impl.refs == old(impl.refs)
      ensures Shared(old(impl.refs)) ==>
                old(impl).Valid() && old(impl).Contents() == old(Contents()) && old(impl).maxSize == old(Capacity())
                && old(impl).data == old(impl.data)
      ensures Shared(old(impl.refs)) ==>
                old(impl).refs == if r.Done? || CanPrivatize(old(impl.refs), old(Contents()), throwsOnCopy)
                                  then Decrement(old(impl.refs)) else old(impl.refs)
      ensures r.Threw? && !Shared(old(impl.refs)) ==> impl == old(impl)
      ensures !Shared(old(impl.refs)) && old(Size()) < old(Capacity()) ==> impl == old(impl)
      ensures impl == old(impl) ==> impl.data == old(impl.data)
      ensures impl != old(impl) ==> fresh(impl) && fresh(impl.data)
    {
      r := DeepCopy(false, throwsOnCopy);
      if r.Threw? {
        return;
      }
      r := PushBackImpl(elem, throwsOnCopy);
    }

    /**
     * `_push_back` on a private buffer. With room left the element is
     * constructed in the next slot. A full buffer is replaced by one of
     * twice the capacity, built in a temporary handle by transplanting
     * every element and then appending `elem`; only when all of that
     * succeeded are the handles swapped, so a throw leaves this handle on
     * its original buffer with its original elements.
     */
    method PushBackImpl(elem: T, throwsOnCopy: T -> bool) returns (r: Outcome)
      requires Valid() && Capacity() > 0 && impl.refs == Count(1)
      modifies this, impl, impl.data
      decreases if Size() == Capacity() then 2 else 0
      ensures Valid() && impl.refs == Count(1)
      ensures r.Done? <==> CanAppend(old(Contents()), old(Capacity()), elem, throwsOnCopy)
      ensures r.Done? ==> Contents() == old(Contents()) + [elem]
      ensures r.Done? ==> Capacity() == GrownCapacity(old(Size()), old(Capacity()))
      ensures r.Threw? ==> r.error == CopyFailed && impl == old(impl)
      ensures r.Threw? ==> Contents() == old(Contents()) && Capacity() == old(Capacity())
      ensures old(Size()) < old(Capacity()) ==> impl == old(impl)
      ensures impl == old(impl) ==> impl.data == old(impl.data)
      ensures impl != old(impl) ==> fresh(impl) && fresh(impl.data)
    {
      if Size() == impl.maxSize {
        var arr := new DynArr<T>(Size() * RESIZE_FACTOR);
        while arr.Size() != Size()
          invariant Valid() && impl == old(impl) && impl.data == old(impl.data) && impl.refs == Count(1)
          invariant fresh(arr) && fresh(arr.impl) && fresh(arr.impl.data) && arr.Valid()
          invariant arr.Capacity() == Capacity() * RESIZE_FACTOR && arr.impl.refs == Count(1)
          invariant Contents() == old(Contents()) && Capacity() == old(Capacity())
          invariant arr.Size() <= Size()
          invariant arr.Contents() == Contents()[..arr.Size()]
          invariant Copyable(Contents()[..arr.Size()], throwsOnCopy)
          decreases Size() - arr.Size()
        {
          var moved := arr.PushBackImpl(impl.data[arr.Size()], throwsOnCopy);
          if moved.Threw? {
            arr.Destroy();
            return moved;
          }
        }
        assert Contents()[..arr.Size()] == Contents();
        var pushed := arr.PushBack(elem, throwsOnCopy);
        if pushed.Threw? {
          arr.Destroy();
          return pushed;
        }
        Swap(arr);
        arr.Destroy();
        r := Done;
      } else {
        if throwsOnCopy(elem) {
          return Threw(CopyFailed);
        }
        impl.data[impl.curSize] := elem;
        impl.curSize := impl.curSize + 1;
        r := Done;
      }
    }

    /**
     * `delete_back`: privatize, then drop the last element; the capacity
     * stays. (The source runs the destructor on the slot at `size()`, one
     * past the last element; the model drops the last element.)
     */
    method DeleteBack(throwsOnCopy: T -> bool) returns (r: Outcome)
      requires Valid() && |Contents()| > 0
      modifies this, impl`refs, impl`curSize
      ensures Valid()
      ensures r.Done? <==> CanPrivatize(old(impl.refs), old(Contents()), throwsOnCopy)
      ensures r.Done? ==> Contents() == old(Contents())[..|old(Contents())| - 1] && impl.refs == Count(1)
      ensures Capacity() == old(Capacity())
      ensures r.Threw? ==> r.error == CopyFailed && impl == old(impl) && impl.refs == old(impl.refs)
      ensures r.Threw? ==> Contents() == old(Contents())
      ensures Shared(old(impl.refs)) ==> old(impl).Valid() && old(impl).Contents() == old(Contents())
      ensures Shared(old(impl.refs)) ==>
                old(impl).refs == if r.Done? then Decrement(old(impl.refs)) else old(impl.refs)
      ensures !Shared(old(impl.refs)) ==> impl == old(impl)
      ensures impl != old(impl) ==> fresh(impl)
    {
      r := DeepCopy(false, throwsOnCopy);
      if r.Threw? {
        return;
      }
      impl.curSize := impl.curSize - 1;
    }

    /**
     * The non-const `operator[]`: privatize and freeze the buffer, then
     * hand out a reference to slot `index` of that (now private) buffer.
     */
    method MutableAt(index: nat, throwsOnCopy: T -> bool) returns (r: Result<ElemRef<T>>)
      requires Valid() && index < |Contents()|
      modifies this, impl`refs
      ensures Valid()
      ensures Contents() == old(Contents()) && Capacity() == old(Capacity())
      ensures r.Ok? <==> CanPrivatize(old(impl.refs), old(Contents()), throwsOnCopy)
      ensures r.Ok? ==> r.value == ElemRef(impl, index) && impl.refs == Unshareable
      ensures r.Err? ==> r.error == CopyFailed && impl == old(impl) && impl.refs == old(impl.refs)
      ensures !Shared(old(impl.refs)) ==> impl == old(impl)
      ensures Shared(old(impl.refs)) && r.Ok? ==>
                fresh(impl) && fresh(impl.data) && old(impl).refs == Decrement(old(impl.refs))
      ensures old(impl).Valid() && old(impl).Contents() == old(Contents())
    {
      var privatized := DeepCopy(true, throwsOnCopy);
      if privatized.Threw? {
        return Err(privatized.error);
      }
      r := Ok(ElemRef(impl, index));
    }

    /**
     * The destructor `~DynArr()`: a buffer with count 1 or frozen is freed
     * (it simply becomes unreachable here); a shared one loses one count
     * and keeps its elements for the remaining handles.
     */
    method Destroy()
      requires impl != null ==> impl.Valid()
      modifies this, impl
      ensures impl == null
      ensures old(impl) != null ==>
                old(impl).data == old(impl.data) && old(impl).curSize == old(impl.curSize)
                && old(impl).maxSize == old(impl.maxSize)
      ensures old(impl) != null && Shared(old(impl.refs)) ==>
                old(impl).Valid() && old(impl).refs == Decrement(old(impl.refs))
                && old(impl).Contents() == old(impl.Contents())
      ensures old(impl) != null && !Shared(old(impl.refs)) ==> old(impl).refs == old(impl.refs)
    {
      if impl != null && Shared(impl.refs) {
        impl.refs := Decrement(impl.refs);
      }
      impl := null;
    }
  }
}
