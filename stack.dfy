/**
 * `Stack<T>` of Stack.h: a LIFO wrapper that keeps its elements in one
 * copy-on-write handle, bottom at index 0 and top at the last index, and
 * delegates every sharing decision to that handle. `top` and `pop` on an
 * empty stack raise `OutOfRange` (`std::out_of_range`).
 */
module Stacks {
  import opened Common
  import opened Buffer
  import opened Cow

  class Stack<T(0)> {
    /** `_data`. */
    const arr: DynArr<T>

    /**
     * The handle is live, and its capacity never drops below the default:
     * stacks start at INITIAL_MAX_SIZE and capacity only grows or is
     * taken over from another stack.
     */
    ghost predicate Valid()
      reads this, arr, arr.impl
    {
      arr.Valid() && arr.impl.maxSize >= INITIAL_MAX_SIZE
    }

    /** The elements, bottom first. */
    ghost function Contents(): seq<T>
      reads this, arr, arr.impl, arr.impl.data
      requires Valid()
    {
      arr.Contents()
    }

    /** `Stack()`: empty, on a new unshared buffer of the default capacity. */
    constructor ()
      ensures Valid() && fresh(arr) && fresh(arr.impl) && fresh(arr.impl.data)
      ensures Contents() == [] && Capacity() == INITIAL_MAX_SIZE && arr.impl.refs == Count(1)
    {
      arr := new DynArr<T>();
    }

    /** A stack around a handle built by one of `DynArr`'s constructors. */
    constructor Adopt(d: DynArr<T>)
      ensures arr == d
    {
      arr := d;
    }

    /**
     * The copy constructor `Stack(const Stack&)`, which copy-constructs the
     * handle: a shareable buffer is shared (count up by one, no element
     * copied), a frozen one is duplicated.
     */
    static method Copy(st: Stack<T>, throwsOnCopy: T -> bool) returns (r: Result<Stack<T>>)
      requires st.Valid()
      modifies st.arr.impl`refs
      ensures st.Valid() && st.arr.impl == old(st.arr.impl) && st.Contents() == old(st.Contents())
      ensures old(st.arr.impl.refs).Count? ==>
                r.Ok? && r.value.arr.impl == st.arr.impl && st.arr.impl.refs == Count(old(st.arr.impl.refs).n + 1)
      ensures old(st.arr.impl.refs).Unshareable? ==>
                st.arr.impl.refs == Unshareable && (r.Ok? <==> Copyable(st.Contents(), throwsOnCopy))
      ensures old(st.arr.impl.refs).Unshareable? && r.Ok? ==>
                fresh(r.value.arr.impl) && fresh(r.value.arr.impl.data) && r.value.arr.impl.refs == Count(1)
      ensures r.Ok? ==> fresh(r.value) && fresh(r.value.arr) && r.value.Valid()
      ensures r.Ok? ==> r.value.Contents() == st.Contents() && r.value.Capacity() == st.Capacity()
      ensures r.Err? ==> r.error == CopyFailed
    {
      var d := DynArr.Copy(st.arr, throwsOnCopy);
      if d.Err? {
        return Err(d.error);
      }
      var s := new Stack.Adopt(d.value);
      return Ok(s);
    }

    /** The move constructor `Stack(Stack&&)`: takes over the handle's buffer, leaving `st` without one. */
    constructor Move(st: Stack<T>)
      modifies st.arr
      ensures fresh(arr) && arr.impl == old(st.arr.impl) && st.arr.impl == null
    {
      arr := new DynArr.Move(st.arr);
    }

    /**
     * Copy assignment `operator=(const Stack&)`, which copy-assigns the
     * handle, with the same behaviour on the buffer held before. A stack
     * moved from may be assigned a shareable source, whose branch never
     * reads the old buffer; from a frozen source the old buffer's count is
     * read, so this stack must hold one.
     */
    method CopyAssign(other: Stack<T>, throwsOnCopy: T -> bool) returns (r: Outcome)
      requires other.Valid()
      requires arr.impl != null ==> Valid()
      requires other.arr.impl.refs.Unshareable? ==> Valid()
      modifies arr, other.arr.impl`refs, arr.impl
      ensures Valid()
      ensures old(other.arr.impl).Valid() && old(other.arr.impl).Contents() == old(other.Contents())
      ensures r.Done? ==> Contents() == old(other.Contents()) && Capacity() == old(other.Capacity())
      ensures r.Threw? ==> r.error == CopyFailed
      ensures old(other.arr.impl.refs).Count? ==>
                r.Done? && arr.impl == old(other.arr.impl) && arr.impl.refs == Count(old(other.arr.impl.refs).n + 1)
      ensures old(other.arr.impl.refs).Count? && old(arr.impl) != null && old(arr.impl) != old(other.arr.impl) ==>
                old(arr.impl).refs == old(arr.impl.refs)
      ensures old(other.arr.impl.refs).Unshareable? ==>
                (r.Done? <==> Copyable(old(other.Contents()), throwsOnCopy))
      ensures old(other.arr.impl.refs).Unshareable? && r.Threw? ==>
                arr.impl == old(arr.impl) && arr.impl.refs == old(arr.impl.refs) && Contents() == old(Contents())
                && old(other.arr.impl).refs == Unshareable
      ensures old(other.arr.impl.refs).Unshareable? && old(arr.impl) != old(other.arr.impl) ==>
                old(other.arr.impl).refs == Unshareable
      ensures old(other.arr.impl.refs).Unshareable? && r.Done? ==>
                fresh(arr.impl) && fresh(arr.impl.data) && arr.impl.refs == Count(1)
      ensures old(other.arr.impl.refs).Unshareable? && r.Done? ==>
                old(arr.impl).refs == if MoreThanOne(old(arr.impl.refs)) then Decrement(old(arr.impl.refs)) else old(arr.impl.refs)
      ensures old(arr.impl) != null ==>
                old(arr.impl).Valid() && old(arr.impl).Contents() == old(Contents())
                && old(arr.impl).maxSize == old(Capacity())
    {
      r := arr.CopyAssign(other.arr, throwsOnCopy);
    }

    /**
     * `push`: the elements become the old ones followed by `elem`, and the
     * capacity doubles exactly when the stack was full; if an element's
     * constructor throws, the stack shows the same elements and capacity
     * as before, and a buffer shared with other stacks keeps its elements
     * either way.
     */
    method Push(elem: T, throwsOnCopy: T -> bool) returns (r: Outcome)
      requires Valid()
      modifies arr, arr.impl, arr.impl.data
      ensures Valid()
      ensures r.Done? <==> CanPrivatize(old(arr.impl.refs), old(Contents()), throwsOnCopy)
                           && CanAppend(old(Contents()), old(Capacity()), elem, throwsOnCopy)
      ensures r.Done? ==> Contents() == old(Contents()) + [elem]
      ensures r.Done? ==> Capacity() == GrownCapacity(old(Size()), old(Capacity()))
      ensures r.Threw? ==> r.error == CopyFailed && Contents() == old(Contents()) && Capacity() == old(Capacity())
      ensures CanPrivatize(old(arr.impl.refs), old(Contents()), throwsOnCopy) ==> arr.impl.refs == Count(1)
      ensures Shared(old(arr.impl.refs)) ==>
                old(arr.impl).Valid() && old(arr.impl).Contents() == old(Contents())
                && old(arr.impl).maxSize == old(Capacity()) && old(arr.impl).data == old(arr.impl.data)
      ensures Shared(old(arr.impl.refs)) ==>
                old(arr.impl).refs == if CanPrivatize(old(arr.impl.refs), old(Contents()), throwsOnCopy)
                                      then Decrement(old(arr.impl.refs)) else old(arr.impl.refs)
      ensures !CanPrivatize(old(arr.impl.refs), old(Contents()), throwsOnCopy) ==>
                arr.impl == old(arr.impl) && arr.impl.refs == old(arr.impl.refs)
      ensures r.Threw? && !Shared(old(arr.impl.refs)) ==> arr.impl == old(arr.impl)
      ensures !Shared(old(arr.impl.refs)) && old(Size()) < old(Capacity()) ==> arr.impl == old(arr.impl)
      ensures arr.impl == old(arr.impl) ==> arr.impl.data == old(arr.impl.data)
      ensures arr.impl != old(arr.impl) ==> fresh(arr.impl) && fresh(arr.impl.data)
    {
      r := arr.PushBack(elem, throwsOnCopy);
    }

    /**
     * `pop`: on an empty stack raises OutOfRange and changes nothing;
     * otherwise privatizes and drops the top element, keeping the capacity.
     */
    method Pop(throwsOnCopy: T -> bool) returns (r: Outcome)
      requires Valid()
      modifies arr, arr.impl`refs, arr.impl`curSize
      ensures Valid() && Capacity() == old(Capacity())
      ensures old(Contents()) == [] ==>
                r == Threw(OutOfRange) && arr.impl == old(arr.impl) && arr.impl.refs == old(arr.impl.refs)
                && Contents() == old(Contents())
      ensures old(Contents()) != [] ==>
                (r.Done? <==> CanPrivatize(old(arr.impl.refs), old(Contents()), throwsOnCopy))
      ensures r.Done? ==> Contents() == old(Contents())[..|old(Contents())| - 1] && arr.impl.refs == Count(1)
      ensures old(Contents()) != [] && r.Threw? ==>
                r.error == CopyFailed && arr.impl == old(arr.impl) && arr.impl.refs == old(arr.impl.refs)
                && Contents() == old(Contents())
      ensures Shared(old(arr.impl.refs)) ==> old(arr.impl).Valid() && old(arr.impl).Contents() == old(Contents())
      ensures Shared(old(arr.impl.refs)) ==>
                old(arr.impl).refs == if r.Done? then Decrement(old(arr.impl.refs)) else old(arr.impl.refs)
      ensures !Shared(old(arr.impl.refs)) ==> arr.impl == old(arr.impl)
      ensures arr.impl != old(arr.impl) ==> fresh(arr.impl)
    {
      if Empty() {
        return Threw(OutOfRange);
      }
      r := arr.DeleteBack(throwsOnCopy);
    }

    /**
     * `top`: OutOfRange on an empty stack, otherwise a copy of the element
     * at the highest index, read through the const `operator[]` (so
     * nothing is privatized and no count changes).
     */
    function Top(): (r: Result<T>)
      reads this, arr, arr.impl, arr.impl.data
      requires Valid()
      ensures r.Err? <==> Contents() == []
      ensures r.Err? ==> r.error == OutOfRange
      ensures r.Ok? ==> r.value == Contents()[|Contents()| - 1]
    {
      if Empty() then Err(OutOfRange) else Ok(arr.Get(arr.Size() - 1))
    }

    /** `size()`. */
    function Size(): (n: nat)
      reads this, arr, arr.impl, arr.impl.data
      requires Valid()
      ensures n == |Contents()|
    {
      arr.Size()
    }

    /** `capacity()`: at least the default, and at least the number of elements. */
    function Capacity(): (c: nat)
      reads this, arr, arr.impl, arr.impl.data
      requires Valid()
      ensures INITIAL_MAX_SIZE <= c && |Contents()| <= c
    {
      arr.Capacity()
    }

    /** `empty()`. */
    function Empty(): (b: bool)
      reads this, arr, arr.impl, arr.impl.data
      requires Valid()
      ensures b <==> Contents() == []
    {
      arr.Empty()
    }

    /** The const `operator[]`: a copy of element `index`, counted from the bottom. */
    function Get(index: nat): (x: T)
      reads this, arr, arr.impl, arr.impl.data
      requires Valid() && index < |Contents()|
      ensures x == Contents()[index]
    {
      arr.Get(index)
    }

    /**
     * The non-const `operator[]`: privatizes and freezes the handle's
     * buffer and returns a reference to slot `index` of it.
     */
    method MutableAt(index: nat, throwsOnCopy: T -> bool) returns (r: Result<ElemRef<T>>)
      requires Valid() && index < |Contents()|
      modifies arr, arr.impl`refs
      ensures Valid()
      ensures Contents() == old(Contents()) && Capacity() == old(Capacity())
      ensures r.Ok? <==> CanPrivatize(old(arr.impl.refs), old(Contents()), throwsOnCopy)
      ensures r.Ok? ==> r.value == ElemRef(arr.impl, index) && arr.impl.refs == Unshareable
      ensures r.Err? ==> r.error == CopyFailed && arr.impl == old(arr.impl) && arr.impl.refs == old(arr.impl.refs)
      ensures !Shared(old(arr.impl.refs)) ==> arr.impl == old(arr.impl)
      ensures Shared(old(arr.impl.refs)) && r.Ok? ==>
                fresh(arr.impl) && fresh(arr.impl.data) && old(arr.impl).refs == Decrement(old(arr.impl.refs))
      ensures old(arr.impl).Valid() && old(arr.impl).Contents() == old(Contents())
    {
      r := arr.MutableAt(index, throwsOnCopy);
    }
  }
}
