/**
 * The shared buffer, `ArrImpl<T>` of Stack.h: raw storage for `maxSize`
 * elements of which the first `curSize` are constructed, and the count of
 * handles that share it.
 */
module Buffer {
  import opened Common

  class ArrImpl<T(0)> {
    /** The storage; slots at `curSize` and beyond hold no live element. */
    var data: array<T>
    var curSize: nat
    var maxSize: nat
    var refs: RefCount

    ghost predicate Valid()
      reads this
    {
      data.Length == maxSize && curSize <= maxSize && refs != Count(0)
    }

    /** The constructed elements, in order. */
    ghost function Contents(): seq<T>
      reads this, data
      requires Valid()
    {
      data[..curSize]
    }

    /** `ArrImpl(size_t sz = INITIAL_MAX_SIZE)`: an empty buffer of capacity `sz`, held by one handle. */
    constructor (sz: nat)
      ensures Valid() && fresh(data)
      ensures Contents() == [] && maxSize == sz && refs == Count(1)
    {
      data := new T[sz];
      curSize := 0;
      maxSize := sz;
      refs := Count(1);
    }

    /**
     * The copy constructor `ArrImpl(const ArrImpl&)`: a buffer of the same
     * capacity, filled element by element from `src` and held by one
     * handle. If an element's constructor throws, no buffer results and
     * `src` is untouched.
     */
    static method Duplicate(src: ArrImpl<T>, throwsOnCopy: T -> bool) returns (r: Option<ArrImpl<T>>)
      requires src.Valid()
      ensures r.Some? <==> Copyable(src.Contents(), throwsOnCopy)
      ensures r.Some? ==> fresh(r.value) && fresh(r.value.data) && r.value.Valid()
      ensures r.Some? ==> r.value.Contents() == src.Contents() && r.value.maxSize == src.maxSize
      ensures r.Some? ==> r.value.refs == Count(1)
    {
      var copy := new ArrImpl<T>(src.maxSize);
      while copy.curSize != src.curSize
        invariant fresh(copy) && fresh(copy.data) && copy.Valid()
        invariant copy.maxSize == src.maxSize && copy.refs == Count(1)
        invariant copy.curSize <= src.curSize
        invariant copy.Contents() == src.Contents()[..copy.curSize]
        invariant Copyable(src.Contents()[..copy.curSize], throwsOnCopy)
        decreases src.curSize - copy.curSize
      {
        var x := src.data[copy.curSize];
        if throwsOnCopy(x) {
          return None;
        }
        copy.data[copy.curSize] := x;
        copy.curSize := copy.curSize + 1;
      }
      assert src.Contents()[..copy.curSize] == src.Contents();
      return Some(copy);
    }

    /** `ArrImpl::swap`: exchanges all four fields with `other`. */
    method Swap(other: ArrImpl<T>)
      requires Valid() && other.Valid()
      modifies this, other
      ensures Valid() && other.Valid()
      ensures data == old(other.data) && other.data == old(data)
      ensures curSize == old(other.curSize) && other.curSize == old(curSize)
      ensures maxSize == old(other.maxSize) && other.maxSize == old(maxSize)
      ensures refs == old(other.refs) && other.refs == old(refs)
      ensures Contents() == old(other.Contents()) && other.Contents() == old(Contents())
    {
      var d, c, m, n := data, curSize, maxSize, refs;
      data, curSize, maxSize, refs := other.data, other.curSize, other.maxSize, other.refs;
      other.data, other.curSize, other.maxSize, other.refs := d, c, m, n;
    }
  }

  /** The `T&` that the non-const `operator[]` hands out: a slot of one particular buffer. */
  datatype ElemRef<T(0)> = ElemRef(buffer: ArrImpl<T>, index: nat)

  /**
   * Assigning through such a reference: the slot of the buffer it was
   * taken from changes, whichever handles hold that buffer now.
   */
  method WriteThrough<T(0)>(ref: ElemRef<T>, x: T)
    requires ref.buffer.Valid() && ref.index < ref.buffer.curSize
    modifies ref.buffer.data
    ensures ref.buffer.Valid()
    ensures ref.buffer.Contents() == old(ref.buffer.Contents())[ref.index := x]
  {
    ref.buffer.data[ref.index] := x;
  }
}
