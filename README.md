# SafeStack in Dafny

A model of `Stack.h` from SafeStack. It is a copy-on-write, reference-counted
dynamic array with a LIFO stack on top, built in three layers:

- `ArrImpl<T>` (module `Buffer`, class `ArrImpl`) is the shared buffer. It has
  storage for `maxSize` elements, of which the first `curSize` are live, plus
  the number of handles sharing it. The count can also hold the UNSHAREABLE
  sentinel, which freezes the buffer.
- `DynArr<T>` (module `Cow`, class `DynArr`) is the handle.
  - Copying a handle shares its buffer and adds one to the count. A frozen
    buffer is duplicated instead.
  - Every mutator first privatizes (`deep_copy`).
  - The non-const `operator[]` freezes the buffer.
  - Appending to a full buffer builds a buffer of twice the capacity in a
    temporary handle and swaps it in only when it is complete. This is the
    strong exception guarantee.
- `Stack<T>` (module `Stacks`, class `Stack`) delegates to one handle. `top`
  and `pop` raise `OutOfRange` on an empty stack.

The three layers are classes with the source's fields. Their methods update
those fields in place. Their contracts state the new state through a
`Contents()` sequence, the buffer's count, its capacity, and whether the
handle still holds the same buffer or a fresh one.

Module `Common` holds the vocabulary the layers share:
- the reference count `RefCount = Count(n) | Unshareable`;
- the errors;
- the growth constants `INITIAL_MAX_SIZE = 5` and `RESIZE_FACTOR = 2`;
- the specification functions `CapacityAfter` and `Reverse`, with lemmas
  about them.

Module `Demo` restates the repository's own driver scenarios (`main.cpp`,
`unittest.h`) as methods, together with two additional scenarios that are
not in the drivers (`FreezeResetLeaks`, `ReassignMovedFrom`). Each is proved
from the classes' contracts.

An element's constructor can throw. The model takes this as a caller-supplied
predicate `throwsOnCopy: T -> bool`, which says whether constructing a copy
of a given value throws. The methods that construct elements report such a
throw as `Threw(CopyFailed)` or `Err(CopyFailed)`. C++ constructors that can
throw become static methods that return a `Result` or an `Option`:
`ArrImpl.Duplicate`, `DynArr.Copy` and `Stack.Copy`.

Four behaviours of the code are modelled as written, not as one might expect:
- `push_back` and `delete_back` privatize with `markUnshareable = false`. A
  frozen buffer therefore becomes shareable again (count 1) at the next push
  or pop. A push with room keeps the buffer, so a copy made after it shares
  the buffer, and a write through a reference taken before the push reaches
  that copy too (`Demo.FreezeResetLeaks`).
- Copy assignment from a shareable source never releases the buffer the
  target held before. Its count is left as it was.
- Copy assignment from a frozen source decrements the target's old buffer
  whenever its count reads as more than one. That includes a frozen old
  buffer, whose sentinel `INT_MAX` then becomes the ordinary count
  `INT_MAX - 1`.
- Growth doubles `size()`, so on a handle of capacity 0 the first push
  recurses without end: it builds a temporary handle of capacity 0 and
  pushes onto that, which grows the same way (Stack.h:296, 300).
  `PushBack` therefore requires a positive capacity. Every `Stack` starts
  with capacity 5, and `Stack.Valid()` keeps its capacity at 5 or more.

A moved-from handle (`impl == null`) may be copy-assigned a shareable
source, because that branch never reads the old buffer
(`Demo.ReassignMovedFrom`). Copy-assigning a frozen source onto it reads the
old buffer's count through a null pointer (Stack.h:185), so `CopyAssign`
requires a buffer in that case.

## Model

| member | source | states |
|---|---|---|
| Common.MoreThanOne | Stack.h:185 | Holds exactly when the number stored in `_count_refs` (INT_MAX for the sentinel) exceeds one |
| Common.Shared | Stack.h:284 | Implies MoreThanOne, and agrees with deep_copy's numeric test (above one and not INT_MAX) while no count reaches INT_MAX |
| Common.Decrement | Stack.h:185-187 | Decrementing a count of more than one gives an ordinary count of at least one whose stored number is one less, so the sentinel becomes INT_MAX - 1 |
| Common.GrownCapacity | Stack.h:295-296 | One append changes the capacity only when the buffer was full, never shrinks it, and a positive capacity then has room for the new element |
| Common.CapacityAfterAppends | Stack.h:294-323 | After any number of appends the capacity is the starting capacity doubled once per growth, holds every element, and after a growth is less than twice the element count |
| Common.CapacityAfterStep | Stack.h:294-323 | One more append applies the one-step growth rule to the capacity reached so far |
| Common.DefaultCapacityIsLeastFit | Stack.h:47-49 | n appends to a default buffer end at the least capacity of the form 5·2^k that holds n elements |
| Common.HundredAppendsCapacity | main.cpp:43-44 | A hundred appends to a default buffer leave capacity 160 |
| Common.ReverseAppend | Stack.h:407-418 | Pushing x puts x first in the order in which top/pop hand elements back |
| Buffer.ArrImpl.constructor | Stack.h:63-68 | A new buffer is empty, has the requested capacity and count 1 |
| Buffer.ArrImpl.Duplicate | Stack.h:94-103 | Succeeds exactly when every element can be copied; the duplicate is a fresh buffer with the same elements in order, the same capacity and count 1 |
| Buffer.ArrImpl.Swap | Stack.h:71-76 | Exchanges storage, size, capacity and count, hence the contents, of two buffers |
| Buffer.WriteThrough | Stack.h:247-250 | Writing through a reference from the non-const operator[] changes that slot of the buffer it came from and nothing else |
| Cow.DynArr.constructor | Stack.h:158 | A new handle owns a fresh empty buffer of the requested capacity (default 5) with count 1 |
| Cow.DynArr.Copy | Stack.h:161-168 | From a shareable buffer: same buffer, count up by exactly one. From a frozen one: a fresh duplicate with count 1, or CopyFailed exactly when some element cannot be copied. The source's elements never change |
| Cow.DynArr.Move | Stack.h:171-174 | Takes the buffer and leaves the source handle without one |
| Cow.DynArr.CopyAssign | Stack.h:177-194 | Shareable source: shares, count up by one, old buffer's count untouched (the leak). Frozen source: duplicate with count 1; the old buffer is decremented if its count reads as more than one; a failed copy changes nothing |
| Cow.DynArr.Swap | Stack.h:197-199 | Exchanges the buffers of two handles |
| Cow.DynArr.MoveAssign | Stack.h:202-205 | Move assignment exchanges the buffers of the two handles |
| Cow.DynArr.Size | Stack.h:227-229 | The number of elements |
| Cow.DynArr.Capacity | Stack.h:232-234 | Capacity is never less than the number of elements |
| Cow.DynArr.Empty | Stack.h:237-239 | True exactly when there are no elements |
| Cow.DynArr.Get | Stack.h:242-244 | The const operator[] returns element index and privatizes nothing |
| Cow.DynArr.DeepCopy | Stack.h:283-291 | Succeeds unless the buffer is shared and some element cannot be copied; afterwards count 1, or UNSHAREABLE when asked; a shared buffer is replaced by a fresh duplicate and loses one count, keeping its elements |
| Cow.DynArr.PushBack | Stack.h:208-217 | Succeeds exactly when privatizing and appending can; then the contents are the old ones plus elem and the capacity doubles exactly when full; on a throw contents and capacity are unchanged; a buffer shared before keeps its elements, storage and capacity; a buffer that is not shared and has room is kept |
| Cow.DynArr.PushBackImpl | Stack.h:294-323 | On a private buffer: appends elem, doubling a full buffer via a temporary handle; on a throw the handle keeps its original buffer, elements and capacity (strong guarantee); with room the buffer is kept and appended to in place |
| Cow.DynArr.DeleteBack | Stack.h:220-224 | Privatizes, then drops exactly the last element with capacity unchanged; a shared buffer keeps its elements; a buffer that is not shared (count 1 or frozen) is kept and unfrozen |
| Cow.DynArr.MutableAt | Stack.h:247-250 | Privatizes and freezes (UNSHAREABLE), keeping the contents, and returns a reference into this handle's own buffer |
| Cow.DynArr.Destroy | Stack.h:272-279 | A shared buffer loses one count and keeps its elements; a buffer with count 1 or frozen is dropped with its count as it was |
| Stacks.Stack.constructor | Stack.h:381 | A new stack is empty, with capacity 5 and count 1 |
| Stacks.Stack.Copy | Stack.h:384 | As DynArr.Copy: shares a shareable buffer (count up by one), duplicates a frozen one |
| Stacks.Stack.Move | Stack.h:387 | Takes the buffer and leaves the source without one |
| Stacks.Stack.CopyAssign | Stack.h:390-393 | As DynArr.CopyAssign, including onto a moved-from stack from a shareable source; the target keeps capacity of at least 5; a frozen source stays frozen |
| Stacks.Stack.Push | Stack.h:396-404 | As DynArr.PushBack: appends elem, doubling a full stack; a throw leaves elements and capacity as they were, and on an unshared buffer leaves the stack on its original buffer; a failed privatization keeps the buffer and its count; an unshared buffer with room is kept |
| Stacks.Stack.Pop | Stack.h:414-418 | On an empty stack OutOfRange with nothing changed; otherwise drops exactly the top element, capacity unchanged; an unshared buffer is kept |
| Stacks.Stack.Top | Stack.h:407-411 | OutOfRange exactly when empty, otherwise the element at the highest index |
| Stacks.Stack.Size | Stack.h:421-423 | The number of elements |
| Stacks.Stack.Capacity | Stack.h:426-428 | At least 5 and at least the number of elements |
| Stacks.Stack.Empty | Stack.h:431-433 | True exactly when there are no elements |
| Stacks.Stack.Get | Stack.h:460-462 | Element index counted from the bottom |
| Stacks.Stack.MutableAt | Stack.h:465-467 | As DynArr.MutableAt: privatizes and freezes, and returns a reference into this stack's buffer |
| Demo.PushAll | unittest.h:194-200 | Pushing a sequence appends it, and the capacity follows the growth rule append by append (CapacityAfter) |
| Demo.PopAll | main.cpp:106-110 | Popping until empty hands out the elements in reverse push order and keeps the capacity |
| Demo.PushThenPop | main.cpp:98-110 | A push followed by a pop restores the elements; in between top is the pushed element; capacity never shrinks |
| Demo.ShareOnCopy | main.cpp:12-20 | Two copies of a five-element stack share its buffer, count 3 |
| Demo.FreezeThenWrite | main.cpp:23-27 | A mutable reference freezes a private buffer; the next copy duplicates it; a write through the reference changes only that stack |
| Demo.PushUnfreezes | main.cpp:28-29 | A push into the frozen full buffer grows it to 10 and makes it shareable, so the next copy shares it |
| Demo.PushDiverges | main.cpp:31-33 | Pushes onto the sharing copy privatize it; the original keeps its elements and count 1 |
| Demo.LazyCopyScenario | main.cpp:12-34 | Final contents of the five stacks: "Abcdef", "abcde" three times, "Abcdef" plus "z." |
| Demo.FreezeResetLeaks | Stack.h:208-217 | After a mutable reference, a push with room and a copy, both stacks share the buffer and a write through the reference shows in both |
| Demo.ReassignMovedFrom | Stack.h:387-393 | A moved-from stack copy-assigned a shareable stack shares its buffer, count 2 |
| Demo.PopTwentyFromCopy | main.cpp:46-62 | Popping twenty elements from a copy leaves the original's elements and count untouched |
| Demo.HundredElementScenario | main.cpp:43-66 | A hundred pushes give capacity 160; the copy keeps the first 80 elements; the original ends empty |
| Demo.FillToCapacity | unittest.h:113-119 | Ten pushes fill a default stack exactly (size and capacity 10) |
| Demo.PushGuarantee | unittest.h:126-153 | A push that throws while growing, or while constructing in a free slot, leaves elements and capacity unchanged; a good push doubles the capacity to 20 |
| Demo.DeferredCopyShares | unittest.h:155-169 | With the deferred throw armed, copying still succeeds because it shares, and destroying the copy gives the count back |
| Demo.DeferredCopyAssignShares | unittest.h:173-185 | Copy assignment from the armed stack succeeds by sharing, and the assigned stack's previous buffer keeps count 1 |
| Demo.ProbeThrows | unittest.h:55-72 | The test element's move throws whenever its throw-in-move flag is set, never when neither flag is set, only by that flag while the deferred flag is off, and also whenever its throw-later flag is set once the deferred flag is on |
| Demo.StrongGuaranteeScenario | unittest.h:108-190 | The whole exception-guarantee scenario ends with 13 elements, capacity 20 and two holders of the buffer |

## Left out

- Console output is not modelled: `printContainer` and both `operator<<` overloads, as well as the printing in the drivers.
- `construct` and `MoveOrPassRef`, the compile-time choice between move and copy, are not modelled. Moving an element in is a value copy, and `throwsOnCopy` decides whether it throws. For a move-constructible element type the source moves every element out of the buffer it copies from (Stack.h:81-83, 100, 20-21). This happens when `deep_copy` duplicates a shared buffer (Stack.h:286), when a frozen buffer is copied (Stack.h:167, 183), and in the growth transplant (Stack.h:298). The other handles of a privatized or copied buffer then read moved-from elements, and a throw partway through a growth leaves the handle's own elements moved-from. The model's isolation and strong-guarantee contracts (Cow.DynArr.Copy, DeepCopy, PushBack, PushBackImpl) therefore hold in the source only for element types whose move leaves the source intact, such as char, int, NonMovebleInt and the test type, whose move copies its list (unittest.h:60).
- Raw memory is not modelled: placement new, `operator new`/`operator delete` and explicit destructor calls. The `ArrImpl` destructor is the buffer becoming unreachable. Allocation failure (`std::bad_alloc`) is not modelled.
- Iterators (`begin`, `end`, `cbegin`, `cend` and the iterator classes) are not modelled. Iteration would read `Contents()`.
- Cow.DynArr.DeleteBack: drops the last element but does not model that the source runs the destructor on the slot at `size()`, one past the last element. Values have no destructor to run.
- `deep_copy`'s `allow_shorten` parameter is unused in the source and is not modelled.
- Stacks.Stack.Get: a copy constructor that throws while `top` or the const `operator[]` returns by value is not modelled. These reads cannot fail in the model.
- Common.Decrement: the count is an unbounded `nat`. The source's `size_t` count reaching `INT_MAX`, where it would be taken for the sentinel, is not modelled.
- A moved-from or destroyed handle has no buffer (`impl == null`). Such a handle can be dropped, swapped, or copy-assigned a shareable source. Copy-assigning a frozen source onto it is excluded, because the source would dereference null there (Stack.h:185). Any other use of it is excluded too, because the source would dereference null as well.
- A reference from the non-const `operator[]` dangles in the source once its buffer is freed. That happens on a later growth (Stack.h:301), on copy assignment's `delete _impl` (Stack.h:189) and in the destructor (Stack.h:275). The model's reference keeps that buffer object alive, so a write through it is not undefined behaviour in the model.
- Concurrency is not modelled. The counts are not atomic in the source either.
