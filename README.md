# SmartAndSharedPointers in Dafny

A model of the two smart-pointer families of the `cs540` headers, with proofs of their
ownership bookkeeping.

- **`SharedPtr<T>`** is a pair of an access pointer `ptr` and a control block
  `ctrl_blk_ptr`. A `ControlBlock<U>` holds the shared `ref_count` and the `U*` it
  deletes when the block itself is deleted.
- **`UniquePtr<T>`** is a pair of an access pointer `ptr` and an owned `obj_deleter`. An
  `ObjectDeleter<U>` deletes the `U*` it was built from when it is itself deleted.

Managed objects are abstract addresses (`Memory.Ptr`). Every C++ type that a template
ranges over is an abstract tag (`Memory.TypeTag`). A handle's `T` is its `view`. The `U`
that a control block or deleter captured is its `tag`. Every `delete` of a managed object
is appended to a log of `Deletion(address, type)` entries. "Deleted exactly once, as the
construction type" is therefore a statement about that log.

Each family has two layers:

- **A pure state machine** (`SharedModel`, `UniqueModel`).
  - The state maps every live handle to its fields and every live block or deleter to
    what it captured. `SharedModel` also keeps each block's count. The state also holds
    the deletion log.
  - The primitive steps are `Empty`, `Adopt`, `Share`/`Take` and `Release`/`Dispose`.
  - The composites are `ResetTo`, `ResetNull`, `MoveAssign` and `CopyAssign`.
  - Each step and composite keeps the invariant `Inv`.
    - Shared: every live block's count equals the number of live handles holding it and
      is at least 1.
    - Unique: every live deleter belongs to exactly one live handle.
    - Both: every live handle points at its block's or deleter's object; live objects
      are distinct and not yet deleted; no object is deleted twice by the handles of one
      registry.
- **Classes whose fields are updated in place** (`Shared`, `Unique`).
  - `ControlBlock` has a mutable `refCount`. `ObjectDeleter` is immutable. `SharedPtr`
    and `UniquePtr` have mutable `ptr` and `ctrl` / `deleter` fields.
  - A ghost `Registry` holds the model state that the heap objects represent.
  - Every constructor and method is proved to change the heap exactly as the matching
    model step does. `Registry.Valid()` is preserved throughout: the model invariant holds,
    and the recorded state is what the objects hold.

`decrement()` is public, but the header itself calls it only as the first half of the
destructor, of `reset` and of the assignments. After it the handle is no longer an owner,
and its fields are then overwritten by `reset`, by assignment, or by nothing, in the
destructor. `Release` and `Dispose` therefore remove the handle from the live set, and
the steps that follow them register it again.

Raw pointers handed to `SharedPtr(U *p)`, `UniquePtr(U *p)` and `reset(U *p)` must be
`nullptr` or a live object that no block or deleter owns yet (`Adoptable`). That is the
caller's side of both headers' ownership contract: anything else makes the headers delete
an object twice.

Each family's `Registry` keeps its own deletion log and its own set of owned objects.
One `Shared.Registry` and one `Unique.Registry` stand for all handles of the program, and
`Adoptable` checks ownership only within that registry.

## Model

| member | source | states |
|---|---|---|
| Memory.Delete | sharedptr.hpp:43-46 | `delete q` of a `U*` records nothing for `nullptr` and otherwise exactly one destruction of `q`'s object as a `U` |
| Memory.DeleteLive | uniqueptr.hpp:27-30 | deleting a live object keeps the log free of double deletions; afterwards that object, and no other, is dead |
| SharedModel.EmptySound | sharedptr.hpp:79 | a default-constructed handle keeps the invariant and changes no block, count or log |
| SharedModel.AdoptSound | sharedptr.hpp:81-83 | construction from an adoptable raw pointer keeps the invariant and deletes nothing |
| SharedModel.AdoptHolders | sharedptr.hpp:81-83 | the new block with `ref_count` 1 is held by the new handle alone; no other block changes holders |
| SharedModel.ShareSound | sharedptr.hpp:85-96 | copying a live handle keeps the invariant and deletes nothing |
| SharedModel.ShareHolders | sharedptr.hpp:125-140 | after a copy, the source's block is held by exactly one more handle, the copy; a null block changes nothing |
| SharedModel.TakeSound | sharedptr.hpp:98-110 | a move keeps the invariant and leaves every block, count and the log unchanged |
| SharedModel.TakeHolders | sharedptr.hpp:98-103 | after a move, the block is held by the target in place of the source; other blocks keep their holders |
| SharedModel.ReleaseSound | sharedptr.hpp:113-123 | `decrement()` keeps the invariant (no double delete, counts exact) and the handle stops being an owner |
| SharedModel.ReleaseEffect | sharedptr.hpp:113-123 | with no block nothing is deleted; otherwise the block and its object are deleted, as the block's captured type, iff the handle was the last holder |
| SharedModel.ReleaseEmpty | sharedptr.hpp:114 | `decrement()` on a null block keeps the invariant |
| SharedModel.ReleaseLast | sharedptr.hpp:116-121 | the last holder's `decrement()` removes the block and logs exactly one deletion of its object as the block's type |
| SharedModel.ReleaseShared | sharedptr.hpp:116-118 | `decrement()` while others hold the block deletes nothing and lowers the count by one |
| SharedModel.ResetTo | sharedptr.hpp:151-156 | `reset(p)` (release, then adopt through a fresh block) keeps the invariant |
| SharedModel.ResetNull | sharedptr.hpp:158-163 | `reset(nullptr)` (release, then empty) keeps the invariant |
| SharedModel.MoveAssign | sharedptr.hpp:165-185 | move assignment (no-op on self, else release then take) keeps the invariant |
| SharedModel.CopyAssign | sharedptr.hpp:187-207 | copy assignment (no-op on self, else release then share) keeps the invariant |
| SharedModel.ResetToEffect | sharedptr.hpp:151-156 | after `reset(p)` all handles stay live, every other handle is unchanged, the handle holds `p` and a new block it alone holds, and only the release could delete |
| SharedModel.ResetNullEffect | sharedptr.hpp:158-163 | after `reset(nullptr)` all handles stay live, every other handle is unchanged, the handle is (nullptr, nullptr), and only the release could delete |
| SharedModel.MoveAssignEffect | sharedptr.hpp:165-185 | between distinct handles, the target gets the source's pair, the source is emptied, every other handle is unchanged, and only the release could delete |
| SharedModel.CopyAssignEffect | sharedptr.hpp:187-207 | between distinct handles, the target gets the source's pair, the source and every other handle are unchanged, and only the release could delete |
| SharedModel.SelfAssignNoop | sharedptr.hpp:167 | the `this != &p` guard makes self move and self copy assignment change nothing |
| SharedModel.SamePointerSameBlock | sharedptr.hpp:224-227 | two live handles with the same non-null pointer hold the same block |
| SharedModel.DeletedAsConstructionType | sharedptr.hpp:38-46 | an object adopted as `derived`, copied into a `base` handle and released by both is deleted exactly once, as `derived` |
| Shared.ControlBlock.constructor | sharedptr.hpp:38-41 | `ControlBlock(p, n)` holds `p`, its type and count `n` |
| Shared.SharedPtr.Empty | sharedptr.hpp:79 | the default constructor registers a (nullptr, nullptr) handle |
| Shared.SharedPtr.FromRaw | sharedptr.hpp:81-83 | construction from `p` gives `ptr == p` and a fresh block capturing `p` and `U` with count 1 |
| Shared.SharedPtr.Copy | sharedptr.hpp:85-96 | copy construction copies both fields and raises the shared count by exactly one |
| Shared.SharedPtr.Move | sharedptr.hpp:98-110 | move construction takes both fields and leaves the source (nullptr, nullptr) |
| Shared.SharedPtr.Decrement | sharedptr.hpp:113-123 | `decrement()` lowers the block's count by one and moves the state by `Release` |
| Shared.SharedPtr.Increment | sharedptr.hpp:125-140 | `increment(p)` raises the shared block's count by one and registers the handle as a holder |
| Shared.SharedPtr.Destruct | sharedptr.hpp:142-144 | the destructor releases the handle's block |
| Shared.SharedPtr.Deref | sharedptr.hpp:209-217 | `operator*` / `operator->` yield the non-null `get()` |
| Shared.SharedPtr.IsSet | sharedptr.hpp:219-222 | `operator bool` is true iff `get()` is not `nullptr` |
| Shared.SharedPtr.Reset | sharedptr.hpp:151-156 | `reset(p)` moves the state by `ResetTo` with the fresh block |
| Shared.SharedPtr.ResetNull | sharedptr.hpp:158-163 | `reset(nullptr)` moves the state by `ResetNull` |
| Shared.SharedPtr.MoveAssign | sharedptr.hpp:165-175 | same-type move assignment, guarded by `this != &p`, moves the state by `MoveAssign` |
| Shared.SharedPtr.MoveAssignFrom | sharedptr.hpp:177-185 | converting move assignment, with no guard, moves the state by `MoveAssign` |
| Shared.SharedPtr.CopyAssign | sharedptr.hpp:187-197 | same-type copy assignment, guarded by `this != &p`, moves the state by `CopyAssign` |
| Shared.SharedPtr.CopyAssignFrom | sharedptr.hpp:199-207 | converting copy assignment, with no guard, moves the state by `CopyAssign` |
| Shared.NotEqual | sharedptr.hpp:239-242 | `!=` between handles is the negation of `==` |
| Shared.EqualNull | sharedptr.hpp:229-232 | `h == nullptr` is the negation of `operator bool` |
| Shared.NullEqual | sharedptr.hpp:234-237 | `nullptr == h` agrees with `h == nullptr` |
| Shared.NotEqualNull | sharedptr.hpp:244-247 | `h != nullptr` is `operator bool` |
| Shared.NullNotEqual | sharedptr.hpp:249-252 | `nullptr != h` agrees with `h != nullptr` |
| Shared.ControlBlock.RefCount | sharedptr.hpp:26 | `get_ref_count()` of a live block is the number of live handles holding it, and at least 1 |
| Shared.Equal | sharedptr.hpp:224-227 | `==` between handles, of any two `T`s, compares only what `get()` returns |
| Shared.GetOwned | sharedptr.hpp:146-149 | a non-null `get()` of a live handle is the live object of the live block it holds |
| Shared.EqualSharesBlock | sharedptr.hpp:224-227 | live handles that compare equal and are set share one control block |
| UniqueModel.EmptySound | uniqueptr.hpp:66-67 | a default-constructed handle keeps the invariant and changes no deleter or log |
| UniqueModel.AdoptSound | uniqueptr.hpp:69-71 | construction from an adoptable raw pointer keeps the invariant, deletes nothing, and no other handle holds the new deleter |
| UniqueModel.TakeSound | uniqueptr.hpp:73-84 | a move keeps the invariant (the deleter changes hands) and leaves deleters and log unchanged |
| UniqueModel.DisposeSound | uniqueptr.hpp:85-88 | `delete obj_deleter` keeps the invariant (no double delete) and the handle stops being an owner |
| UniqueModel.DisposeEffect | uniqueptr.hpp:27-30 | with no deleter nothing happens; otherwise exactly that deleter goes and its object is deleted as the captured type |
| UniqueModel.ResetTo | uniqueptr.hpp:94-99 | `reset(p)` (dispose, then adopt through a fresh deleter) keeps the invariant |
| UniqueModel.ResetNull | uniqueptr.hpp:100-105 | `reset(nullptr)` (dispose, then empty) keeps the invariant |
| UniqueModel.MoveAssign | uniqueptr.hpp:106-129 | move assignment (no-op when the pointers are equal, else dispose then take) keeps the invariant |
| UniqueModel.ResetToEffect | uniqueptr.hpp:94-99 | after `reset(p)` all handles stay live, every other handle is unchanged, the handle alone holds a new deleter that captured `p` as `U`, and only the old deleter could delete |
| UniqueModel.ResetNullEffect | uniqueptr.hpp:100-105 | after `reset(nullptr)` all handles stay live, every other handle is unchanged, the handle is (nullptr, nullptr), and only the old deleter could delete |
| UniqueModel.MoveAssignEffect | uniqueptr.hpp:106-129 | when the pointers differ, the target gets the source's pair, the source is emptied, every other handle is unchanged, and only the target's old deleter could delete |
| UniqueModel.PointersUnique | uniqueptr.hpp:144-147 | two distinct live handles never share a non-null access pointer |
| UniqueModel.MoveAssignSkip | uniqueptr.hpp:108 | the `*this != p` guard skips only on self assignment or between two null handles, and then nothing changes |
| UniqueModel.DeletedAsConstructionType | uniqueptr.hpp:79-84 | an object adopted as `derived` and moved into a `base` handle is deleted exactly once, as `derived`, and the source is left empty |
| Unique.ObjectDeleter.constructor | uniqueptr.hpp:24-25 | `ObjectDeleter(p)` captures `p` and its type |
| Unique.UniquePtr.Empty | uniqueptr.hpp:66-67 | the default constructor registers a (nullptr, nullptr) handle |
| Unique.UniquePtr.FromRaw | uniqueptr.hpp:69-71 | construction from `p` gives `ptr == p` and a fresh deleter capturing `p` and `U`, even for a null `p` |
| Unique.UniquePtr.Move | uniqueptr.hpp:73-84 | move construction takes both fields and leaves the source (nullptr, nullptr) |
| Unique.UniquePtr.Dispose | uniqueptr.hpp:85-88 | `delete obj_deleter` moves the state by `Dispose` |
| Unique.UniquePtr.Destruct | uniqueptr.hpp:85-88 | the destructor deletes the owned deleter |
| Unique.UniquePtr.Deref | uniqueptr.hpp:130-138 | `operator*` / `operator->` yield the non-null `get()` |
| Unique.UniquePtr.IsSet | uniqueptr.hpp:139-142 | `operator bool` is true iff `get()` is not `nullptr` |
| Unique.UniquePtr.Reset | uniqueptr.hpp:94-99 | `reset(p)` moves the state by `ResetTo` with the fresh deleter |
| Unique.UniquePtr.ResetNull | uniqueptr.hpp:100-105 | `reset(nullptr)` moves the state by `ResetNull` |
| Unique.UniquePtr.MoveAssign | uniqueptr.hpp:106-129 | both move assignments, guarded by `*this != p`, move the state by `MoveAssign` |
| Unique.Equal | uniqueptr.hpp:144-147 | `==` between handles, of any two `T`s, compares only what `get()` returns |
| Unique.NotEqual | uniqueptr.hpp:159-162 | `!=` between handles is the negation of `==` |
| Unique.EqualNull | uniqueptr.hpp:149-152 | `h == nullptr` is the negation of `operator bool` |
| Unique.NullEqual | uniqueptr.hpp:154-157 | `nullptr == h` agrees with `h == nullptr` |
| Unique.NotEqualNull | uniqueptr.hpp:164-167 | `h != nullptr` is `operator bool` |
| Unique.NullNotEqual | uniqueptr.hpp:169-172 | `nullptr != h` agrees with `h != nullptr` |
| Unique.GetOwned | uniqueptr.hpp:90-93 | a non-null `get()` of a live handle is the live object that its own live deleter will delete |
| Unique.EqualOnlyWhenNull | uniqueptr.hpp:144-147 | distinct live handles that compare equal are both null |

## Left out

- The `std::mutex` locking around the count (sharedptr.hpp:115-118, 127-129) is not modelled. Each operation is one sequential step, and concurrent use is out of scope.
- The `ref_count` is an unbounded integer. Overflow of the C++ `int` is not modelled.
- `new` always succeeds. `std::bad_alloc` and the exception paths it would take are not modelled.
- Templates and pointer conversion (`U*` to `T*`) become type tags. Whether a conversion compiles, and virtual dispatch, are not modelled. The converting operators differ from the same-type ones only in their tags.
- `operator*` returns the access pointer, not a reference to the object. Objects have no contents in this model.
- The default constructors `ControlBlockBase()`, `ControlBlock()` and `ObjectDeleter()` are not modelled. No handle uses them, and they leave `ref_count` or the captured pointer uninitialised.
- `get()` has no contract of its own. What it returns is stated by `Shared.GetOwned` and `Unique.GetOwned`.
- The deleted copy constructor and copy assignment of `UniquePtr` (uniqueptr.hpp:39-40) have no counterpart, so the model has no way to copy a unique handle.
- The converting move constructor writes `p.ctrl_block_ptr = nullptr` (sharedptr.hpp:109). No such member exists, so that template cannot be instantiated. `Shared.SharedPtr.Move` models the evident intent: clear `p.ctrl_blk_ptr`, as line 102 does.
- Direct client calls of the public `decrement()` and `increment()` are outside the model. Only the header's own call patterns are modelled. A client that calls `a.decrement()` while another handle shares the block, and then lets `a` be destroyed, lowers the count twice. The block is then deleted while still held, which this model cannot express.
- Ownership is checked per registry. `Adoptable` looks only at the blocks or deleters of the registry passed in, and each registry keeps its own deletion log. Handing one object to two registries, or to both a `SharedPtr` and a `UniquePtr`, is not excluded. "No object is deleted twice" holds on the assumption that one registry per family stands for the whole program and that the two families never share an object.
- Shared.SharedPtr.Increment: only the way every caller uses it is modelled, where `this` already holds `p`'s two fields and is not yet an owner. The source tests `p.ctrl_blk_ptr` but bumps `this->ctrl_blk_ptr`. The two agree only under that condition, and `increment` on a handle holding some other block is not covered.
- Shared.SharedPtr.Decrement: it is modelled as the first half of a destructor, `reset` or assignment. Afterwards the handle is no longer registered, so it cannot be called twice in a row. The header never calls it that way, though a client could, since it is public (see above).
- Shared.SharedPtr.MoveAssignFrom and Shared.SharedPtr.CopyAssignFrom require `p.view != view`. C++ overload resolution picks these templates only for a different `U`, so `p` can never be `this`.
