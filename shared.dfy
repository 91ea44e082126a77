/** The shared-ownership family as heap objects: `ControlBlock<U>` and `SharedPtr<T>` are
    classes whose fields the operations update in place. A ghost `Registry` records the
    abstract state (module SharedModel) that the objects represent; every operation is
    proved to move that state by the corresponding model step, and so to keep the
    reference-counting invariant. */
module Shared {
  import opened Memory
  import M = SharedModel

  /** `ControlBlock<U>`: the shared `ref_count` and the `U*` it deletes when destroyed.
      `tag` is the `U` the block was instantiated with. */
  class ControlBlock {
    var refCount: int
    const obj: Ptr
    const tag: TypeTag

    /** `ControlBlock(U *p, int ref_count)`. */
    constructor (p: Ptr, u: TypeTag, n: int)
      ensures refCount == n && obj == p && tag == u
    {
      refCount := n;
      obj := p;
      tag := u;
    }

    /** `get_ref_count()` of a live block: the number of live handles holding it, and at
        least 1. `r` is the ghost record the block belongs to. */
    function RefCount(ghost r: Registry): (n: int)
      reads this, r, r.st.handles.Keys, r.st.counts.Keys
      requires r.Valid() && this in r.st.blocks
      ensures n == M.Count(r.st.handles, this) && n >= 1
    {
      assert r.st.counts[this] == M.Count(r.st.handles, this);
      refCount
    }
  }

  /** `nullptr` for a control block pointer becomes `None`. */
  function AsOption(c: ControlBlock?): (o: Option<ControlBlock>)
    ensures o.None? <==> c == null
    ensures o.Some? ==> o.value == c
  {
    if c == null then None else Some(c as ControlBlock)
  }

  /** The state records what the objects hold: each live handle's fields, each live
      block's object and type, and its `ref_count`. */
  ghost predicate Tied(st: M.State<SharedPtr, ControlBlock>)
    reads st.handles.Keys, st.counts.Keys
  {
    && (forall h :: h in st.handles ==> st.handles[h] == M.Handle(h.view, h.ptr, AsOption(h.ctrl)))
    && (forall b :: b in st.blocks ==> st.blocks[b] == M.Block(b.obj, b.tag))
    && (forall b :: b in st.counts ==> st.counts[b] == b.refCount)
  }

  /** The ghost record of every live handle and control block. */
  class Registry {
    ghost var st: M.State<SharedPtr, ControlBlock>

    /** The reference-counting invariant holds of the recorded state, and the recorded
        state is what the objects hold. */
    ghost predicate Valid()
      reads this, st.handles.Keys, st.counts.Keys
    {
      M.Inv(st) && Tied(st)
    }

    constructor ()
      ensures Valid() && st == M.Init()
    {
      st := M.Init();
      new;
      M.InitSound<SharedPtr, ControlBlock>();
    }
  }

  /** `SharedPtr<T>`: `view` is its `T`; `ptr` and `ctrl` are its two public fields. */
  class SharedPtr {
    const view: TypeTag
    var ptr: Ptr
    var ctrl: ControlBlock?

    /** `SharedPtr()`: both fields `nullptr`. */
    constructor Empty(v: TypeTag, ghost r: Registry)
      requires r.Valid()
      modifies r
      ensures this !in old(r.st).handles
      ensures r.Valid() && r.st == M.Empty(old(r.st), this, v)
    {
      view := v;
      ptr := Null;
      ctrl := null;
      new;
      ghost var s := r.st;
      M.EmptySound(s, this, v);
      r.st := M.Empty(s, this, v);
      forall x | x in r.st.handles ensures r.st.handles[x] == M.Handle(x.view, x.ptr, AsOption(x.ctrl)) {
        if x != this {
          assert x in s.handles;
        }
      }
    }

    /** `SharedPtr(U *p)`: a fresh `ControlBlock<U>` with count 1 owns `p`. */
    constructor FromRaw(v: TypeTag, p: Ptr, u: TypeTag, ghost r: Registry)
      requires r.Valid() && M.Adoptable(r.st, p)
      modifies r
      ensures r.Valid() && ctrl != null && fresh(ctrl)
      ensures r.st == M.Adopt(old(r.st), this, v, p, u, ctrl)
      ensures ptr == p && ctrl.obj == p && ctrl.tag == u && ctrl.refCount == 1
    {
      view := v;
      ptr := p;
      ctrl := new ControlBlock(p, u, 1);
      new;
      ghost var s := r.st;
      M.AdoptSound(s, this, v, p, u, ctrl);
      r.st := M.Adopt(s, this, v, p, u, ctrl);
      forall x | x in r.st.handles ensures r.st.handles[x] == M.Handle(x.view, x.ptr, AsOption(x.ctrl)) {
        if x != this {
          assert x in s.handles;
        }
      }
      forall b | b in r.st.counts ensures r.st.counts[b] == b.refCount {
        if b != ctrl {
          assert b in s.counts;
        }
      }
    }

    /** The copy constructor and its converting template: copy both fields of `p`, then
        `increment(p)`. */
    constructor Copy(v: TypeTag, p: SharedPtr, ghost r: Registry)
      requires r.Valid() && p in r.st.handles
      modifies r, p.ctrl
      ensures this !in old(r.st).handles
      ensures r.Valid() && r.st == M.Share(old(r.st), this, v, p)
      ensures ptr == p.ptr && ctrl == p.ctrl
      ensures p.ctrl != null ==> p.ctrl.refCount == old(p.ctrl.refCount) + 1
    {
      view := v;
      ptr := p.ptr;
      ctrl := p.ctrl;
      new;
      Increment(p, r);
    }

    /** The move constructor and its converting template: take both fields of `p` and
        leave `p` empty. */
    constructor Move(v: TypeTag, p: SharedPtr, ghost r: Registry)
      requires r.Valid() && p in r.st.handles
      modifies r, p
      ensures this !in old(r.st).handles
      ensures r.Valid() && r.st == M.Take(old(r.st), this, v, p)
      ensures ptr == old(p.ptr) && ctrl == old(p.ctrl) && p.ptr == Null && p.ctrl == null
    {
      view := v;
      ptr := p.ptr;
      ctrl := p.ctrl;
      new;
      p.ptr := Null;
      p.ctrl := null;
      ghost var s := r.st;
      M.TakeSound(s, this, v, p);
      r.st := M.Take(s, this, v, p);
      forall x | x in r.st.handles ensures r.st.handles[x] == M.Handle(x.view, x.ptr, AsOption(x.ctrl)) {
        if x != this {
          assert x in s.handles;
        }
      }
    }

    /** `decrement()`: lower the count of the block, if any, and delete the block -- and
        with it the object -- when the count reaches 0. The handle's fields are left as
        they were, and it no longer counts as an owner. */
    method Decrement(ghost r: Registry)
      requires r.Valid() && this in r.st.handles
      modifies r, ctrl
      ensures r.Valid() && r.st == M.Release(old(r.st), this)
      ensures ctrl != null ==> ctrl.refCount == old(ctrl.refCount) - 1
    {
      ghost var s := r.st;
      M.ReleaseSound(s, this);
      if ctrl != null {
        ctrl.refCount := ctrl.refCount - 1;
        // When the count is now 0, `delete ctrl_blk_ptr` runs `~ControlBlock`, which
        // deletes `obj_ptr`; the ghost state records that deletion.
      }
      r.st := M.Release(s, this);
      forall x | x in r.st.handles ensures r.st.handles[x] == M.Handle(x.view, x.ptr, AsOption(x.ctrl)) {
        assert x in s.handles;
      }
      forall b | b in r.st.counts ensures r.st.counts[b] == b.refCount {
        assert b in s.counts;
      }
    }

    /** `increment(p)`, as every caller uses it: `this` already holds `p`'s fields and is not
        yet an owner. The source tests `p`'s block and bumps its own, which are the same. */
    method Increment(p: SharedPtr, ghost r: Registry)
      requires r.Valid() && this !in r.st.handles && p in r.st.handles
      requires ptr == p.ptr && ctrl == p.ctrl
      modifies r, ctrl
      ensures r.Valid() && r.st == M.Share(old(r.st), this, view, p)
      ensures ctrl != null ==> ctrl.refCount == old(ctrl.refCount) + 1
    {
      ghost var s := r.st;
      M.ShareSound(s, this, view, p);
      if p.ctrl != null {
        ctrl.refCount := ctrl.refCount + 1;
      }
      r.st := M.Share(s, this, view, p);
      forall x | x in r.st.handles ensures r.st.handles[x] == M.Handle(x.view, x.ptr, AsOption(x.ctrl)) {
        if x != this {
          assert x in s.handles;
        }
      }
      forall b | b in r.st.counts ensures r.st.counts[b] == b.refCount {
        assert b in s.counts;
      }
    }

    /** `~SharedPtr()`. */
    method Destruct(ghost r: Registry)
      requires r.Valid() && this in r.st.handles
      modifies r, ctrl
      ensures r.Valid() && r.st == M.Release(old(r.st), this)
    {
      Decrement(r);
    }

    /** `get()`. */
    function Get(): Ptr
      reads this
    {
      ptr
    }

    /** `operator*` and `operator->`: the access pointer, which the caller must not
        dereference when it is `nullptr`. */
    function Deref(): (q: Ptr)
      reads this
      requires ptr != Null
      ensures q != Null && q == Get()
    {
      ptr
    }

    /** `operator bool`. */
    function IsSet(): (b: bool)
      reads this
      ensures b <==> Get() != Null
    {
      ptr != Null
    }

    /** The unregistered `this` takes over `p`'s fields and leaves `p` empty: the second
        half of a move assignment. */
    method TakeOver(p: SharedPtr, ghost r: Registry)
      requires r.Valid() && this !in r.st.handles && p in r.st.handles
      modifies r, this, p
      ensures r.Valid() && r.st == M.Take(old(r.st), this, view, p)
    {
      ghost var s := r.st;
      ptr := p.ptr;
      ctrl := p.ctrl;
      p.ptr := Null;
      p.ctrl := null;
      M.TakeSound(s, this, view, p);
      r.st := M.Take(s, this, view, p);
      forall x | x in r.st.handles ensures r.st.handles[x] == M.Handle(x.view, x.ptr, AsOption(x.ctrl)) {
        if x != this && x != p {
          assert x in s.handles;
        }
      }
    }

    /** The unregistered `this` owns `p` through a fresh `ControlBlock<U>` with count 1:
        the second half of `reset(U *p)`. */
    method AdoptFresh(p: Ptr, u: TypeTag, ghost r: Registry)
      requires r.Valid() && this !in r.st.handles && M.Adoptable(r.st, p)
      modifies r, this
      ensures r.Valid() && ctrl != null && fresh(ctrl)
      ensures r.st == M.Adopt(old(r.st), this, view, p, u, ctrl)
    {
      ghost var s := r.st;
      ptr := p;
      ctrl := new ControlBlock(p, u, 1);
      assert ctrl !in s.blocks;
      M.AdoptSound(s, this, view, p, u, ctrl);
      r.st := M.Adopt(s, this, view, p, u, ctrl);
      forall x | x in r.st.handles ensures r.st.handles[x] == M.Handle(x.view, x.ptr, AsOption(x.ctrl)) {
        if x != this {
          assert x in s.handles;
        }
      }
      forall b | b in r.st.counts ensures r.st.counts[b] == b.refCount {
        if b != ctrl {
          assert b in s.counts;
        }
      }
    }

    /** The unregistered `this` becomes empty: the second half of `reset(nullptr)`. */
    method Clear(ghost r: Registry)
      requires r.Valid() && this !in r.st.handles
      modifies r, this
      ensures r.Valid() && r.st == M.Empty(old(r.st), this, view)
    {
      ghost var s := r.st;
      ptr := Null;
      ctrl := null;
      M.EmptySound(s, this, view);
      r.st := M.Empty(s, this, view);
      forall x | x in r.st.handles ensures r.st.handles[x] == M.Handle(x.view, x.ptr, AsOption(x.ctrl)) {
        if x != this {
          assert x in s.handles;
        }
      }
    }

    /** `reset(U *p)`: release the current block, then own `p` through a fresh
        `ControlBlock<U>` with count 1. */
    method Reset(p: Ptr, u: TypeTag, ghost r: Registry)
      requires r.Valid() && this in r.st.handles && M.Adoptable(r.st, p)
      modifies r, this, ctrl
      ensures r.Valid() && ctrl != null && fresh(ctrl)
      ensures r.st == M.ResetTo(old(r.st), this, p, u, ctrl)
    {
      ghost var s := r.st;
      M.ReleaseEffect(s, this);
      Decrement(r);
      AdoptFresh(p, u, r);
    }

    /** `reset(nullptr)`: release the current block and become empty. */
    method ResetNull(ghost r: Registry)
      requires r.Valid() && this in r.st.handles
      modifies r, this, ctrl
      ensures r.Valid() && r.st == M.ResetNull(old(r.st), this)
    {
      Decrement(r);
      Clear(r);
    }

    /** Move assignment from the same `T`: unless `p` is this very object, release the
        current block, take `p`'s fields and leave `p` empty. */
    method MoveAssign(p: SharedPtr, ghost r: Registry)
      requires r.Valid() && this in r.st.handles && p in r.st.handles && p.view == view
      modifies r, this, p, ctrl
      ensures r.Valid() && r.st == M.MoveAssign(old(r.st), this, p)
    {
      if this != p {
        Decrement(r);
        TakeOver(p, r);
      }
    }

    /** Move assignment from a `SharedPtr<U>` of another `U`, which has no self check: `p`
        cannot be this very object. */
    method MoveAssignFrom(p: SharedPtr, ghost r: Registry)
      requires r.Valid() && this in r.st.handles && p in r.st.handles && p.view != view
      modifies r, this, p, ctrl
      ensures r.Valid() && r.st == M.MoveAssign(old(r.st), this, p)
    {
      Decrement(r);
      TakeOver(p, r);
    }

    /** The unregistered `this` copies `p`'s fields and runs `increment(p)`: the second half
        of a copy assignment. */
    method ShareWith(p: SharedPtr, ghost r: Registry)
      requires r.Valid() && this !in r.st.handles && p in r.st.handles
      modifies r, this, p.ctrl
      ensures r.Valid() && r.st == M.Share(old(r.st), this, view, p)
    {
      ptr := p.ptr;
      ctrl := p.ctrl;
      Increment(p, r);
    }

    /** Copy assignment from the same `T`: unless `p` is this very object, release the
        current block, copy `p`'s fields and `increment(p)`. */
    method CopyAssign(p: SharedPtr, ghost r: Registry)
      requires r.Valid() && this in r.st.handles && p in r.st.handles && p.view == view
      modifies r, this, ctrl, p.ctrl
      ensures r.Valid() && r.st == M.CopyAssign(old(r.st), this, p)
    {
      if this != p {
        Decrement(r);
        ShareWith(p, r);
      }
    }

    /** Copy assignment from a `SharedPtr<U>` of another `U`, which has no self check. */
    method CopyAssignFrom(p: SharedPtr, ghost r: Registry)
      requires r.Valid() && this in r.st.handles && p in r.st.handles && p.view != view
      modifies r, this, ctrl, p.ctrl
      ensures r.Valid() && r.st == M.CopyAssign(old(r.st), this, p)
    {
      Decrement(r);
      ShareWith(p, r);
    }
  }

  /** `ptr1 == ptr2`: the access pointers are equal, whatever the handles' blocks. */
  function Equal(a: SharedPtr, b: SharedPtr): (r: bool)
    reads a, b
    ensures r <==> a.Get() == b.Get()
  {
    a.ptr == b.ptr
  }

  /** `ptr1 != ptr2`: the negation of `==`. */
  function NotEqual(a: SharedPtr, b: SharedPtr): (r: bool)
    reads a, b
    ensures r == !Equal(a, b)
  {
    a.ptr != b.ptr
  }

  /** `ptr1 == nullptr`: the negation of `operator bool`. */
  function EqualNull(a: SharedPtr): (r: bool)
    reads a
    ensures r == !a.IsSet()
  {
    a.ptr == Null
  }

  /** `nullptr == ptr2`: the same as `ptr2 == nullptr`. */
  function NullEqual(a: SharedPtr): (r: bool)
    reads a
    ensures r == EqualNull(a)
  {
    Null == a.ptr
  }

  /** `ptr1 != nullptr`: the same as `operator bool`. */
  function NotEqualNull(a: SharedPtr): (r: bool)
    reads a
    ensures r == a.IsSet()
  {
    a.ptr != Null
  }

  /** `nullptr != ptr2`: the same as `ptr2 != nullptr`. */
  function NullNotEqual(a: SharedPtr): (r: bool)
    reads a
    ensures r == NotEqualNull(a)
  {
    Null != a.ptr
  }

  /** What `get()` returns from a live handle is `nullptr`, or the live object of the live
      block the handle holds. */
  lemma GetOwned(r: Registry, h: SharedPtr)
    requires r.Valid() && h in r.st.handles && h.Get() != Null
    ensures h.ctrl != null && h.ctrl in r.st.blocks && h.Get() == h.ctrl.obj
    ensures Live(r.st.log, h.Get())
  {
    assert M.Agrees(r.st.blocks, r.st.handles[h]);
  }

  /** Two live handles that compare equal and are set share one control block, so `==`
      between them decides shared ownership of one object. */
  lemma EqualSharesBlock(r: Registry, a: SharedPtr, b: SharedPtr)
    requires r.Valid() && a in r.st.handles && b in r.st.handles
    requires Equal(a, b) && a.IsSet()
    ensures a.ctrl == b.ctrl
  {
    M.SamePointerSameBlock(r.st, a, b);
  }
}
