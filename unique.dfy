/** `UniquePtr<T>` and `ObjectDeleter<U>` as heap objects. A ghost `Registry` records the
    state of module UniqueModel, and every operation is proved to move that record exactly
    as the matching step or composite of the model does, so the single-ownership
    invariant holds throughout. */
module Unique {
  import opened Memory
  import M = UniqueModel

  /** `ObjectDeleter<U>`: it keeps the `U*` it was built from in `object_deleter`, and
      `delete` of the deleter deletes that pointer as a `U`. */
  class ObjectDeleter {
    const obj: Ptr
    const tag: TypeTag

    constructor (p: Ptr, u: TypeTag)
      ensures obj == p && tag == u
    {
      obj := p;
      tag := u;
    }
  }

  /** `nullptr` as `None`, any other deleter as itself. */
  function AsOption(c: ObjectDeleter?): (o: Option<ObjectDeleter>)
    ensures o.None? <==> c == null
    ensures o.Some? ==> o.value == c
  {
    if c == null then None else Some(c as ObjectDeleter)
  }

  /** The state records what the objects hold: each live handle's fields and each live
      deleter's pointer and type. */
  ghost predicate Tied(st: M.State<UniquePtr, ObjectDeleter>)
    reads st.handles.Keys
  {
    && (forall h :: h in st.handles ==> st.handles[h] == M.Handle(h.view, h.ptr, AsOption(h.deleter)))
    && (forall c :: c in st.deleters ==> st.deleters[c] == M.Deleter(c.obj, c.tag))
  }

  /** The ghost record of every live handle and deleter. */
  class Registry {
    ghost var st: M.State<UniquePtr, ObjectDeleter>

    /** The single-ownership invariant holds of the recorded state, and the recorded state
        is what the objects hold. */
    ghost predicate Valid()
      reads this, st.handles.Keys
    {
      M.Inv(st) && Tied(st)
    }

    constructor ()
      ensures Valid() && st == M.Init()
    {
      st := M.Init();
      new;
      M.InitSound<UniquePtr, ObjectDeleter>();
    }
  }

  /** `UniquePtr<T>`: `view` is its `T`; `ptr` and `deleter` are its public fields `ptr`
      and `obj_deleter`. */
  class UniquePtr {
    const view: TypeTag
    var ptr: Ptr
    var deleter: ObjectDeleter?

    /** `UniquePtr()`: both fields `nullptr`. */
    constructor Empty(v: TypeTag, ghost r: Registry)
      requires r.Valid()
      modifies r
      ensures this !in old(r.st).handles
      ensures r.Valid() && r.st == M.Empty(old(r.st), this, v)
    {
      view := v;
      ptr := Null;
      deleter := null;
      new;
      ghost var s := r.st;
      M.EmptySound(s, this, v);
      r.st := M.Empty(s, this, v);
      forall x | x in r.st.handles ensures r.st.handles[x] == M.Handle(x.view, x.ptr, AsOption(x.deleter)) {
        if x != this {
          assert x in s.handles;
        }
      }
    }

    /** `UniquePtr(U *p)`: a fresh `ObjectDeleter<U>` owns `p`, even a null `p`. */
    constructor FromRaw(v: TypeTag, p: Ptr, u: TypeTag, ghost r: Registry)
      requires r.Valid() && M.Adoptable(r.st, p)
      modifies r
      ensures r.Valid() && deleter != null && fresh(deleter)
      ensures r.st == M.Adopt(old(r.st), this, v, p, u, deleter)
      ensures ptr == p && deleter.obj == p && deleter.tag == u
    {
      view := v;
      ptr := p;
      deleter := new ObjectDeleter(p, u);
      new;
      ghost var s := r.st;
      M.AdoptSound(s, this, v, p, u, deleter);
      r.st := M.Adopt(s, this, v, p, u, deleter);
      forall x | x in r.st.handles ensures r.st.handles[x] == M.Handle(x.view, x.ptr, AsOption(x.deleter)) {
        if x != this {
          assert x in s.handles;
        }
      }
    }

    /** The move constructor and its converting template: take both fields of `p` and
        leave `p` empty. */
    constructor Move(v: TypeTag, p: UniquePtr, ghost r: Registry)
      requires r.Valid() && p in r.st.handles
      modifies r, p
      ensures this !in old(r.st).handles
      ensures r.Valid() && r.st == M.Take(old(r.st), this, v, p)
      ensures ptr == old(p.ptr) && deleter == old(p.deleter) && p.ptr == Null && p.deleter == null
    {
      view := v;
      ptr := p.ptr;
      deleter := p.deleter;
      new;
      p.ptr := Null;
      p.deleter := null;
      ghost var s := r.st;
      M.TakeSound(s, this, v, p);
      r.st := M.Take(s, this, v, p);
      forall x | x in r.st.handles ensures r.st.handles[x] == M.Handle(x.view, x.ptr, AsOption(x.deleter)) {
        if x != this {
          assert x in s.handles;
        }
      }
    }

    /** `delete obj_deleter`: the deleter, if any, goes, and deletes its object as the `U`
        it captured. The handle's fields are left as they were, and it no longer counts as
        an owner. */
    method Dispose(ghost r: Registry)
      requires r.Valid() && this in r.st.handles
      modifies r
      ensures r.Valid() && r.st == M.Dispose(old(r.st), this)
    {
      ghost var s := r.st;
      M.DisposeSound(s, this);
      r.st := M.Dispose(s, this);
      forall x | x in r.st.handles ensures r.st.handles[x] == M.Handle(x.view, x.ptr, AsOption(x.deleter)) {
        assert x in s.handles;
      }
    }

    /** `~UniquePtr()`. */
    method Destruct(ghost r: Registry)
      requires r.Valid() && this in r.st.handles
      modifies r
      ensures r.Valid() && r.st == M.Dispose(old(r.st), this)
    {
      Dispose(r);
    }

    /** `get()`. */
    function Get(): Ptr
      reads this
    {
      ptr
    }

    /** `operator*` and `operator->`: the access pointer, which the caller must not
        dereference when it is `nullptr`. */
    function Deref(): (q: Ptr)
      reads this
      requires ptr != Null
      ensures q != Null && q == Get()
    {
      ptr
    }

    /** `operator bool`. */
    function IsSet(): (b: bool)
      reads this
      ensures b <==> Get() != Null
    {
      ptr != Null
    }

    /** The unregistered `this` takes over `p`'s fields and leaves `p` empty: the second
        half of a move assignment. */
    method TakeOver(p: UniquePtr, ghost r: Registry)
      requires r.Valid() && this !in r.st.handles && p in r.st.handles
      modifies r, this, p
      ensures r.Valid() && r.st == M.Take(old(r.st), this, view, p)
    {
      ghost var s := r.st;
      ptr := p.ptr;
      deleter := p.deleter;
      p.ptr := Null;
      p.deleter := null;
      M.TakeSound(s, this, view, p);
      r.st := M.Take(s, this, view, p);
      forall x | x in r.st.handles ensures r.st.handles[x] == M.Handle(x.view, x.ptr, AsOption(x.deleter)) {
        if x != this && x != p {
          assert x in s.handles;
        }
      }
    }

    /** The unregistered `this` owns `p` through a fresh `ObjectDeleter<U>`: the second
        half of `reset(U *p)`. */
    method AdoptFresh(p: Ptr, u: TypeTag, ghost r: Registry)
      requires r.Valid() && this !in r.st.handles && M.Adoptable(r.st, p)
      modifies r, this
      ensures r.Valid() && deleter != null && fresh(deleter)
      ensures r.st == M.Adopt(old(r.st), this, view, p, u, deleter)
    {
      ghost var s := r.st;
      ptr := p;
      deleter := new ObjectDeleter(p, u);
      assert deleter !in s.deleters;
      M.AdoptSound(s, this, view, p, u, deleter);
      r.st := M.Adopt(s, this, view, p, u, deleter);
      forall x | x in r.st.handles ensures r.st.handles[x] == M.Handle(x.view, x.ptr, AsOption(x.deleter)) {
        if x != this {
          assert x in s.handles;
        }
      }
    }

    /** The unregistered `this` becomes empty: the second half of `reset(nullptr)`. */
    method Clear(ghost r: Registry)
      requires r.Valid() && this !in r.st.handles
      modifies r, this
      ensures r.Valid() && r.st == M.Empty(old(r.st), this, view)
    {
      ghost var s := r.st;
      ptr := Null;
      deleter := null;
      M.EmptySound(s, this, view);
      r.st := M.Empty(s, this, view);
      forall x | x in r.st.handles ensures r.st.handles[x] == M.Handle(x.view, x.ptr, AsOption(x.deleter)) {
        if x != this {
          assert x in s.handles;
        }
      }
    }

    /** `reset(U *p)`: delete the current deleter, then own `p` through a fresh
        `ObjectDeleter<U>`. */
    method Reset(p: Ptr, u: TypeTag, ghost r: Registry)
      requires r.Valid() && this in r.st.handles && M.Adoptable(r.st, p)
      modifies r, this
      ensures r.Valid() && deleter != null && fresh(deleter)
      ensures r.st == M.ResetTo(old(r.st), this, p, u, deleter)
    {
      ghost var s := r.st;
      M.DisposeEffect(s, this);
      Dispose(r);
      AdoptFresh(p, u, r);
    }

    /** `reset(nullptr)`: delete the current deleter and become empty. */
    method ResetNull(ghost r: Registry)
      requires r.Valid() && this in r.st.handles
      modifies r, this
      ensures r.Valid() && r.st == M.ResetNull(old(r.st), this)
    {
      Dispose(r);
      Clear(r);
    }

    /** Move assignment, from the same `T` or converting: when `*this != p`, that is when
        the access pointers differ, delete the current deleter, take `p`'s fields and leave
        `p` empty. */
    method MoveAssign(p: UniquePtr, ghost r: Registry)
      requires r.Valid() && this in r.st.handles && p in r.st.handles
      modifies r, this, p
      ensures r.Valid() && r.st == M.MoveAssign(old(r.st), this, p)
    {
      if NotEqual(this, p) {
        Dispose(r);
        TakeOver(p, r);
      }
    }
  }

  /** `ptr1 == ptr2`: the access pointers are equal. */
  function Equal(a: UniquePtr, b: UniquePtr): (r: bool)
    reads a, b
    ensures r <==> a.Get() == b.Get()
  {
    a.ptr == b.ptr
  }

  /** `ptr1 != ptr2`: the negation of `==`. */
  function NotEqual(a: UniquePtr, b: UniquePtr): (r: bool)
    reads a, b
    ensures r == !Equal(a, b)
  {
    a.ptr != b.ptr
  }

  /** `ptr1 == nullptr`: the negation of `operator bool`. */
  function EqualNull(a: UniquePtr): (r: bool)
    reads a
    ensures r == !a.IsSet()
  {
    a.ptr == Null
  }

  /** `nullptr == ptr2`: the same as `ptr2 == nullptr`. */
  function NullEqual(a: UniquePtr): (r: bool)
    reads a
    ensures r == EqualNull(a)
  {
    Null == a.ptr
  }

  /** `ptr1 != nullptr`: the same as `operator bool`. */
  function NotEqualNull(a: UniquePtr): (r: bool)
    reads a
    ensures r == a.IsSet()
  {
    a.ptr != Null
  }

  /** `nullptr != ptr2`: the same as `ptr2 != nullptr`. */
  function NullNotEqual(a: UniquePtr): (r: bool)
    reads a
    ensures r == NotEqualNull(a)
  {
    Null != a.ptr
  }

  /** What `get()` returns from a live handle is `nullptr`, or the live object that the
      handle's own live deleter will delete. */
  lemma GetOwned(r: Registry, h: UniquePtr)
    requires r.Valid() && h in r.st.handles && h.Get() != Null
    ensures h.deleter != null && h.deleter in r.st.deleters && h.Get() == h.deleter.obj
    ensures Live(r.st.log, h.Get())
  {
    assert M.Agrees(r.st.deleters, r.st.handles[h]);
  }

  /** Two distinct live handles that compare equal are both null: `==` between handles
      that are set holds only of a handle and itself. */
  lemma EqualOnlyWhenNull(r: Registry, a: UniquePtr, b: UniquePtr)
    requires r.Valid() && a in r.st.handles && b in r.st.handles && a != b
    requires Equal(a, b)
    ensures !a.IsSet() && !b.IsSet()
  {
    M.PointersUnique(r.st, a, b);
  }
}
