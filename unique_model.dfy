/** The single-ownership family (`UniquePtr<T>` with `ObjectDeleter<U>`) as a pure state
    machine: which handles exist, what each one holds, which deleters are alive with the
    `U*` they captured, and which objects have been deleted, and as which type.

    Handles and deleters are identified by values of the type parameters `H` and `C`; the
    class model in module Unique instantiates them with the heap objects themselves. */
module UniqueModel {
  import opened Memory

  /** The two fields of a `UniquePtr<T>`, plus its `T`: the access pointer `ptr` and the
      deleter `obj_deleter` (`None` for `nullptr`). */
  datatype Handle<C> = Handle(view: TypeTag, ptr: Ptr, deleter: Option<C>)

  /** What a live `ObjectDeleter<U>` captured when it was built: the `U*` and its `U`. */
  datatype Deleter = Deleter(obj: Ptr, tag: TypeTag)

  /** Every live handle, every live deleter, and every `delete` run so far. */
  datatype State<H, C> = State(handles: map<H, Handle<C>>, deleters: map<C, Deleter>, log: seq<Deletion>)

  /** The deleters that some live handle holds. */
  ghost function Held<H, C>(handles: map<H, Handle<C>>): set<C>
  {
    set h | h in handles && handles[h].deleter.Some? :: handles[h].deleter.value
  }

  /** The deleter a handle holds, as a set of at most one element. */
  function DeleterOf<C>(hd: Handle<C>): (cs: set<C>)
    ensures hd.deleter.None? ==> cs == {}
    ensures hd.deleter.Some? ==> cs == {hd.deleter.value}
  {
    match hd.deleter
    case None => {}
    case Some(c) => {c}
  }

  /** A handle either has no deleter and is null, or holds a live deleter and points at
      the object that deleter captured (which is `nullptr` after `UniquePtr(U *p)` with a
      null `p`). */
  ghost predicate Agrees<C>(deleters: map<C, Deleter>, hd: Handle<C>)
  {
    match hd.deleter
    case None => hd.ptr == Null
    case Some(c) => c in deleters && hd.ptr == deleters[c].obj
  }

  /** The single-ownership invariant: every live handle agrees with its deleter; every live
      deleter belongs to exactly one live handle; the objects of live deleters are distinct
      and not yet deleted; and nothing was deleted twice. */
  ghost predicate Inv<H, C>(s: State<H, C>)
  {
    && HandlesAgree(s)
    && s.deleters.Keys == Held(s.handles)
    && DeletersDistinct(s.handles)
    && DeletersLive(s)
    && ObjectsDistinct(s.deleters)
    && NoDoubleDelete(s.log)
  }

  /** No live handle holds a deleted deleter, and each points at its deleter's object. */
  ghost predicate HandlesAgree<H, C>(s: State<H, C>)
  {
    forall h :: h in s.handles ==> Agrees(s.deleters, s.handles[h])
  }

  /** No two live handles hold the same deleter. */
  ghost predicate DeletersDistinct<H, C>(handles: map<H, Handle<C>>)
  {
    forall h1, h2 :: h1 in handles && h2 in handles && h1 != h2 && handles[h1].deleter.Some? ==>
      handles[h1].deleter != handles[h2].deleter
  }

  /** The object of every live deleter is still alive. */
  ghost predicate DeletersLive<H, C>(s: State<H, C>)
  {
    forall c :: c in s.deleters ==> Live(s.log, s.deleters[c].obj)
  }

  /** No two live deleters own the same object. */
  ghost predicate ObjectsDistinct<C>(deleters: map<C, Deleter>)
  {
    forall c, c' :: c in deleters && c' in deleters && c != c' && deleters[c].obj != Null ==>
      deleters[c].obj != deleters[c'].obj
  }

  /** What the caller of `UniquePtr(U *p)` and `reset(U *p)` must supply: `nullptr`, or a
      live object that no deleter owns yet. */
  ghost predicate Adoptable<H, C>(s: State<H, C>, p: Ptr)
  {
    Live(s.log, p) && (p != Null ==> forall c :: c in s.deleters ==> s.deleters[c].obj != p)
  }

  /** No handles, no deleters, nothing deleted. */
  function Init<H, C>(): State<H, C>
  {
    State(map[], map[], [])
  }

  /** `UniquePtr()`, and the second half of `reset(nullptr)`: `h` holds (nullptr, nullptr). */
  function Empty<H, C>(s: State<H, C>, h: H, v: TypeTag): State<H, C>
    requires h !in s.handles
  {
    s.(handles := s.handles[h := Handle(v, Null, None)])
  }

  /** `UniquePtr(U *p)`, and the second half of `reset(U *p)`: `h` holds `p` and a new
      deleter `c` that captured `p` as a `U`, even when `p` is `nullptr`. */
  function Adopt<H, C>(s: State<H, C>, h: H, v: TypeTag, p: Ptr, u: TypeTag, c: C): State<H, C>
    requires h !in s.handles && c !in s.deleters
  {
    State(s.handles[h := Handle(v, p, Some(c))], s.deleters[c := Deleter(p, u)], s.log)
  }

  /** A move from `src` into `h`: `h` takes the pair of `src`, which is left (nullptr, nullptr). */
  function Take<H, C>(s: State<H, C>, h: H, v: TypeTag, src: H): State<H, C>
    requires h !in s.handles && src in s.handles
  {
    var hd := s.handles[src];
    s.(handles := s.handles[h := Handle(v, hd.ptr, hd.deleter)][src := Handle(hd.view, Null, None)])
  }

  /** `delete obj_deleter` by `h`, after which `h` no longer owns anything: the deleter
      goes, and with it the object, deleted through the `U*` the deleter captured. */
  function Dispose<H, C>(s: State<H, C>, h: H): State<H, C>
    requires h in s.handles
    requires s.handles[h].deleter.Some? ==> s.handles[h].deleter.value in s.deleters
  {
    var rest := s.handles - {h};
    match s.handles[h].deleter
    case None => s.(handles := rest)
    case Some(c) => State(rest, s.deleters - {c}, s.log + Delete(s.deleters[c].obj, s.deleters[c].tag))
  }

  /** A new handle adds its deleter, if any, to the held ones. */
  lemma HeldAdd<H, C>(handles: map<H, Handle<C>>, h: H, hd: Handle<C>)
    requires h !in handles
    ensures Held(handles[h := hd]) == Held(handles) + DeleterOf(hd)
  {
    var handles' := handles[h := hd];
    forall c | c in Held(handles') ensures c in Held(handles) + DeleterOf(hd) {
      var x :| x in handles' && handles'[x].deleter == Some(c);
      if x != h {
        assert handles[x].deleter == Some(c);
      }
    }
    forall c | c in Held(handles) + DeleterOf(hd) ensures c in Held(handles') {
      if c in Held(handles) {
        var x :| x in handles && handles[x].deleter == Some(c);
        assert handles'[x].deleter == Some(c);
      } else {
        assert handles'[h].deleter == Some(c);
      }
    }
  }

  /** Removing a handle removes its deleter, and no other, from the held ones. */
  lemma HeldRemove<H, C>(handles: map<H, Handle<C>>, h: H)
    requires h in handles && DeletersDistinct(handles)
    ensures Held(handles - {h}) == Held(handles) - DeleterOf(handles[h])
  {
    var handles' := handles - {h};
    forall c | c in Held(handles) - DeleterOf(handles[h]) ensures c in Held(handles') {
      var x :| x in handles && handles[x].deleter == Some(c);
      assert x != h && handles'[x].deleter == Some(c);
    }
  }

  lemma {:induction false} InitSound<H, C>()
    ensures Inv(Init<H, C>())
  {
    assert Held(Init<H, C>().handles) == {};
  }

  /** `UniquePtr()` keeps the invariant and changes nothing but the handles. */
  lemma {:induction false} EmptySound<H, C>(s: State<H, C>, h: H, v: TypeTag)
    requires Inv(s) && h !in s.handles
    ensures Inv(Empty(s, h, v))
    ensures Empty(s, h, v).deleters == s.deleters && Empty(s, h, v).log == s.log
  {
    var r := Empty(s, h, v);
    HeldAdd(s.handles, h, Handle(v, Null, None));
    forall h1, h2 | h1 in r.handles && h2 in r.handles && h1 != h2 && r.handles[h1].deleter.Some?
      ensures r.handles[h1].deleter != r.handles[h2].deleter
    {
      assert h1 != h;
    }
  }

  /** `UniquePtr(U *p)` keeps the invariant, given an adoptable `p`, and deletes nothing;
      the new deleter belongs to `h` alone. */
  lemma {:induction false} AdoptSound<H, C>(s: State<H, C>, h: H, v: TypeTag, p: Ptr, u: TypeTag, c: C)
    requires Inv(s) && h !in s.handles && c !in s.deleters && Adoptable(s, p)
    ensures Inv(Adopt(s, h, v, p, u, c))
    ensures Adopt(s, h, v, p, u, c).log == s.log
    ensures forall h' :: h' in s.handles ==> Adopt(s, h, v, p, u, c).handles[h'].deleter != Some(c)
  {
    var r := Adopt(s, h, v, p, u, c);
    HeldAdd(s.handles, h, Handle(v, p, Some(c)));
    assert HandlesAgree(r) by {
      forall h' | h' in r.handles ensures Agrees(r.deleters, r.handles[h']) {
        if h' != h {
          assert Agrees(s.deleters, s.handles[h']);
        }
      }
    }
    forall h' | h' in s.handles ensures r.handles[h'].deleter != Some(c) {
      assert Agrees(s.deleters, s.handles[h']);
    }
    assert DeletersDistinct(r.handles) by {
      forall h1, h2 | h1 in r.handles && h2 in r.handles && h1 != h2 && r.handles[h1].deleter.Some?
        ensures r.handles[h1].deleter != r.handles[h2].deleter
      {
        if h1 != h && h2 != h {
          assert s.handles[h1] == r.handles[h1] && s.handles[h2] == r.handles[h2];
        }
      }
    }
    assert DeletersLive(r) by {
      forall c' | c' in r.deleters ensures Live(r.log, r.deleters[c'].obj) {
        if c' != c {
          assert Live(s.log, s.deleters[c'].obj);
        }
      }
    }
  }

  /** A move keeps the invariant and changes nothing but the two handles: the deleter
      changes hands, so it still has exactly one owner. */
  lemma {:induction false} TakeSound<H, C>(s: State<H, C>, h: H, v: TypeTag, src: H)
    requires Inv(s) && h !in s.handles && src in s.handles
    ensures Inv(Take(s, h, v, src))
    ensures Take(s, h, v, src).deleters == s.deleters && Take(s, h, v, src).log == s.log
  {
    var r := Take(s, h, v, src);
    var hd := s.handles[src];
    assert HandlesAgree(r) by {
      forall h' | h' in r.handles ensures Agrees(r.deleters, r.handles[h']) {
        if h' == h {
          assert Agrees(s.deleters, hd);
        } else if h' != src {
          assert Agrees(s.deleters, s.handles[h']);
        }
      }
    }
    assert Held(r.handles) == Held(s.handles) by {
      forall c | c in Held(r.handles) ensures c in Held(s.handles) {
        var x :| x in r.handles && r.handles[x].deleter == Some(c);
        if x == h {
          assert s.handles[src].deleter == Some(c);
        } else {
          assert x != src && s.handles[x].deleter == Some(c);
        }
      }
      forall c | c in Held(s.handles) ensures c in Held(r.handles) {
        var x :| x in s.handles && s.handles[x].deleter == Some(c);
        if x == src {
          assert r.handles[h].deleter == Some(c);
        } else {
          assert r.handles[x].deleter == Some(c);
        }
      }
    }
    forall h1, h2 | h1 in r.handles && h2 in r.handles && h1 != h2 && r.handles[h1].deleter.Some?
      ensures r.handles[h1].deleter != r.handles[h2].deleter
    {
      var o1 := if h1 == h then src else h1;
      var o2 := if h2 == h then src else h2;
      assert h1 != src;
      if h2 != src {
        assert o1 != o2 && s.handles[o1].deleter == r.handles[h1].deleter;
        assert s.handles[o2].deleter == r.handles[h2].deleter;
      }
    }
  }

  /** `delete obj_deleter` keeps the invariant: the object is deleted at most once, and
      `h` is no longer a live owner. */
  lemma {:induction false} DisposeSound<H, C>(s: State<H, C>, h: H)
    requires Inv(s) && h in s.handles
    ensures Inv(Dispose(s, h))
    ensures Dispose(s, h).handles == s.handles - {h}
  {
    assert Agrees(s.deleters, s.handles[h]);
    var r := Dispose(s, h);
    HeldRemove(s.handles, h);
    match s.handles[h].deleter
    case None =>
      assert r.handles == s.handles - {h};
      assert HandlesAgree(r) by {
        forall h' | h' in r.handles ensures Agrees(r.deleters, r.handles[h']) {
          assert Agrees(s.deleters, s.handles[h']);
        }
      }
    case Some(c0) =>
      var d := s.deleters[c0];
      DeleteLive(s.log, d.obj, d.tag);
      assert HandlesAgree(r) by {
        forall h' | h' in r.handles ensures Agrees(r.deleters, r.handles[h']) {
          assert Agrees(s.deleters, s.handles[h']);
          assert h' != h && s.handles[h'].deleter != Some(c0);
        }
      }
      assert DeletersLive(r) by {
        forall c | c in r.deleters ensures Live(r.log, r.deleters[c].obj) {
          assert c != c0 && Live(s.log, s.deleters[c].obj);
        }
      }
  }

  /** What `delete obj_deleter` does: `h` stops holding its deleter; with no deleter nothing
      happens, otherwise exactly that deleter goes and its object is deleted as the type the
      deleter captured (nothing, when that object is `nullptr`). Adoptable pointers stay so. */
  lemma {:induction false} DisposeEffect<H, C>(s: State<H, C>, h: H)
    requires Inv(s) && h in s.handles
    ensures Held(Dispose(s, h).handles) == Held(s.handles) - DeleterOf(s.handles[h])
    ensures match s.handles[h].deleter
            case None => Dispose(s, h).deleters == s.deleters && Dispose(s, h).log == s.log
            case Some(c) => && Dispose(s, h).deleters == s.deleters - {c}
                            && Dispose(s, h).log == s.log + Delete(s.deleters[c].obj, s.deleters[c].tag)
    ensures forall p :: Adoptable(s, p) ==> Adoptable(Dispose(s, h), p)
  {
    assert Agrees(s.deleters, s.handles[h]);
    HeldRemove(s.handles, h);
    var r := Dispose(s, h);
    match s.handles[h].deleter
    case None =>
    case Some(c0) =>
      var d := s.deleters[c0];
      DeleteLive(s.log, d.obj, d.tag);
      forall p | Adoptable(s, p) ensures Adoptable(r, p) {
        if p != Null {
          assert d.obj != p;
        }
      }
  }

  /** `reset(U *p)` on `h`: delete the current deleter, then adopt `p` through the fresh
      deleter `c`. */
  function ResetTo<H, C>(s: State<H, C>, h: H, p: Ptr, u: TypeTag, c: C): (r: State<H, C>)
    requires Inv(s) && h in s.handles && c !in s.deleters && Adoptable(s, p)
    ensures Inv(r)
  {
    DisposeSound(s, h);
    DisposeEffect(s, h);
    var s1 := Dispose(s, h);
    AdoptSound(s1, h, s.handles[h].view, p, u, c);
    Adopt(s1, h, s.handles[h].view, p, u, c)
  }

  /** `reset(nullptr)` on `h`: delete the current deleter and become empty. */
  function ResetNull<H, C>(s: State<H, C>, h: H): (r: State<H, C>)
    requires Inv(s) && h in s.handles
    ensures Inv(r)
  {
    DisposeSound(s, h);
    var s1 := Dispose(s, h);
    EmptySound(s1, h, s.handles[h].view);
    Empty(s1, h, s.handles[h].view)
  }

  /** Move assignment of `src` into `h`, same `T` or converting: nothing when the access
      pointers are equal (`*this != p` is false); otherwise delete `h`'s deleter, then take
      over `src`'s pair and leave `src` empty. */
  function MoveAssign<H, C>(s: State<H, C>, h: H, src: H): (r: State<H, C>)
    requires Inv(s) && h in s.handles && src in s.handles
    ensures Inv(r)
  {
    if s.handles[h].ptr == s.handles[src].ptr then s
    else
      DisposeSound(s, h);
      var s1 := Dispose(s, h);
      TakeSound(s1, h, s.handles[h].view, src);
      Take(s1, h, s.handles[h].view, src)
  }

  /** After `reset(p)` every handle is still live, `h` alone owns `p` through the new
      deleter, which captured `p` as a `U`, and only the old deleter can have deleted
      anything. */
  lemma {:induction false} ResetToEffect<H, C>(s: State<H, C>, h: H, p: Ptr, u: TypeTag, c: C)
    requires Inv(s) && h in s.handles && c !in s.deleters && Adoptable(s, p)
    ensures ResetTo(s, h, p, u, c).handles.Keys == s.handles.Keys
    ensures forall h' :: h' in s.handles && h' != h ==> ResetTo(s, h, p, u, c).handles[h'] == s.handles[h']
    ensures ResetTo(s, h, p, u, c).handles[h] == Handle(s.handles[h].view, p, Some(c))
    ensures ResetTo(s, h, p, u, c).deleters[c] == Deleter(p, u)
    ensures forall h' :: h' in s.handles && h' != h ==> ResetTo(s, h, p, u, c).handles[h'].deleter != Some(c)
    ensures ResetTo(s, h, p, u, c).log == Dispose(s, h).log
  {
    DisposeSound(s, h);
    DisposeEffect(s, h);
    var s1 := Dispose(s, h);
    assert s1.handles.Keys == s.handles.Keys - {h};
    AdoptSound(s1, h, s.handles[h].view, p, u, c);
  }

  /** After `reset(nullptr)` every handle is still live and `h` is empty. */
  lemma {:induction false} ResetNullEffect<H, C>(s: State<H, C>, h: H)
    requires Inv(s) && h in s.handles
    ensures ResetNull(s, h).handles.Keys == s.handles.Keys
    ensures forall h' :: h' in s.handles && h' != h ==> ResetNull(s, h).handles[h'] == s.handles[h']
    ensures ResetNull(s, h).handles[h] == Handle(s.handles[h].view, Null, None)
    ensures ResetNull(s, h).log == Dispose(s, h).log
  {
    var s1 := Dispose(s, h);
    assert s1.handles == s.handles - {h};
    assert s1.handles.Keys == s.handles.Keys - {h};
  }

  /** A move assignment whose guard passes: every handle stays live, `h` holds what `src`
      held, `src` is empty, and only `h`'s old deleter can have deleted anything. */
  lemma {:induction false} MoveAssignEffect<H, C>(s: State<H, C>, h: H, src: H)
    requires Inv(s) && h in s.handles && src in s.handles
    requires s.handles[h].ptr != s.handles[src].ptr
    ensures MoveAssign(s, h, src).handles.Keys == s.handles.Keys
    ensures forall h' :: h' in s.handles && h' != h && h' != src ==> MoveAssign(s, h, src).handles[h'] == s.handles[h']
    ensures MoveAssign(s, h, src).handles[h] == Handle(s.handles[h].view, s.handles[src].ptr, s.handles[src].deleter)
    ensures MoveAssign(s, h, src).handles[src] == Handle(s.handles[src].view, Null, None)
    ensures MoveAssign(s, h, src).log == Dispose(s, h).log
  {
    var s1 := Dispose(s, h);
    assert s1.handles == s.handles - {h};
    assert s1.handles.Keys == s.handles.Keys - {h};
  }

  /** Two distinct live handles never share a non-null access pointer: each object has one
      owner. */
  lemma {:induction false} PointersUnique<H, C>(s: State<H, C>, h1: H, h2: H)
    requires Inv(s) && h1 in s.handles && h2 in s.handles && h1 != h2
    requires s.handles[h1].ptr == s.handles[h2].ptr
    ensures s.handles[h1].ptr == Null
  {
    assert Agrees(s.deleters, s.handles[h1]) && Agrees(s.deleters, s.handles[h2]);
  }

  /** The guard `*this != p` compares access pointers, not handles; it skips the move only
      for a self-assignment or between two null handles, where no object would change
      hands, and then nothing changes. */
  lemma {:induction false} MoveAssignSkip<H, C>(s: State<H, C>, h: H, src: H)
    requires Inv(s) && h in s.handles && src in s.handles
    requires s.handles[h].ptr == s.handles[src].ptr
    ensures MoveAssign(s, h, src) == s
    ensures h == src || (s.handles[h].ptr == Null && s.handles[src].ptr == Null)
  {
    if h != src {
      PointersUnique(s, h, src);
    }
  }

  /** A deleter built from a `U*` with `U == derived`, moved into a handle whose `T` is
      `base`, deletes the object as a `derived` when that base handle lets go, and leaves
      the moved-from handle empty. */
  lemma {:induction false} DeletedAsConstructionType<H, C>(s: State<H, C>, h1: H, h2: H, c: C,
                                                         a: nat, derived: TypeTag, base: TypeTag)
    requires Inv(s) && h1 !in s.handles && h2 !in s.handles && h1 != h2 && c !in s.deleters
    requires Adoptable(s, Addr(a)) && derived != base
    ensures var s1 := Adopt(s, h1, derived, Addr(a), derived, c);
            var s2 := Take(s1, h2, base, h1);
            && s2.handles[h1] == Handle(derived, Null, None)
            && s2.handles[h2] == Handle(base, Addr(a), Some(c))
            && Dispose(s2, h2).log == s.log + [Deletion(a, derived)]
  {
    var s1 := Adopt(s, h1, derived, Addr(a), derived, c);
    AdoptSound(s, h1, derived, Addr(a), derived, c);
    TakeSound(s1, h2, base, h1);
  }
}
