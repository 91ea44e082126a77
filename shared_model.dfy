/** The shared-ownership family (`SharedPtr<T>` with `ControlBlock<U>`) as a pure state
    machine: which handles exist, what each one holds, which control blocks are alive
    with which reference count, and which objects have been deleted, and as which type.

    Handles and blocks are identified by values of the type parameters `H` and `B`; the
    class model in module Shared instantiates them with the heap objects themselves. */
module SharedModel {
  import opened Memory

  /** The two fields of a `SharedPtr<T>`, plus its `T`: the access pointer `ptr` and the
      control block `ctrl_blk_ptr` (`None` for `nullptr`). */
  datatype Handle<B> = Handle(view: TypeTag, ptr: Ptr, ctrl: Option<B>)

  /** What a live `ControlBlock<U>` captured when it was built: the `U*` and its `U`. */
  datatype Block = Block(obj: Ptr, tag: TypeTag)

  /** Every live handle, every live control block with its `ref_count`, and every `delete`
      run so far. */
  datatype State<H, B> = State(handles: map<H, Handle<B>>, blocks: map<B, Block>, counts: map<B, int>,
                               log: seq<Deletion>)

  /** The live handles whose control block is `b`. */
  ghost function Holders<H, B>(handles: map<H, Handle<B>>, b: B): set<H>
  {
    set h | h in handles && handles[h].ctrl == Some(b)
  }

  /** A handle either is empty, or holds a live block and points at the block's object. */
  ghost predicate Agrees<B>(blocks: map<B, Block>, hd: Handle<B>)
  {
    match hd.ctrl
    case None => hd.ptr == Null
    case Some(b) => b in blocks && hd.ptr == blocks[b].obj
  }

  /** The reference-counting invariant: each live block's `ref_count` is the number of
      live handles that hold it and is at least 1; no handle holds a deleted block; the
      objects of live blocks are distinct and not yet deleted; and nothing was deleted twice. */
  ghost predicate Inv<H, B>(s: State<H, B>)
  {
    && HandlesAgree(s)
    && CountsExact(s)
    && BlocksLive(s)
    && ObjectsDistinct(s.blocks)
    && NoDoubleDelete(s.log)
  }

  /** No live handle holds a deleted block, and each points at its block's object. */
  ghost predicate HandlesAgree<H, B>(s: State<H, B>)
  {
    forall h :: h in s.handles ==> Agrees(s.blocks, s.handles[h])
  }

  /** Each live block's `ref_count` is the number of live handles holding it, and at least 1. */
  ghost predicate CountsExact<H, B>(s: State<H, B>)
  {
    s.counts.Keys == s.blocks.Keys && Exact(s.handles, s.counts)
  }

  ghost predicate Exact<H, B>(handles: map<H, Handle<B>>, counts: map<B, int>)
  {
    forall b {:trigger Count(handles, b)} :: b in counts ==> counts[b] == Count(handles, b) && counts[b] >= 1
  }

  /** How many live handles hold `b`. */
  ghost function Count<H, B>(handles: map<H, Handle<B>>, b: B): nat
  {
    |Holders(handles, b)|
  }

  /** The object of every live block is still alive. */
  ghost predicate BlocksLive<H, B>(s: State<H, B>)
  {
    forall b :: b in s.blocks ==> Live(s.log, s.blocks[b].obj)
  }

  /** No two live blocks own the same object. */
  ghost predicate ObjectsDistinct<B>(blocks: map<B, Block>)
  {
    forall b, b' :: b in blocks && b' in blocks && b != b' && blocks[b].obj != Null ==> blocks[b].obj != blocks[b'].obj
  }

  /** What the caller of `SharedPtr(U *p)` and `reset(U *p)` must supply: `nullptr`, or a
      live object that no control block owns yet. */
  ghost predicate Adoptable<H, B>(s: State<H, B>, p: Ptr)
  {
    Live(s.log, p) && (p != Null ==> forall b :: b in s.blocks ==> s.blocks[b].obj != p)
  }

  /** No handles, no blocks, nothing deleted. */
  function Init<H, B>(): State<H, B>
  {
    State(map[], map[], map[], [])
  }

  /** `SharedPtr()`: the new handle `h` holds (nullptr, nullptr). */
  function Empty<H, B>(s: State<H, B>, h: H, v: TypeTag): State<H, B>
    requires h !in s.handles
  {
    s.(handles := s.handles[h := Handle(v, Null, None)])
  }

  /** `SharedPtr(U *p)`, and the second half of `reset(U *p)`: `h` holds `p` and a new
      block `b` with count 1 that captured `p` as a `U`. */
  function Adopt<H, B>(s: State<H, B>, h: H, v: TypeTag, p: Ptr, u: TypeTag, b: B): State<H, B>
    requires h !in s.handles && b !in s.blocks
  {
    State(s.handles[h := Handle(v, p, Some(b))], s.blocks[b := Block(p, u)], s.counts[b := 1], s.log)
  }

  /** Copying `src` into `h` followed by `increment(src)`: `h` holds the pair of `src` and
      that block's count goes up by one. */
  function Share<H, B>(s: State<H, B>, h: H, v: TypeTag, src: H): State<H, B>
    requires h !in s.handles && src in s.handles
    requires s.handles[src].ctrl.Some? ==> s.handles[src].ctrl.value in s.counts
  {
    var hd := s.handles[src];
    var counts := match hd.ctrl
      case None => s.counts
      case Some(b) => s.counts[b := s.counts[b] + 1];
    s.(handles := s.handles[h := Handle(v, hd.ptr, hd.ctrl)], counts := counts)
  }

  /** A move from `src` into `h`: `h` takes the pair of `src`, which is left (nullptr, nullptr). */
  function Take<H, B>(s: State<H, B>, h: H, v: TypeTag, src: H): State<H, B>
    requires h !in s.handles && src in s.handles
  {
    var hd := s.handles[src];
    s.(handles := s.handles[h := Handle(v, hd.ptr, hd.ctrl)][src := Handle(hd.view, Null, None)])
  }

  /** `decrement()` of `h`, after which `h` no longer counts as an owner: its block's count
      goes down by one, and when it reaches 0 the block is deleted, which deletes the object
      through the `U*` the block captured. */
  function Release<H, B>(s: State<H, B>, h: H): State<H, B>
    requires h in s.handles
    requires s.handles[h].ctrl.Some? ==> s.handles[h].ctrl.value in s.blocks && s.handles[h].ctrl.value in s.counts
  {
    var rest := s.handles - {h};
    match s.handles[h].ctrl
    case None => s.(handles := rest)
    case Some(b) =>
      var n := s.counts[b] - 1;
      if n == 0 then State(rest, s.blocks - {b}, s.counts - {b}, s.log + Delete(s.blocks[b].obj, s.blocks[b].tag))
      else s.(handles := rest, counts := s.counts[b := n])
  }

  /** Giving handle `h` the contents `hd` changes only whether `h` holds a block. */
  lemma HoldersUpdate<H, B>(handles: map<H, Handle<B>>, h: H, hd: Handle<B>, b: B)
    ensures hd.ctrl == Some(b) ==> Holders(handles[h := hd], b) == Holders(handles, b) - {h} + {h}
    ensures hd.ctrl != Some(b) ==> Holders(handles[h := hd], b) == Holders(handles, b) - {h}
  {
  }

  lemma HoldersRemove<H, B>(handles: map<H, Handle<B>>, h: H, b: B)
    ensures Holders(handles - {h}, b) == Holders(handles, b) - {h}
  {
  }

  /** A set with two different members has at least two elements. */
  lemma TwoMembers<T>(s: set<T>, x: T, y: T)
    requires x in s && y in s && x != y
    ensures |s| >= 2
  {
    var t := s - {x};
    assert s == t + {x};
    assert y in t;
  }

  /** In a consistent state no handle holds a block that is not live. */
  lemma NoHoldersOutside<H, B>(s: State<H, B>, b: B)
    requires HandlesAgree(s) && b !in s.blocks
    ensures Holders(s.handles, b) == {}
  {
    forall h' | h' in s.handles ensures s.handles[h'].ctrl != Some(b) {
      assert Agrees(s.blocks, s.handles[h']);
    }
  }

  /** Counts stay exact when no block's holders change. */
  lemma ExactUnchanged<H, B>(handles: map<H, Handle<B>>, handles': map<H, Handle<B>>, counts: map<B, int>)
    requires Exact(handles, counts)
    requires forall b :: Holders(handles', b) == Holders(handles, b)
    ensures Exact(handles', counts)
  {
    forall b | b in counts ensures counts[b] == Count(handles', b) && counts[b] >= 1 {
      assert counts[b] == Count(handles, b);
    }
  }

  /** Counts stay exact when `h` joins the holders of `b0` and that count goes up by one. */
  lemma ExactJoin<H, B>(handles: map<H, Handle<B>>, handles': map<H, Handle<B>>, counts: map<B, int>, h: H, b0: B)
    requires Exact(handles, counts) && b0 in counts && h !in Holders(handles, b0)
    requires Holders(handles', b0) == Holders(handles, b0) + {h}
    requires forall b :: b != b0 ==> Holders(handles', b) == Holders(handles, b)
    ensures Exact(handles', counts[b0 := counts[b0] + 1])
  {
    var counts' := counts[b0 := counts[b0] + 1];
    forall b | b in counts' ensures counts'[b] == Count(handles', b) && counts'[b] >= 1 {
      assert counts[b] == Count(handles, b);
    }
  }

  /** Counts stay exact when `h` leaves the holders of `b0` and that count goes down by one,
      as long as someone else still holds `b0`. */
  lemma ExactLeave<H, B>(handles: map<H, Handle<B>>, handles': map<H, Handle<B>>, counts: map<B, int>, h: H, b0: B)
    requires Exact(handles, counts) && b0 in counts && h in Holders(handles, b0)
    requires Holders(handles, b0) != {h}
    requires Holders(handles', b0) == Holders(handles, b0) - {h}
    requires forall b :: b != b0 ==> Holders(handles', b) == Holders(handles, b)
    ensures Exact(handles', counts[b0 := counts[b0] - 1])
  {
    var held := Holders(handles, b0);
    var other :| other in held && other != h;
    TwoMembers(held, h, other);
    var counts' := counts[b0 := counts[b0] - 1];
    forall b | b in counts' ensures counts'[b] == Count(handles', b) && counts'[b] >= 1 {
      assert counts[b] == Count(handles, b);
    }
  }

  /** Counts stay exact when the last holder of `b0` leaves and `b0` goes. */
  lemma ExactDrop<H, B>(handles: map<H, Handle<B>>, handles': map<H, Handle<B>>, counts: map<B, int>, b0: B)
    requires Exact(handles, counts)
    requires forall b :: b != b0 ==> Holders(handles', b) == Holders(handles, b)
    ensures Exact(handles', counts - {b0})
  {
    forall b | b in counts - {b0} ensures counts[b] == Count(handles', b) && counts[b] >= 1 {
      assert counts[b] == Count(handles, b);
    }
  }

  lemma InitSound<H, B>()
    ensures Inv(Init<H, B>())
  {
  }

  /** The default constructor keeps the invariant and touches no block. */
  lemma {:induction false} EmptySound<H, B>(s: State<H, B>, h: H, v: TypeTag)
    requires Inv(s) && h !in s.handles
    ensures Inv(Empty(s, h, v))
    ensures Empty(s, h, v).blocks == s.blocks && Empty(s, h, v).counts == s.counts
    ensures Empty(s, h, v).log == s.log
  {
    var r := Empty(s, h, v);
    forall b ensures Holders(r.handles, b) == Holders(s.handles, b) {
      HoldersUpdate(s.handles, h, Handle(v, Null, None), b);
    }
    ExactUnchanged(s.handles, r.handles, s.counts);
  }

  /** Adopting a raw pointer keeps the invariant (the fresh block's count 1 is exact) and
      deletes nothing. */
  lemma {:induction false} AdoptSound<H, B>(s: State<H, B>, h: H, v: TypeTag, p: Ptr, u: TypeTag, b: B)
    requires Inv(s) && h !in s.handles && b !in s.blocks && Adoptable(s, p)
    ensures Inv(Adopt(s, h, v, p, u, b))
    ensures Adopt(s, h, v, p, u, b).log == s.log
  {
    var r := Adopt(s, h, v, p, u, b);
    AdoptHolders(s, h, v, p, u, b);
    AdoptAgrees(s, h, v, p, u, b);
    assert Exact(r.handles, r.counts) by {
      ExactDrop(s.handles, r.handles, s.counts, b);
      assert s.counts - {b} == s.counts;
    }
    assert BlocksLive(r);
    assert ObjectsDistinct(r.blocks);
  }

  /** After adopting, `h` alone holds the fresh block and no other block's holders change. */
  lemma AdoptHolders<H, B>(s: State<H, B>, h: H, v: TypeTag, p: Ptr, u: TypeTag, b: B)
    requires HandlesAgree(s) && h !in s.handles && b !in s.blocks
    ensures Holders(Adopt(s, h, v, p, u, b).handles, b) == {h}
    ensures forall b' :: b' != b ==> Holders(Adopt(s, h, v, p, u, b).handles, b') == Holders(s.handles, b')
  {
    var r := Adopt(s, h, v, p, u, b);
    NoHoldersOutside(s, b);
    forall b' ensures b' != b ==> Holders(r.handles, b') == Holders(s.handles, b') {
      HoldersUpdate(s.handles, h, Handle(v, p, Some(b)), b');
    }
    HoldersUpdate(s.handles, h, Handle(v, p, Some(b)), b);
  }

  lemma AdoptAgrees<H, B>(s: State<H, B>, h: H, v: TypeTag, p: Ptr, u: TypeTag, b: B)
    requires HandlesAgree(s) && h !in s.handles && b !in s.blocks
    ensures HandlesAgree(Adopt(s, h, v, p, u, b))
  {
    var r := Adopt(s, h, v, p, u, b);
    forall h' | h' in r.handles ensures Agrees(r.blocks, r.handles[h']) {
      if h' != h {
        assert Agrees(s.blocks, s.handles[h']);
      }
    }
  }

  /** A copy keeps the invariant -- the count that rises by one is exact again -- and
      neither creates nor deletes a block. */
  lemma {:induction false} ShareSound<H, B>(s: State<H, B>, h: H, v: TypeTag, src: H)
    requires Inv(s) && h !in s.handles && src in s.handles
    ensures Inv(Share(s, h, v, src))
    ensures Share(s, h, v, src).blocks == s.blocks && Share(s, h, v, src).log == s.log
  {
    assert Agrees(s.blocks, s.handles[src]);
    ShareHolders(s, h, v, src);
    ShareAgrees(s, h, v, src);
    var r := Share(s, h, v, src);
    match s.handles[src].ctrl
    case None =>
      ExactUnchanged(s.handles, r.handles, s.counts);
    case Some(b0) =>
      ExactJoin(s.handles, r.handles, s.counts, h, b0);
  }

  /** A copy adds the new handle to the holders of the source's block, and to no other. */
  lemma ShareHolders<H, B>(s: State<H, B>, h: H, v: TypeTag, src: H)
    requires HandlesAgree(s) && h !in s.handles && src in s.handles && Agrees(s.blocks, s.handles[src])
    requires s.handles[src].ctrl.Some? ==> s.handles[src].ctrl.value in s.counts
    ensures match s.handles[src].ctrl
      case None => true
      case Some(b0) => h !in Holders(s.handles, b0) &&
                       Holders(Share(s, h, v, src).handles, b0) == Holders(s.handles, b0) + {h}
    ensures forall b :: s.handles[src].ctrl != Some(b) ==>
              Holders(Share(s, h, v, src).handles, b) == Holders(s.handles, b)
  {
    var hd := s.handles[src];
    var r := Share(s, h, v, src);
    forall b ensures hd.ctrl != Some(b) ==> Holders(r.handles, b) == Holders(s.handles, b) {
      HoldersUpdate(s.handles, h, Handle(v, hd.ptr, hd.ctrl), b);
    }
    if hd.ctrl.Some? {
      HoldersUpdate(s.handles, h, Handle(v, hd.ptr, hd.ctrl), hd.ctrl.value);
    }
  }

  lemma ShareAgrees<H, B>(s: State<H, B>, h: H, v: TypeTag, src: H)
    requires HandlesAgree(s) && h !in s.handles && src in s.handles && Agrees(s.blocks, s.handles[src])
    requires s.handles[src].ctrl.Some? ==> s.handles[src].ctrl.value in s.counts
    ensures HandlesAgree(Share(s, h, v, src))
  {
    var r := Share(s, h, v, src);
    forall h' | h' in r.handles ensures Agrees(r.blocks, r.handles[h']) {
      if h' != h {
        assert Agrees(s.blocks, s.handles[h']);
      }
    }
  }

  /** A move keeps the invariant with no count changing, and deletes nothing. */
  lemma {:induction false} TakeSound<H, B>(s: State<H, B>, h: H, v: TypeTag, src: H)
    requires Inv(s) && h !in s.handles && src in s.handles
    ensures Inv(Take(s, h, v, src))
    ensures Take(s, h, v, src).blocks == s.blocks && Take(s, h, v, src).counts == s.counts
    ensures Take(s, h, v, src).log == s.log
  {
    var r := Take(s, h, v, src);
    TakeHolders(s, h, v, src);
    TakeAgrees(s, h, v, src);
    match s.handles[src].ctrl
    case None =>
      ExactUnchanged(s.handles, r.handles, s.counts);
    case Some(b0) =>
      assert Count(r.handles, b0) == Count(s.handles, b0);
      forall b | b in r.counts ensures r.counts[b] == Count(r.handles, b) && r.counts[b] >= 1 {
        assert s.counts[b] == Count(s.handles, b);
      }
  }

  /** A move puts the target in the source's place among the holders of the source's
      block, and changes no other block's holders. */
  lemma TakeHolders<H, B>(s: State<H, B>, h: H, v: TypeTag, src: H)
    requires h !in s.handles && src in s.handles
    ensures match s.handles[src].ctrl
      case None => true
      case Some(b0) => src in Holders(s.handles, b0) && h !in Holders(s.handles, b0) &&
                       Holders(Take(s, h, v, src).handles, b0) == Holders(s.handles, b0) - {src} + {h}
    ensures forall b :: s.handles[src].ctrl != Some(b) ==>
              Holders(Take(s, h, v, src).handles, b) == Holders(s.handles, b)
  {
    var r := Take(s, h, v, src);
    var hd := s.handles[src];
    var mid := s.handles[h := Handle(v, hd.ptr, hd.ctrl)];
    forall b ensures hd.ctrl != Some(b) ==> Holders(r.handles, b) == Holders(s.handles, b) {
      HoldersUpdate(s.handles, h, Handle(v, hd.ptr, hd.ctrl), b);
      HoldersUpdate(mid, src, Handle(hd.view, Null, None), b);
    }
    if hd.ctrl.Some? {
      var b0 := hd.ctrl.value;
      HoldersUpdate(s.handles, h, Handle(v, hd.ptr, hd.ctrl), b0);
      HoldersUpdate(mid, src, Handle(hd.view, Null, None), b0);
      assert src in Holders(s.handles, b0);
    }
  }

  lemma TakeAgrees<H, B>(s: State<H, B>, h: H, v: TypeTag, src: H)
    requires HandlesAgree(s) && h !in s.handles && src in s.handles
    ensures HandlesAgree(Take(s, h, v, src))
  {
    var r := Take(s, h, v, src);
    forall h' | h' in r.handles ensures Agrees(r.blocks, r.handles[h']) {
      if h' == h {
        assert Agrees(s.blocks, s.handles[src]);
      } else if h' != src {
        assert Agrees(s.blocks, s.handles[h']);
      }
    }
  }

  /** Releasing `h` keeps the invariant, and `h` is no longer a live handle. */
  lemma {:induction false} ReleaseSound<H, B>(s: State<H, B>, h: H)
    requires Inv(s) && h in s.handles
    ensures Inv(Release(s, h))
    ensures Release(s, h).handles == s.handles - {h}
  {
    var r := Release(s, h);
    forall b ensures Holders(r.handles, b) == Holders(s.handles, b) - {h} {
      HoldersRemove(s.handles, h, b);
    }
    assert Agrees(s.blocks, s.handles[h]);
    match s.handles[h].ctrl
    case None =>
      ReleaseEmpty(s, h, r);
    case Some(b0) =>
      if Holders(s.handles, b0) == {h} {
        ReleaseLast(s, h, b0, r);
      } else {
        ReleaseShared(s, h, b0, r);
      }
  }

  /** What releasing `h` does: `h` leaves every holder set; its block is deleted -- and with
      it its object, through the type the block captured at construction -- exactly when
      `h` was its last holder; no other block is deleted; and whatever could be adopted
      before still can. */
  lemma {:induction false} ReleaseEffect<H, B>(s: State<H, B>, h: H)
    requires Inv(s) && h in s.handles
    ensures forall b :: Holders(Release(s, h).handles, b) == Holders(s.handles, b) - {h}
    ensures match s.handles[h].ctrl
      case None => Release(s, h).blocks == s.blocks && Release(s, h).log == s.log
      case Some(b) =>
        && (forall b' :: b' != b ==> (b' in Release(s, h).blocks <==> b' in s.blocks))
        && (b in Release(s, h).blocks <==> Holders(s.handles, b) != {h})
        && Release(s, h).log ==
             s.log + (if Holders(s.handles, b) == {h} then Delete(s.blocks[b].obj, s.blocks[b].tag) else [])
    ensures forall p :: Adoptable(s, p) ==> Adoptable(Release(s, h), p)
  {
    var r := Release(s, h);
    forall b ensures Holders(r.handles, b) == Holders(s.handles, b) - {h} {
      HoldersRemove(s.handles, h, b);
    }
    assert Agrees(s.blocks, s.handles[h]);
    match s.handles[h].ctrl
    case None =>
    case Some(b0) =>
      if Holders(s.handles, b0) == {h} {
        ReleaseLast(s, h, b0, r);
      } else {
        ReleaseShared(s, h, b0, r);
      }
  }

  /** `decrement()` on an empty handle changes no block. */
  lemma ReleaseEmpty<H, B>(s: State<H, B>, h: H, r: State<H, B>)
    requires Inv(s) && h in s.handles && s.handles[h].ctrl == None && r == Release(s, h)
    requires forall b :: Holders(r.handles, b) == Holders(s.handles, b) - {h}
    ensures Inv(r)
  {
    assert forall b :: h !in Holders(s.handles, b);
    assert HandlesAgree(r) by {
      forall h' | h' in r.handles ensures Agrees(r.blocks, r.handles[h']) {
        assert Agrees(s.blocks, s.handles[h']);
      }
    }
    ExactUnchanged(s.handles, r.handles, s.counts);
  }

  /** `decrement()` by the last holder: the count reaches 0, the block goes, and its object
      is deleted as the block's captured type. */
  lemma ReleaseLast<H, B>(s: State<H, B>, h: H, b0: B, r: State<H, B>)
    requires Inv(s) && h in s.handles && s.handles[h].ctrl == Some(b0) && r == Release(s, h)
    requires Holders(s.handles, b0) == {h}
    requires forall b :: Holders(r.handles, b) == Holders(s.handles, b) - {h}
    ensures Inv(r)
    ensures r.blocks == s.blocks - {b0}
    ensures r.log == s.log + Delete(s.blocks[b0].obj, s.blocks[b0].tag)
    ensures forall p :: Adoptable(s, p) ==> Adoptable(r, p)
  {
    assert Agrees(s.blocks, s.handles[h]);
    var blk := s.blocks[b0];
    assert s.counts[b0] == Count(s.handles, b0) == 1;
    DeleteLive(s.log, blk.obj, blk.tag);
    assert HandlesAgree(r) by {
      forall h' | h' in r.handles ensures Agrees(r.blocks, r.handles[h']) {
        assert Agrees(s.blocks, s.handles[h']);
        assert h' != h && h' !in Holders(s.handles, b0);
      }
    }
    assert BlocksLive(r) by {
      forall b | b in r.blocks ensures Live(r.log, r.blocks[b].obj) {
        assert b != b0 && Live(s.log, s.blocks[b].obj);
      }
    }
    forall b | b != b0 ensures Holders(r.handles, b) == Holders(s.handles, b) {
      assert h !in Holders(s.handles, b);
    }
    ExactDrop(s.handles, r.handles, s.counts, b0);
    forall p | Adoptable(s, p) ensures Adoptable(r, p) {
      if p != Null {
        assert blk.obj != p;
      }
    }
  }

  /** `decrement()` while other handles still hold the block: the count drops by one and
      nothing is deleted. */
  lemma ReleaseShared<H, B>(s: State<H, B>, h: H, b0: B, r: State<H, B>)
    requires Inv(s) && h in s.handles && s.handles[h].ctrl == Some(b0) && r == Release(s, h)
    requires Holders(s.handles, b0) != {h}
    requires forall b :: Holders(r.handles, b) == Holders(s.handles, b) - {h}
    ensures Inv(r)
    ensures r.blocks == s.blocks && r.log == s.log
  {
    assert Agrees(s.blocks, s.handles[h]);
    assert h in Holders(s.handles, b0);
    var other :| other in Holders(s.handles, b0) && other != h;
    TwoMembers(Holders(s.handles, b0), h, other);
    assert s.counts[b0] == Count(s.handles, b0) >= 2;
    forall b | b != b0 ensures Holders(r.handles, b) == Holders(s.handles, b) {
      assert h !in Holders(s.handles, b);
    }
    ExactLeave(s.handles, r.handles, s.counts, h, b0);
    assert HandlesAgree(r) by {
      forall h' | h' in r.handles ensures Agrees(r.blocks, r.handles[h']) {
        assert Agrees(s.blocks, s.handles[h']);
      }
    }
  }

  /** `reset(U *p)` on `h`: release the current block, then adopt `p` through the fresh
      block `b`. */
  function ResetTo<H, B>(s: State<H, B>, h: H, p: Ptr, u: TypeTag, b: B): (r: State<H, B>)
    requires Inv(s) && h in s.handles && b !in s.blocks && Adoptable(s, p)
    ensures Inv(r)
  {
    ReleaseSound(s, h);
    ReleaseEffect(s, h);
    var s1 := Release(s, h);
    AdoptSound(s1, h, s.handles[h].view, p, u, b);
    Adopt(s1, h, s.handles[h].view, p, u, b)
  }

  /** `reset(nullptr)` on `h`: release the current block and become empty. */
  function ResetNull<H, B>(s: State<H, B>, h: H): (r: State<H, B>)
    requires Inv(s) && h in s.handles
    ensures Inv(r)
  {
    ReleaseSound(s, h);
    var s1 := Release(s, h);
    EmptySound(s1, h, s.handles[h].view);
    Empty(s1, h, s.handles[h].view)
  }

  /** Move assignment of `src` into `h`: nothing when they are the same handle; otherwise
      release `h`'s block, then take over `src`'s pair and leave `src` empty. */
  function MoveAssign<H, B>(s: State<H, B>, h: H, src: H): (r: State<H, B>)
    requires Inv(s) && h in s.handles && src in s.handles
    ensures Inv(r)
  {
    if h == src then s
    else
      ReleaseSound(s, h);
      var s1 := Release(s, h);
      TakeSound(s1, h, s.handles[h].view, src);
      Take(s1, h, s.handles[h].view, src)
  }

  /** Copy assignment of `src` into `h`: nothing when they are the same handle; otherwise
      release `h`'s block, then share `src`'s pair. */
  function CopyAssign<H, B>(s: State<H, B>, h: H, src: H): (r: State<H, B>)
    requires Inv(s) && h in s.handles && src in s.handles
    ensures Inv(r)
  {
    if h == src then s
    else
      ReleaseSound(s, h);
      var s1 := Release(s, h);
      ShareSound(s1, h, s.handles[h].view, src);
      Share(s1, h, s.handles[h].view, src)
  }

  /** After `reset(p)` every handle is still live, `h` alone owns `p` through the new
      block, and only the release of the old block can have deleted anything. */
  lemma {:induction false} ResetToEffect<H, B>(s: State<H, B>, h: H, p: Ptr, u: TypeTag, b: B)
    requires Inv(s) && h in s.handles && b !in s.blocks && Adoptable(s, p)
    ensures ResetTo(s, h, p, u, b).handles.Keys == s.handles.Keys
    ensures forall h' :: h' in s.handles && h' != h ==> ResetTo(s, h, p, u, b).handles[h'] == s.handles[h']
    ensures ResetTo(s, h, p, u, b).handles[h] == Handle(s.handles[h].view, p, Some(b))
    ensures Holders(ResetTo(s, h, p, u, b).handles, b) == {h}
    ensures ResetTo(s, h, p, u, b).log == Release(s, h).log
  {
    var s1 := Release(s, h);
    assert s1.handles == s.handles - {h};
    assert s1.handles.Keys == s.handles.Keys - {h};
    var r := Adopt(s1, h, s.handles[h].view, p, u, b);
    assert ResetTo(s, h, p, u, b) == r;
    assert r.handles.Keys == s1.handles.Keys + {h};
    NoHoldersOutside(s, b);
    HoldersRemove(s.handles, h, b);
    HoldersUpdate(s1.handles, h, Handle(s.handles[h].view, p, Some(b)), b);
  }

  /** After `reset(nullptr)` every handle is still live and `h` is empty. */
  lemma {:induction false} ResetNullEffect<H, B>(s: State<H, B>, h: H)
    requires Inv(s) && h in s.handles
    ensures ResetNull(s, h).handles.Keys == s.handles.Keys
    ensures forall h' :: h' in s.handles && h' != h ==> ResetNull(s, h).handles[h'] == s.handles[h']
    ensures ResetNull(s, h).handles[h] == Handle(s.handles[h].view, Null, None)
    ensures forall b :: h !in Holders(ResetNull(s, h).handles, b)
    ensures ResetNull(s, h).log == Release(s, h).log
  {
    var s1 := Release(s, h);
    assert s1.handles == s.handles - {h};
    assert s1.handles.Keys == s.handles.Keys - {h};
  }

  /** A move assignment between distinct handles: every handle stays live, `h` holds what
      `src` held, `src` is empty, and only the release of `h`'s old block can have deleted
      anything. */
  lemma {:induction false} MoveAssignEffect<H, B>(s: State<H, B>, h: H, src: H)
    requires Inv(s) && h in s.handles && src in s.handles && h != src
    ensures MoveAssign(s, h, src).handles.Keys == s.handles.Keys
    ensures forall h' :: h' in s.handles && h' != h && h' != src ==> MoveAssign(s, h, src).handles[h'] == s.handles[h']
    ensures MoveAssign(s, h, src).handles[h] == Handle(s.handles[h].view, s.handles[src].ptr, s.handles[src].ctrl)
    ensures MoveAssign(s, h, src).handles[src] == Handle(s.handles[src].view, Null, None)
    ensures MoveAssign(s, h, src).log == Release(s, h).log
  {
    var s1 := Release(s, h);
    assert s1.handles == s.handles - {h};
    assert s1.handles.Keys == s.handles.Keys - {h};
  }

  /** A copy assignment between distinct handles: every handle stays live, `h` holds what
      `src` holds, `src` is unchanged, and only the release of `h`'s old block can have
      deleted anything. */
  lemma {:induction false} CopyAssignEffect<H, B>(s: State<H, B>, h: H, src: H)
    requires Inv(s) && h in s.handles && src in s.handles && h != src
    ensures CopyAssign(s, h, src).handles.Keys == s.handles.Keys
    ensures forall h' :: h' in s.handles && h' != h && h' != src ==> CopyAssign(s, h, src).handles[h'] == s.handles[h']
    ensures CopyAssign(s, h, src).handles[h] == Handle(s.handles[h].view, s.handles[src].ptr, s.handles[src].ctrl)
    ensures CopyAssign(s, h, src).handles[src] == s.handles[src]
    ensures CopyAssign(s, h, src).log == Release(s, h).log
  {
    var s1 := Release(s, h);
    assert s1.handles == s.handles - {h};
    assert s1.handles.Keys == s.handles.Keys - {h};
  }

  /** Self-assignment, by copy or by move, changes nothing: the guard `this != &p` keeps a
      handle from releasing the block it is about to take. */
  lemma {:induction false} SelfAssignNoop<H, B>(s: State<H, B>, h: H)
    requires Inv(s) && h in s.handles
    ensures MoveAssign(s, h, h) == s && CopyAssign(s, h, h) == s
  {
  }

  /** Two live handles with the same non-null access pointer hold the same block: `==`
      between handles decides ownership of one object, not just address equality. */
  lemma {:induction false} SamePointerSameBlock<H, B>(s: State<H, B>, h1: H, h2: H)
    requires Inv(s) && h1 in s.handles && h2 in s.handles
    requires s.handles[h1].ptr == s.handles[h2].ptr != Null
    ensures s.handles[h1].ctrl == s.handles[h2].ctrl
  {
    assert Agrees(s.blocks, s.handles[h1]) && Agrees(s.blocks, s.handles[h2]);
  }

  /** A block built from a `U*` with `U == derived`, copied into a handle whose `T` is
      `base`, is deleted as a `derived` when that base handle is the last to let go. */
  lemma {:induction false} DeletedAsConstructionType<H, B>(s: State<H, B>, h1: H, h2: H, b: B,
                                                         a: nat, derived: TypeTag, base: TypeTag)
    requires Inv(s) && h1 !in s.handles && h2 !in s.handles && h1 != h2 && b !in s.blocks
    requires Adoptable(s, Addr(a)) && derived != base
    ensures var s1 := Adopt(s, h1, derived, Addr(a), derived, b);
            var s2 := Share(s1, h2, base, h1);
            var s3 := Release(s2, h1);
            && h2 in s3.handles && s3.handles[h2].view == base
            && Release(s3, h2).log == s.log + [Deletion(a, derived)]
  {
    var s1 := Adopt(s, h1, derived, Addr(a), derived, b);
    AdoptSound(s, h1, derived, Addr(a), derived, b);
    AdoptHolders(s, h1, derived, Addr(a), derived, b);
    var s2 := Share(s1, h2, base, h1);
    ShareSound(s1, h2, base, h1);
    ShareHolders(s1, h2, base, h1);
    assert Holders(s2.handles, b) == {h1, h2};
    var s3 := Release(s2, h1);
    ReleaseSound(s2, h1);
    ReleaseEffect(s2, h1);
    assert Holders(s3.handles, b) == {h2};
    ReleaseEffect(s3, h2);
  }
}
