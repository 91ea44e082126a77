/** Raw pointers, type tags and the record of `delete` expressions that both handle
    families share. A managed object is an abstract address; the C++ types that the
    templates range over are abstract tags. */
module Memory {

  datatype Option<T> = None | Some(value: T)

  /** Stands for a C++ type: the `T` of a handle or the `U` captured by a control block
      or deleter cell. */
  type TypeTag = nat

  /** The value of a raw pointer: `nullptr` or the address of a heap object. */
  datatype Ptr = Null | Addr(addr: nat)

  /** One run of `delete q` on a non-null `q` of static type `dtor`: the object at
      `addr` was destroyed by the destructor of `dtor`. */
  datatype Deletion = Deletion(addr: nat, dtor: TypeTag)

  /** What `delete q` records for a pointer `q` of static type `u`: deleting `nullptr`
      does nothing, any other pointer destroys its object as a `u`. */
  function Delete(q: Ptr, u: TypeTag): (d: seq<Deletion>)
    ensures |d| <= 1
    ensures d == [] <==> q == Null
    ensures forall e :: e in d ==> e.dtor == u && q == Addr(e.addr)
  {
    match q
    case Null => []
    case Addr(a) => [Deletion(a, u)]
  }

  /** The addresses whose objects a log says were destroyed. */
  ghost function Destroyed(log: seq<Deletion>): set<nat>
  {
    set e | e in log :: e.addr
  }

  /** No object is destroyed twice. */
  ghost predicate NoDoubleDelete(log: seq<Deletion>)
  {
    forall i, j :: 0 <= i < j < |log| ==> log[i].addr != log[j].addr
  }

  /** The object `q` points to (if any) has not been destroyed. */
  ghost predicate Live(log: seq<Deletion>, q: Ptr)
  {
    q == Null || q.addr !in Destroyed(log)
  }

  /** Deleting a live object keeps the log free of double deletions, and afterwards that
      object, and no other, is no longer live. */
  lemma {:induction false} DeleteLive(log: seq<Deletion>, q: Ptr, u: TypeTag)
    requires NoDoubleDelete(log) && Live(log, q)
    ensures NoDoubleDelete(log + Delete(q, u))
    ensures q != Null ==> !Live(log + Delete(q, u), q)
    ensures forall q' :: q' != q ==> (Live(log + Delete(q, u), q') <==> Live(log, q'))
  {
    var log' := log + Delete(q, u);
    if q != Null {
      assert log' == log + [Deletion(q.addr, u)];
      forall i, j | 0 <= i < j < |log'| ensures log'[i].addr != log'[j].addr {
        if j == |log| {
          assert log[i] in log;
        }
      }
      assert Destroyed(log') == Destroyed(log) + {q.addr} by {
        forall a | a in Destroyed(log') ensures a in Destroyed(log) + {q.addr} {
          var e :| e in log' && e.addr == a;
          if e in log { } else { assert e == Deletion(q.addr, u); }
        }
      }
    } else {
      assert log' == log;
    }
  }
}
