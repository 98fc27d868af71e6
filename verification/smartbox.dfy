/**
 The move-only, type-erased owner of one heap value (`ctx::SmartBox`).

 The held type, the raw pointer and the captured deleter are abstracted
 away: a box either owns one allocation, identified by a value of `A`, or
 owns nothing. A `Heap` gathers every box alive at one moment (by name),
 every allocation ever made through `create`, and the ordered record of
 deleter calls, so that single ownership can be stated and proved:
 no allocation is owned twice, none is deleted twice, and none is lost.
 */
module SmartBox {

  datatype Box<A> = Empty | Full(alloc: A)

  /** The boxes alive at one moment, the allocations made so far, and the deleter calls made so far, in order. */
  datatype Heap<N, A> = Heap(boxes: map<N, Box<A>>, created: set<A>, deleted: seq<A>)

  /** The allocations currently owned by some box. */
  function Held<N(==), A(==)>(h: Heap<N, A>): set<A>
  {
    set n | n in h.boxes && h.boxes[n].Full? :: h.boxes[n].alloc
  }

  /** Each allocation is deleted at most once. */
  predicate NoDoubleDelete<A(==)>(deleted: seq<A>)
  {
    forall i, j :: 0 <= i < j < |deleted| ==> deleted[i] != deleted[j]
  }

  /** No two live boxes own the same allocation. */
  predicate SingleOwner<N(==), A(==)>(h: Heap<N, A>)
  {
    forall n, m :: n in h.boxes && m in h.boxes && n != m && h.boxes[n].Full? && h.boxes[m].Full? ==>
      h.boxes[n].alloc != h.boxes[m].alloc
  }

  /**
   The ownership discipline: single owners, no double delete, no owned
   allocation already deleted, and every allocation ever made is either
   still owned or has been deleted (nothing leaks).
   */
  predicate Sound<N(==), A(==)>(h: Heap<N, A>)
  {
    && SingleOwner(h)
    && NoDoubleDelete(h.deleted)
    && (forall n :: n in h.boxes && h.boxes[n].Full? ==> h.boxes[n].alloc !in h.deleted)
    && h.created == Held(h) + set a | a in h.deleted
  }

  /** The heap before any box exists. */
  function EmptyHeap<N(==), A(==)>(): (h: Heap<N, A>)
    ensures Sound(h)
    ensures Held(h) == {}
  {
    Heap(map[], {}, [])
  }

  /**
   `try_destroy` on one box: if it owns an allocation the deleter runs on
   it once and the box becomes empty; on an empty box nothing happens.
   Returns the box afterwards and the extended deleter record.
   */
  function TryDestroyBox<A(==)>(b: Box<A>, deleted: seq<A>): (r: (Box<A>, seq<A>))
    ensures r.0 == Empty
    ensures b.Empty? ==> r.1 == deleted
    ensures b.Full? ==> r.1 == deleted + [b.alloc]
  {
    match b
    case Empty => (Empty, deleted)
    case Full(a) => (Empty, deleted + [a])
  }

  /** The default constructor `SmartBox()`: a new box named `n` that owns nothing. */
  function NewEmpty<N(==), A(==)>(h: Heap<N, A>, n: N): (h': Heap<N, A>)
    requires n !in h.boxes
    ensures n in h'.boxes && h'.boxes[n] == Empty
    ensures h'.boxes.Keys == h.boxes.Keys + {n}
    ensures forall k :: k in h.boxes && k != n ==> h'.boxes[k] == h.boxes[k]
    ensures Held(h') == Held(h) && h'.created == h.created && h'.deleted == h.deleted
  {
    var h' := h.(boxes := h.boxes[n := Empty]);
    assert Held(h') == Held(h) by {
      forall x | x in Held(h') ensures x in Held(h) {
        var k :| k in h'.boxes && h'.boxes[k].Full? && h'.boxes[k].alloc == x;
        assert k != n;
      }
      forall x | x in Held(h) ensures x in Held(h') {
        var k :| k in h.boxes && h.boxes[k].Full? && h.boxes[k].alloc == x;
        assert k != n && h'.boxes[k] == h.boxes[k];
        assert h'.boxes[k].alloc == x;
      }
    }
    h'
  }

  /**
   `SmartBox::create<T>(args...)`: a fresh allocation `a` (never handed
   out before) is placed in a new box named `n`; no deleter runs.
   */
  function Create<N(==), A(==)>(h: Heap<N, A>, n: N, a: A): (h': Heap<N, A>)
    requires n !in h.boxes
    requires a !in h.created
    ensures n in h'.boxes && h'.boxes[n] == Full(a)
    ensures h'.boxes.Keys == h.boxes.Keys + {n}
    ensures forall k :: k in h.boxes && k != n ==> h'.boxes[k] == h.boxes[k]
    ensures Held(h') == Held(h) + {a}
    ensures h'.created == h.created + {a} && h'.deleted == h.deleted
  {
    var h' := Heap(h.boxes[n := Full(a)], h.created + {a}, h.deleted);
    assert Held(h') == Held(h) + {a} by {
      forall x | x in Held(h') ensures x in Held(h) + {a} {
        var k :| k in h'.boxes && h'.boxes[k].Full? && h'.boxes[k].alloc == x;
        if k != n {
          assert x in Held(h);
        }
      }
      forall x | x in Held(h) ensures x in Held(h') {
        var k :| k in h.boxes && h.boxes[k].Full? && h.boxes[k].alloc == x;
        assert k != n && h'.boxes[k] == h.boxes[k];
        assert h'.boxes[k].alloc == x;
      }
      assert a in Held(h') by {
        assert h'.boxes[n] == Full(a);
      }
    }
    h'
  }

  /**
   The move constructor `SmartBox(SmartBox&& other)`: a new box `dst`
   takes over whatever `src` owned and `src` becomes empty; no deleter runs.
   */
  function MoveConstruct<N(==), A(==)>(h: Heap<N, A>, dst: N, src: N): (h': Heap<N, A>)
    requires src in h.boxes && dst !in h.boxes
    ensures dst in h'.boxes && src in h'.boxes
    ensures h'.boxes[dst] == h.boxes[src]
    ensures h'.boxes[src] == Empty
    ensures h'.boxes.Keys == h.boxes.Keys + {dst}
    ensures forall k :: k in h.boxes && k != dst && k != src ==> h'.boxes[k] == h.boxes[k]
    ensures Held(h') == Held(h)
    ensures h'.created == h.created && h'.deleted == h.deleted
  {
    var h' := h.(boxes := h.boxes[dst := h.boxes[src]][src := Empty]);
    assert Held(h') == Held(h) by {
      forall x | x in Held(h') ensures x in Held(h) {
        var k :| k in h'.boxes && h'.boxes[k].Full? && h'.boxes[k].alloc == x;
        if k == dst {
          assert h.boxes[src].alloc == x;
        } else {
          assert h.boxes[k] == h'.boxes[k];
        }
      }
      forall x | x in Held(h) ensures x in Held(h') {
        var k :| k in h.boxes && h.boxes[k].Full? && h.boxes[k].alloc == x;
        if k == src {
          assert h'.boxes[dst].alloc == x;
        } else {
          assert h'.boxes[k] == h.boxes[k];
        }
      }
    }
    h'
  }

  /**
   The move assignment `operator=(SmartBox&& other)`. Assigning a box to
   itself changes nothing. Otherwise the target first releases what it
   owned (one deleter call if it was full), then takes over what `src`
   owned, and `src` becomes empty.
   */
  function MoveAssign<N(==), A(==)>(h: Heap<N, A>, dst: N, src: N): (h': Heap<N, A>)
    requires dst in h.boxes && src in h.boxes
    ensures h'.boxes.Keys == h.boxes.Keys && h'.created == h.created
    ensures dst == src ==> h' == h
    ensures dst != src ==> h'.boxes[dst] == h.boxes[src] && h'.boxes[src] == Empty
    ensures dst != src ==> h'.deleted == TryDestroyBox(h.boxes[dst], h.deleted).1
    ensures forall k :: k in h.boxes && k != dst && k != src ==> h'.boxes[k] == h.boxes[k]
  {
    if dst == src then h
    else
      var released := TryDestroyBox(h.boxes[dst], h.deleted);
      Heap(h.boxes[dst := h.boxes[src]][src := Empty], h.created, released.1)
  }

  /** `try_destroy` on the box named `n`, which stays alive and empty. */
  function TryDestroy<N(==), A(==)>(h: Heap<N, A>, n: N): (h': Heap<N, A>)
    requires n in h.boxes
    ensures n in h'.boxes && h'.boxes[n] == Empty
    ensures h'.boxes.Keys == h.boxes.Keys && h'.created == h.created
    ensures forall k :: k in h.boxes && k != n ==> h'.boxes[k] == h.boxes[k]
    ensures h.boxes[n].Full? ==> h'.deleted == h.deleted + [h.boxes[n].alloc]
    ensures h.boxes[n].Empty? ==> h' == h
  {
    assert h.boxes[n].Empty? ==> h.boxes[n := Empty] == h.boxes;
    Heap(h.boxes[n := Empty], h.created, TryDestroyBox(h.boxes[n], h.deleted).1)
  }

  /** The destructor `~SmartBox()`: `try_destroy`, then the box named `n` ceases to exist. */
  function Drop<N(==), A(==)>(h: Heap<N, A>, n: N): (h': Heap<N, A>)
    requires n in h.boxes
    ensures h'.boxes == h.boxes - {n} && h'.created == h.created
    ensures h'.deleted == TryDestroyBox(h.boxes[n], h.deleted).1
  {
    var d := TryDestroy(h, n);
    d.(boxes := d.boxes - {n})
  }

  // ---------------------------------------------------------------------
  // Properties of single operations
  // ---------------------------------------------------------------------

  /** `try_destroy` calls the deleter exactly once on a full box and never on an empty one. */
  lemma TryDestroyCallsDeleterAtMostOnce<N, A>(h: Heap<N, A>, n: N)
    requires n in h.boxes
    ensures h.boxes[n].Full? ==> TryDestroy(h, n).deleted == h.deleted + [h.boxes[n].alloc]
    ensures h.boxes[n].Empty? ==> TryDestroy(h, n) == h
    ensures |TryDestroy(h, n).deleted| <= |h.deleted| + 1
  {
    if h.boxes[n].Empty? {
      assert h.boxes[n := Empty] == h.boxes;
    }
  }

  /** A second `try_destroy` on the same box is a no-op. */
  lemma TryDestroyTwiceIsOnce<N, A>(h: Heap<N, A>, n: N)
    requires n in h.boxes
    ensures TryDestroy(TryDestroy(h, n), n) == TryDestroy(h, n)
  {
    var h1 := TryDestroy(h, n);
    assert h1.boxes[n := Empty] == h1.boxes;
  }

  /** Moving out of a box leaves it empty, and a destructor run on it afterwards deletes nothing. */
  lemma MovedFromBoxDropsNothing<N, A>(h: Heap<N, A>, dst: N, src: N)
    requires src in h.boxes && dst !in h.boxes
    ensures Drop(MoveConstruct(h, dst, src), src).deleted == h.deleted
    ensures Drop(MoveConstruct(h, dst, src), src).boxes[dst] == h.boxes[src]
  {
  }

  /**
   Move assignment into a full box runs the deleter on the target's old
   allocation, exactly once, before the move; in a sound heap that
   allocation is then owned by no box at all.
   */
  lemma MoveAssignReleasesTarget<N, A>(h: Heap<N, A>, dst: N, src: N)
    requires Sound(h)
    requires dst in h.boxes && src in h.boxes && dst != src
    requires h.boxes[dst].Full?
    ensures MoveAssign(h, dst, src).deleted == h.deleted + [h.boxes[dst].alloc]
    ensures h.boxes[dst].alloc !in Held(MoveAssign(h, dst, src))
  {
  }

  // ---------------------------------------------------------------------
  // Every operation keeps the ownership discipline
  // ---------------------------------------------------------------------

  lemma NewEmptyKeepsSound<N, A>(h: Heap<N, A>, n: N)
    requires Sound(h) && n !in h.boxes
    ensures Sound(NewEmpty(h, n))
  {
  }

  lemma CreateKeepsSound<N, A>(h: Heap<N, A>, n: N, a: A)
    requires Sound(h) && n !in h.boxes && a !in h.created
    ensures Sound(Create(h, n, a))
  {
    var h' := Create(h, n, a);
    forall k | k in h.boxes && h.boxes[k].Full?
      ensures h.boxes[k].alloc != a
    {
      assert h.boxes[k].alloc in Held(h);
    }
  }

  lemma MoveConstructKeepsSound<N, A>(h: Heap<N, A>, dst: N, src: N)
    requires Sound(h) && src in h.boxes && dst !in h.boxes
    ensures Sound(MoveConstruct(h, dst, src))
  {
    var h' := MoveConstruct(h, dst, src);
    forall n, m | n in h'.boxes && m in h'.boxes && n != m && h'.boxes[n].Full? && h'.boxes[m].Full?
      ensures h'.boxes[n].alloc != h'.boxes[m].alloc
    {
      var n0 := if n == dst then src else n;
      var m0 := if m == dst then src else m;
      assert h'.boxes[n] == h.boxes[n0] && h'.boxes[m] == h.boxes[m0];
    }
  }

  lemma MoveAssignKeepsSound<N, A>(h: Heap<N, A>, dst: N, src: N)
    requires Sound(h) && dst in h.boxes && src in h.boxes
    ensures Sound(MoveAssign(h, dst, src))
  {
    if dst != src {
      var h' := MoveAssign(h, dst, src);
      // Where each live box's content came from.
      forall n, m | n in h'.boxes && m in h'.boxes && n != m && h'.boxes[n].Full? && h'.boxes[m].Full?
        ensures h'.boxes[n].alloc != h'.boxes[m].alloc
      {
        var n0 := if n == dst then src else n;
        var m0 := if m == dst then src else m;
        assert h'.boxes[n] == h.boxes[n0] && h'.boxes[m] == h.boxes[m0];
      }
      var gone := if h.boxes[dst].Full? then {h.boxes[dst].alloc} else {};
      assert Held(h') == Held(h) - gone by {
        forall x | x in Held(h') ensures x in Held(h) - gone {
          var k :| k in h'.boxes && h'.boxes[k].Full? && h'.boxes[k].alloc == x;
          var k0 := if k == dst then src else k;
          assert h.boxes[k0] == h'.boxes[k];
          assert k0 != dst;
        }
        forall x | x in Held(h) - gone ensures x in Held(h') {
          var k :| k in h.boxes && h.boxes[k].Full? && h.boxes[k].alloc == x;
          if k == src {
            assert h'.boxes[dst].alloc == x;
          } else {
            assert k != dst;
            assert h'.boxes[k] == h.boxes[k];
          }
        }
      }
      if h.boxes[dst].Full? {
        var a := h.boxes[dst].alloc;
        assert a in Held(h);
        assert h'.deleted == h.deleted + [a];
        assert (set x | x in h'.deleted) == (set x | x in h.deleted) + {a};
      }
    }
  }

  lemma TryDestroyKeepsSound<N, A>(h: Heap<N, A>, n: N)
    requires Sound(h) && n in h.boxes
    ensures Sound(TryDestroy(h, n))
  {
    var h' := TryDestroy(h, n);
    var gone := if h.boxes[n].Full? then {h.boxes[n].alloc} else {};
    assert Held(h') == Held(h) - gone by {
      forall x | x in Held(h') ensures x in Held(h) - gone {
        var k :| k in h'.boxes && h'.boxes[k].Full? && h'.boxes[k].alloc == x;
        assert k != n && h.boxes[k] == h'.boxes[k];
      }
      forall x | x in Held(h) - gone ensures x in Held(h') {
        var k :| k in h.boxes && h.boxes[k].Full? && h.boxes[k].alloc == x;
        assert k != n && h'.boxes[k] == h.boxes[k];
      }
    }
    if h.boxes[n].Full? {
      var a := h.boxes[n].alloc;
      assert a in Held(h);
      assert (set x | x in h'.deleted) == (set x | x in h.deleted) + {a};
    }
  }

  lemma DropKeepsSound<N, A>(h: Heap<N, A>, n: N)
    requires Sound(h) && n in h.boxes
    ensures Sound(Drop(h, n))
  {
    TryDestroyKeepsSound(h, n);
    var d := TryDestroy(h, n);
    var h' := Drop(h, n);
    assert Held(h') == Held(d) by {
      forall x | x in Held(d) ensures x in Held(h') {
        var k :| k in d.boxes && d.boxes[k].Full? && d.boxes[k].alloc == x;
        assert k != n && h'.boxes[k] == d.boxes[k];
        assert h'.boxes[k].alloc == x;
      }
    }
  }
}
