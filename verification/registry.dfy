/**
 The entity/component store `ctx::Registry`: its state, the structural
 invariant tying its maps together, and the lifecycle operations
 `entity`, `add`, `emplace`, `get`, `remove`, `destroy` and `count`.

 Component type identities (`std::type_index`) are the type parameter `C`,
 component values the type parameter `V`. The owned `SmartBox` in each
 storage slot always holds a value while it sits in the registry, so a slot
 is modelled by the value itself; a value the registry lets go of is
 reported in the operation's result as "released" (its deleter runs).
 */
module Registry {

  /** An entity identifier. The source uses `uint64_t`; the model never wraps. */
  type EntityId = nat

  datatype Option<T> = None | Some(value: T)

  /**
   The four members of the registry: per entity, its storage bucket
   (`m_data`) and the set of component types ever attached (`m_pool`); per
   component type, the entities holding a live value of it (`m_valids`); and
   the next identifier to hand out (`m_counter`).
   */
  datatype Registry<C, V> = Registry(
    data: map<EntityId, map<C, V>>,
    pool: map<EntityId, set<C>>,
    valids: map<C, set<EntityId>>,
    counter: EntityId)

  /** `m_valids[c]`: `operator[]` default-inserts, so a type never indexed reads as the empty set. */
  function Valids<C, V>(r: Registry<C, V>, c: C): (s: set<EntityId>)
    ensures c !in r.valids ==> s == {}
  {
    if c in r.valids then r.valids[c] else {}
  }

  /**
   The empty set `operator[]` default-inserts for a type never indexed is
   invisible: every index reads the same afterwards.
   */
  lemma DefaultInsertIsInvisible<C, V>(r: Registry<C, V>, c: C)
    requires c !in r.valids
    ensures forall d :: Valids(r.(valids := r.valids[c := {}]), d) == Valids(r, d)
  {
  }

  /** `valid(entity_id)`: the entity has been issued and not destroyed. */
  predicate Valid<C, V>(r: Registry<C, V>, e: EntityId)
    ensures Valid(r, e) && Inv(r) ==> 0 < e < r.counter && e in r.data
  {
    e in r.pool
  }

  /** `valid(entity_id, component_id)`: the entity is valid and holds a live (not removed) `c`. */
  predicate ValidComponent<C, V>(r: Registry<C, V>, e: EntityId, c: C)
    ensures ValidComponent(r, e, c) ==> Valid(r, e)
    ensures ValidComponent(r, e, c) && Inv(r) ==> c in r.pool[e] && c in r.data[e]
  {
    e in r.pool && e in Valids(r, c)
  }

  /**
   The structural invariant every reachable registry keeps: the counter is
   past every issued id and never 0; storage buckets exist exactly for the
   entities of the pool, and each bucket's slots are exactly the types in
   the entity's pool entry; an entity indexed under a type is alive and has
   that type in its pool entry. The converse of the last clause does not
   hold: a removed component leaves its slot and pool entry behind.
   */
  predicate Inv<C, V>(r: Registry<C, V>)
  {
    && r.counter >= 1
    && r.data.Keys == r.pool.Keys
    && (forall e :: e in r.pool ==> 0 < e < r.counter)
    && (forall e :: e in r.data ==> r.data[e].Keys == r.pool[e])
    && (forall c, e :: c in r.valids && e in r.valids[c] ==> e in r.pool && c in r.pool[e])
  }

  /** `count()`: the number of live entities, whatever components they hold. */
  function Count<C, V>(r: Registry<C, V>): (n: nat)
    ensures n == 0 <==> forall e :: !Valid(r, e)
  {
    assert r.pool.Keys != {} ==> exists e :: Valid(r, e) by {
      if r.pool.Keys != {} {
        var e :| e in r.pool.Keys;
        assert Valid(r, e);
      }
    }
    |r.pool|
  }

  /** The identifiers `entity()` can have issued before the counter reached `n`. */
  ghost function Issuable(n: nat): (s: set<EntityId>)
    ensures forall e :: e in s <==> 0 < e < n
    ensures |s| == if n == 0 then 0 else n - 1
  {
    if n <= 1 then {} else Issuable(n - 1) + {n - 1}
  }

  lemma {:induction false} SubsetSize<T>(a: set<T>, b: set<T>)
    requires a <= b
    ensures |a| <= |b|
  {
    if a != {} {
      var x :| x in a;
      SubsetSize(a - {x}, b - {x});
    }
  }

  /** Under the invariant there are fewer live entities than the counter: `count()` never exceeds the ids issued. */
  lemma CountBelowCounter<C, V>(r: Registry<C, V>)
    requires Inv(r)
    ensures Count(r) < r.counter
  {
    var ids := Issuable(r.counter);
    assert r.pool.Keys <= ids;
    SubsetSize(r.pool.Keys, ids);
    assert |r.pool| == |r.pool.Keys|;
  }

  /** `Registry::create()`: an empty registry whose counter starts at 1. */
  function Create<C(!new), V>(): (r: Registry<C, V>)
    ensures Inv(r)
    ensures Count(r) == 0
    ensures forall c :: Valids(r, c) == {}
    ensures r.counter == 1
  {
    Registry(map[], map[], map[], 1)
  }

  // ---------------------------------------------------------------------
  // entity()
  // ---------------------------------------------------------------------

  datatype Issued<C, V> = Issued(reg: Registry<C, V>, id: EntityId)

  /**
   `entity()`: hands out the current counter value and increments it,
   installing an empty pool entry and an empty storage bucket for the new
   id (`operator[]`, which leaves an existing entry as it is).
   */
  function NewEntity<C(!new), V>(r: Registry<C, V>): (res: Issued<C, V>)
    ensures res.id == r.counter && res.reg.counter == r.counter + 1
    ensures Valid(res.reg, res.id) && res.id in res.reg.data
    ensures res.reg.pool.Keys == r.pool.Keys + {res.id}
    ensures res.reg.data.Keys == r.data.Keys + {res.id}
    ensures forall e :: e in r.pool ==> res.reg.pool[e] == r.pool[e]
    ensures forall e :: e in r.data ==> res.reg.data[e] == r.data[e]
    ensures forall c :: Valids(res.reg, c) == Valids(r, c)
    ensures res.id !in r.pool ==> res.reg.pool[res.id] == {}
    ensures res.id !in r.data ==> res.reg.data[res.id] == map[]
  {
    var id := r.counter;
    var pool := if id in r.pool then r.pool else r.pool[id := {}];
    var data := if id in r.data then r.data else r.data[id := map[]];
    Issued(Registry(data, pool, r.valids, id + 1), id)
  }

  /**
   On a registry that keeps the invariant, `entity()` issues a nonzero id
   that no live entity has, and installs empty buckets for it.
   */
  lemma NewEntityFresh<C(!new), V>(r: Registry<C, V>)
    requires Inv(r)
    ensures NewEntity(r).id > 0 && !Valid(r, NewEntity(r).id)
    ensures NewEntity(r).reg.pool == r.pool[NewEntity(r).id := {}]
    ensures NewEntity(r).reg.data == r.data[NewEntity(r).id := map[]]
  {
    assert r.counter !in r.pool && r.counter !in r.data;
  }

  /** On a registry that keeps the invariant, `entity()` raises `count()` by exactly one. */
  lemma NewEntityRaisesCount<C(!new), V>(r: Registry<C, V>)
    requires Inv(r)
    ensures Count(NewEntity(r).reg) == Count(r) + 1
  {
    NewEntityFresh(r);
  }

  /** `entity()` keeps the invariant. */
  lemma NewEntityKeepsInv<C(!new), V>(r: Registry<C, V>)
    requires Inv(r)
    ensures Inv(NewEntity(r).reg)
  {
    NewEntityFresh(r);
    var res := NewEntity(r);
    var id, r' := res.id, res.reg;
    assert r'.valids == r.valids;
    forall e | e in r'.data ensures r'.data[e].Keys == r'.pool[e] {
      if e != id {
        assert r'.data[e] == r.data[e] && r'.pool[e] == r.pool[e];
      }
    }
  }

  // ---------------------------------------------------------------------
  // add / emplace
  // ---------------------------------------------------------------------

  /**
   The outcome of attaching a component: the new registry, the value the
   returned reference designates, and the freshly built value when it was
   not kept (its box is destroyed on the spot).
   */
  datatype Attached<C, V> = Attached(reg: Registry<C, V>, stored: V, released: Option<V>)

  /** Whether the entity's bucket already has a slot for `c`, live or removed. */
  predicate HasSlot<C, V>(r: Registry<C, V>, e: EntityId, c: C)
  {
    e in r.data && c in r.data[e]
  }

  /**
   `add(entity_id, arg)`: requires a valid entity. The boxed value goes into
   the bucket through `unordered_map::emplace`, which keeps an existing slot:
   when the entity already has a `c` slot (even a removed one) the old value
   stays, the returned reference designates it, and the new value is
   released. Either way the entity gets `c` in its pool entry and is indexed
   under `c`. Nothing about any other entity changes.
   */
  function Add<C(!new), V>(r: Registry<C, V>, e: EntityId, c: C, v: V): (res: Attached<C, V>)
    requires Valid(r, e)
    ensures ValidComponent(res.reg, e, c)
    ensures c in res.reg.pool[e] && HasSlot(res.reg, e, c)
    ensures res.stored == res.reg.data[e][c]
    ensures HasSlot(r, e, c) ==> res.stored == r.data[e][c] && res.released == Some(v)
    ensures !HasSlot(r, e, c) ==> res.stored == v && res.released == None
    ensures forall d :: d != c && HasSlot(r, e, d) ==> HasSlot(res.reg, e, d) && res.reg.data[e][d] == r.data[e][d]
    ensures res.reg.pool[e] == r.pool[e] + {c}
    ensures res.reg.data[e].Keys == (if e in r.data then r.data[e].Keys else {}) + {c}
    ensures res.reg.pool.Keys == r.pool.Keys && res.reg.data.Keys == r.data.Keys + {e}
    ensures forall x :: x in r.pool && x != e ==> res.reg.pool[x] == r.pool[x]
    ensures forall x :: x in r.data && x != e ==> res.reg.data[x] == r.data[x]
    ensures forall d :: Valids(res.reg, d) == if d == c then Valids(r, d) + {e} else Valids(r, d)
    ensures res.reg.counter == r.counter
  {
    var bucket := if e in r.data then r.data[e] else map[];
    var kept := c in bucket;
    var bucket' := if kept then bucket else bucket[c := v];
    var reg := Registry(
      r.data[e := bucket'],
      r.pool[e := r.pool[e] + {c}],
      r.valids[c := Valids(r, c) + {e}],
      r.counter);
    Attached(reg, bucket'[c], if kept then Some(v) else None)
  }

  /** `add` keeps the invariant and does not change `count()`. */
  lemma AddKeepsInv<C(!new), V>(r: Registry<C, V>, e: EntityId, c: C, v: V)
    requires Inv(r) && Valid(r, e)
    ensures Inv(Add(r, e, c, v).reg)
    ensures Count(Add(r, e, c, v).reg) == Count(r)
  {
    var r' := Add(r, e, c, v).reg;
    assert r'.pool.Keys == r.pool.Keys;
    forall x | x in r'.data ensures r'.data[x].Keys == r'.pool[x] {
      if x != e {
        assert r'.data[x] == r.data[x] && r'.pool[x] == r.pool[x];
      }
    }
    forall d, x | d in r'.valids && x in r'.valids[d] ensures x in r'.pool && d in r'.pool[x] {
      assert x in Valids(r', d);
      if d != c || x != e {
        assert x in Valids(r, d);
      }
    }
  }

  /**
   `emplace<T>(entity_id, args...)`: constructs the value from `args` with
   the component type's constructor `make`, then behaves exactly as `add`
   of that value (including keeping an existing slot and releasing the new
   value).
   */
  function Emplace<C(!new), V, A>(r: Registry<C, V>, e: EntityId, c: C, make: A -> V, args: A): (res: Attached<C, V>)
    requires Valid(r, e)
    ensures res == Add(r, e, c, make(args))
    ensures !HasSlot(r, e, c) ==> res.stored == make(args) && res.released == None
    ensures HasSlot(r, e, c) ==> res.stored == r.data[e][c] && res.released == Some(make(args))
    ensures ValidComponent(res.reg, e, c)
  {
    Add(r, e, c, make(args))
  }

  // ---------------------------------------------------------------------
  // get / remove / destroy
  // ---------------------------------------------------------------------

  /**
   `get<T>(entity_id)`: requires a valid entity holding a live `c`, and
   designates its stored value. On a registry that keeps the invariant the
   slot is guaranteed to exist.
   */
  function Get<C, V>(r: Registry<C, V>, e: EntityId, c: C): (v: V)
    requires Inv(r) && Valid(r, e) && ValidComponent(r, e, c)
    ensures HasSlot(r, e, c) && v == r.data[e][c]
  {
    r.data[e][c]
  }

  /**
   `remove<T>(entity_id)`: requires a valid entity holding a live `c`, and
   only erases the entity from the `c` index. The storage slot, the value in
   it and the pool entry stay until `destroy` (a tombstone).
   */
  function Remove<C(!new), V>(r: Registry<C, V>, e: EntityId, c: C): (r': Registry<C, V>)
    requires Valid(r, e) && ValidComponent(r, e, c)
    ensures !ValidComponent(r', e, c)
    ensures Valids(r', c) == Valids(r, c) - {e}
    ensures forall d :: d != c ==> Valids(r', d) == Valids(r, d)
    ensures r'.data == r.data && r'.pool == r.pool && r'.counter == r.counter
    ensures Inv(r) ==> Inv(r')
  {
    r.(valids := r.valids[c := r.valids[c] - {e}])
  }

  /** The index after `destroy`'s loop: `e` erased from the set of every type in its pool entry. */
  function Unindex<C, V>(r: Registry<C, V>, e: EntityId, types: set<C>): (valids: map<C, set<EntityId>>)
    ensures forall c :: c in types ==> c in valids && valids[c] == Valids(r, c) - {e}
    ensures forall c :: c !in types && c in r.valids ==> c in valids && valids[c] == r.valids[c]
    ensures valids.Keys == r.valids.Keys + types
  {
    map c | c in r.valids.Keys + types :: if c in types then Valids(r, c) - {e} else r.valids[c]
  }

  datatype Destroyed<C, V> = Destroyed(reg: Registry<C, V>, released: map<C, V>)

  /**
   `destroy(entity_id)`: requires a valid entity. Drops its whole storage
   bucket (every value in it is released, removed ones included), erases
   the entity from the index of every type in its pool entry, and drops the
   pool entry. The counter does not go back, so the id is never reissued.
   */
  function Destroy<C(!new), V>(r: Registry<C, V>, e: EntityId): (res: Destroyed<C, V>)
    requires Valid(r, e)
    ensures !Valid(res.reg, e) && e !in res.reg.data
    ensures forall c :: c in r.pool[e] ==> e !in Valids(res.reg, c)
    ensures res.reg.pool == r.pool - {e} && res.reg.data == r.data - {e}
    ensures forall c, x :: x != e ==> (x in Valids(res.reg, c) <==> x in Valids(r, c))
    ensures res.reg.counter == r.counter
    ensures e in r.data ==> res.released == r.data[e]
  {
    var released := if e in r.data then r.data[e] else map[];
    var reg := Registry(r.data - {e}, r.pool - {e}, Unindex(r, e, r.pool[e]), r.counter);
    Destroyed(reg, released)
  }

  /**
   On a registry that keeps the invariant, `destroy` releases exactly the
   slots of the types in the entity's pool entry and leaves the entity in
   no index at all.
   */
  lemma DestroyUnindexesEverywhere<C(!new), V>(r: Registry<C, V>, e: EntityId)
    requires Inv(r) && Valid(r, e)
    ensures Destroy(r, e).released.Keys == r.pool[e]
    ensures forall c :: e !in Valids(Destroy(r, e).reg, c)
  {
    var r' := Destroy(r, e).reg;
    forall c ensures e !in Valids(r', c) {
      if c !in r.pool[e] && c in r.valids {
        assert e !in r.valids[c];
      }
    }
  }

  /** `destroy` lowers `count()` by exactly one. */
  lemma DestroyLowersCount<C(!new), V>(r: Registry<C, V>, e: EntityId)
    requires Valid(r, e)
    ensures Count(Destroy(r, e).reg) == Count(r) - 1
  {
    var pool' := Destroy(r, e).reg.pool;
    assert r.pool == pool'[e := r.pool[e]];
  }

  /** `destroy` keeps the invariant. */
  lemma DestroyKeepsInv<C(!new), V>(r: Registry<C, V>, e: EntityId)
    requires Inv(r) && Valid(r, e)
    ensures Inv(Destroy(r, e).reg)
  {
    var r' := Destroy(r, e).reg;
    assert r'.pool == r.pool - {e};
    assert r'.data.Keys == r'.pool.Keys;
    forall x | x in r'.data ensures r'.data[x].Keys == r'.pool[x] {
      assert r'.data[x] == r.data[x] && r'.pool[x] == r.pool[x];
    }
    forall d, x | d in r'.valids && x in r'.valids[d] ensures x in r'.pool && d in r'.pool[x] {
      assert x in Valids(r', d);
      if x == e {
        DestroyUnindexesEverywhere(r, e);
      }
      assert x != e;
      assert x in Valids(r, d);
    }
  }

  // ---------------------------------------------------------------------
  // How the operations combine
  // ---------------------------------------------------------------------

  /** On a registry that keeps the invariant, `valid(e, c)` guarantees that `get` finds a storage slot. */
  lemma ValidComponentHasSlot<C, V>(r: Registry<C, V>, e: EntityId, c: C)
    requires Inv(r) && ValidComponent(r, e, c)
    ensures Valid(r, e) && HasSlot(r, e, c) && c in r.pool[e]
  {
    assert c in r.valids;
  }

  /** `get` after attaching a type to an entity with no slot for it yields the value just attached. */
  lemma GetAfterAdd<C(!new), V>(r: Registry<C, V>, e: EntityId, c: C, v: V)
    requires Inv(r) && Valid(r, e) && !HasSlot(r, e, c)
    ensures Inv(Add(r, e, c, v).reg)
    ensures Get(Add(r, e, c, v).reg, e, c) == v
  {
    AddKeepsInv(r, e, c, v);
  }

  /**
   Attaching the same type twice keeps the FIRST value: the second value is
   released straight away and `get` still yields the first one.
   */
  lemma AddTwiceKeepsFirst<C(!new), V>(r: Registry<C, V>, e: EntityId, c: C, v1: V, v2: V)
    requires Inv(r) && Valid(r, e) && !HasSlot(r, e, c)
    ensures var r1 := Add(r, e, c, v1).reg;
      && Valid(r1, e) && Inv(r1)
      && Add(r1, e, c, v2).released == Some(v2)
      && Inv(Add(r1, e, c, v2).reg)
      && Get(Add(r1, e, c, v2).reg, e, c) == v1
  {
    AddKeepsInv(r, e, c, v1);
    AddKeepsInv(Add(r, e, c, v1).reg, e, c, v2);
  }

  /**
   A removed component is a tombstone: its value stays in the slot, and
   attaching the same type again brings the OLD value back to life while the
   new value is released.
   */
  lemma RemoveThenAddRevivesTombstone<C(!new), V>(r: Registry<C, V>, e: EntityId, c: C, w: V)
    requires Inv(r) && Valid(r, e) && ValidComponent(r, e, c)
    ensures var r1 := Remove(r, e, c);
      && HasSlot(r1, e, c) && !ValidComponent(r1, e, c)
      && Add(r1, e, c, w).released == Some(w)
      && Inv(Add(r1, e, c, w).reg)
      && Get(Add(r1, e, c, w).reg, e, c) == Get(r, e, c)
  {
    ValidComponentHasSlot(r, e, c);
    AddKeepsInv(Remove(r, e, c), e, c, w);
  }

  /** `destroy` releases every slot of the entity, including those emptied by `remove` before. */
  lemma DestroyReleasesTombstones<C(!new), V>(r: Registry<C, V>, e: EntityId, c: C)
    requires Inv(r) && ValidComponent(r, e, c)
    ensures var r1 := Remove(r, e, c);
      && Valid(r1, e)
      && c in Destroy(r1, e).released
      && Destroy(r1, e).released[c] == Get(r, e, c)
  {
    ValidComponentHasSlot(r, e, c);
  }
}
