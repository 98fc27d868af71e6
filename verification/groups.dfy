/**
 The registry's retrieval surface: `group`, the set-intersection query over
 the validity index, and the two operations built on it, `query` (one tuple
 of component values per group member) and `task` (a callback per group
 member). The order in which the source's unordered containers hand out
 their elements is not modelled: loops pick elements of a set in any order,
 and results are compared as sets or as duplicate-free sequences.
 */
module Groups {
  import opened Registry

  /** The entity lies in the validity index of every listed component type. */
  predicate InAll<C, V>(r: Registry<C, V>, cs: seq<C>, e: EntityId)
  {
    forall i :: 0 <= i < |cs| ==> e in Valids(r, cs[i])
  }

  /**
   `group<T1..Tn>()`: the index of the first type intersected with the
   index of each further type in turn. There is no seed for zero types,
   so at least one is required. The result is exactly the set of entities
   in every listed type's index.
   */
  function Group<C, V>(r: Registry<C, V>, cs: seq<C>): (g: set<EntityId>)
    requires |cs| >= 1
    ensures forall e :: e in g <==> InAll(r, cs, e)
    decreases |cs|
  {
    if |cs| == 1 then Valids(r, cs[0])
    else
      var g := Group(r, cs[..|cs| - 1]) * Valids(r, cs[|cs| - 1]);
      assert forall e :: InAll(r, cs, e) <==> InAll(r, cs[..|cs| - 1], e) && e in Valids(r, cs[|cs| - 1]) by {
        forall e ensures InAll(r, cs, e) <==> InAll(r, cs[..|cs| - 1], e) && e in Valids(r, cs[|cs| - 1]) {
          if InAll(r, cs[..|cs| - 1], e) && e in Valids(r, cs[|cs| - 1]) {
            forall i | 0 <= i < |cs| ensures e in Valids(r, cs[i]) {
              if i < |cs| - 1 {
                assert cs[i] == cs[..|cs| - 1][i];
              }
            }
          }
        }
      }
      g
  }

  /** The group depends only on WHICH types are listed: neither their order nor repetitions matter. */
  lemma GroupIgnoresOrder<C, V>(r: Registry<C, V>, cs: seq<C>, ds: seq<C>)
    requires |cs| >= 1 && |ds| >= 1
    requires forall c :: c in cs <==> c in ds
    ensures Group(r, cs) == Group(r, ds)
  {
    forall e ensures InAll(r, cs, e) ==> InAll(r, ds, e) {
      if InAll(r, cs, e) {
        forall j | 0 <= j < |ds| ensures e in Valids(r, ds[j]) {
          assert ds[j] in cs;
          var i :| 0 <= i < |cs| && cs[i] == ds[j];
        }
      }
    }
    forall e ensures InAll(r, ds, e) ==> InAll(r, cs, e) {
      if InAll(r, ds, e) {
        forall i | 0 <= i < |cs| ensures e in Valids(r, cs[i]) {
          assert cs[i] in ds;
          var j :| 0 <= j < |ds| && ds[j] == cs[i];
        }
      }
    }
  }

  /**
   On a registry that keeps the invariant every group member is a live
   entity that holds a live value, with a storage slot, of every listed type;
   in particular the group lies within the pool.
   */
  lemma GroupMembersAreValid<C, V>(r: Registry<C, V>, cs: seq<C>, e: EntityId)
    requires Inv(r) && |cs| >= 1 && e in Group(r, cs)
    ensures Valid(r, e)
    ensures forall i :: 0 <= i < |cs| ==> ValidComponent(r, e, cs[i]) && HasSlot(r, e, cs[i])
  {
    assert e in Valids(r, cs[0]);
    forall i | 0 <= i < |cs| ensures ValidComponent(r, e, cs[i]) && HasSlot(r, e, cs[i]) {
      assert e in Valids(r, cs[i]);
      ValidComponentHasSlot(r, e, cs[i]);
    }
  }

  /** Once the running intersection is empty, intersecting with more indexes keeps it empty. */
  lemma EmptyPrefixEmptyGroup<C, V>(r: Registry<C, V>, cs: seq<C>, k: nat)
    requires 1 <= k <= |cs|
    requires Group(r, cs[..k]) == {}
    ensures Group(r, cs) == {}
  {
  }

  /**
   The source's loop for `group<T1..Tn>()`: seed the working set with the
   first type's index; for each listed type (the first one included) keep
   the members of that type's index which are in the working set, swap the
   result in, and stop early as soon as it is empty. Computes `Group`.
   */
  method ComputeGroup<C, V>(r: Registry<C, V>, cs: seq<C>) returns (current: set<EntityId>)
    requires |cs| >= 1
    ensures current == Group(r, cs)
    ensures forall e :: e in current <==> InAll(r, cs, e)
  {
    current := Valids(r, cs[0]);
    var compare: set<EntityId> := {};
    var i := 0;
    while i < |cs|
      invariant 0 <= i <= |cs|
      invariant compare == {}
      invariant current == Group(r, cs[..if i == 0 then 1 else i])
    {
      var index := Valids(r, cs[i]);
      var rest := index;
      while rest != {}
        invariant rest <= index
        invariant compare == (index - rest) * current
        decreases rest
      {
        var e :| e in rest;
        if e in current {
          compare := compare + {e};
        }
        rest := rest - {e};
      }
      assert compare == current * index;
      assert cs[..i + 1][..i] == cs[..i];
      current, compare := compare, current;
      if current == {} {
        EmptyPrefixEmptyGroup(r, cs, i + 1);
        assert cs[..|cs|] == cs;
        return;
      }
      compare := {};
      i := i + 1;
    }
    assert cs[..|cs|] == cs;
  }

  // ---------------------------------------------------------------------
  // query
  // ---------------------------------------------------------------------

  /**
   Iteration over an `unordered_set<EntityId>`: every element exactly once,
   in an order the model leaves open.
   */
  method Enumerate(s: set<EntityId>) returns (order: seq<EntityId>)
    ensures |order| == |s|
    ensures forall e :: e in order <==> e in s
    ensures forall j, k :: 0 <= j < k < |order| ==> order[j] != order[k]
  {
    var rest := s;
    order := [];
    while rest != {}
      invariant rest <= s
      invariant forall e :: e in order <==> e in s - rest
      invariant forall j, k :: 0 <= j < k < |order| ==> order[j] != order[k]
      invariant |order| + |rest| == |s|
      decreases rest
    {
      var e :| e in rest;
      assert e !in order;
      order := order + [e];
      rest := rest - {e};
    }
  }

  /** A query result: one tuple of component values per entity, the source's `vector<tuple<T1&..Tn&>>`. */
  type Rows<V> = seq<seq<V>>

  /** The entity is valid and holds a live value of each listed type: `get` may be called for each. */
  predicate Gettable<C, V>(r: Registry<C, V>, e: EntityId, cs: seq<C>)
  {
    Valid(r, e) && forall i :: 0 <= i < |cs| ==> ValidComponent(r, e, cs[i])
  }

  /** One tuple of `query`: `get<Ti>(e)` for each listed type, in order. */
  function Tuple<C, V>(r: Registry<C, V>, e: EntityId, cs: seq<C>): (t: seq<V>)
    requires Inv(r) && Gettable(r, e, cs)
    ensures |t| == |cs|
    ensures forall i :: 0 <= i < |cs| ==> t[i] == Get(r, e, cs[i])
    decreases |cs|
  {
    if cs == [] then []
    else
      assert ValidComponent(r, e, cs[0]);
      [Get(r, e, cs[0])] + Tuple(r, e, cs[1..])
  }

  /** Every member of a group may have `get` called for each of the group's types. */
  lemma GroupMemberIsGettable<C, V>(r: Registry<C, V>, cs: seq<C>, e: EntityId)
    requires Inv(r) && |cs| >= 1 && e in Group(r, cs)
    ensures Gettable(r, e, cs)
  {
    GroupMembersAreValid(r, cs, e);
  }

  /**
   `query<T1..Tn>()`: computes the group, then produces one tuple per
   member. `visited` is the order in which the members were taken (the
   source's order is unspecified): it lists every group member exactly
   once, and `rows[k]` is the tuple of `visited[k]`, whose every `get` has
   its precondition met.
   */
  method Query<C, V>(r: Registry<C, V>, cs: seq<C>) returns (rows: Rows<V>, visited: seq<EntityId>)
    requires Inv(r) && |cs| >= 1
    ensures |visited| == |Group(r, cs)|
    ensures forall e :: e in visited <==> e in Group(r, cs)
    ensures forall j, k :: 0 <= j < k < |visited| ==> visited[j] != visited[k]
    ensures |rows| == |visited| && forall k :: 0 <= k < |visited| ==> Gettable(r, visited[k], cs) && rows[k] == Tuple(r, visited[k], cs)
  {
    var commons := ComputeGroup(r, cs);
    visited := Enumerate(commons);
    rows := [];
    while |rows| < |visited|
      invariant |rows| <= |visited|
      invariant forall k :: 0 <= k < |rows| ==> Gettable(r, visited[k], cs) && rows[k] == Tuple(r, visited[k], cs)
    {
      var e := visited[|rows|];
      GroupMemberIsGettable(r, cs, e);
      rows := rows + [Tuple(r, e, cs)];
    }
  }

  // ---------------------------------------------------------------------
  // task
  // ---------------------------------------------------------------------

  /** The registry after calling `fn` on each entity of `es` in turn; the callback may change the registry. */
  function Replay<C, V>(fn: (Registry<C, V>, EntityId) -> Registry<C, V>, r: Registry<C, V>, es: seq<EntityId>): Registry<C, V>
    decreases |es|
  {
    if es == [] then r else Replay(fn, fn(r, es[0]), es[1..])
  }

  /**
   `task<T1..Tn>(fn)`: computes the group once, up front, then calls `fn`
   once per member, sequentially, in an unspecified order. The callback may
   call back into the registry; this is modelled by letting it return the
   registry it leaves behind. `visited` lists every member of the group as
   it was before the first call, each exactly once, and the final registry
   is the result of the calls in that order.
   */
  method Task<C, V>(r: Registry<C, V>, cs: seq<C>, fn: (Registry<C, V>, EntityId) -> Registry<C, V>)
    returns (r': Registry<C, V>, visited: seq<EntityId>)
    requires |cs| >= 1
    ensures |visited| == |Group(r, cs)|
    ensures forall e :: e in visited <==> e in Group(r, cs)
    ensures forall j, k :: 0 <= j < k < |visited| ==> visited[j] != visited[k]
    ensures r' == Replay(fn, r, visited)
  {
    var view := ComputeGroup(r, cs);
    visited := Enumerate(view);
    r' := r;
    var k := 0;
    while k < |visited|
      invariant k <= |visited|
      invariant r' == Replay(fn, r, visited[..k])
    {
      ReplaySnoc(fn, r, visited[..k], visited[k]);
      assert visited[..k + 1] == visited[..k] + [visited[k]];
      r' := fn(r', visited[k]);
      k := k + 1;
    }
    assert visited[..k] == visited;
  }

  /** One more call at the end of a replay. */
  lemma {:induction false} ReplaySnoc<C, V>(fn: (Registry<C, V>, EntityId) -> Registry<C, V>, r: Registry<C, V>, es: seq<EntityId>, e: EntityId)
    ensures Replay(fn, r, es + [e]) == fn(Replay(fn, r, es), e)
    decreases |es|
  {
    if es != [] {
      assert (es + [e])[1..] == es[1..] + [e];
      ReplaySnoc(fn, fn(r, es[0]), es[1..], e);
    }
  }

  // ---------------------------------------------------------------------
  // How the lifecycle operations move entities in and out of groups
  // ---------------------------------------------------------------------

  /** After `add`/`emplace` of `c`, the entity is in `group<c>()`. */
  lemma AddJoinsGroup<C(!new), V>(r: Registry<C, V>, e: EntityId, c: C, v: V)
    requires Valid(r, e)
    ensures e in Group(Add(r, e, c, v).reg, [c])
  {
  }

  /** After `remove<c>(e)`, the entity is in no group that lists `c`, and every other entity's group membership is unchanged. */
  lemma RemoveLeavesGroup<C(!new), V>(r: Registry<C, V>, e: EntityId, c: C, cs: seq<C>)
    requires ValidComponent(r, e, c) && |cs| >= 1 && c in cs
    ensures e !in Group(Remove(r, e, c), cs)
    ensures forall x :: x != e ==> (x in Group(Remove(r, e, c), cs) <==> x in Group(r, cs))
  {
    var r' := Remove(r, e, c);
    var i :| 0 <= i < |cs| && cs[i] == c;
    assert e !in Valids(r', cs[i]);
    forall x | x != e ensures InAll(r', cs, x) <==> InAll(r, cs, x) {
      forall j | 0 <= j < |cs| ensures x in Valids(r', cs[j]) <==> x in Valids(r, cs[j]) {
      }
    }
  }

  /** After `destroy(e)` on a registry that keeps the invariant, the entity is in no group at all, and every other entity's group membership is unchanged. */
  lemma DestroyLeavesEveryGroup<C(!new), V>(r: Registry<C, V>, e: EntityId, cs: seq<C>)
    requires Inv(r) && Valid(r, e) && |cs| >= 1
    ensures e !in Group(Destroy(r, e).reg, cs)
    ensures forall x :: x != e ==> (x in Group(Destroy(r, e).reg, cs) <==> x in Group(r, cs))
  {
    var r' := Destroy(r, e).reg;
    DestroyUnindexesEverywhere(r, e);
    assert e !in Valids(r', cs[0]);
    forall x | x != e ensures InAll(r', cs, x) <==> InAll(r, cs, x) {
      forall j | 0 <= j < |cs| ensures x in Valids(r', cs[j]) <==> x in Valids(r, cs[j]) {
      }
    }
  }
}
