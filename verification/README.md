# ECS SmartBox / Registry — a Dafny model

This project models the core of a small C++ entity/component store,
`ctx::Registry`, and its type-erased value holder, `ctx::SmartBox`, both
declared in `Registry.h`.

- `smartbox.dfy` (module `SmartBox`) models the move-only owner of one heap
  value. A box is `Empty` or `Full(alloc)`, where `alloc` identifies one
  allocation made by `create`. The held type, the raw pointer and the
  deleter function pointer are abstracted away. A `Heap` gathers the live
  boxes by name, every allocation made so far, and the ordered record of
  deleter calls. `Sound` is the ownership discipline: no allocation is owned
  by two boxes, none is deleted twice, none is owned after being deleted,
  and every allocation is still owned or has been deleted, so nothing leaks.
  Each box operation (default construction, `create`, move construction,
  move assignment, `try_destroy`, the destructor) is proved to keep it.
- `registry.dfy` (module `Registry`) models the registry's state: `data`,
  `pool`, `valids` and `counter`, standing for `m_data`, `m_pool`,
  `m_valids` and `m_counter`. It also models the invariant `Inv` that ties
  these together, and the operations `create`, `entity`, `add`, `emplace`,
  `get`, `remove`, `destroy`, `count` and both `valid` overloads. Component
  type identities (`std::type_index`) are the type parameter `C`, and
  component values are the type parameter `V`. A type absent from `valids`
  reads as the empty set (`Valids`), because `operator[]` default-inserts.
  When an operation frees a component value, the value is reported in the
  result's `released` field.
- `groups.dfy` (module `Groups`) models `group`, `query` and `task`. `Group`
  is the functional intersection of the validity indexes. `ComputeGroup` is
  the source's loop, with its early exit, and is proved equal to `Group`.
- `lifecycle.dfy` (module `Lifecycle`) models sequences of calls. It proves
  that every reachable registry keeps the invariant and that entity ids are
  never reused.
- `scenario.dfy` (module `Scenario`) works through the intended
  position/velocity usage on concrete data.

The source's `ctx_assert` checks become `requires` clauses on the single
operations. In `Lifecycle.Step`, a failed check becomes `None`.

## Re-adding and removing

- Re-adding does not replace. `add` and `emplace` insert with
  `std::unordered_map::emplace` (Registry.h:113, 127), and that call keeps
  an existing key. When the entity already has a slot for the type, even a
  removed one, the OLD value stays and the returned reference designates
  it. The newly built value is released immediately. A re-add might be
  expected to replace and destroy the previous value; the code keeps the
  old one, and so does the model: see `Registry.Add`,
  `Registry.AddTwiceKeepsFirst` and `Registry.RemoveThenAddRevivesTombstone`.
- `remove` is index-only (Registry.h:153). The slot, its value and the pool
  entry stay until `destroy`, which releases them (see
  `Registry.DestroyReleasesTombstones`). A re-add after a remove therefore
  brings the old value back to life. The comment at main.cpp:10 says a
  component's destructor runs "on component removing"; in the code it runs
  only on `destroy` (or when a re-add's new value is released).

## Model

| member | source | states |
|---|---|---|
| SmartBox.TryDestroyBox | Registry.h:67-72 | try_destroy empties the box; it adds exactly one deleter call, on the held allocation, if the box was full, and none if it was empty |
| SmartBox.TryDestroy | Registry.h:67-72 | try_destroy on a named box leaves that box alive and empty and every other box unchanged; on a full box the deleter record grows by exactly its allocation, and on an empty box nothing changes at all |
| SmartBox.TryDestroyCallsDeleterAtMostOnce | Registry.h:67-72 | try_destroy calls the deleter once on a full box, never on an empty box, and never more than once per call |
| SmartBox.TryDestroyTwiceIsOnce | Registry.h:67-72 | a second try_destroy is a no-op: two calls have the same effect as one |
| SmartBox.NewEmpty | Registry.h:25 | the default constructor adds exactly one box, which owns nothing; every other box keeps its content, and no allocation is made, moved or deleted |
| SmartBox.Create | Registry.h:27-35 | create places a fresh allocation in exactly one new box; every other box keeps its content, the set of owned allocations grows by exactly that allocation, and no deleter runs |
| SmartBox.MoveConstruct | Registry.h:37-39 | the move constructor adds exactly one box, holding what the source owned, and leaves the source empty; every other box keeps its content, ownership is conserved and no deleter runs |
| SmartBox.MoveAssign | Registry.h:42-50 | move assignment to itself changes nothing; otherwise the target first releases its old allocation, then takes the source's, and the source becomes empty |
| SmartBox.Drop | Registry.h:52-56 | the destructor runs try_destroy, and then the box no longer exists |
| SmartBox.MovedFromBoxDropsNothing | Registry.h:37-56 | destroying a moved-from box calls no deleter, and the moved value survives in the new box |
| SmartBox.MoveAssignReleasesTarget | Registry.h:42-48 | move assignment into a full box deletes the target's old allocation exactly once, and afterwards no box owns it |
| SmartBox.NewEmptyKeepsSound | Registry.h:25 | default construction keeps single ownership, no double delete and no leak |
| SmartBox.CreateKeepsSound | Registry.h:27-35 | create keeps single ownership, no double delete and no leak |
| SmartBox.MoveConstructKeepsSound | Registry.h:37-39 | a move construction keeps single ownership, no double delete and no leak |
| SmartBox.MoveAssignKeepsSound | Registry.h:42-50 | a move assignment keeps single ownership, no double delete and no leak, because the released target is recorded as deleted |
| SmartBox.TryDestroyKeepsSound | Registry.h:67-72 | try_destroy keeps single ownership, never deletes an allocation twice and loses nothing |
| SmartBox.DropKeepsSound | Registry.h:52-56 | the destructor keeps single ownership, never deletes an allocation twice and loses nothing |
| Registry.Valids | Registry.h:238 | reading the index of a type that was never indexed yields the empty set, as `operator[]`'s default-insert does |
| Registry.DefaultInsertIsInvisible | Registry.h:173-177 | the empty set default-inserted by `m_valids[c]` cannot be observed: every type's index reads the same afterwards |
| Registry.Valid | Registry.h:231-234 | valid(e) holds for an entity in the pool; under the invariant such an id was issued (0 < e < counter) and has a storage bucket |
| Registry.ValidComponent | Registry.h:236-239 | valid(e, T) implies valid(e); under the invariant T is also in e's pool entry and e has a storage slot for T |
| Registry.Count | Registry.h:223-225 | count() is zero exactly when no entity is valid |
| Registry.CountBelowCounter | Registry.h:223-225 | under the invariant count() is below the counter: there are never more live entities than ids issued |
| Registry.Create | Registry.h:88-91 | a new registry keeps the invariant, has no entities and no indexed types, and its counter starts at 1 |
| Registry.NewEntity | Registry.h:95-104 | entity() returns the counter and increments it; the new id is valid with buckets, and every existing entity, bucket and index entry is unchanged |
| Registry.NewEntityFresh | Registry.h:95-104 | on a registry that keeps the invariant, the issued id is nonzero and not already in use, and its pool entry and storage bucket start empty |
| Registry.NewEntityRaisesCount | Registry.h:223-225 | count() grows by exactly one after entity() |
| Registry.NewEntityKeepsInv | Registry.h:100-101 | entity() keeps the invariant tying data, pool, valids and counter together |
| Registry.Add | Registry.h:106-118 | add requires a valid entity; afterwards the entity is indexed under T, has T in its pool entry and a T slot; an existing slot keeps its old value and the new one is released; the bucket gains no slot other than T's; no other entity changes |
| Registry.AddKeepsInv | Registry.h:113-115 | add keeps the invariant and leaves count() unchanged |
| Registry.Emplace | Registry.h:120-132 | emplace builds the value from its arguments and then acts exactly as add of that value: a first emplace stores the built value, and a re-emplace keeps the existing value and releases the built one |
| Registry.Get | Registry.h:134-143 | get requires a valid entity with a live T; then a storage slot exists, and get designates the value stored in it |
| Registry.GetAfterAdd | Registry.h:106-143 | get after a first add of T yields the value just added |
| Registry.AddTwiceKeepsFirst | Registry.h:113-117 | a second add of the same type releases the new value, and get still yields the first value |
| Registry.Remove | Registry.h:145-154 | remove requires a live T and erases the entity from T's index only; data, pool, counter and every other index are unchanged |
| Registry.RemoveThenAddRevivesTombstone | Registry.h:113-153 | after remove, the slot keeps its value; a later add of T makes that old value live again and releases the new value |
| Registry.Unindex | Registry.h:160-162 | destroy's loop erases the entity from the index of exactly the types in its pool entry and leaves every other index as it was |
| Registry.Destroy | Registry.h:156-164 | destroy requires a valid entity; afterwards it has no pool entry, no bucket and no index membership for its types; its whole bucket is released; no other entity's memberships change |
| Registry.DestroyUnindexesEverywhere | Registry.h:159-163 | on a registry that keeps the invariant, destroy releases exactly the slots of the entity's pool types, and the entity is left in no index at all |
| Registry.DestroyLowersCount | Registry.h:163 | count() drops by exactly one after destroy |
| Registry.DestroyKeepsInv | Registry.h:156-164 | destroy keeps the invariant |
| Registry.ValidComponentHasSlot | Registry.h:236-239 | on a registry that keeps the invariant, valid(e, T) implies valid(e), T in the pool entry, and a storage slot for T |
| Registry.DestroyReleasesTombstones | Registry.h:153-159 | a value hidden by remove is still released, unchanged, when its entity is destroyed |
| Groups.Group | Registry.h:166-190 | group of one or more types contains exactly the entities that are in every listed type's validity index |
| Groups.ComputeGroup | Registry.h:173-189 | the source's loop (copy the first index, filter by each index, swap, stop early when empty) computes exactly that intersection |
| Groups.EmptyPrefixEmptyGroup | Registry.h:183-185 | stopping early once the working set is empty does not change the result |
| Groups.GroupIgnoresOrder | Registry.h:171-176 | the group depends only on which types are listed, not on their order or repetition |
| Groups.GroupMembersAreValid | Registry.h:231-239 | on a registry that keeps the invariant, every group member is a valid entity with a live value and a slot for each listed type, so the group lies within the pool |
| Groups.Enumerate | Registry.h:199-201 | iterating an unordered_set visits every element exactly once |
| Groups.Tuple | Registry.h:200 | a query tuple holds, position by position, get of each listed type for the entity |
| Groups.GroupMemberIsGettable | Registry.h:199-201 | every group member satisfies the preconditions of every get that query makes for it |
| Groups.Query | Registry.h:192-204 | query yields exactly one tuple per group member, with no member twice, and each tuple holds that member's get values |
| Groups.Task | Registry.h:216-221 | task computes the group first, then calls fn once per member of that group, each exactly once, in sequence; the final registry is what those calls leave |
| Groups.AddJoinsGroup | Registry.h:115 | after add of T the entity is in group<T> |
| Groups.RemoveLeavesGroup | Registry.h:153 | after remove of T the entity is in no group that lists T, and every other entity's membership is unchanged |
| Groups.DestroyLeavesEveryGroup | Registry.h:159-163 | after destroy the entity is in no group, and every other entity's membership is unchanged |
| Lifecycle.Step | Registry.h:95-164 | one call succeeds exactly when its ctx_assert checks hold; it keeps the invariant, never lowers the counter and never revives a destroyed id |
| Lifecycle.Run | Registry.h:95-164 | any sequence of calls keeps the invariant, never lowers the counter and never revives a destroyed id |
| Lifecycle.ReachableKeepsInv | Registry.h:229 | every registry reachable from create() keeps the invariant |
| Lifecycle.IdsNeverReused | Registry.h:97-98 | an issued and destroyed id never becomes valid again, and every later entity() issues a larger id |
| Lifecycle.IdsIncrease | Registry.h:97-98 | two entity() calls issue strictly increasing ids, whatever happens between them |
| Scenario.PositionVelocityScenario | Registry.h:95-225 | with two entities, positions on both and a velocity on e1: group<Position> is {e1, e2} and group<Position, Velocity> is {e1}; after remove<Position>(e2), group<Position> is {e1}; after destroy(e1), count() is 1 |

## Left out

- `transform` (Registry.h:206-214) is left out. Its point is unsynchronised
  parallel execution with `std::execution::par_unseq`. Logically it is
  `query` followed by applying the callback to each tuple.
- The `unseq` execution hint in `task` is left out; `Groups.Task` runs
  sequentially.
- The `ctx_assert` macro's console output and `__debugbreak` (Registry.h:11-15)
  become preconditions. In `Lifecycle.Step` a failed check becomes `None`.
- `typeid`/`std::type_index`, `reinterpret_cast`, raw `new`/`delete` and the
  deleter function pointer (Registry.h:29-33, 117) are left out. They become
  the abstract type `C`, the abstract type `V` and abstract allocation
  identities.
- `SmartBox::get()` and `get_deleter()` (Registry.h:59-65) are left out.
  They only expose the raw pointer and the deleter.
- The deleted copy constructor and copy assignment (Registry.h:22-23) have
  no counterpart. The model simply offers no copy operation.
- The registry stores component values directly, not boxes. A box in a
  storage slot is always full. A value the registry frees is reported as
  `released`, instead of being traced through a `SmartBox.Heap`.
- References are left out. `get`, `add`, `emplace` and `query` return
  references into storage in the source. The model returns the values, so
  writing through a reference is not modelled.
- The default-insertion of empty sets into `m_valids` by `group`, `get` and
  `valid` (Registry.h:173, 177, 238) is not tracked. A missing key and an
  empty set mean the same thing here.
- Iteration order of `unordered_set`/`unordered_map` is left open.
  `Groups.Enumerate` picks elements in any order, and results are stated
  as sets or as duplicate-free sequences.
- Registry.NewEntity: does not model the 64-bit wrap-around of `m_counter`.
  Ids are unbounded natural numbers; with wrap-around, ids would be reused
  after 2^64 calls.
- Registry.Get: also requires `Inv`, beyond `valid(e)` and `valid(e, T)`.
  Every reachable registry keeps `Inv` (`Lifecycle.ReachableKeepsInv`).
  Without `Inv`, the source would dereference a default-constructed, empty
  box. `Groups.Tuple` and `Groups.Query` inherit this requirement.
- Exceptions are not modelled. `new T(...)` in `create` (Registry.h:29) can
  throw `bad_alloc` or an exception from T's constructor. The node
  allocations in `add` and `emplace` (Registry.h:113-115, 127-129) can throw
  `bad_alloc`. A throw at line 114 (128 in `emplace`), after line 113 (127)
  has inserted the slot, would leave a storage slot for T while T is
  missing from the pool entry, which breaks `Inv`. A throw at line 115
  (129) leaves the new slot unindexed, like a removed component, which
  `Inv` allows. The model treats allocation failure and
  throwing constructors as fatal: `Add`, `Emplace`, `SmartBox.Create` and
  the `make` argument of `Emplace` are total, and `Inv` is stated only for
  runs without such failures.
- The registry's destructor (Registry.h:93) is left out. The values it frees
  when the whole registry goes away are not reported.
- `main.cpp` is left out. It is a demonstration program with console output
  and no logic of its own.
