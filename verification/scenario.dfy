/**
 The end-to-end usage the registry is designed for, worked through on
 concrete data: two entities with positions, one of them also with a
 velocity, then a removal and a destruction.
 */
module Scenario {
  import opened Registry
  import opened Groups

  /** Component type identities of the example. */
  datatype Kind = PositionKind | VelocityKind

  /** Component values of the example. */
  datatype Component = Position(x: int, y: int) | Velocity(speed: int)

  /** A new registry and two entities created in it. */
  method TwoEntities() returns (r: Registry<Kind, Component>, e1: EntityId, e2: EntityId)
    ensures Inv(r) && r.pool.Keys == {e1, e2}
    ensures e1 == 1 && e2 == 2
    ensures forall c :: Valids(r, c) == {}
  {
    var r0 := Create<Kind, Component>();
    NewEntityKeepsInv(r0);
    NewEntityFresh(r0);
    var i1 := NewEntity(r0);
    NewEntityKeepsInv(i1.reg);
    NewEntityFresh(i1.reg);
    var i2 := NewEntity(i1.reg);
    r, e1, e2 := i2.reg, i1.id, i2.id;
  }

  /** `add` as the scenario sees it: only how the pool and the index change. */
  method Attach(r: Registry<Kind, Component>, e: EntityId, c: Kind, v: Component) returns (r': Registry<Kind, Component>)
    requires Valid(r, e)
    ensures r'.pool.Keys == r.pool.Keys
    ensures Valids(r', c) == Valids(r, c) + {e}
    ensures forall d :: d != c ==> Valids(r', d) == Valids(r, d)
  {
    r' := Add(r, e, c, v).reg;
  }

  /** A position on both entities and a velocity on the first. */
  method AttachComponents(r: Registry<Kind, Component>, e1: EntityId, e2: EntityId) returns (r': Registry<Kind, Component>)
    requires r.pool.Keys == {e1, e2} && e1 != e2
    requires Valids(r, PositionKind) == {} && Valids(r, VelocityKind) == {}
    ensures r'.pool.Keys == {e1, e2}
    ensures Valids(r', PositionKind) == {e1, e2} && Valids(r', VelocityKind) == {e1}
  {
    var r1 := Attach(r, e1, PositionKind, Position(1, 2));
    var r2 := Attach(r1, e2, PositionKind, Position(3, 4));
    r' := Attach(r2, e1, VelocityKind, Velocity(5));
  }

  /** group<Position> and group<Position, Velocity> on the state built by `AttachComponents`. */
  method GroupsBefore(r: Registry<Kind, Component>, e1: EntityId, e2: EntityId) returns (positioned: set<EntityId>, moving: set<EntityId>)
    requires Valids(r, PositionKind) == {e1, e2} && Valids(r, VelocityKind) == {e1}
    ensures positioned == {e1, e2} && moving == {e1}
  {
    positioned := ComputeGroup(r, [PositionKind]);
    moving := ComputeGroup(r, [PositionKind, VelocityKind]);
    assert [PositionKind, VelocityKind][..1] == [PositionKind];
  }

  /** remove<Position>(e2), then group<Position>; then destroy(e1), then count(). */
  method RemoveThenDestroy(r: Registry<Kind, Component>, e1: EntityId, e2: EntityId) returns (afterRemove: set<EntityId>, left: nat)
    requires r.pool.Keys == {e1, e2} && e1 != e2
    requires Valids(r, PositionKind) == {e1, e2}
    ensures afterRemove == {e1} && left == 1
  {
    var r' := Remove(r, e2, PositionKind);
    afterRemove := ComputeGroup(r', [PositionKind]);
    DestroyLowersCount(r', e1);
    left := Count(Destroy(r', e1).reg);
  }

  /**
   create e1, e2; position on both, velocity on e1: group<Position> is
   {e1, e2} and group<Position, Velocity> is {e1}; after remove<Position>(e2)
   group<Position> is {e1}; after destroy(e1) one entity is left.
   */
  method PositionVelocityScenario() returns (e1: EntityId, e2: EntityId, positioned: set<EntityId>,
                                            moving: set<EntityId>, afterRemove: set<EntityId>, left: nat)
    ensures e1 == 1 && e2 == 2
    ensures positioned == {e1, e2}
    ensures moving == {e1}
    ensures afterRemove == {e1}
    ensures left == 1
  {
    var r;
    r, e1, e2 := TwoEntities();
    r := AttachComponents(r, e1, e2);
    positioned, moving := GroupsBefore(r, e1, e2);
    afterRemove, left := RemoveThenDestroy(r, e1, e2);
  }
}
