/**
 Sequences of registry operations, as a caller issues them. A run stops
 at the first operation whose precondition does not hold (the source's
 `ctx_assert` fires there; without it the behaviour is undefined).

 Along every run that starts from a registry keeping the invariant, the
 invariant is kept, the counter never goes back, and an id that has been
 issued and destroyed never becomes valid again: ids are never reused.
 */
module Lifecycle {
  import opened Registry

  /** One call on the registry. `emplace` is `add` of the constructed value, so it needs no case of its own. */
  datatype Op<C, V> =
    | MakeEntity
    | Attach(e: EntityId, c: C, v: V)
    | Detach(e: EntityId, c: C)
    | Erase(e: EntityId)

  /** Whether the operation's `ctx_assert` preconditions hold. */
  predicate Allowed<C, V>(r: Registry<C, V>, op: Op<C, V>)
  {
    match op
    case MakeEntity => true
    case Attach(e, _, _) => Valid(r, e)
    case Detach(e, c) => ValidComponent(r, e, c)
    case Erase(e) => Valid(r, e)
  }

  /** An issued id (below the counter) that is not valid is dead. */
  predicate Dead<C, V>(r: Registry<C, V>, e: EntityId)
  {
    e < r.counter && !Valid(r, e)
  }

  /**
   The registry after one operation, or `None` on a contract violation.
   An allowed operation keeps the invariant, never lowers the counter and
   never revives a dead id.
   */
  function Step<C(!new), V>(r: Registry<C, V>, op: Op<C, V>): (res: Option<Registry<C, V>>)
    ensures res.Some? <==> Allowed(r, op)
    ensures res.Some? && Inv(r) ==> Inv(res.value)
    ensures res.Some? ==> res.value.counter >= r.counter
    ensures res.Some? ==> forall e :: Dead(r, e) ==> Dead(res.value, e)
  {
    match op
    case MakeEntity =>
      assert Inv(r) ==> Inv(NewEntity(r).reg) by {
        if Inv(r) {
          NewEntityKeepsInv(r);
        }
      }
      Some(NewEntity(r).reg)
    case Attach(e, c, v) =>
      if Valid(r, e) then
        assert Inv(r) ==> Inv(Add(r, e, c, v).reg) by {
          if Inv(r) {
            AddKeepsInv(r, e, c, v);
          }
        }
        Some(Add(r, e, c, v).reg)
      else None
    case Detach(e, c) => if ValidComponent(r, e, c) then Some(Remove(r, e, c)) else None
    case Erase(e) =>
      if Valid(r, e) then
        assert Inv(r) ==> Inv(Destroy(r, e).reg) by {
          if Inv(r) {
            DestroyKeepsInv(r, e);
          }
        }
        Some(Destroy(r, e).reg)
      else None
  }

  /** The registry after a sequence of operations, or `None` if one of them violates its contract. */
  function Run<C(!new), V>(r: Registry<C, V>, ops: seq<Op<C, V>>): (res: Option<Registry<C, V>>)
    ensures res.Some? && Inv(r) ==> Inv(res.value)
    ensures res.Some? ==> res.value.counter >= r.counter
    ensures res.Some? ==> forall e :: Dead(r, e) ==> Dead(res.value, e)
    decreases |ops|
  {
    if ops == [] then Some(r)
    else
      match Step(r, ops[0])
      case None => None
      case Some(r1) => Run(r1, ops[1..])
  }

  /** Every registry reachable from `Registry::create()` keeps the invariant. */
  lemma ReachableKeepsInv<C(!new), V>(ops: seq<Op<C, V>>)
    ensures Run(Create(), ops).Some? ==> Inv(Run(Create<C, V>(), ops).value)
  {
  }

  /**
   Ids are never reused: an id issued by `entity()` and later destroyed is
   never valid again, whatever the caller does afterwards, and every later
   `entity()` issues a strictly larger id.
   */
  lemma IdsNeverReused<C(!new), V>(r: Registry<C, V>, e: EntityId, ops: seq<Op<C, V>>)
    requires Dead(r, e)
    ensures Run(r, ops).Some? ==> !Valid(Run(r, ops).value, e)
    ensures Run(r, ops).Some? ==> NewEntity(Run(r, ops).value).id > e
  {
  }

  /** Two `entity()` calls with any operations between them issue strictly increasing ids. */
  lemma IdsIncrease<C(!new), V>(r: Registry<C, V>, ops: seq<Op<C, V>>)
    ensures Run(NewEntity(r).reg, ops).Some? ==> NewEntity(Run(NewEntity(r).reg, ops).value).id > NewEntity(r).id
  {
  }
}
