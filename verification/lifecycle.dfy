/**
 * Properties over whole histories of operations: handles stay live until
 * removed, removed handles never resolve again, and each slot's generation
 * follows Occupied(g) -> Tombstoned(g) -> Occupied(g + 1) -> ...
 */
module Lifecycle {
  import opened Options
  import opened Handles
  import opened GenArrays
  import opened Iteration

  /**
   * The mutating calls a caller can make: `push`, `remove`, `get_mut`
   * followed by assignment, and a whole `iter_mut` pass applying `f`.
   */
  datatype Op<!T> = Insert(value: T) | Delete(handle: Index) | Assign(handle: Index, value: T) | MapAll(f: T -> T)

  /**
   * One step of a slot's state machine from `a` to `b`: a slot either keeps
   * its generation, or goes from tombstone to occupied with generation plus
   * one; slots appended at the end start at generation 0.
   */
  ghost predicate GenerationStep<T>(a: GenArray<T>, b: GenArray<T>) {
    && |a.slots| <= |b.slots|
    && (forall p :: 0 <= p < |a.slots| ==>
          || b.slots[p].generation == a.slots[p].generation
          || (b.slots[p].generation == a.slots[p].generation + 1 && Tombstoned(a, p) && Occupied(b, p)))
    && (forall p :: |a.slots| <= p < |b.slots| ==> b.slots[p].generation == 0)
  }

  function Step<T>(a: GenArray<T>, op: Op<T>): (b: GenArray<T>)
    requires Valid(a)
    ensures Valid(b)
    ensures GenerationStep(a, b)
  {
    match op
    case Insert(v) =>
      ValidCanPush(a);
      Push(a, v).0
    case Delete(h) => Remove(a, h)
    case Assign(h, v) => SetAt(a, h, v)
    case MapAll(f) => MapValues(a, f)
  }

  /** Applying the operations in order, starting from an arena that keeps the invariant. */
  function Run<T>(a: GenArray<T>, ops: seq<Op<T>>): (b: GenArray<T>)
    requires Valid(a)
    ensures Valid(b)
    ensures GenerationsGrow(a, b)
    decreases |ops|
  {
    if |ops| == 0 then a else Run(Step(a, ops[0]), ops[1..])
  }

  /** Every arena built from `New` by any operations keeps the invariant. */
  lemma ReachableValid<T>(ops: seq<Op<T>>)
    ensures Valid(Run(New<T>(), ops))
  {
  }

  /**
   * A handle is dead once its slot exists and has moved past it: either the
   * slot's generation is newer, or it is the same and the slot is a tombstone.
   */
  predicate Dead<T>(a: GenArray<T>, h: Index) {
    && h.slot < |a.slots|
    && (|| h.generation < a.slots[h.slot].generation
        || (h.generation == a.slots[h.slot].generation && a.slots[h.slot].value.None?))
  }

  lemma DeadNotLive<T>(a: GenArray<T>, h: Index)
    requires Dead(a, h)
    ensures Get(a, h) == None
  {
  }

  /** Removing a live handle kills it. */
  lemma RemoveKills<T>(a: GenArray<T>, h: Index)
    requires Live(a, h)
    ensures Dead(Remove(a, h), h)
  {
  }

  lemma StepKeepsDead<T>(a: GenArray<T>, op: Op<T>, h: Index)
    requires Valid(a) && Dead(a, h)
    ensures Dead(Step(a, op), h)
  {
  }

  /**
   * Stale-handle rejection: once a live handle is removed, no sequence of
   * later operations makes it resolve again, even when its slot is reused.
   */
  lemma {:induction false} StaleForever<T>(a: GenArray<T>, h: Index, ops: seq<Op<T>>)
    requires Valid(a) && Live(a, h)
    ensures Get(Run(Remove(a, h), ops), h) == None
  {
    RemoveKills(a, h);
    DeadForever(Remove(a, h), h, ops);
  }

  lemma {:induction false} DeadForever<T>(a: GenArray<T>, h: Index, ops: seq<Op<T>>)
    requires Valid(a) && Dead(a, h)
    ensures Dead(Run(a, ops), h)
    decreases |ops|
  {
    if |ops| > 0 {
      StepKeepsDead(a, ops[0], h);
      DeadForever(Step(a, ops[0]), h, ops[1..]);
    }
  }

  /**
   * A live handle stays live through any operations that do not remove it,
   * and keeps its value through any that do not assign through it either.
   */
  lemma {:induction false} LiveUntilRemoved<T>(a: GenArray<T>, h: Index, ops: seq<Op<T>>)
    requires Valid(a) && Live(a, h)
    requires forall i :: 0 <= i < |ops| ==> ops[i] != Delete(h)
    ensures Live(Run(a, ops), h)
    ensures (forall i :: 0 <= i < |ops| ==> !(ops[i].Assign? && ops[i].handle == h) && !ops[i].MapAll?) ==>
      Get(Run(a, ops), h) == Get(a, h)
    decreases |ops|
  {
    if |ops| > 0 {
      var b := Step(a, ops[0]);
      assert Live(b, h);
      assert !(ops[0].Assign? && ops[0].handle == h) && !ops[0].MapAll? ==> Get(b, h) == Get(a, h);
      LiveUntilRemoved(b, h, ops[1..]);
      assert forall i :: 0 <= i < |ops| - 1 ==> ops[1..][i] == ops[i + 1];
    }
  }
}
