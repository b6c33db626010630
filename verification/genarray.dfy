/**
 * The generational arena `GenArray<T>`: a table of slots, each a generation
 * counter and an optional value, plus a FIFO queue of free slot positions.
 */
module GenArrays {
  import opened Options
  import opened Handles

  /** A slot is occupied when `value` is `Some`, and a tombstone otherwise. */
  datatype Slot<T> = Slot(generation: nat, value: Option<T>)

  /**
   * `slots` is the table; `free` is the queue of reusable positions (the
   * `empty` field of src/lib.rs), oldest at the front.
   */
  datatype GenArray<T> = GenArray(slots: seq<Slot<T>>, free: seq<nat>)

  predicate Occupied<T>(a: GenArray<T>, p: nat) {
    p < |a.slots| && a.slots[p].value.Some?
  }

  predicate Tombstoned<T>(a: GenArray<T>, p: nat) {
    p < |a.slots| && a.slots[p].value.None?
  }

  /** A handle is live when it is in range, its generation matches and the slot is occupied. */
  predicate Live<T>(a: GenArray<T>, h: Index) {
    Occupied(a, h.slot) && a.slots[h.slot].generation == h.generation
  }

  /**
   * The arena invariant: every queued position is an in-range tombstone,
   * every tombstone is queued, and no position is queued twice.
   */
  ghost predicate Valid<T>(a: GenArray<T>) {
    && (forall i :: 0 <= i < |a.free| ==> Tombstoned(a, a.free[i]))
    && (forall p: nat :: Tombstoned(a, p) ==> p in a.free)
    && (forall i, j :: 0 <= i < j < |a.free| ==> a.free[i] != a.free[j])
  }

  /** Generations never decrease and the table never shrinks from `a` to `b`. */
  ghost predicate GenerationsGrow<T>(a: GenArray<T>, b: GenArray<T>) {
    && |a.slots| <= |b.slots|
    && forall p :: 0 <= p < |a.slots| ==> a.slots[p].generation <= b.slots[p].generation
  }

  /** `new`: an empty table and an empty free queue. */
  function New<T>(): (a: GenArray<T>)
    ensures Valid(a)
    ensures forall h: Index :: !Live(a, h)
  {
    GenArray([], [])
  }

  /** `Vec::get`: the slot at position `p`, if there is one. */
  function SlotAt<T>(a: GenArray<T>, p: nat): Option<Slot<T>> {
    if p < |a.slots| then Some(a.slots[p]) else None
  }

  /**
   * `get`: the stored value when the handle is in range, the slot is occupied
   * and its generation matches; `None` otherwise. It never fails.
   */
  function Get<T>(a: GenArray<T>, h: Index): (r: Option<T>)
    ensures r.Some? <==> Live(a, h)
    ensures r.Some? ==> a.slots[h.slot].value == r
  {
    match SlotAt(a, h.slot)
    case Some(Slot(gen, Some(value))) =>
      if h.generation == gen then Some(value) else None
    case _ => None
  }

  /**
   * `get_mut`: the same validity rule as `Get`; the mutable reference it
   * hands out is represented by the slot position it points at.
   */
  function GetMut<T>(a: GenArray<T>, h: Index): (r: Option<nat>)
    ensures r.Some? <==> Live(a, h)
    ensures r.Some? ==> r.value == h.slot
  {
    match SlotAt(a, h.slot)
    case Some(Slot(gen, Some(_))) =>
      if h.generation == gen then Some(h.slot) else None
    case _ => None
  }

  /** `get_mut` followed by an assignment through the reference when it is `Some`. */
  function SetAt<T>(a: GenArray<T>, h: Index, v: T): (b: GenArray<T>)
    // a handle that is not live writes nothing, even over a newer occupant of its slot
    ensures !Live(a, h) ==> b == a
    ensures b.free == a.free && |b.slots| == |a.slots|
    ensures Live(a, h) ==> b.slots[h.slot] == Slot(h.generation, Some(v))
    ensures forall p :: 0 <= p < |a.slots| && p != h.slot ==> b.slots[p] == a.slots[p]
    ensures Get(b, h) == if Live(a, h) then Some(v) else None
    ensures forall h': Index :: h'.slot != h.slot ==> Get(b, h') == Get(a, h')
    ensures forall h': Index :: Live(b, h') <==> Live(a, h')
    ensures forall p :: 0 <= p < |a.slots| ==> b.slots[p].generation == a.slots[p].generation
    ensures Valid(a) ==> Valid(b)
  {
    match GetMut(a, h)
    case None => a
    case Some(p) => a.(slots := a.slots[p := Slot(a.slots[p].generation, Some(v))])
  }

  /** What `push` needs to avoid an out-of-bounds panic: the queue's front position is in range. */
  predicate CanPush<T>(a: GenArray<T>) {
    |a.free| > 0 ==> a.free[0] < |a.slots|
  }

  lemma ValidCanPush<T>(a: GenArray<T>)
    requires Valid(a)
    ensures CanPush(a)
  {
  }

  /**
   * `push`: reuse the oldest free position with its generation plus one,
   * or, when no position is free, append a slot of generation 0.
   */
  function Push<T>(a: GenArray<T>, v: T): (r: (GenArray<T>, Index))
    requires CanPush(a)
    // the new handle resolves to the new value
    ensures Get(r.0, r.1) == Some(v)
    // reuse: the front position with the next generation, table length kept
    ensures |a.free| > 0 ==>
      && r.1 == Index(a.free[0], a.slots[a.free[0]].generation + 1)
      && r.0.free == a.free[1..]
      && |r.0.slots| == |a.slots|
    // append: a fresh position at the end with generation 0
    ensures |a.free| == 0 ==>
      && r.1 == Index(|a.slots|, 0)
      && r.0.free == []
      && |r.0.slots| == |a.slots| + 1
    // no other slot changes
    ensures forall p :: 0 <= p < |a.slots| && p != r.1.slot ==> r.0.slots[p] == a.slots[p]
    ensures GenerationsGrow(a, r.0)
    // with the invariant, the new handle was not live before and no other handle's lookup changes
    ensures Valid(a) ==> Valid(r.0)
    ensures Valid(a) ==> !Live(a, r.1)
    ensures Valid(a) ==> forall h: Index :: h != r.1 ==> Get(r.0, h) == Get(a, h)
  {
    if |a.free| > 0 then
      var p := a.free[0];
      var gen := a.slots[p].generation + 1;
      var b := GenArray(a.slots[p := Slot(gen, Some(v))], a.free[1..]);
      assert Valid(a) ==> Valid(b) by {
        if Valid(a) {
          PushReusePreservesValid(a, v);
        }
      }
      (b, Index(p, gen))
    else
      (GenArray(a.slots + [Slot(0, Some(v))], a.free), Index(|a.slots|, 0))
  }

  lemma PushReusePreservesValid<T>(a: GenArray<T>, v: T)
    requires Valid(a) && |a.free| > 0
    ensures Valid(GenArray(a.slots[a.free[0] := Slot(a.slots[a.free[0]].generation + 1, Some(v))], a.free[1..]))
  {
    var p := a.free[0];
    var b := GenArray(a.slots[p := Slot(a.slots[p].generation + 1, Some(v))], a.free[1..]);
    forall i | 0 <= i < |b.free|
      ensures Tombstoned(b, b.free[i])
    {
      assert b.free[i] == a.free[i + 1];
      assert a.free[i + 1] != a.free[0];
    }
    forall q: nat | Tombstoned(b, q)
      ensures q in b.free
    {
      assert Tombstoned(a, q);
      var i :| 0 <= i < |a.free| && a.free[i] == q;
      assert i != 0;
      assert b.free[i - 1] == q;
    }
  }

  /**
   * `remove`: a live handle's slot becomes a tombstone with its generation
   * kept and its position joins the back of the queue; any other handle
   * (out of range, stale generation, already tombstoned) changes nothing.
   */
  function Remove<T>(a: GenArray<T>, h: Index): (b: GenArray<T>)
    ensures !Live(a, h) ==> b == a
    ensures Live(a, h) ==> b.free == a.free + [h.slot]
    ensures Live(a, h) ==> Tombstoned(b, h.slot) && b.slots[h.slot].generation == h.generation
    ensures Get(b, h) == None
    ensures |b.slots| == |a.slots|
    ensures forall p :: 0 <= p < |a.slots| ==> b.slots[p].generation == a.slots[p].generation
    ensures forall p :: 0 <= p < |a.slots| && p != h.slot ==> b.slots[p] == a.slots[p]
    ensures forall h': Index :: h'.slot != h.slot ==> Get(b, h') == Get(a, h')
    ensures Valid(a) ==> Valid(b)
  {
    match SlotAt(a, h.slot)
    case Some(Slot(generation, value)) =>
      if generation == h.generation && value.Some? then
        GenArray(a.slots[h.slot := Slot(generation, None)], a.free + [h.slot])
      else
        a
    case None => a
  }

  /** Removing the same handle twice is the same as removing it once. */
  lemma RemoveIdempotent<T>(a: GenArray<T>, h: Index)
    ensures Remove(Remove(a, h), h) == Remove(a, h)
  {
  }
}
