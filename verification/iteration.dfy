/**
 * Iteration over the occupied slots of an arena: the shared and the
 * exclusive iterator, both a cursor `pos` that advances past the next
 * occupied slot on each `next`.
 */
module Iteration {
  import opened Options
  import opened Handles
  import opened GenArrays

  /** The occupied values of `s` in ascending position order: what `iter()` denotes. */
  function Values<T>(s: seq<Slot<T>>): seq<T> {
    if |s| == 0 then []
    else
      match s[0].value
      case Some(v) => [v] + Values(s[1..])
      case None => Values(s[1..])
  }

  /** The positions of the occupied slots of `s` at or after `from`, ascending. */
  function OccupiedFrom<T>(s: seq<Slot<T>>, from: nat): seq<nat>
    decreases |s| - from
  {
    if from >= |s| then []
    else if s[from].value.Some? then [from] + OccupiedFrom(s, from + 1)
    else OccupiedFrom(s, from + 1)
  }

  predicate StrictlyIncreasing(ps: seq<nat>) {
    forall i, j :: 0 <= i < j < |ps| ==> ps[i] < ps[j]
  }

  /** The occupied positions from `from` on are strictly increasing and none lies before `from`. */
  lemma {:induction false} OccupiedFromIncreasing<T>(s: seq<Slot<T>>, from: nat)
    ensures StrictlyIncreasing(OccupiedFrom(s, from))
    ensures forall k :: 0 <= k < |OccupiedFrom(s, from)| ==> from <= OccupiedFrom(s, from)[k] < |s|
    decreases |s| - from
  {
    if from < |s| {
      OccupiedFromIncreasing(s, from + 1);
    }
  }

  /** The occupied positions from `from` on are exactly the occupied slots there. */
  lemma {:induction false} OccupiedFromComplete<T>(s: seq<Slot<T>>, from: nat)
    ensures forall p: nat :: p in OccupiedFrom(s, from) <==> from <= p < |s| && s[p].value.Some?
    decreases |s| - from
  {
    if from < |s| {
      OccupiedFromComplete(s, from + 1);
    }
  }

  /** `Values` reads, in order, the values at the occupied positions. */
  lemma {:induction false} ValuesAtOccupied<T>(s: seq<Slot<T>>, from: nat)
    requires from <= |s|
    ensures |Values(s[from..])| == |OccupiedFrom(s, from)|
    ensures forall k :: 0 <= k < |OccupiedFrom(s, from)| ==>
      OccupiedFrom(s, from)[k] < |s| && s[OccupiedFrom(s, from)[k]].value == Some(Values(s[from..])[k])
    decreases |s| - from
  {
    OccupiedFromIncreasing(s, from);
    if from < |s| {
      ValuesAtOccupied(s, from + 1);
      assert s[from..][1..] == s[from + 1..];
    }
  }

  /**
   * `Iterator::position(|s| s.1.is_some())`: the offset of the first
   * occupied slot of `s`, or `None` when every slot is a tombstone.
   */
  function Position<T>(s: seq<Slot<T>>): (r: Option<nat>)
    ensures r.Some? ==> r.value < |s| && s[r.value].value.Some?
    ensures r.Some? ==> forall j :: 0 <= j < r.value ==> s[j].value.None?
    ensures r.None? ==> forall j :: 0 <= j < |s| ==> s[j].value.None?
  {
    if |s| == 0 then None
    else if s[0].value.Some? then Some(0)
    else
      match Position(s[1..])
      case None => None
      case Some(k) => Some(k + 1)
  }

  /** The cursor shared by `GenArrayIterator` and `GenArrayIteratorMut`. */
  datatype Cursor = Cursor(pos: nat)

  /**
   * One `next` step of either iterator: the position of the next occupied
   * slot at or after the cursor, and the cursor just past it.
   */
  function Advance<T>(a: GenArray<T>, c: Cursor): (r: Option<(nat, Cursor)>)
    ensures r.Some? ==> c.pos <= r.value.0 && Occupied(a, r.value.0) && r.value.1.pos == r.value.0 + 1
    ensures r.Some? ==> forall p :: c.pos <= p < r.value.0 ==> Tombstoned(a, p)
    ensures r.None? ==> forall p :: c.pos <= p < |a.slots| ==> Tombstoned(a, p)
  {
    if c.pos >= |a.slots| then None
    else
      match Position(a.slots[c.pos..])
      case None => None
      case Some(k) =>
        var p := c.pos + k;
        Some((p, Cursor(p + 1)))
  }

  /** `GenArrayIteratorMut::next`: the reference it yields is the slot position. */
  function NextMut<T>(a: GenArray<T>, c: Cursor): (r: Option<(nat, Cursor)>)
    ensures r.Some? ==> Occupied(a, r.value.0)
  {
    Advance(a, c)
  }

  /**
   * `GenArrayIterator::next`: the next occupied value and the advanced
   * cursor. It stops, visits and advances exactly as `NextMut` does, and
   * yields the value in the slot `NextMut` points at.
   */
  function Next<T>(a: GenArray<T>, c: Cursor): (r: Option<(T, Cursor)>)
    ensures r.Some? <==> NextMut(a, c).Some?
    ensures r.Some? ==> r.value.1 == NextMut(a, c).value.1
    ensures r.Some? ==> Some(r.value.0) == a.slots[NextMut(a, c).value.0].value
  {
    match Advance(a, c)
    case None => None
    case Some((p, c')) => Some((a.slots[p].value.value, c'))
  }

  lemma {:induction false} ValuesSkip<T>(s: seq<Slot<T>>, k: nat)
    requires k <= |s|
    requires forall j :: 0 <= j < k ==> s[j].value.None?
    ensures Values(s) == Values(s[k..])
  {
    if k > 0 {
      assert s[1..][k - 1..] == s[k..];
      ValuesSkip(s[1..], k - 1);
    }
  }

  /**
   * What the iterator still has to yield from cursor `c` is the value at the
   * next occupied slot followed by what it yields from there, or nothing.
   */
  lemma NextStep<T>(a: GenArray<T>, c: Cursor)
    requires c.pos <= |a.slots|
    ensures Next(a, c).None? ==> Values(a.slots[c.pos..]) == []
    ensures Next(a, c).Some? ==>
      && Next(a, c).value.1.pos <= |a.slots|
      && Values(a.slots[c.pos..]) == [Next(a, c).value.0] + Values(a.slots[Next(a, c).value.1.pos..])
  {
    var s := a.slots[c.pos..];
    match Advance(a, c)
    case None =>
      ValuesSkip(s, |s|);
    case Some((p, c')) =>
      ValuesSkip(s, p - c.pos);
      assert s[p - c.pos..] == a.slots[p..];
      assert a.slots[p..][1..] == a.slots[p + 1..];
  }

  /** `iter().collect()`: drives `Next` from position 0 until it returns `None`. */
  method Collect<T>(a: GenArray<T>) returns (out: seq<T>)
    ensures out == Values(a.slots)
  {
    out := [];
    var c := Cursor(0);
    var step := Next(a, c);
    NextStep(a, c);
    while step.Some?
      invariant c.pos <= |a.slots|
      invariant step == Next(a, c)
      invariant out + Values(a.slots[c.pos..]) == Values(a.slots)
      decreases |a.slots| - c.pos
    {
      NextStep(a, c);
      out := out + [step.value.0];
      c := step.value.1;
      step := Next(a, c);
    }
    NextStep(a, c);
  }

  /**
   * What the exclusive iterator still has to yield from cursor `c` is the
   * next occupied position followed by what it yields from there, or nothing.
   */
  lemma NextMutStep<T>(a: GenArray<T>, c: Cursor)
    ensures NextMut(a, c).None? ==> OccupiedFrom(a.slots, c.pos) == []
    ensures NextMut(a, c).Some? ==>
      OccupiedFrom(a.slots, c.pos) == [NextMut(a, c).value.0] + OccupiedFrom(a.slots, NextMut(a, c).value.1.pos)
  {
    match Advance(a, c)
    case None =>
      OccupiedFromNone(a.slots, c.pos);
    case Some((p, c')) =>
      OccupiedFromSkip(a.slots, c.pos, p);
  }

  lemma {:induction false} OccupiedFromNone<T>(s: seq<Slot<T>>, from: nat)
    requires forall p :: from <= p < |s| ==> s[p].value.None?
    ensures OccupiedFrom(s, from) == []
    decreases |s| - from
  {
    if from < |s| {
      OccupiedFromNone(s, from + 1);
    }
  }

  lemma {:induction false} OccupiedFromSkip<T>(s: seq<Slot<T>>, from: nat, to: nat)
    requires from <= to < |s|
    requires forall p :: from <= p < to ==> s[p].value.None?
    requires s[to].value.Some?
    ensures OccupiedFrom(s, from) == [to] + OccupiedFrom(s, to + 1)
    decreases |s| - from
  {
    if from < to {
      OccupiedFromSkip(s, from + 1, to);
    }
  }

  /**
   * The positions `iter_mut()` yields, in order: exactly the occupied slots,
   * ascending, so no slot is yielded twice and no two references alias.
   */
  method IterMutPositions<T>(a: GenArray<T>) returns (ps: seq<nat>)
    ensures ps == OccupiedFrom(a.slots, 0)
    ensures StrictlyIncreasing(ps)
    ensures forall p: nat :: p in ps <==> Occupied(a, p)
  {
    ps := [];
    var c := Cursor(0);
    var step := NextMut(a, c);
    while step.Some?
      invariant step == NextMut(a, c)
      invariant ps + OccupiedFrom(a.slots, c.pos) == OccupiedFrom(a.slots, 0)
      decreases |a.slots| - c.pos
    {
      NextMutStep(a, c);
      ps := ps + [step.value.0];
      c := step.value.1;
      step := NextMut(a, c);
    }
    NextMutStep(a, c);
    OccupiedFromIncreasing(a.slots, 0);
    OccupiedFromComplete(a.slots, 0);
  }

  /** The slot a mutation through `f` leaves behind: same generation, value mapped. */
  function MapSlot<T>(s: Slot<T>, f: T -> T): Slot<T> {
    Slot(s.generation, s.value.Map(f))
  }

  /** Mapping every slot through `f` maps the occupied values in order. */
  lemma {:induction false} ValuesMapSlots<T>(s: seq<Slot<T>>, t: seq<Slot<T>>, f: T -> T)
    requires |t| == |s|
    requires forall p :: 0 <= p < |s| ==> t[p] == MapSlot(s[p], f)
    ensures |Values(t)| == |Values(s)|
    ensures forall k :: 0 <= k < |Values(s)| ==> Values(t)[k] == f(Values(s)[k])
  {
    if |s| > 0 {
      ValuesMapSlots(s[1..], t[1..], f);
    }
  }

  /**
   * The arena a whole `iter_mut` pass applying `f` leaves behind, as one
   * step: every slot mapped by `MapSlot`, the free queue kept. Lookups see
   * the mapped values, and liveness, generations and the invariant stay.
   */
  function MapValues<T>(a: GenArray<T>, f: T -> T): (b: GenArray<T>)
    ensures b.free == a.free && |b.slots| == |a.slots|
    ensures forall p :: 0 <= p < |a.slots| ==> b.slots[p].generation == a.slots[p].generation
    ensures forall p: nat :: Tombstoned(b, p) <==> Tombstoned(a, p)
    ensures forall h: Index :: Live(b, h) <==> Live(a, h)
    ensures forall h: Index :: Get(b, h) == Get(a, h).Map(f)
    ensures Valid(a) ==> Valid(b)
  {
    var b := GenArray(seq(|a.slots|, p requires 0 <= p < |a.slots| => MapSlot(a.slots[p], f)), a.free);
    assert forall p: nat :: Tombstoned(b, p) <==> Tombstoned(a, p) by {
      forall p: nat | p < |a.slots|
        ensures Tombstoned(b, p) <==> Tombstoned(a, p)
      {
        assert b.slots[p] == MapSlot(a.slots[p], f);
      }
    }
    assert forall h: Index :: Get(b, h) == Get(a, h).Map(f) by {
      forall h: Index
        ensures Get(b, h) == Get(a, h).Map(f)
      {
        if h.slot < |a.slots| {
          assert b.slots[h.slot] == MapSlot(a.slots[h.slot], f);
        }
      }
    }
    b
  }

  /**
   * `for x in &mut arr { *x = f(*x) }`: driving `NextMut` and writing through
   * each yielded position replaces every occupied value by its image under
   * `f` and ends in `MapValues(a, f)`; iteration afterwards sees the new values.
   */
  method ForEachMut<T>(a: GenArray<T>, f: T -> T) returns (b: GenArray<T>)
    ensures b == MapValues(a, f)
    ensures forall p :: 0 <= p < |a.slots| ==> b.slots[p] == MapSlot(a.slots[p], f)
    ensures forall h: Index :: Get(b, h) == Get(a, h).Map(f)
    ensures |Values(b.slots)| == |Values(a.slots)|
    ensures forall k :: 0 <= k < |Values(a.slots)| ==> Values(b.slots)[k] == f(Values(a.slots)[k])
    ensures Valid(a) ==> Valid(b)
  {
    b := a;
    var c := Cursor(0);
    var step := NextMut(b, c);
    while step.Some?
      invariant step == NextMut(b, c)
      invariant b.free == a.free && |b.slots| == |a.slots|
      invariant forall p :: 0 <= p < |a.slots| && p < c.pos ==> b.slots[p] == MapSlot(a.slots[p], f)
      invariant forall p :: c.pos <= p < |a.slots| ==> b.slots[p] == a.slots[p]
      decreases |a.slots| - c.pos
    {
      var p := step.value.0;
      var s := b.slots[p];
      b := b.(slots := b.slots[p := Slot(s.generation, Some(f(s.value.value)))]);
      c := step.value.1;
      step := NextMut(b, c);
    }
    assert b.slots == MapValues(a, f).slots;
    ValuesMapSlots(a.slots, b.slots, f);
  }
}
