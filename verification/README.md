# genarr: a verified model of a generational arena

`GenArray<T>` (src/lib.rs) stores values in a table of slots, each slot a
generation counter and an optional value, and hands out `Index` handles made
of a slot position and a generation. A handle resolves only while its slot is
occupied and still carries the handle's generation. Removing a value leaves a
tombstone and queues the position on a FIFO free list; the next `push` reuses
the oldest free position with its generation plus one, so every handle to the
old occupant stops resolving for good. With no free position, `push` appends a
slot of generation 0.

The model is functional: an arena is an immutable value
`GenArray(slots: seq<Slot<T>>, free: seq<nat>)` and each operation is a pure
function or a short method returning the new arena.

| file | module | contents |
|---|---|---|
| options.dfy | `Options` | `Option<T>` as in Rust |
| handles.dfy | `Handles` | `Index`, `into_raw` and its decoding |
| genarray.dfy | `GenArrays` | slots, the arena, its invariant, `new`, `get`, `get_mut`, `push`, `remove` |
| iteration.dfy | `Iteration` | `Iterator::position`, both iterators' `next`, collecting, mutation through `iter_mut` |
| lifecycle.dfy | `Lifecycle` | runs of operations: stale-handle rejection, liveness until removal, the per-slot generation state machine |
| scenarios.dfy | `Scenarios` | the three unit tests of src/lib.rs as proved facts |

Representation choices:
- Slot positions and generations are `nat`. The Rust `u32` width is kept
  only where it is visible, in `into_raw` (`Handles.FitsU32`).
- A reference handed out by `get_mut` or by the mutable iterator is the slot
  position it points at; writing through it is `GenArrays.SetAt` or the loop
  body of `Iteration.ForEachMut`.
- `GenArrays.Valid` is the arena invariant: every queued position is an
  in-range tombstone, every tombstone is queued, no position is queued twice.
  `New` establishes it, and `Push`, `Remove`, `SetAt` and `ForEachMut` keep it.
- `GenArrays.Push` requires only `CanPush`: the front of the free queue is in
  range. That is exactly what `self.slots[index]` in src/lib.rs needs to avoid
  a panic. `ValidCanPush` shows every valid arena meets it.
- The `works` test checks lookups and the handles' fields, not iteration order. Iterating its
  final arena in ascending slot order gives
  `["hello", "dolor", "quanti", "ipsum", "amet"]`, because the reused
  positions 1 and 2 precede position 3. `Scenarios.WorksFinal` proves that
  order.

## Model

| member | source | states |
|---|---|---|
| Handles.IntoRaw | src/lib.rs:10-12 | the token is below 2^64, its high 32 bits (quotient by 2^32) are the slot and its low 32 bits (remainder) the generation |
| Handles.FromRawIntoRaw | src/lib.rs:10-12 | splitting a token back into its two 32-bit halves recovers the handle, so no information is lost |
| Handles.IntoRawFromRaw | src/lib.rs:10-12 | every 64-bit token is the encoding of exactly the handle its halves describe |
| Handles.IntoRawInjective | src/lib.rs:3-12 | two handles have equal tokens if and only if they are equal, field by field |
| Handles.ShiftOrIsMulAdd | src/lib.rs:11 | on 64-bit words, shifting the slot left by 32 and or-ing in the generation equals `slot * 2^32 + generation` when both fit in 32 bits |
| GenArrays.New | src/lib.rs:28-33 | the empty arena satisfies the free-list invariant and no handle is live in it |
| GenArrays.Get | src/lib.rs:35-47 | a lookup returns a value exactly when the handle is live (in range, occupied, generation equal) and that value is the slot's; otherwise `None`, never a failure |
| GenArrays.GetMut | src/lib.rs:49-61 | the mutable lookup succeeds under exactly the same liveness rule and points at the handle's slot |
| GenArrays.SetAt | src/lib.rs:49-61 | writing through `get_mut` with a live handle puts the new value in its slot, keeping the generation, so the handle resolves to it; a handle that is not live (stale, out of range or tombstoned) leaves the arena unchanged, even when its slot now holds a newer occupant; no other slot, liveness, generation or the free queue changes, and the invariant is kept |
| GenArrays.ValidCanPush | src/lib.rs:64-65 | in a valid arena the oldest free position is in range, so `push` cannot index out of bounds |
| GenArrays.Push | src/lib.rs:63-77 | the returned handle resolves to the pushed value; with a free position it is the front position with generation plus one and the queue loses its front; otherwise a new last slot with generation 0; no other slot changes, generations never drop, the invariant is kept, the handle was not live before and no other handle's lookup changes |
| GenArrays.PushReusePreservesValid | src/lib.rs:64-69 | reusing the front free position and dropping it from the queue keeps every queued position a tombstone, every tombstone queued and the queue duplicate-free |
| GenArrays.Remove | src/lib.rs:79-86 | a live handle's slot becomes a tombstone with the same generation and its position joins the back of the queue; any other handle leaves the arena identical; afterwards `get` on the handle returns `None`, other positions and all generations are unchanged, and the invariant is kept |
| GenArrays.RemoveIdempotent | src/lib.rs:79-86 | removing a handle twice gives the same arena as removing it once |
| Iteration.Position | src/lib.rs:139-141 | the offset found is the first occupied slot, with only tombstones before it; `None` means every slot is a tombstone |
| Iteration.Advance | src/lib.rs:137-149 | a step of either iterator lands on the first occupied slot at or after the cursor and moves the cursor just past it; it ends only when every slot from the cursor on is a tombstone |
| Iteration.NextMut | src/lib.rs:111-125 | each slot the mutable iterator yields is occupied |
| Iteration.Next | src/lib.rs:136-150 | the shared iterator stops, advances and visits exactly where the mutable one does, yielding the value in that slot |
| Iteration.NextStep | src/lib.rs:136-150 | what remains to be yielded from a cursor is the next value followed by what remains after it, or nothing once `next` returns `None` |
| Iteration.Collect | src/lib.rs:136-150 | draining the iterator from position 0 yields exactly `Values`, the occupied values in ascending slot order |
| Iteration.OccupiedFromIncreasing | src/lib.rs:136-150 | the occupied positions are listed in strictly increasing order, all in range, so no slot appears twice |
| Iteration.OccupiedFromComplete | src/lib.rs:136-150 | a position is listed exactly when its slot is occupied, so tombstones are skipped and no occupied slot is missed |
| Iteration.ValuesAtOccupied | src/lib.rs:136-150 | the k-th value iteration yields is the value stored at the k-th occupied position |
| Iteration.NextMutStep | src/lib.rs:111-125 | what remains for the mutable iterator is the next occupied position followed by the rest, or nothing |
| Iteration.IterMutPositions | src/lib.rs:111-125 | the mutable iterator visits exactly the occupied positions, ascending, each at most once, so no two yielded references alias |
| Iteration.ValuesMapSlots | src/lib.rs:111-125 | mapping every slot's value through `f` maps the iterated values element-wise, in the same order |
| Iteration.MapValues | src/lib.rs:111-125 | a whole mutable pass applying `f`, as one step: lookups return the mapped value exactly where they returned a value before, liveness, generations, tombstones and the queue stay, and the invariant is kept |
| Iteration.ForEachMut | src/lib.rs:111-125 | driving the mutable iterator and writing `f` of each yielded value ends in exactly `MapValues`: each occupied value is replaced by its image, and every later lookup and iteration sees the new values in the same order; the invariant is kept |
| Lifecycle.Step | src/lib.rs:63-86 | every mutating call (push, remove, assignment through `get_mut`, a whole `iter_mut` pass) keeps the invariant, and each slot either keeps its generation or goes from tombstone to occupied with generation exactly plus one; appended slots start at 0 |
| Lifecycle.Run | src/lib.rs:63-86 | any sequence of mutating calls keeps the invariant, never shrinks the table and never lowers a generation |
| Lifecycle.ReachableValid | src/lib.rs:28-86 | every arena built by `new` followed by pushes, removals, assignments and `iter_mut` passes satisfies the free-list invariant |
| Lifecycle.DeadNotLive | src/lib.rs:35-47 | a handle whose slot has moved past it does not resolve |
| Lifecycle.RemoveKills | src/lib.rs:79-86 | removing a live handle makes it dead |
| Lifecycle.StepKeepsDead | src/lib.rs:63-86 | no push, removal, assignment or `iter_mut` pass brings a dead handle back |
| Lifecycle.DeadForever | src/lib.rs:63-86 | a dead handle stays dead through any sequence of pushes, removals, assignments and `iter_mut` passes |
| Lifecycle.StaleForever | src/lib.rs:63-86 | once a live handle is removed, it never resolves again, whatever is pushed, removed, assigned or mapped through `iter_mut` afterwards, even when its slot is reused |
| Lifecycle.LiveUntilRemoved | src/lib.rs:63-86 | a live handle stays live through any calls that do not remove it, and keeps its value through any that also neither assign through it nor pass `iter_mut` over the arena |
| Scenarios.WorksPushes | src/lib.rs:216-219 | four pushes into a new arena return handles at positions 0 to 3, all generation 0 |
| Scenarios.WorksRemoves | src/lib.rs:220-221 | removing the second and third handle tombstones positions 1 and 2 and queues them in that order |
| Scenarios.WorksReuse | src/lib.rs:222-224 | the next pushes reuse position 1 then 2 with generation 1, and a third one appends at position 4 with generation 0 |
| Scenarios.WorksFinal | src/lib.rs:225-237 | removing the stale handle again changes nothing; after assigning through `get_mut` every lookup gives the test's expected value and (not checked by the test) iteration gives the values in slot order |
| Scenarios.IterTest | src/lib.rs:178-192 | iteration after removing the middle two of four values yields `["hello", "ipsum"]` |
| Scenarios.IterMutTest | src/lib.rs:195-210 | doubling every value through the mutable iterator and then iterating yields `[4, 16]` |

## Left out

- Slot-count overflow: `push` panics when the new position does not fit in
  `u32` (src/lib.rs:73). Positions are unbounded here, so that panic is not
  modelled.
- Generation overflow: `+ 1` on a `u32` generation (src/lib.rs:65) panics or
  wraps depending on the build. Generations are unbounded here; wrap-around
  would break stale-handle rejection.
- The `Debug` output of `Index` (src/lib.rs:15-20): formatting only.
- The `Default` and `IntoIterator` impls (src/lib.rs:97-101, 153-171): they
  forward to `new`, `iter` and `iter_mut`.
- The raw-pointer casts that extend borrow lifetimes in both iterators
  (src/lib.rs:121, 146): a yielded reference is modelled as a slot position.
- The iterator structs' borrow of the arena: the model's iterators read the
  arena they are given, and `ForEachMut` passes the updated arena to each step.
- Handles.ShiftOrIsMulAdd: the identity is proved on 64-bit words only; the
  step from that word to the `nat` that `Handles.IntoRaw` returns is not
  proved, because the solver does not discharge the conversion between
  bit-vectors and integers.
- An `iter_mut` pass inside a history (`Lifecycle.Op`'s `MapAll`) applies one
  function to every value. A loop body that stops early, or whose write
  depends on how many values it has seen, is not an operation of the model.
- Derived `Clone`, `Copy` and `Hash` on `Index`: only field-wise equality
  matters, which datatype equality provides.
- `Vec` and `VecDeque` allocation: sequences with front removal and back
  append stand for them.
- `get_mut(...).unwrap()` in the `works` test panics on `None`;
  `GenArrays.SetAt` instead leaves the arena unchanged when the lookup fails.
