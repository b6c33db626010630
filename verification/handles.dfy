/**
 * The handle type `Index` of the arena: a slot position paired with the
 * generation the slot had when the handle was issued.
 */
module Handles {

  /** 2^32: one more than the largest `u32`. */
  const TWO32: nat := 0x1_0000_0000
  /** 2^64: one more than the largest `u64`. */
  const TWO64: nat := 0x1_0000_0000_0000_0000

  /**
   * Positions and generations are unbounded here; the Rust implementation stores both
   * as `u32`, which `FitsU32` expresses where the width matters.
   * Two handles are equal exactly when both fields are equal.
   */
  datatype Index = Index(slot: nat, generation: nat)

  predicate FitsU32(h: Index) {
    h.slot < TWO32 && h.generation < TWO32
  }

  /**
   * `into_raw`: the slot position in the high 32 bits and the generation in
   * the low 32 bits of one `u64`. Shifting left by 32 and or-ing in a value
   * below 2^32 is multiplication by 2^32 plus addition (see `ShiftOrIsMulAdd`).
   */
  function IntoRaw(h: Index): (raw: nat)
    requires FitsU32(h)
    ensures raw < TWO64
    ensures raw / TWO32 == h.slot
    ensures raw % TWO32 == h.generation
  {
    h.slot * TWO32 + h.generation
  }

  /**
   * Reading a raw token back into its two fields. src/lib.rs defines no
   * such operation; it is the reference against which `IntoRaw` is shown
   * to lose nothing.
   */
  function FromRaw(raw: nat): (h: Index)
    requires raw < TWO64
    ensures FitsU32(h)
  {
    Index(raw / TWO32, raw % TWO32)
  }

  lemma FromRawIntoRaw(h: Index)
    requires FitsU32(h)
    ensures FromRaw(IntoRaw(h)) == h
  {
  }

  lemma IntoRawFromRaw(raw: nat)
    requires raw < TWO64
    ensures IntoRaw(FromRaw(raw)) == raw
  {
  }

  /** Distinct handles have distinct raw encodings, and equal ones equal encodings. */
  lemma IntoRawInjective(h1: Index, h2: Index)
    requires FitsU32(h1) && FitsU32(h2)
    ensures IntoRaw(h1) == IntoRaw(h2) <==> h1 == h2
  {
    FromRawIntoRaw(h1);
    FromRawIntoRaw(h2);
  }

  /**
   * The Rust spelling `(slot << 32) | generation` on 64-bit words is the
   * same number as `slot * 2^32 + generation` whenever both fit in 32 bits.
   * The identity stays on 64-bit words; its conversion to `nat` is not proved.
   */
  lemma ShiftOrIsMulAdd(slot: bv64, generation: bv64)
    requires slot < 0x1_0000_0000 && generation < 0x1_0000_0000
    ensures (slot << 32) | generation == slot * 0x1_0000_0000 + generation
  {
  }
}
