/**
 Rust's fixed-width unsigned integers as used by `Stru`: `u16` for the
 fields and the threshold, `u32` for the argument of the zero test.

 The `+ 1` and `- 1` that `Stru::f2` applies to its `u16` fields are modelled
 twice: as checked operations that report leaving the range (the outcome a
 caller must be able to observe), and as the wrapping operations a release
 build performs silently.
 */
module Unsigned {

  const MaxU16: int := 65535
  const MaxU32: int := 4294967295

  /** A Rust `u16`: 0 ..= 65535. */
  type U16 = v: int | 0 <= v <= MaxU16

  /** A Rust `u32`: 0 ..= 4294967295. */
  type U32 = v: int | 0 <= v <= MaxU32

  datatype Option<T> = None | Some(value: T)

  /** `v + 1` on a `u16`: the successor when it is representable, else None. */
  function CheckedInc(v: U16): (r: Option<U16>)
    ensures r.Some? <==> v < MaxU16
    ensures r.Some? ==> r.value - v == 1
  {
    if v == MaxU16 then None else Some(v + 1)
  }

  /** `v - 1` on a `u16`: the predecessor when it is representable, else None. */
  function CheckedDec(v: U16): (r: Option<U16>)
    ensures r.Some? <==> 0 < v
    ensures r.Some? ==> v - r.value == 1
  {
    if v == 0 then None else Some(v - 1)
  }

  /** `v + 1` on a `u16` in a release build: arithmetic modulo 2^16. */
  function WrappingInc(v: U16): (r: U16)
    ensures v < MaxU16 ==> r == v + 1
    ensures v == MaxU16 ==> r == 0
  {
    (v + 1) % (MaxU16 + 1)
  }

  /** `v - 1` on a `u16` in a release build: arithmetic modulo 2^16. */
  function WrappingDec(v: U16): (r: U16)
    ensures 0 < v ==> r == v - 1
    ensures v == 0 ==> r == MaxU16
  {
    (v - 1) % (MaxU16 + 1)
  }

  /** The checked and the wrapping successor agree exactly where the checked one succeeds. */
  lemma IncAgreement(v: U16)
    ensures CheckedInc(v) == Some(WrappingInc(v)) <==> v < MaxU16
    ensures CheckedInc(v).None? ==> WrappingInc(v) < v
  {
  }

  /** The checked and the wrapping predecessor agree exactly where the checked one succeeds. */
  lemma DecAgreement(v: U16)
    ensures CheckedDec(v) == Some(WrappingDec(v)) <==> 0 < v
    ensures CheckedDec(v).None? ==> WrappingDec(v) > v
  {
  }
}
