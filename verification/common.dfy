/** Shared vocabulary: C++ `unsigned int` values and the failure-carrying datatypes. */
module Common {

  /** 2^32: the modulus of C++ `unsigned int` arithmetic. */
  const TwoTo32: nat := 0x1_0000_0000

  /** The values of a C++ `unsigned int`. */
  type u32 = x: int | 0 <= x < 0x1_0000_0000

  /** The largest `unsigned int`. */
  const MaxU32: u32 := 0xFFFF_FFFF

  datatype Option<T> = None | Some(value: T)

  /** The result of an operation that either returns normally or throws `error`. */
  datatype Outcome<E> = Pass | Fail(error: E)

  /** `a - b` evaluated in `unsigned int` arithmetic (wraps below zero). */
  function UnsignedSub(a: u32, b: u32): (r: u32)
    ensures b <= a ==> r == a - b
    ensures a < b ==> r == a - b + TwoTo32
  {
    (a - b) % TwoTo32
  }

  function Min(a: nat, b: nat): nat {
    if a <= b then a else b
  }
}
