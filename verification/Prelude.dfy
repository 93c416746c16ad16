/** Types shared by every component of the model. */
module Prelude {
  /** The source's `Option`. */
  datatype Option<+T> = None | Some(value: T)

  /** The source's `Result`; the error side is a component's own enumeration. */
  datatype Result<+T, +E> = Ok(value: T) | Err(error: E)

  type byte = b: int | 0 <= b < 256
  type u16 = n: int | 0 <= n < 0x1_0000
  type u64 = n: int | 0 <= n < 0x1_0000_0000_0000_0000

  const U64_MAX: u64 := 0xFFFF_FFFF_FFFF_FFFF

  /** The result of a `saturating_add` or `saturating_mul` whose exact value is n. */
  function Saturated(n: nat): u64 {
    if n > U64_MAX then U64_MAX else n
  }

  /** Rust's `saturating_sub`. */
  function SatSub(a: nat, b: nat): (d: nat)
    ensures d <= a
  {
    if a < b then 0 else a - b
  }

  lemma {:induction false} SubsetSize<T>(a: set<T>, b: set<T>)
    requires a <= b
    ensures |a| <= |b|
  {
    if a != {} {
      var x :| x in a;
      SubsetSize(a - {x}, b - {x});
    }
  }
}
