/** Shared vocabulary: failure-compatible results and the machine integer widths. */
module Base {

  type byte = x: int | 0 <= x < 0x100
  type u16 = x: int | 0 <= x < 0x1_0000
  type u32 = x: int | 0 <= x < 0x1_0000_0000
  type u64 = x: int | 0 <= x < 0x1_0000_0000_0000_0000

  type bytes = seq<byte>

  const U64_MAX: u64 := 0xffff_ffff_ffff_ffff

  datatype Option<+T> = None | Some(value: T)

  datatype Result<+T, +E> = Ok(value: T) | Err(error: E) {
    predicate IsFailure() {
      Err?
    }

    function PropagateFailure<U>(): Result<U, E>
      requires Err?
    {
      Err(error)
    }

    function Extract(): T
      requires Ok?
    {
      value
    }
  }

  function SatSub(a: u64, b: u64): u64 {
    if a >= b then a - b else 0
  }
}
