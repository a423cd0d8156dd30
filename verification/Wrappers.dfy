/** Shared by all modules. */
module Wrappers {

  datatype Option<+T> = None | Some(value: T)

  lemma Regroup<T>(a: seq<T>, b: seq<T>, c: seq<T>)
    ensures a + b + c == a + (b + c)
  {
  }

  /** Bit `bit` of a byte, counted from the lowest. */
  function Bit(b: bv8, bit: nat): bv8
    requires bit < 8
  {
    match bit
    case 0 => b & 1
    case 1 => (b >> 1) & 1
    case 2 => (b >> 2) & 1
    case 3 => (b >> 3) & 1
    case 4 => (b >> 4) & 1
    case 5 => (b >> 5) & 1
    case 6 => (b >> 6) & 1
    case _ => b >> 7
  }
}
