/**
 What every module shares: bytes, optional values, and the associativity of appending.
*/
module Basics {
  type Byte = x: int | 0 <= x < 256

  datatype Option<+T> = None | Some(value: T)

  /** The increment of an unsigned 8-bit variable. */
  function NextByte(b: Byte): Byte {
    var n: int := b;
    (n + 1) % 256
  }

  /** Conversion to an unsigned 16-bit variable. */
  function Low16(size: nat): (r: nat)
    ensures r <= size && (size < 0x10000 ==> r == size) && r < 0x10000
  {
    size % 0x10000
  }

  function Min(a: nat, b: nat): nat { if a < b then a else b }

  lemma AppendTwice<T>(a: seq<T>, b: seq<T>, c: seq<T>)
    ensures a + (b + c) == (a + b) + c
  {
  }
}
