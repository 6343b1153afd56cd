/** Bytes as numbers. */
module Bytes {

  type Byte = bv8

  function Value(b: Byte): nat { b as int }

  /** The byte with value `n`. */
  function ToByte(n: nat): Byte
    requires n < 256
  {
    if n == 0 then 0 else ToByte(n - 1) + 1
  }

  lemma ValueBound(b: Byte)
    ensures Value(b) < 256
  {}

  lemma Successor(b: Byte)
    requires b < 255
    ensures Value(b + 1) == Value(b) + 1
  {}

  lemma Top(b: Byte)
    requires b == 255
    ensures Value(b) == 255
  {}

  lemma {:induction false} ToByteValue(n: nat)
    requires n < 256
    ensures Value(ToByte(n)) == n
  {
    hide Value;
    if n == 0 {
      Zero();
    } else {
      ToByteValue(n - 1);
      if ToByte(n - 1) == 255 { Top(ToByte(n - 1)); }
      Successor(ToByte(n - 1));
    }
  }

  lemma Zero()
    ensures Value(0) == 0
  {}
}
