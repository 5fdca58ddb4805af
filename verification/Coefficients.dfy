/** Values as the library's C types hold them. */
module Coefficients {

  function Abs(c: int): nat {
    if c >= 0 then c else -c
  }

  /** A value stored in a 16-bit coefficient. */
  function Short(v: int): (c: int)
    ensures -32768 <= c < 32768
  {
    (v + 32768) % 65536 - 32768
  }

  lemma ShortIs(v: int)
    requires -32768 <= v < 32768
    ensures Short(v) == v
  {
  }
}
