/**
  Go's fixed-width integer types and its error/nil conventions, as used by the
  exercises modelled in the other modules.
 */
module GoBasics {

  /** Go's `byte`, an alias of `uint8`. */
  type uint8 = x: int | 0 <= x < 256

  /** The conversion `uint8(n)`: keeps the low eight bits of any `int`.
      Dafny's `%` is Euclidean, which is exactly two's-complement truncation. */
  function Uint8(n: int): (r: uint8)
    ensures 0 <= n < 256 ==> r == n
    ensures (r - n) % 256 == 0
  {
    n % 256
  }

  const TWO_63: int := 0x8000_0000_0000_0000
  const TWO_64: int := 0x1_0000_0000_0000_0000

  /** The value of an `int` (taken to be 64 bits wide) after wrap-around. */
  function Int64(n: int): (r: int)
    ensures -TWO_63 <= r < TWO_63
    ensures -TWO_63 <= n < TWO_63 ==> r == n
    ensures (r - n) % TWO_64 == 0
  {
    (n + TWO_63) % TWO_64 - TWO_63
  }

  /** Wrapping the operands of `+` first does not change the wrapped sum:
      Go's 64-bit addition computes `Int64(a + b)` at every step. */
  lemma Int64Add(a: int, b: int)
    ensures Int64(Int64(a) + Int64(b)) == Int64(a + b)
  {
    var qa := (a + TWO_63) / TWO_64;
    var qb := (b + TWO_63) / TWO_64;
    assert Int64(a) == a - qa * TWO_64;
    assert Int64(b) == b - qb * TWO_64;
    ShiftMod(a + b + TWO_63, -(qa + qb));
  }

  lemma ShiftMod(x: int, k: int)
    ensures (x + k * TWO_64) % TWO_64 == x % TWO_64
  {
    var q := x / TWO_64;
    assert x + k * TWO_64 == (q + k) * TWO_64 + x % TWO_64;
  }

  /** `nil` or a value: Go's nil error, nil map. */
  datatype Option<+T> = None | Some(value: T)
}
