/** Java's 32-bit `int`: the arithmetic the cursor fields `count` and `offset` go through. */
module JavaInt {

  const IntMin: int := -0x8000_0000
  const IntMax: int := 0x7fff_ffff
  const Modulus: int := 0x1_0000_0000

  type Int32 = x: int | IntMin <= x <= IntMax

  /** Two's-complement truncation of an exact integer to 32 bits. */
  function Wrap(x: int): (r: Int32)
    ensures (r - x) % Modulus == 0
    ensures IntMin <= x <= IntMax ==> r == x
  {
    var d := (x - IntMin) % Modulus;
    assert x - IntMin == Modulus * ((x - IntMin) / Modulus) + d;
    d + IntMin
  }

  /** `a + b` on Java ints. */
  function Add(a: Int32, b: Int32): (r: Int32)
    ensures IntMin <= a + b <= IntMax ==> r == a + b
    ensures a + b > IntMax ==> r == a + b - Modulus
    ensures a + b < IntMin ==> r == a + b + Modulus
  {
    Wrap(a + b)
  }

  /** `a - b` on Java ints. */
  function Sub(a: Int32, b: Int32): (r: Int32)
    ensures IntMin <= a - b <= IntMax ==> r == a - b
    ensures a - b > IntMax ==> r == a - b - Modulus
    ensures a - b < IntMin ==> r == a - b + Modulus
  {
    Wrap(a - b)
  }

  /** `Integer.max(a, b)`. */
  function Max(a: int, b: int): (r: int)
    ensures r >= a && r >= b && (r == a || r == b)
  {
    if a >= b then a else b
  }
}
