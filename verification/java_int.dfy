/** Java's 32-bit two's-complement `int`. */
module JavaInt {

  const INT_MIN: int := -0x8000_0000
  const INT_MAX: int := 0x7FFF_FFFF
  const MODULUS: int := 0x1_0000_0000

  /** The values of a Java `int`. */
  type Int32 = x: int | INT_MIN <= x <= INT_MAX

  /** The `int` that Java arithmetic yields for the exact result `x`: the one
      value of the `int` range congruent to `x` modulo 2^32. */
  function Wrap(x: int): (r: Int32)
    ensures (r - x) % MODULUS == 0
  {
    (x - INT_MIN) % MODULUS + INT_MIN
  }

  /** Wrapping forgets multiples of 2^32: Java arithmetic is arithmetic
      modulo 2^32. */
  lemma WrapCongruent(x: int, y: int)
    requires (x - y) % MODULUS == 0
    ensures Wrap(x) == Wrap(y)
  {
    var k := (x - y) / MODULUS;
    assert x - INT_MIN == (y - INT_MIN) + MODULUS * k;
    ShiftMod(y - INT_MIN, k);
  }

  lemma {:induction false} ShiftMod(a: int, k: int)
    ensures (a + MODULUS * k) % MODULUS == a % MODULUS
    decreases if k < 0 then -k else k
  {
    if k > 0 {
      ShiftMod(a, k - 1);
      assert a + MODULUS * k == (a + MODULUS * (k - 1)) + MODULUS;
    } else if k < 0 {
      ShiftMod(a, k + 1);
      assert a + MODULUS * k == (a + MODULUS * (k + 1)) - MODULUS;
    }
  }

  /** Wrapping an intermediate result does not change the final one: Java may
      narrow after every step of a computation like `31 * h + c`. */
  lemma WrapStep(h: int, m: int, c: int)
    ensures Wrap(m * Wrap(h) + c) == Wrap(m * h + c)
  {
    var w := Wrap(h);
    var k := (w - h) / MODULUS;
    assert w - h == MODULUS * k;
    assert (m * w + c) - (m * h + c) == MODULUS * (m * k) by {
      assert m * w - m * h == m * (w - h);
    }
    assert ((m * w + c) - (m * h + c)) % MODULUS == 0 by {
      ShiftMod(0, m * k);
    }
    WrapCongruent(m * w + c, m * h + c);
  }
}
