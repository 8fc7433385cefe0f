/** Java `int` arithmetic: 32-bit two's complement values and the binary operators
    of the Java Language Specification (sections 15.17, 15.18, 15.19 and 15.22). */
module JavaInt {

  const TWO_31: int := 0x8000_0000
  const TWO_32: int := 0x1_0000_0000

  /** The values a Java `int` can hold. */
  type int32 = x: int | -0x8000_0000 <= x < 0x8000_0000

  /** 2^n. */
  function Pow2(n: nat): (r: int)
    ensures r >= 1
  {
    if n == 0 then 1 else 2 * Pow2(n - 1)
  }

  /** The Java `int` congruent to `x` modulo 2^32: what a wrapping 32-bit operation keeps. */
  function Wrap(x: int): (r: int32)
    ensures (r - x) % TWO_32 == 0
    ensures -TWO_31 <= x < TWO_31 ==> r == x
  {
    var m := (x + TWO_31) % TWO_32;
    assert (m - (x + TWO_31)) % TWO_32 == 0;
    m - TWO_31
  }

  /** Two integers that agree modulo 2^32 wrap to the same `int`. */
  lemma WrapCongruent(x: int, y: int)
    requires (x - y) % TWO_32 == 0
    ensures Wrap(x) == Wrap(y)
  {
    var k := (x - y) / TWO_32;
    assert x == y + k * TWO_32;
    assert (x + TWO_31) % TWO_32 == (y + TWO_31 + k * TWO_32) % TWO_32;
    ModuloShift(y + TWO_31, k);
  }

  lemma ModuloShift(a: int, k: int)
    ensures (a + k * TWO_32) % TWO_32 == a % TWO_32
  {
    var q := a / TWO_32;
    var r := a % TWO_32;
    assert a == q * TWO_32 + r;
    assert a + k * TWO_32 == (q + k) * TWO_32 + r;
  }

  /** `a + b` on `int` (JLS 15.18.2): the low 32 bits of the exact sum. */
  function Add(a: int32, b: int32): int32 { Wrap(a + b) }

  /** `a - b` on `int` (JLS 15.18.2). */
  function Sub(a: int32, b: int32): int32 { Wrap(a - b) }

  /** `a * b` on `int` (JLS 15.17.1): the low 32 bits of the exact product. */
  function Mul(a: int32, b: int32): int32 { Wrap(a * b) }

  function Abs(x: int): nat { if x < 0 then -x else x }

  /** Euclidean division of a natural number by a positive one, spelled out. */
  lemma DivModNat(a: int, b: int)
    requires a >= 0 && b > 0
    ensures a / b >= 0 && a == (a / b) * b + a % b && 0 <= a % b < b
  {}

  /** The exact quotient rounded toward zero (JLS 15.17.2). */
  function TruncDiv(a: int, b: int): (q: int)
    requires b != 0
    ensures Abs(q) == Abs(a) / Abs(b)
    ensures q != 0 ==> ((q < 0) <==> ((a < 0) != (b < 0)))
  {
    DivModNat(Abs(a), Abs(b));
    var m := Abs(a) / Abs(b);
    if (a < 0) != (b < 0) then -m else m
  }

  /** `a / b` on `int`: rounds toward zero; `MIN_VALUE / -1` overflows back to `MIN_VALUE`. */
  function Div(a: int32, b: int32): int32
    requires b != 0
  {
    Wrap(TruncDiv(a, b))
  }

  /** `a % b` on `int` (JLS 15.17.3): the sign of the dividend, magnitude below `|b|`. */
  function Rem(a: int32, b: int32): (r: int32)
    requires b != 0
    ensures Abs(r) < Abs(b)
    ensures r != 0 ==> ((r < 0) <==> (a < 0))
    ensures r == a - b * TruncDiv(a, b)
  {
    RemainderBounds(a, b);
    a - b * TruncDiv(a, b)
  }

  lemma RemainderBounds(a: int, b: int)
    requires b != 0
    ensures Abs(a - b * TruncDiv(a, b)) < Abs(b)
    ensures a - b * TruncDiv(a, b) != 0 ==> ((a - b * TruncDiv(a, b) < 0) <==> (a < 0))
  {
    var A: int, B: int := Abs(a), Abs(b);
    DivModNat(A, B);
    var m: int, r: int := A / B, A % B;
    var q := TruncDiv(a, b);
    assert A == m * B + r;
    // In every sign combination b * q == +-(B * m), with the sign of a.
    if a >= 0 {
      assert b * q == m * B by {
        if b > 0 { assert q == m; } else { assert q == -m; assert b * q == (-b) * m; }
      }
      assert a - b * q == r;
    } else {
      assert b * q == -(m * B) by {
        if b > 0 { assert q == -m; assert b * q == -(b * m); } else { assert q == m; assert b * q == -((-b) * m); }
      }
      assert a - b * q == -r;
    }
  }

  /** The distance of a shift: only the low five bits of the right operand (JLS 15.19). */
  function ShiftDistance(s: int32): (d: nat)
    ensures d < 32
  {
    s % 32
  }

  /** `a << s` on `int`. */
  function Shl(a: int32, s: int32): int32 { Wrap(a * Pow2(ShiftDistance(s))) }

  /** `x` shifted right by `d` bits, filling with the sign: floor of `x / 2^d`. */
  function Halve(x: int, d: nat): (r: int)
    ensures 0 <= x ==> 0 <= r <= x
    ensures x < 0 ==> x <= r < 0
    decreases d
  {
    if d == 0 then x else Halve(x / 2, d - 1)
  }

  /** `a >> s` on `int`: arithmetic shift (sign extension). */
  function Shr(a: int32, s: int32): int32 { Halve(a, ShiftDistance(s)) }

  /** The unsigned reading of the 32 bits of `a`. */
  function Unsigned(a: int32): (u: nat)
    ensures u < TWO_32
  {
    if a < 0 then a + TWO_32 else a
  }

  /** `a >>> s` on `int`: logical shift, zero extension. */
  function Ushr(a: int32, s: int32): int32
  {
    Wrap(Halve(Unsigned(a), ShiftDistance(s)))
  }

  /** The 32 bits of `a`. */
  function ToBits(a: int32): bv32 { Unsigned(a) as bv32 }

  /** The `int` whose two's complement bits are `b`. */
  function FromBits(b: bv32): int32
  {
    if b as int < TWO_31 then b as int else b as int - TWO_32
  }

  /** `a | b`, `a & b`, `a ^ b` on `int` (JLS 15.22.1): bitwise on the two's complement form. */
  function Or(a: int32, b: int32): int32 { FromBits(ToBits(a) | ToBits(b)) }
  function And(a: int32, b: int32): int32 { FromBits(ToBits(a) & ToBits(b)) }
  function Xor(a: int32, b: int32): int32 { FromBits(ToBits(a) ^ ToBits(b)) }

  /** JLS 15.17.3: even when the quotient overflows, `(a / b) * b + (a % b) == a` in `int` arithmetic. */
  lemma {:induction false} DivRemIdentity(a: int32, b: int32)
    requires b != 0
    ensures Add(Mul(Div(a, b), b), Rem(a, b)) == a
  {
    var q := TruncDiv(a, b);
    var d := Div(a, b);
    var k := (d - q) / TWO_32;
    assert d == q + k * TWO_32;
    assert d * b == q * b + (k * b) * TWO_32;
    var m := Mul(d, b);
    assert (m - q * b) % TWO_32 == 0 by {
      assert (m - d * b) % TWO_32 == 0;
      var j := (m - d * b) / TWO_32;
      assert m == d * b + j * TWO_32;
      assert m - q * b == (k * b + j) * TWO_32;
    }
    var r := Rem(a, b);
    assert q * b + r == a;
    assert ((m + r) - a) % TWO_32 == 0 by {
      assert (m + r) - a == m - q * b;
    }
    WrapCongruent(m + r, a);
  }

  /** The shift distance only depends on the low five bits: shifting by `s` and by `s + 32` agree. */
  lemma {:induction false} ShiftDistanceMasked(s: int32)
    requires s + 32 < TWO_31
    ensures ShiftDistance(s + 32) == ShiftDistance(s)
  {
    assert s + 32 == (s / 32 + 1) * 32 + s % 32;
  }
}
