/**
 * Java's 32-bit `int` and signed 8-bit `byte`, and the bit operations the
 * tag code uses (`&`, `|`, `<<`, `>>>`), written on unbounded integers.
 * A Java int is identified with the integer its two's-complement pattern
 * denotes; the bit operators act on the unsigned reading of that pattern.
 */
module JavaInts {

  /** A Java `int`. */
  type Int32 = x: int | -0x8000_0000 <= x < 0x8000_0000

  /** A Java `byte` (signed). */
  type Int8 = x: int | -128 <= x < 128

  /** Two's-complement wrap-around: the int whose pattern is the low 32 bits of `x`. */
  function Wrap32(x: int): (r: Int32)
    ensures -0x8000_0000 <= x < 0x8000_0000 ==> r == x
  {
    var m := x % 0x1_0000_0000;
    if m < 0x8000_0000 then m else m - 0x1_0000_0000
  }

  /** The unsigned reading of an int's 32-bit pattern. */
  function Unsigned32(x: Int32): (u: nat)
    ensures u < 0x1_0000_0000
  {
    if x < 0 then x + 0x1_0000_0000 else x
  }

  /** Bitwise AND of the binary representations of two naturals. */
  function BitAnd(x: nat, y: nat): nat
    decreases x
  {
    if x == 0 || y == 0 then 0
    else 2 * BitAnd(x / 2, y / 2) + (if x % 2 == 1 && y % 2 == 1 then 1 else 0)
  }

  /** Bitwise OR of the binary representations of two naturals. */
  function BitOr(x: nat, y: nat): nat
    decreases x + y
  {
    if x == 0 then y
    else if y == 0 then x
    else 2 * BitOr(x / 2, y / 2) + (if x % 2 == 1 || y % 2 == 1 then 1 else 0)
  }

  /** Java's `a & b`. */
  function And(a: Int32, b: Int32): Int32 {
    Wrap32(BitAnd(Unsigned32(a), Unsigned32(b)))
  }

  /** Java's `a | b`. */
  function Or(a: Int32, b: Int32): Int32 {
    Wrap32(BitOr(Unsigned32(a), Unsigned32(b)))
  }

  /** Java's `a << k`: the distance is taken modulo 32. */
  function ShiftLeft(a: Int32, k: nat): Int32 {
    Doubled(a, k % 32)
  }

  /** `a` doubled `n` times, each time with wrap-around. */
  function Doubled(a: Int32, n: nat): Int32
    decreases n
  {
    if n == 0 then a else Doubled(Wrap32(2 * a), n - 1)
  }

  /** Java's `a >>> k`: the distance is taken modulo 32. */
  function UnsignedShiftRight(a: Int32, k: nat): Int32 {
    Halved(a, k % 32)
  }

  /** The unsigned pattern of `a` halved `n` times. */
  function Halved(a: Int32, n: nat): Int32
    decreases n
  {
    if n == 0 then a else Halved(Wrap32(Unsigned32(a) / 2), n - 1)
  }

  /** Wrapping ignores multiples of 2^32. */
  lemma WrapShift(x: int, q: int)
    ensures Wrap32(x + 0x1_0000_0000 * q) == Wrap32(x)
  {
    var y := x + 0x1_0000_0000 * q;
    assert y % 0x1_0000_0000 == x % 0x1_0000_0000 by {
      var r := x % 0x1_0000_0000;
      assert x == 0x1_0000_0000 * (x / 0x1_0000_0000) + r;
      assert y == 0x1_0000_0000 * (x / 0x1_0000_0000 + q) + r;
    }
  }

  /** Wrapping before scaling by a constant changes nothing after the final wrap. */
  lemma WrapScale(x: int, c: int)
    ensures Wrap32(c * Wrap32(x)) == Wrap32(c * x)
  {
    var w: int := Wrap32(x);
    var q := (x - w) / 0x1_0000_0000;
    assert x - w == 0x1_0000_0000 * q;
    assert c * w == c * x + 0x1_0000_0000 * (-c * q);
    WrapShift(c * x, -c * q);
  }

  /** Wrapping inside an affine step changes nothing after the final wrap. */
  lemma WrapAffine(x: int, c: int, b: int)
    ensures Wrap32(c * Wrap32(x) + b) == Wrap32(c * x + b)
  {
    var w: int := Wrap32(x);
    var q := (x - w) / 0x1_0000_0000;
    assert x - w == 0x1_0000_0000 * q;
    assert c * w + b == c * x + b + 0x1_0000_0000 * (-c * q);
    WrapShift(c * x + b, -c * q);
  }

  /** Adding to a wrapped sum and wrapping again is adding to the unwrapped sum. */
  lemma WrapAdd(x: int, b: int)
    ensures Wrap32(Wrap32(x) + b) == Wrap32(x + b)
  {
    WrapAffine(x, 1, b);
  }

  /** Wrapping the unsigned reading of an int gives the int back. */
  lemma WrapUnsigned(x: Int32)
    ensures Wrap32(Unsigned32(x)) == x
  {
  }

  /** Reading a wrapped value without sign gives its remainder modulo 2^32. */
  lemma UnsignedOfWrap(x: int)
    ensures Unsigned32(Wrap32(x)) == x % 0x1_0000_0000
  {
  }

  /** Eight times an integer, modulo 2^32, is eight times the integer modulo 2^29. */
  lemma EightTimesModulo(n: int)
    ensures (8 * n) % 0x1_0000_0000 == 8 * (n % 0x2000_0000)
  {
    var q := n / 0x2000_0000;
    var r := n % 0x2000_0000;
    assert 8 * n == q * 0x1_0000_0000 + 8 * r;
  }

  /** Doubling a wrapped value and wrapping is wrapping the doubled value. */
  lemma DoubleWrapped(a: Int32, x: int)
    requires a == Wrap32(x)
    ensures Wrap32(2 * (a as int)) == Wrap32(2 * x)
  {
    WrapScale(x, 2);
  }

  /** Shifting left by three multiplies by 8, modulo 2^32. */
  lemma ShiftLeftThree(a: Int32)
    ensures ShiftLeft(a, 3) == Wrap32(a * 8)
  {
    var x: int := a;
    var a1 := Wrap32(2 * x);
    var a2 := Wrap32(2 * (a1 as int));
    var a3 := Wrap32(2 * (a2 as int));
    assert ShiftLeft(a, 3) == a3 by {
      assert Doubled(a, 3) == Doubled(a1, 2) == Doubled(a2, 1) == Doubled(a3, 0);
    }
    assert a2 == Wrap32(4 * x) by { DoubleWrapped(a1, 2 * x); }
    assert a3 == Wrap32(8 * x) by { DoubleWrapped(a2, 4 * x); }
  }

  /** Halving the unsigned pattern gives a non-negative int. */
  lemma HalveUnsigned(a: Int32)
    ensures Wrap32(Unsigned32(a) / 2) == Unsigned32(a) / 2
    ensures Unsigned32(Wrap32(Unsigned32(a) / 2)) == Unsigned32(a) / 2
  {
  }

  /** Shifting right by three divides the unsigned pattern by 8. */
  lemma UnsignedShiftRightThree(a: Int32)
    ensures UnsignedShiftRight(a, 3) == Unsigned32(a) / 8
  {
    var u: int := Unsigned32(a);
    var a1 := Wrap32(u / 2);
    assert a1 == u / 2 && Unsigned32(a1) == u / 2 by { HalveUnsigned(a); }
    var a2 := Wrap32(Unsigned32(a1) / 2);
    assert a2 == u / 4 && Unsigned32(a2) == u / 4 by { HalveUnsigned(a1); }
    var a3 := Wrap32(Unsigned32(a2) / 2);
    assert a3 == u / 8 by { HalveUnsigned(a2); }
    assert Halved(a, 3) == Halved(a1, 2) == Halved(a2, 1) == Halved(a3, 0);
  }

  /** Masking with 1 keeps the lowest bit. */
  lemma {:induction false} BitAndOne(x: nat)
    ensures BitAnd(x, 1) == x % 2
  {
    if x != 0 {
      assert BitAnd(x, 1) == 2 * BitAnd(x / 2, 0) + x % 2;
    }
  }

  /** Masking with 3 keeps the low two bits. */
  lemma {:induction false} BitAndThree(x: nat)
    ensures BitAnd(x, 3) == x % 4
  {
    if x != 0 {
      assert BitAnd(x, 3) == 2 * BitAnd(x / 2, 1) + x % 2;
      BitAndOne(x / 2);
      assert x % 4 == 2 * ((x / 2) % 2) + x % 2;
    }
  }

  /** Masking with 7 keeps the low three bits: the remainder modulo 8. */
  lemma {:induction false} BitAndSeven(x: nat)
    ensures BitAnd(x, 7) == x % 8
  {
    if x != 0 {
      assert BitAnd(x, 7) == 2 * BitAnd(x / 2, 3) + x % 2;
      BitAndThree(x / 2);
      HalfModFour(x);
    }
  }

  /** The remainder modulo 8 from the lowest bit and the remainder of the half modulo 4. */
  lemma HalfModFour(x: nat)
    ensures x % 8 == 2 * ((x / 2) % 4) + x % 2
  {
    var h, b := x / 2, x % 2;
    var k, m := h / 4, h % 4;
    assert x == 8 * k + (2 * m + b);
  }

  /** OR-ing a value below 2 into an even number adds it. */
  lemma {:induction false} BitOrBelowTwo(a: nat, b: nat)
    requires b < 2
    ensures BitOr(2 * a, b) == 2 * a + b
  {
    if a != 0 && b != 0 {
      assert (2 * a) / 2 == a && (2 * a) % 2 == 0;
      assert BitOr(2 * a, b) == 2 * BitOr(a, 0) + 1;
    }
  }

  /** OR-ing a value below 4 into a multiple of 4 adds it. */
  lemma {:induction false} BitOrBelowFour(a: nat, b: nat)
    requires b < 4
    ensures BitOr(4 * a, b) == 4 * a + b
  {
    if a != 0 && b != 0 {
      assert (4 * a) / 2 == 2 * a && (4 * a) % 2 == 0;
      assert BitOr(4 * a, b) == 2 * BitOr(2 * a, b / 2) + b % 2;
      BitOrBelowTwo(a, b / 2);
    }
  }

  /** OR-ing a value below 8 into a multiple of 8 adds it. */
  lemma {:induction false} BitOrBelowEight(a: nat, b: nat)
    requires b < 8
    ensures BitOr(8 * a, b) == 8 * a + b
  {
    if a != 0 && b != 0 {
      assert (8 * a) / 2 == 4 * a && (8 * a) % 2 == 0;
      assert BitOr(8 * a, b) == 2 * BitOr(4 * a, b / 2) + b % 2;
      BitOrBelowFour(a, b / 2);
    }
  }
}
