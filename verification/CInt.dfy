/** The target's 32-bit `int` and `unsigned`, on Dafny's unbounded integers. */
module CInt {

  const TWO_32: int := 0x1_0000_0000
  const INT_MIN: int := -0x8000_0000
  const INT_MAX: int := 0x7FFF_FFFF

  predicate IsInt32(x: int) {
    INT_MIN <= x <= INT_MAX
  }

  type Int32 = x: int | -0x8000_0000 <= x <= 0x7FFF_FFFF
  type Uint32 = x: int | 0 <= x < 0x1_0000_0000

  type Byte = x: int | 0 <= x < 256

  /** Byte `k` of a value stored in little-endian order. */
  function LeByte(v: nat, k: nat): Byte {
    match k
    case 0 => v % 256
    case 1 => v / 256 % 256
    case 2 => v / 256 / 256 % 256
    case 3 => v / 256 / 256 / 256 % 256
    case _ => 0
  }

  function FromLe(b0: Byte, b1: Byte, b2: Byte, b3: Byte): Uint32 {
    b0 + 0x100 * b1 + 0x1_0000 * b2 + 0x100_0000 * b3
  }

  lemma LowByte(v: nat, bound: nat)
    requires v < 256 * bound
    ensures v == 256 * (v / 256) + v % 256 && v / 256 < bound
  {
  }

  lemma LeRoundTrip(v: Uint32)
    ensures FromLe(LeByte(v, 0), LeByte(v, 1), LeByte(v, 2), LeByte(v, 3)) == v
  {
    LowByte(v, 0x100_0000);
    LowByte(v / 256, 0x1_0000);
    LowByte(v / 256 / 256, 0x100);
    LowByte(v / 256 / 256 / 256, 1);
  }

  /** Two's complement: the 32-bit value with the same low 32 bits as `x`. */
  function Wrap32(x: int): (r: Int32)
    ensures IsInt32(x) ==> r == x
  {
    (x + 0x8000_0000) % TWO_32 - 0x8000_0000
  }

  /** Wrapping only ever moves a value by a multiple of 2^32. */
  lemma WrapShift(x: int, k: int)
    ensures Wrap32(x + k * TWO_32) == Wrap32(x)
  {
  }

  lemma WrapWitness(x: int) returns (k: int)
    ensures Wrap32(x) == x + k * TWO_32
  {
    k := -((x + 0x8000_0000) / TWO_32);
  }

  /** Wrapping is a ring homomorphism: wrapping an operand first changes nothing. */
  lemma WrapSum(x: int, y: int)
    ensures Wrap32(Wrap32(x) + Wrap32(y)) == Wrap32(x + y)
    ensures Wrap32(Wrap32(x) - Wrap32(y)) == Wrap32(x - y)
  {
    var j := WrapWitness(x);
    var k := WrapWitness(y);
    WrapShift(x + y, j + k);
    WrapShift(x - y, j - k);
  }

  lemma ShiftedProduct(x: int, k: int, y: int)
    ensures (x + k * TWO_32) * y == x * y + (k * y) * TWO_32
  {
  }

  lemma WrapFactor(x: int, y: int)
    ensures Wrap32(Wrap32(x) * y) == Wrap32(x * y)
  {
    var k := WrapWitness(x);
    ShiftedProduct(x, k, y);
    WrapShift(x * y, k * y);
  }

  lemma WrapProduct(x: int, y: int)
    ensures Wrap32(Wrap32(x) * Wrap32(y)) == Wrap32(x * y)
  {
    WrapFactor(x, Wrap32(y));
    WrapFactor(y, x);
    assert x * Wrap32(y) == Wrap32(y) * x && y * x == x * y;
  }

  /** C division: the quotient is truncated toward zero. */
  function CDiv(a: int, b: int): (q: int)
    requires b != 0
  {
    var m := Abs(a) / Abs(b);
    if (a < 0) == (b < 0) then m else -m
  }

  /** C remainder: it has the sign of the dividend. */
  function CMod(a: int, b: int): (r: int)
    requires b != 0
  {
    if a < 0 then -(Abs(a) % Abs(b)) else a % Abs(b)
  }

  function Abs(a: int): nat {
    if a < 0 then -a else a
  }

  /** No multiple but zero is smaller than what it is a multiple of. */
  lemma NoSmallMultiple(d: int, b: int)
    requires d != 0 && b != 0
    ensures if b > 0 then d * b >= b || d * b <= -b else d * b <= b || d * b >= -b
  {
    if d > 0 {
      NotSmaller(d, Abs(b));
      assert d * (-b) == -(d * b);
    } else {
      NotSmaller(-d, Abs(b));
      assert (-d) * b == -(d * b) && (-d) * (-b) == d * b;
    }
  }

  lemma NotSmaller(d: nat, b: nat)
    requires d > 0
    ensures d * b >= b
  {
  }
}
