/**
 * Fixed-width integer arithmetic of the source languages, written out over Dafny's
 * unbounded integers: powers of two, 32- and 64-bit two's complement wrap-around,
 * C#'s truncating division, and bitwise operators.
 */
module Bits {

  /** 2^k. */
  function Pow2(k: nat): (r: nat)
    ensures r >= 1
  {
    if k == 0 then 1 else 2 * Pow2(k - 1)
  }

  lemma {:induction false} Pow2Add(a: nat, b: nat)
    ensures Pow2(a + b) == Pow2(a) * Pow2(b)
  {
    if a > 0 {
      Pow2Add(a - 1, b);
    }
  }

  lemma {:induction false} Pow2Monotone(a: nat, b: nat)
    requires a <= b
    ensures Pow2(a) <= Pow2(b)
  {
    if a < b {
      Pow2Monotone(a, b - 1);
    }
  }

  const Two31: int := 0x8000_0000
  const Two32: int := 0x1_0000_0000
  const Two63: int := 0x8000_0000_0000_0000
  const Two64: int := 0x1_0000_0000_0000_0000

  /** The range of a C# int. */
  predicate IsInt32(x: int) {
    -Two31 <= x < Two31
  }

  /** The range of a C# long. */
  predicate IsInt64(x: int) {
    -Two63 <= x < Two63
  }

  /** `unchecked((uint)x)`: the low 32 bits of x, read as unsigned. */
  function U32(x: int): (r: int)
    ensures 0 <= r < Two32
    ensures (x - r) % Two32 == 0
    ensures 0 <= x < Two32 ==> r == x
  {
    x % Two32
  }

  /** `unchecked((int)x)`: the low 32 bits of x, read as signed two's complement. */
  function Wrap32(x: int): (r: int)
    ensures IsInt32(r)
    ensures (x - r) % Two32 == 0
    ensures IsInt32(x) ==> r == x
  {
    var u := x % Two32;
    if u >= Two31 then u - Two32 else u
  }

  /** `unchecked((long)x)`: the low 64 bits of x, read as signed two's complement. */
  function Wrap64(x: int): (r: int)
    ensures IsInt64(r)
    ensures (x - r) % Two64 == 0
    ensures IsInt64(x) ==> r == x
  {
    var u := x % Two64;
    if u >= Two63 then u - Two64 else u
  }

  function Abs(x: int): nat {
    if x < 0 then -x else x
  }

  /**
   * C#'s integer division, which truncates toward zero: the quotient's multiple of
   * b never exceeds a in magnitude and falls short of it by less than |b|.
   */
  function TDiv(a: int, b: int): (r: int)
    requires b != 0
    ensures Abs(r * b) <= Abs(a) < Abs(r * b) + Abs(b)
    ensures r == 0 || (r > 0) == ((a > 0) == (b > 0))
    ensures a >= 0 && b > 0 ==> r == a / b
  {
    TDivProduct(a, b);
    if (a >= 0) == (b > 0) then
      (if a >= 0 then a / b else (-a) / (-b))
    else
      -((if a >= 0 then a else -a) / (if b > 0 then b else -b))
  }

  /** The truncated quotient times b is the dividend's magnitude rounded down to a multiple of |b|, with a's sign. */
  lemma TDivProduct(a: int, b: int)
    requires b != 0
    ensures var q := Abs(a) / Abs(b);
      var t := if (a >= 0) == (b > 0) then (if a >= 0 then a / b else (-a) / (-b))
               else -((if a >= 0 then a else -a) / (if b > 0 then b else -b));
      Abs(t) == q && t * b == (if a >= 0 then q * Abs(b) else -(q * Abs(b)))
      && q * Abs(b) <= Abs(a) < q * Abs(b) + Abs(b)
  {
    var q := Abs(a) / Abs(b);
    DivMod(Abs(a), Abs(b));
    if a >= 0 && b > 0 {
    } else if a < 0 && b < 0 {
      assert (-a) / (-b) == q;
      assert q * b == -(q * Abs(b));
    } else if a >= 0 {
      assert -q * b == q * Abs(b);
    } else {
      assert -q * b == -(q * Abs(b));
    }
  }

  /** C#'s remainder, which takes the sign of the dividend and is smaller than the divisor in magnitude. */
  function TRem(a: int, b: int): (r: int)
    requires b != 0
    ensures a == TDiv(a, b) * b + r
    ensures Abs(r) < Abs(b)
    ensures r == 0 || (r > 0) == (a > 0)
  {
    TDivProduct(a, b);
    a - TDiv(a, b) * b
  }

  /** Rereading the unsigned view of an int as signed gives the int back. */
  lemma WrapUnsigned(v: int)
    requires IsInt32(v)
    ensures Wrap32(U32(v)) == v
  {
    if v < 0 {
      assert U32(v) == v + Two32;
    }
  }

  /** An unsigned value with the top bit set reads as negative. */
  lemma WrapHigh(x: int)
    requires Two31 <= x < Two32
    ensures Wrap32(x) == x - Two32
  {
  }

  /** Bit i of a non-negative integer, counting from the least significant bit. */
  function Bit(a: nat, i: nat): (r: nat)
    ensures r < 2
  {
    if i == 0 then a % 2 else Bit(a / 2, i - 1)
  }

  /** Bitwise and of two non-negative integers, bit by bit from the least significant end. */
  function BitAnd(a: nat, b: nat): nat
    decreases a
  {
    if a == 0 || b == 0 then 0
    else 2 * BitAnd(a / 2, b / 2) + (if a % 2 == 1 && b % 2 == 1 then 1 else 0)
  }

  /** Bitwise exclusive or of two non-negative integers, bit by bit from the least significant end. */
  function BitXor(a: nat, b: nat): nat
    decreases a + b
  {
    if a == 0 then b
    else if b == 0 then a
    else 2 * BitXor(a / 2, b / 2) + (if a % 2 != b % 2 then 1 else 0)
  }

  lemma {:induction false} BitZero(i: nat)
    ensures Bit(0, i) == 0
  {
    if i > 0 {
      BitZero(i - 1);
    }
  }

  /** Bit i of a and b is set exactly when it is set in both. */
  lemma {:induction false} BitAndBits(a: nat, b: nat, i: nat)
    ensures Bit(BitAnd(a, b), i) == (if Bit(a, i) == 1 && Bit(b, i) == 1 then 1 else 0)
    decreases a
  {
    if a == 0 || b == 0 {
      BitZero(i);
    } else {
      var x, e := BitAnd(a / 2, b / 2), if a % 2 == 1 && b % 2 == 1 then 1 else 0;
      var c := BitAnd(a, b);
      assert c == 2 * x + e;
      assert c / 2 == x && c % 2 == e;
      if i > 0 {
        BitAndBits(a / 2, b / 2, i - 1);
      }
    }
  }

  /** Bit i of a xor b is set exactly when a and b differ in it. */
  lemma {:induction false} BitXorBits(a: nat, b: nat, i: nat)
    ensures Bit(BitXor(a, b), i) == (if Bit(a, i) != Bit(b, i) then 1 else 0)
    decreases a + b
  {
    if a == 0 {
      BitZero(i);
    } else if b == 0 {
      BitZero(i);
    } else {
      var x, e := BitXor(a / 2, b / 2), if a % 2 != b % 2 then 1 else 0;
      var c := BitXor(a, b);
      assert c == 2 * x + e;
      assert c / 2 == x && c % 2 == e;
      if i > 0 {
        BitXorBits(a / 2, b / 2, i - 1);
      }
    }
  }

  /** Xor is zero exactly on equal operands. */
  lemma {:induction false} BitXorZero(a: nat, b: nat)
    ensures BitXor(a, b) == 0 <==> a == b
    decreases a + b
  {
    if a != 0 && b != 0 {
      BitXorZero(a / 2, b / 2);
    }
  }

  /** Neither operation leaves the bits both operands fit in. */
  lemma {:induction false} BitOpsBound(a: nat, b: nat, k: nat)
    requires a < Pow2(k) && b < Pow2(k)
    ensures BitAnd(a, b) <= a && BitXor(a, b) < Pow2(k)
    decreases k
  {
    if a != 0 && b != 0 {
      BitOpsBound(a / 2, b / 2, k - 1);
    }
  }

  /** a % 2p splits into the low bit and (a / 2) % p. */
  lemma ModDouble(a: nat, p: nat)
    requires p >= 1
    ensures a % (2 * p) == 2 * ((a / 2) % p) + a % 2
  {
    var q, r := (a / 2) / p, (a / 2) % p;
    DivMod(a / 2, p);
    assert a == (2 * r + a % 2) + (2 * p) * q;
    DivModSplit(2 * r + a % 2, 2 * p, q);
  }

  /** And-ing with k low one bits keeps a modulo 2^k. */
  lemma {:induction false} BitAndLowMask(a: nat, k: nat)
    ensures BitAnd(a, Pow2(k) - 1) == a % Pow2(k)
    decreases k
  {
    if k == 0 {
      assert Pow2(k) - 1 == 0 && a % Pow2(k) == 0;
    } else if a == 0 {
      assert a % Pow2(k) == 0;
    } else {
      LowMaskHalf(k);
      BitAndLowMask(a / 2, k - 1);
      AndLowStep(a, Pow2(k) - 1, Pow2(k - 1));
    }
  }

  /** One bit of the mask: and-ing with 2p - 1 keeps the low bit and the rest modulo p. */
  lemma AndLowStep(a: nat, m: nat, p: nat)
    requires a > 0 && p >= 1 && m == 2 * p - 1
    requires BitAnd(a / 2, p - 1) == (a / 2) % p
    ensures BitAnd(a, m) == a % (2 * p)
  {
    assert m / 2 == p - 1 && m % 2 == 1;
    ModDouble(a, p);
  }

  /** The mask of k low bits is a one bit above the mask of k - 1 low bits. */
  lemma LowMaskHalf(k: nat)
    requires k > 0
    ensures Pow2(k) == 2 * Pow2(k - 1)
    ensures (Pow2(k) - 1) / 2 == Pow2(k - 1) - 1 && (Pow2(k) - 1) % 2 == 1
  {
  }

  /** Bitwise and of two C# ints: on their unsigned views, bit by bit. */
  function And32(a: int, b: int): (r: int)
    ensures IsInt32(r)
    ensures U32(r) == BitAnd(U32(a), U32(b))
  {
    Pow2Word();
    BitOpsBound(U32(a), U32(b), 32);
    UnsignedWrap(BitAnd(U32(a), U32(b)));
    Wrap32(BitAnd(U32(a), U32(b)))
  }

  /** Bitwise exclusive or of two C# ints: on their unsigned views, bit by bit. */
  function Xor32(a: int, b: int): (r: int)
    ensures IsInt32(r)
    ensures U32(r) == BitXor(U32(a), U32(b))
  {
    Pow2Word();
    BitOpsBound(U32(a), U32(b), 32);
    UnsignedWrap(BitXor(U32(a), U32(b)));
    Wrap32(BitXor(U32(a), U32(b)))
  }

  /** Reading a 32-bit unsigned value as signed and back gives it again. */
  lemma UnsignedWrap(x: int)
    requires 0 <= x < Two32
    ensures U32(Wrap32(x)) == x
  {
    if x >= Two31 {
      WrapHigh(x);
      assert U32(x - Two32) == x;
    }
  }

  /** Bit i of `a & b` is set exactly when it is set in both operands. */
  lemma And32Bits(a: int, b: int, i: nat)
    ensures Bit(U32(And32(a, b)), i) == (if Bit(U32(a), i) == 1 && Bit(U32(b), i) == 1 then 1 else 0)
  {
    BitAndBits(U32(a), U32(b), i);
  }

  /** Bit i of `a ^ b` is set exactly when the operands differ in it. */
  lemma Xor32Bits(a: int, b: int, i: nat)
    ensures Bit(U32(Xor32(a, b)), i) == (if Bit(U32(a), i) != Bit(U32(b), i) then 1 else 0)
  {
    BitXorBits(U32(a), U32(b), i);
  }

  /** `x & (2^k - 1)` keeps the low k bits: reduction modulo 2^k, for every int x. */
  lemma And32LowMask(x: int, k: nat)
    requires k < 31
    ensures And32(x, Pow2(k) - 1) == x % Pow2(k)
  {
    Pow2Below31(k);
    BitAndLowMask(U32(x), k);
    ModOfUnsigned(x, k);
    And32Mask(x, Pow2(k));
  }

  lemma Pow2Below31(k: nat)
    requires k < 31
    ensures Pow2(k) < Two31
  {
    Pow2Word();
    Pow2Monotone(k, 30);
    Pow2Add(30, 1);
  }

  /** A mask p - 1 below 2^31 that keeps the unsigned view modulo p keeps x modulo p. */
  lemma And32Mask(x: int, p: int)
    requires 1 <= p < Two31
    requires BitAnd(U32(x), p - 1) == U32(x) % p == x % p
    ensures And32(x, p - 1) == x % p
  {
    assert U32(p - 1) == p - 1;
    var w := BitAnd(U32(x), p - 1);
    assert 0 <= w < Two31;
  }

  /** Adding a multiple of p does not change the remainder modulo p. */
  lemma ModAddMultiple(u: int, p: int, m: int)
    requires p > 0
    ensures (u + p * m) % p == u % p
  {
    var q, r := u / p, u % p;
    assert u == r + p * q;
    assert u + p * m == r + p * (q + m);
    DivModSplit(r, p, q + m);
  }

  lemma MulAssoc(a: int, b: int, c: int)
    ensures (a * b) * c == a * (b * c)
  {
  }

  /** Reducing modulo 2^k, k <= 32, does not see the bits the unsigned view drops. */
  lemma ModOfUnsigned(x: int, k: nat)
    requires k <= 32
    ensures U32(x) % Pow2(k) == x % Pow2(k)
  {
    var p, u := Pow2(k), U32(x);
    Pow2Word();
    Pow2Add(k, 32 - k);
    var j := x / Two32;
    assert x == u + Two32 * j;
    MulAssoc(p, Pow2(32 - k), j);
    assert x == u + p * (Pow2(32 - k) * j);
    ModAddMultiple(u, p, Pow2(32 - k) * j);
  }

  /** `a ^ b` is zero exactly when the two ints are equal. */
  lemma Xor32Zero(a: int, b: int)
    requires IsInt32(a) && IsInt32(b)
    ensures Xor32(a, b) == 0 <==> a == b
  {
    Pow2Word();
    BitOpsBound(U32(a), U32(b), 32);
    BitXorZero(U32(a), U32(b));
    WrapUnsigned(a);
    WrapUnsigned(b);
  }

  /**
   * Bitwise or of two non-negative integers of any width, bit by bit from the
   * least significant end.
   */
  function BitOr(a: nat, b: nat): nat
    decreases a + b
  {
    if a == 0 then b
    else if b == 0 then a
    else 2 * BitOr(a / 2, b / 2) + (if a % 2 == 1 || b % 2 == 1 then 1 else 0)
  }

  /**
   * Or-ing a value into bits that are still zero is addition: the fact every
   * shift-and-or packer relies on.
   */
  lemma {:induction false} BitOrDisjoint(a: nat, b: nat, k: nat)
    requires a < Pow2(k)
    ensures BitOr(a, b * Pow2(k)) == a + b * Pow2(k)
  {
    if a == 0 || b == 0 {
    } else {
      assert k > 0;
      var h := b * Pow2(k - 1);
      assert b * Pow2(k) == 2 * h;
      assert (2 * h) / 2 == h && (2 * h) % 2 == 0;
      BitOrDisjoint(a / 2, b, k - 1);
    }
  }

  lemma MulZero(m: int, k: int)
    requires m >= 1 && -m < m * k < m
    ensures k == 0
  {
  }

  /** Division by m undoes a + m * b when 0 <= a < m. */
  lemma DivModSplit(a: int, m: int, b: int)
    requires 0 <= a < m
    ensures (a + m * b) / m == b && (a + m * b) % m == a
  {
    var x := a + m * b;
    var q, r := x / m, x % m;
    assert m * (b - q) == r - a;
    MulZero(m, b - q);
  }

  lemma DivMod(v: int, p: int)
    requires 0 <= v && 0 < p
    ensures v == v / p * p + v % p && v == p * (v / p) + v % p
    ensures 0 <= v / p && 0 <= v % p < p
  {
  }

  lemma MulModZero(q: int, m: int)
    requires m > 0
    ensures (q * m) % m == 0
  {
    DivModSplit(0, m, q);
    assert q * m == 0 + m * q;
  }

  lemma Pow2Byte()
    ensures Pow2(3) == 8 && Pow2(4) == 16 && Pow2(8) == 256
  {
    assert Pow2(4) == 16;
    Pow2Add(4, 4);
  }

  lemma Pow2Word()
    ensures Pow2(16) == 0x1_0000 && Pow2(32) == Two32 && Pow2(31) == Two31
  {
    Pow2Byte();
    Pow2Add(8, 8);
    Pow2Add(16, 16);
  }

  lemma Pow2Long()
    ensures Pow2(63) == Two63 && Pow2(64) == Two64
  {
    Pow2Word();
    Pow2Add(32, 32);
  }

  lemma Pow2Nibbles()
    ensures Pow2(24) == 0x100_0000 && Pow2(28) == 0x1000_0000
  {
    Pow2Word();
    Pow2Byte();
    Pow2Add(16, 8);
    Pow2Add(24, 4);
  }

  /** The powers of two the word widths use. */
  lemma Pow2Values()
    ensures Pow2(3) == 8 && Pow2(4) == 16 && Pow2(8) == 256 && Pow2(16) == 0x1_0000
    ensures Pow2(31) == Two31 && Pow2(32) == Two32 && Pow2(63) == Two63 && Pow2(64) == Two64
  {
    Pow2Byte();
    Pow2Word();
    Pow2Long();
  }
}
