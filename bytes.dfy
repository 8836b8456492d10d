/**
 Bytes and bits: the unsigned-char pixel values and the single-bit operations
 that the steganography applies to them, plus the small Option/Result wrappers
 the rest of the model uses for error paths.

 A byte is an integer in [0, 256); the bitwise operations of the program are
 written as the equivalent arithmetic on that integer.
 */
module Bytes {

  /** An `unsigned char` (pixel channel value) or a `char` of the message, as its 8-bit pattern. */
  newtype byte = x: int | 0 <= x < 256

  datatype Option<T> = None | Some(value: T)

  datatype Result<T, E> = Success(value: T) | Failure(error: E)

  /** 2 to the power `r`: the value of `1 << r`. */
  function Pow2(r: nat): (p: nat)
    ensures p >= 1
  {
    if r == 0 then 1 else 2 * Pow2(r - 1)
  }

  /** The least-significant bit of a byte, `b & 1`. */
  function Lsb(b: byte): (bit: byte)
    ensures bit <= 1
  {
    b % 2
  }

  /** Bit `r` (0 is the least significant) of a natural number: halve `r` times, take the remainder. */
  function Bit(v: nat, r: nat): (bit: nat)
    ensures bit <= 1
  {
    if r == 0 then v % 2 else Bit(v / 2, r - 1)
  }

  /** Bit `r` of a byte, `c >> r & 1`. */
  function BitOf(c: byte, r: nat): (bit: byte)
    requires r < 8
    ensures bit <= 1
  {
    Bit(c as nat, r) as byte
  }

  /** Clearing the least-significant bit, `b & 0b11111110`. */
  function ClearLow(b: byte): (r: byte)
    ensures Lsb(r) == 0 && r / 2 == b / 2
  {
    b - b % 2
  }

  /** Setting the least-significant bit, `b | 1`. */
  function SetLow(b: byte): (r: byte)
    ensures Lsb(r) == 1 && r / 2 == b / 2
  {
    b - b % 2 + 1
  }

  /**
   The write of one message bit into a pixel byte: a zero bit clears the
   least-significant bit (`b & 0b11111110`), a one bit sets it (`b | 1`).
   The new byte carries the bit and keeps the seven upper bits of `b`.
   */
  function SetLsb(b: byte, bit: byte): (r: byte)
    requires bit <= 1
    ensures Lsb(r) == bit
    ensures r / 2 == b / 2
  {
    if bit == 0 then ClearLow(b) else SetLow(b)
  }

  /** The conversion `(unsigned char) v` of an int: its value modulo 256. */
  function ToByte(v: int): byte
  {
    (v % 256) as byte
  }

  /** A product of natural numbers is a natural number. */
  lemma MulNonnegative(a: nat, b: nat)
    ensures a * b >= 0
  {
  }

  /** A positive multiple of `m` is at least `m`. */
  lemma {:induction false} MulAtLeast(k: int, m: int)
    requires k >= 1 && m > 0
    ensures k * m >= m
    decreases k
  {
    if k > 1 {
      MulAtLeast(k - 1, m);
      assert k * m == (k - 1) * m + m;
    }
  }

  /** Two quotient-remainder pairs of the same number by the same divisor coincide. */
  lemma SameQuotient(m: int, x: int, y: int, q: int, r: int)
    requires m > 0 && 0 <= y < m && 0 <= r < m && x * m + y == q * m + r
    ensures x == q && y == r
  {
    assert (x - q) * m == r - y;
    if x - q >= 1 {
      MulAtLeast(x - q, m);
    } else if q - x >= 1 {
      MulAtLeast(q - x, m);
    }
  }

  /** Euclidean division is determined by quotient and remainder. */
  lemma DivUnique(a: int, m: int, x: int, y: int)
    requires m > 0 && 0 <= y < m && a == x * m + y
    ensures a / m == x && a % m == y
  {
    SameQuotient(m, x, y, a / m, a % m);
  }

  /** Two numbers below 2^n with the same n low bits are equal. */
  lemma {:induction false} SameLowBits(a: nat, b: nat, n: nat)
    requires a < Pow2(n) && b < Pow2(n)
    requires forall r :: 0 <= r < n ==> Bit(a, r) == Bit(b, r)
    ensures a == b
    decreases n
  {
    if n > 0 {
      assert Bit(a, 0) == Bit(b, 0);
      forall r | 0 <= r < n - 1
        ensures Bit(a / 2, r) == Bit(b / 2, r)
      {
        assert Bit(a, r + 1) == Bit(b, r + 1);
      }
      SameLowBits(a / 2, b / 2, n - 1);
    }
  }

  /** Two bytes with the same eight bits are equal. */
  lemma SameBits(a: byte, b: byte)
    requires forall r :: 0 <= r < 8 ==> BitOf(a, r) == BitOf(b, r)
    ensures a == b
  {
    assert Pow2(8) == 256;
    var x, y := a as nat, b as nat;
    forall r | 0 <= r < 8
      ensures Bit(x, r) == Bit(y, r)
    {
      assert BitOf(a, r) == BitOf(b, r);
    }
    SameLowBits(x, y, 8);
  }
}
