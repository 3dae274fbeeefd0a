/** Bytes, 16-bit words and the bit view of a byte that the wire format is built from. */
module Bytes {

  type byte = x: int | 0 <= x < 256
  type word = x: int | 0 <= x < 0x1_0000

  /** Go's `byte(n)` and `uint16(n)`: conversions that silently drop high bits. */
  function ToByte(n: int): byte { n % 256 }

  function ToWord(n: int): word { n % 0x1_0000 }

  /** Little-endian 16-bit store and load. */
  function PutWord(x: word): (s: seq<byte>)
    ensures |s| == 2
  {
    [x % 256, x / 256]
  }

  function GetWord(lo: byte, hi: byte): word { lo + 256 * hi }

  lemma WordRoundTrip(x: word, lo: byte, hi: byte)
    ensures GetWord(PutWord(x)[0], PutWord(x)[1]) == x
    ensures PutWord(GetWord(lo, hi)) == [lo, hi]
    ensures |PutWord(x)| == 2
  {
  }

  function Pow2(n: nat): (p: nat)
    ensures p > 0
  {
    if n == 0 then 1 else 2 * Pow2(n - 1)
  }

  function Digit(b: bool): nat { if b then 1 else 0 }

  /** The low k bits of n, least significant first. */
  function Bits(n: nat, k: nat): (s: seq<bool>)
    ensures |s| == k
  {
    if k == 0 then [] else [n % 2 == 1] + Bits(n / 2, k - 1)
  }

  function Value(s: seq<bool>): nat
  {
    if s == [] then 0 else Digit(s[0]) + 2 * Value(s[1..])
  }

  lemma {:induction false} ValueOfBits(n: nat, k: nat)
    requires n < Pow2(k)
    ensures Value(Bits(n, k)) == n
  {
    if k > 0 {
      ValueOfBits(n / 2, k - 1);
      assert Bits(n, k)[1..] == Bits(n / 2, k - 1);
    }
  }

  lemma {:induction false} BitsOfValue(s: seq<bool>)
    ensures Value(s) < Pow2(|s|)
    ensures Bits(Value(s), |s|) == s
  {
    if s != [] {
      BitsOfValue(s[1..]);
      assert Value(s) / 2 == Value(s[1..]);
      assert s == [s[0]] + s[1..];
    }
  }

  /** Bit i of n is what a right shift by i leaves in the lowest place. */
  lemma {:induction false} BitIsShift(n: nat, k: nat, i: nat)
    requires i < k
    ensures Bits(n, k)[i] == (n / Pow2(i) % 2 == 1)
  {
    if i > 0 {
      BitIsShift(n / 2, k - 1, i - 1);
      HalfShift(n, Pow2(i - 1));
    }
  }

  lemma HalfShift(n: nat, p: nat)
    requires p > 0
    ensures n / 2 / p == n / (2 * p)
  {
    var q, r := n / (2 * p), n % (2 * p);
    assert n == 2 * (p * q) + r;
    assert n / 2 == p * q + r / 2;
    DivUnique(n / 2, p, q, r / 2);
  }

  lemma DivUnique(n: int, p: int, q: int, r: int)
    requires p > 0 && n == p * q + r && 0 <= r < p
    ensures n / p == q && n % p == r
  {
    var d := n / p - q;
    assert n == p * (n / p) + n % p;
    assert p * d == p * (n / p) - p * q;
    assert p * d == r - n % p;
    assert -p < p * d < p;
  }

  /** `b >> bit & 1`. */
  predicate BitSet(b: byte, bit: nat) { b / Pow2(bit) % 2 == 1 }

  function BitsOf(b: byte): (s: seq<bool>)
    ensures |s| == 8
  {
    Bits(b, 8)
  }

  lemma HighBit(b: byte)
    ensures BitsOf(b)[7] == (b >= 128)
  {
    hide Bits;
    BitIsShift(b, 8, 7);
    assert Pow2(7) == 128;
  }

  function ByteOf(s: seq<bool>): byte
    requires |s| == 8
  {
    BitsOfValue(s);
    assert Pow2(8) == 256;
    Value(s)
  }

  lemma ByteOfBits(b: byte)
    ensures ByteOf(BitsOf(b)) == b
  {
    assert Pow2(8) == 256;
    ValueOfBits(b, 8);
  }

  lemma BitsOfByte(s: seq<bool>)
    requires |s| == 8
    ensures BitsOf(ByteOf(s)) == s
  {
    BitsOfValue(s);
  }
}
