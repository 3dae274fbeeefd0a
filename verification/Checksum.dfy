/**
  The frame checksum: a reflected CRC-32 started from a vendor seed. A 32-bit register is the
  sequence of its bits, least significant first, so that shifting right drops the head.
 */
module Crc {
  import opened Bytes

  type Register = s: seq<bool> | |s| == 32
    witness BitsOf(0) + BitsOf(0) + BitsOf(0) + BitsOf(0)

  // 0xedb88320, 0x76953521 and 0xffffffff, low byte first.
  const POLY: Register := BitsOf(0x20) + BitsOf(0x83) + BitsOf(0xb8) + BitsOf(0xed)
  const SEED: Register := BitsOf(0x21) + BitsOf(0x35) + BitsOf(0x95) + BitsOf(0x76)
  const ONES: Register := BitsOf(0xff) + BitsOf(0xff) + BitsOf(0xff) + BitsOf(0xff)

  lemma {:induction false} ValueConcat(a: seq<bool>, b: seq<bool>)
    ensures Value(a + b) == Value(a) + Pow2(|a|) * Value(b)
  {
    if a == [] {
      assert a + b == b;
    } else {
      assert (a + b)[1..] == a[1..] + b;
      ValueConcat(a[1..], b);
      Twice(Pow2(|a| - 1), Value(b));
    }
  }

  lemma Twice(p: nat, v: nat)
    ensures 2 * p * v == 2 * (p * v)
  {
  }

  /** The number that four bytes, low byte first, stand for. */
  lemma FourBytes(a: byte, b: byte, c: byte, d: byte)
    ensures Value(BitsOf(a) + BitsOf(b) + BitsOf(c) + BitsOf(d)) == a + 0x100 * b + 0x1_0000 * c + 0x100_0000 * d
  {
    hide Value, Bits;
    assert Pow2(8) == 256;
    ValueOfBits(a, 8);
    ValueOfBits(b, 8);
    ValueOfBits(c, 8);
    ValueOfBits(d, 8);
    ValueConcat(BitsOf(a), BitsOf(b));
    ValueConcat(BitsOf(a) + BitsOf(b), BitsOf(c));
    ValueConcat(BitsOf(a) + BitsOf(b) + BitsOf(c), BitsOf(d));
    assert Pow2(16) == 256 * Pow2(8) && Pow2(24) == 256 * Pow2(16);
  }

  /** The three constants as the numbers they are written as. */
  lemma ConstantValues()
    ensures Value(POLY) == 0xedb8_8320 && Value(SEED) == 0x7695_3521 && Value(ONES) == 0xffff_ffff
  {
    hide Value, BitsOf;
    FourBytes(0x20, 0x83, 0xb8, 0xed);
    FourBytes(0x21, 0x35, 0x95, 0x76);
    FourBytes(0xff, 0xff, 0xff, 0xff);
  }

  function Zeros(n: nat): (s: seq<bool>)
    ensures |s| == n
  {
    seq(n, i => false)
  }

  function Xor(a: Register, b: Register): (c: Register)
    ensures forall i :: 0 <= i < 32 ==> c[i] == (a[i] != b[i])
  {
    seq(32, i requires 0 <= i < 32 => a[i] != b[i])
  }

  function Shr(c: Register, n: nat): (d: Register)
    requires n <= 32
    ensures forall i :: 0 <= i < 32 ==> d[i] == (i + n < 32 && c[i + n])
  {
    c[n..] + Zeros(n)
  }

  function Widen(b: byte): Register { BitsOf(b) + Zeros(24) }

  /** One turn of the inner loop. */
  function Step(c: Register): Register
  {
    if c[0] then Xor(Shr(c, 1), POLY) else Shr(c, 1)
  }

  function Steps(c: Register, n: nat): Register
  {
    if n == 0 then c else Step(Steps(c, n - 1))
  }

  /** One turn of the outer loop. */
  function Absorb(c: Register, b: byte): Register
  {
    Steps(Xor(c, Widen(b)), 8)
  }

  function Run(c: Register, data: seq<byte>): Register
    decreases data
  {
    if data == [] then c else Run(Absorb(c, data[0]), data[1..])
  }

  function Sum(data: seq<byte>): Register
  {
    Xor(Run(Xor(SEED, ONES), data), ONES)
  }

  /** The bit-at-a-time loop of the encoder and of both decoders. */
  method Checksum(data: seq<byte>) returns (sum: Register)
    ensures sum == Sum(data)
  {
    var crc := Xor(SEED, ONES);
    for k := 0 to |data|
      invariant Run(crc, data[k..]) == Run(Xor(SEED, ONES), data)
    {
      ghost var before := crc;
      crc := Xor(crc, Widen(data[k]));
      for i := 0 to 8
        invariant crc == Steps(Xor(before, Widen(data[k])), i)
      {
        if crc[0] {
          crc := Xor(Shr(crc, 1), POLY);
        } else {
          crc := Shr(crc, 1);
        }
      }
      assert data[k..][1..] == data[k + 1..];
    }
    sum := Xor(crc, ONES);
  }

  /** The checksum of nothing is the seed, as a number. */
  lemma EmptySum()
    ensures Value(Sum([])) == 0x7695_3521
  {
    ConstantValues();
    assert Xor(Xor(SEED, ONES), ONES) == SEED;
  }

  /** A byte is absorbed from the low end of the register, its lowest bit in the lowest place. */
  lemma WidenBits(b: byte)
    ensures forall i :: 0 <= i < 32 ==> Widen(b)[i] == (i < 8 && BitSet(b, i))
  {
    hide Bits, Pow2;
    forall i | 0 <= i < 8
      ensures BitsOf(b)[i] == BitSet(b, i)
    {
      BitIsShift(b, 8, i);
    }
  }

  // ----- the register as a linear, reversible machine

  lemma StepXor(a: Register, b: Register)
    ensures Step(Xor(a, b)) == Xor(Step(a), Step(b))
  {
  }

  lemma {:induction false} StepsXor(a: Register, b: Register, n: nat)
    ensures Steps(Xor(a, b), n) == Xor(Steps(a, n), Steps(b, n))
  {
    if n > 0 {
      StepsXor(a, b, n - 1);
      StepXor(Steps(a, n - 1), Steps(b, n - 1));
    }
  }

  lemma StepsAdd(c: Register, m: nat, n: nat)
    ensures Steps(Steps(c, m), n) == Steps(c, m + n)
  {
  }

  /** While only zeros fall off the end, stepping is plain shifting. */
  lemma {:induction false} StepsShift(c: Register, n: nat)
    requires n <= 32 && forall i :: 0 <= i < n ==> !c[i]
    ensures Steps(c, n) == Shr(c, n)
  {
    if n > 0 {
      StepsShift(c, n - 1);
      assert Steps(c, n) == Step(Shr(c, n - 1));
    }
    assert Steps(c, n) == Shr(c, n);
  }

  lemma PolyTop()
    ensures POLY[31]
  {
    hide BitsOf;
    HighBit(0xed);
  }

  lemma StepBits(c: Register)
    ensures Step(c)[31] == c[0]
    ensures forall i :: 0 <= i < 31 ==> Step(c)[i] == (c[i + 1] != (c[0] && POLY[i]))
  {
    hide BitsOf;
    PolyTop();
  }

  lemma StepInjective(a: Register, b: Register)
    requires Step(a) == Step(b)
    ensures a == b
  {
    StepBits(a);
    StepBits(b);
    forall i | 0 < i < 32
      ensures a[i] == b[i]
    {
      assert Step(a)[i - 1] == Step(b)[i - 1];
    }
  }

  lemma {:induction false} StepsInjective(a: Register, b: Register, n: nat)
    requires Steps(a, n) == Steps(b, n)
    ensures a == b
  {
    if n > 0 {
      StepInjective(Steps(a, n - 1), Steps(b, n - 1));
      StepsInjective(a, b, n - 1);
    }
  }

  lemma XorCancel(a: Register, b: Register, c: Register)
    requires Xor(a, c) == Xor(b, c)
    ensures a == b
  {
    forall i | 0 <= i < 32
      ensures a[i] == b[i]
    {
      assert Xor(a, c)[i] == Xor(b, c)[i];
    }
  }

  lemma XorCommutes(a: Register, b: Register)
    ensures Xor(a, b) == Xor(b, a)
  {
  }

  /** For a fixed byte string the register's final value determines its initial one. */
  lemma {:induction false} RunInjective(a: Register, b: Register, data: seq<byte>)
    requires Run(a, data) == Run(b, data)
    ensures a == b
    decreases data
  {
    if data != [] {
      RunInjective(Absorb(a, data[0]), Absorb(b, data[0]), data[1..]);
      StepsInjective(Xor(a, Widen(data[0])), Xor(b, Widen(data[0])), 8);
      XorCancel(a, b, Widen(data[0]));
    }
  }

  lemma {:induction false} RunConcat(c: Register, a: seq<byte>, b: seq<byte>)
    ensures Run(c, a + b) == Run(Run(c, a), b)
    decreases a
  {
    if a == [] {
      assert a + b == b;
    } else {
      assert (a + b)[1..] == a[1..] + b;
      RunConcat(Absorb(c, a[0]), a[1..], b);
    }
  }

  // ----- the table-driven reference of section 8 of RFC 1952

  /** Entry n of the table that make_crc_table fills. */
  function Table(n: byte): Register { Steps(Widen(n), 8) }

  function TableRun(c: Register, data: seq<byte>): Register
    decreases data
  {
    if data == [] then c
    else TableRun(Xor(Table(ByteOf(Xor(c, Widen(data[0]))[..8])), Shr(c, 8)), data[1..])
  }

  function UpdateCrc(crc: Register, data: seq<byte>): Register
  {
    Xor(TableRun(Xor(crc, ONES), data), ONES)
  }

  /** Eight turns a byte: the entry of the highest bit is the polynomial itself. */
  lemma TableTop()
    ensures Table(0x80) == POLY
  {
    hide Pow2, Bits;
    var c := Widen(0x80);
    WidenBits(0x80);
    TopBitAlone();
    StepsShift(c, 7);
    var d := Shr(c, 7);
    assert d[0] && forall i :: 0 < i < 32 ==> !d[i];
    assert Steps(c, 8) == Step(d);
    assert Xor(Shr(d, 1), POLY) == POLY;
  }

  lemma TopBitAlone()
    ensures forall i :: 0 <= i < 8 ==> (BitSet(0x80, i) <==> i == 7)
  {
    assert Pow2(0) == 1 && Pow2(1) == 2 && Pow2(2) == 4 && Pow2(3) == 8;
    assert Pow2(4) == 16 && Pow2(5) == 32 && Pow2(6) == 64 && Pow2(7) == 128;
  }

  lemma AbsorbByTable(c: Register, b: byte)
    ensures Absorb(c, b) == Xor(Table(ByteOf(Xor(c, Widen(b))[..8])), Shr(c, 8))
  {
    var x := Xor(c, Widen(b));
    var low: Register := x[..8] + Zeros(24);
    var high: Register := Zeros(8) + x[8..];
    assert x == Xor(low, high);
    StepsXor(low, high, 8);
    StepsShift(high, 8);
    BitsOfByte(x[..8]);
    assert low == Widen(ByteOf(x[..8]));
    assert Shr(high, 8) == Shr(c, 8);
  }

  lemma {:induction false} RunByTable(c: Register, data: seq<byte>)
    ensures Run(c, data) == TableRun(c, data)
    decreases data
  {
    if data != [] {
      AbsorbByTable(c, data[0]);
      RunByTable(Absorb(c, data[0]), data[1..]);
    }
  }

  /** The bitwise checksum is RFC 1952's update_crc started from the vendor seed. */
  lemma ChecksumIsTableDriven(data: seq<byte>)
    ensures Sum(data) == UpdateCrc(SEED, data)
  {
    RunByTable(Xor(SEED, ONES), data);
  }

  /** update_crc composes over concatenation, for every seed. */
  lemma UpdateComposes(crc: Register, a: seq<byte>, b: seq<byte>)
    ensures UpdateCrc(UpdateCrc(crc, a), b) == UpdateCrc(crc, a + b)
  {
    var c := Xor(crc, ONES);
    RunByTable(c, a + b);
    RunByTable(c, a);
    RunByTable(Run(c, a), b);
    RunConcat(c, a, b);
    assert Xor(Xor(Run(c, a), ONES), ONES) == Run(c, a);
  }

  // ----- four-byte bursts

  function Pad(data: seq<byte>): (s: Register)
    requires |data| <= 4
  {
    Flatten(data) + Zeros(32 - 8 * |data|)
  }

  function Flatten(data: seq<byte>): (s: seq<bool>)
    ensures |s| == 8 * |data|
  {
    if data == [] then []
    else Flatten(data[..|data| - 1]) + BitsOf(data[|data| - 1])
  }

  /** Up to four bytes are absorbed as if xored in all at once. */
  lemma {:induction false} RunWord(c: Register, data: seq<byte>)
    requires |data| <= 4
    ensures Run(c, data) == Steps(Xor(c, Pad(data)), 8 * |data|)
    decreases data
  {
    if data == [] {
      assert Xor(c, Pad(data)) == c;
    } else {
      var k := |data| - 1;
      var pre, b := data[..k], data[k];
      RunWord(c, pre);
      assert pre + [b] == data;
      RunConcat(c, pre, [b]);
      assert Run(Run(c, pre), [b]) == Absorb(Run(c, pre), b);
      AbsorbLater(Xor(c, Pad(pre)), b, k);
      XorPad(c, data);
    }
  }

  /** Byte number k of a word waits untouched at the top while the bytes before it are absorbed. */
  lemma AbsorbLater(c: Register, b: byte, k: nat)
    requires k < 4
    ensures Absorb(Steps(c, 8 * k), b) == Steps(Xor(c, Zeros(8 * k) + BitsOf(b) + Zeros(24 - 8 * k)), 8 * k + 8)
  {
    hide BitsOf, Step;
    var shifted: Register := Zeros(8 * k) + BitsOf(b) + Zeros(24 - 8 * k);
    StepsShift(shifted, 8 * k);
    assert Shr(shifted, 8 * k) == Widen(b);
    StepsXor(c, shifted, 8 * k);
    StepsAdd(Xor(c, shifted), 8 * k, 8);
  }

  lemma XorPad(c: Register, data: seq<byte>)
    requires 0 < |data| <= 4
    ensures var k := |data| - 1;
            Xor(Xor(c, Pad(data[..k])), Zeros(8 * k) + BitsOf(data[k]) + Zeros(24 - 8 * k)) == Xor(c, Pad(data))
  {
    var k := |data| - 1;
    var shifted: Register := Zeros(8 * k) + BitsOf(data[k]) + Zeros(24 - 8 * k);
    forall i | 0 <= i < 32
      ensures (Pad(data[..k])[i] != shifted[i]) == Pad(data)[i]
    {
      if i < 8 * k {
        assert Pad(data)[i] == Flatten(data[..k])[i];
      }
    }
  }

  lemma {:induction false} FlattenInjective(u: seq<byte>, v: seq<byte>)
    requires |u| == |v| && Flatten(u) == Flatten(v)
    ensures u == v
  {
    if u != [] {
      var k := |u| - 1;
      assert Flatten(u)[..8 * k] == Flatten(u[..k]) && Flatten(v)[..8 * k] == Flatten(v[..k]);
      assert Flatten(u)[8 * k..] == BitsOf(u[k]) && Flatten(v)[8 * k..] == BitsOf(v[k]);
      FlattenInjective(u[..k], v[..k]);
      ByteOfBits(u[k]);
      ByteOfBits(v[k]);
      assert u == u[..k] + [u[k]] && v == v[..k] + [v[k]];
    }
  }

  lemma WordsDiffer(c: Register, u: seq<byte>, v: seq<byte>)
    requires |u| == |v| == 4 && u != v
    ensures Run(c, u) != Run(c, v)
  {
    if Run(c, u) == Run(c, v) {
      RunWord(c, u);
      RunWord(c, v);
      StepsInjective(Xor(c, Pad(u)), Xor(c, Pad(v)), 32);
      XorCommutes(c, Pad(u));
      XorCommutes(c, Pad(v));
      XorCancel(Pad(u), Pad(v), c);
      assert Pad(u) == Flatten(u) && Pad(v) == Flatten(v);
      FlattenInjective(u, v);
    }
  }

  /** Two strings that differ only inside one four-byte window leave different registers. */
  lemma BurstChangesRegister(c: Register, pre: seq<byte>, u: seq<byte>, v: seq<byte>, post: seq<byte>)
    requires |u| == |v| == 4 && u != v
    ensures Run(c, pre + u + post) != Run(c, pre + v + post)
  {
    RunConcat(c, pre + u, post);
    RunConcat(c, pre + v, post);
    RunConcat(c, pre, u);
    RunConcat(c, pre, v);
    WordsDiffer(Run(c, pre), u, v);
    if Run(c, pre + u + post) == Run(c, pre + v + post) {
      RunInjective(Run(Run(c, pre), u), Run(Run(c, pre), v), post);
    }
  }

  // ----- the stored checksum

  /** Little-endian 32-bit store and load. */
  function PutRegister(c: Register): (s: seq<byte>)
    ensures |s| == 4
  {
    [ByteOf(c[..8]), ByteOf(c[8..16]), ByteOf(c[16..24]), ByteOf(c[24..])]
  }

  function GetRegister(s: seq<byte>): Register
    requires |s| == 4
  {
    BitsOf(s[0]) + BitsOf(s[1]) + BitsOf(s[2]) + BitsOf(s[3])
  }

  lemma GetPut(c: Register)
    ensures GetRegister(PutRegister(c)) == c
  {
    hide BitsOf, ByteOf;
    BitsOfByte(c[..8]);
    BitsOfByte(c[8..16]);
    BitsOfByte(c[16..24]);
    BitsOfByte(c[24..]);
  }

  lemma PutGet(s: seq<byte>)
    requires |s| == 4
    ensures PutRegister(GetRegister(s)) == s
  {
    var c := GetRegister(s);
    assert c[..8] == BitsOf(s[0]) && c[8..16] == BitsOf(s[1]);
    assert c[16..24] == BitsOf(s[2]) && c[24..] == BitsOf(s[3]);
    ByteOfBits(s[0]);
    ByteOfBits(s[1]);
    ByteOfBits(s[2]);
    ByteOfBits(s[3]);
  }

  /** The stored bytes are the register's number, low byte first. */
  lemma StoredValue(c: Register)
    ensures var s := PutRegister(c); Value(c) == s[0] as int + 0x100 * s[1] as int + 0x1_0000 * s[2] as int + 0x100_0000 * s[3] as int
  {
    hide Value, PutRegister, BitsOf;
    var s := PutRegister(c);
    GetPut(c);
    FourBytes(s[0], s[1], s[2], s[3]);
  }

  lemma PadIsGet(s: seq<byte>)
    requires |s| == 4
    ensures Pad(s) == GetRegister(s)
  {
    assert s[..3][..2][..1] == [s[0]] && s[..3][..2] == [s[0], s[1]] && s[..3] == [s[0], s[1], s[2]];
    assert Flatten([s[0]]) == BitsOf(s[0]);
    assert Flatten([s[0], s[1]]) == BitsOf(s[0]) + BitsOf(s[1]) by { assert [s[0], s[1]][..1] == [s[0]]; }
    assert Flatten([s[0], s[1], s[2]]) == BitsOf(s[0]) + BitsOf(s[1]) + BitsOf(s[2]) by {
      assert [s[0], s[1], s[2]][..2] == [s[0], s[1]];
    }
  }

  /** A stored checksum matches exactly when body and checksum together drive the register to
      one fixed residue. */
  lemma StoredSumIsResidue(body: seq<byte>, tail: seq<byte>)
    requires |tail| == 4
    ensures Sum(body) == GetRegister(tail) <==> Run(Xor(SEED, ONES), body + tail) == Steps(ONES, 32)
  {
    var r := Run(Xor(SEED, ONES), body);
    RunConcat(Xor(SEED, ONES), body, tail);
    RunWord(r, tail);
    PadIsGet(tail);
    if Sum(body) == GetRegister(tail) {
      assert Xor(r, Xor(r, ONES)) == ONES;
    }
    if Run(Xor(SEED, ONES), body + tail) == Steps(ONES, 32) {
      StepsInjective(Xor(r, Pad(tail)), ONES, 32);
      assert Xor(r, ONES) == Pad(tail) by {
        forall i | 0 <= i < 32 ensures Xor(r, ONES)[i] == Pad(tail)[i] {
          assert Xor(r, Pad(tail))[i] == ONES[i];
        }
      }
    }
  }
}
