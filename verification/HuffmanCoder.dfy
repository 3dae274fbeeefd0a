/** The Huffman object: a tree, the code table recorded by walking it, and the row coder. */
module HuffmanCoder {
  import opened Prelude
  import opened Bytes
  import opened PrefixTree

  class Huffman {
    const root: Tree
    var codes: CodeMap
    var nodeCount: nat

    ghost predicate Valid()
      reads this
    {
      Full(root) && codes == Codes(root, []) && nodeCount == Size(root)
    }

    constructor (root: Tree)
      requires Full(root)
      ensures Valid() && this.root == root
    {
      this.root, codes, nodeCount := root, map[], 0;
      new;
      Walk(root, []);
      assert map[] + Codes(root, []) == Codes(root, []);
    }

    method Walk(n: Tree, bits: seq<bool>)
      requires Full(n)
      modifies this
      ensures codes == old(codes) + Codes(n, bits) && nodeCount == old(nodeCount) + Size(n)
      decreases n
    {
      ghost var before := codes;
      nodeCount := nodeCount + 1;
      if n.left.Nil? && n.right.Nil? {
        if n.symbol < 256 {
          codes := codes[n.symbol := if |bits| == 0 then [false] else bits];
        }
        return;
      }
      Walk(n.left, bits + [false]);
      Walk(n.right, bits + [true]);
      MergeAssociates(before, Codes(n.left, bits + [false]), Codes(n.right, bits + [true]));
    }

    method Encode(data: seq<byte>) returns (packed: seq<byte>, pad: byte)
      requires Valid()
      ensures (packed, pad) == Encoded(codes, data)
    {
      var bits: seq<bool> := [];
      for k := 0 to |data|
        invariant bits == EncodeBits(codes, data[..k])
      {
        AppendCode(codes, data[..k], data[k]);
        assert data[..k] + [data[k]] == data[..k + 1];
        bits := bits + CodeFor(codes, data[k]);
      }
      assert data[..|data|] == data;
      pad := (8 - |bits| % 8) % 8;
      ghost var raw := bits;
      for i := 0 to pad
        invariant bits == raw + Ones(i)
      {
        bits := bits + [true];
        assert bits == raw + Ones(i + 1);
      }
      packed := Shift(bits);
    }

    /** The shift-in loop: every bit enters its byte from the right. */
    static method Shift(bits: seq<bool>) returns (packed: seq<byte>)
      requires |bits| % 8 == 0
      ensures packed == PackBytes(bits)
    {
      hide Value, Chunk, Rev, PackBytes;
      var out := new byte[|bits| / 8](i => 0);
      EmptyChunks(bits);
      for i := 0 to |bits|
        invariant out.Length == |bits| / 8
        invariant forall q :: 0 <= q < out.Length ==> out[q] == Value(Rev(Chunk(bits, q, i)))
      {
        ShiftIn(Chunk(bits, i / 8, i), bits[i]);
        ChunkGrows(bits, i);
        out[i / 8] := ToByte(2 * out[i / 8]) + Digit(bits[i]);
      }
      packed := out[..];
      AllChunks(bits, packed);
    }

    /** One turn of the bit loop: go to the child, and emit a byte and start over at a leaf. */
    method Turn(cur: Tree, on: bool, out: seq<byte>, ghost bits: seq<bool>, ghost seen: nat)
      returns (r: Result<(Tree, seq<byte>), DecodeError>)
      requires Reached(root, bits, cur, seen, out) && seen < |bits| && bits[seen] == on
      ensures match r
              case Err(e) => PrefixTree.Walk(root, root, bits) == Err(e)
              case Ok((next, emitted)) => Reached(root, bits, next, seen + 1, emitted)
    {
      ResumeOne(root, cur, bits, seen, out);
      var next := if on then cur.right else cur.left;
      if next.Nil? {
        return Err(TreePath);
      }
      if IsLeaf(next) {
        if next.symbol >= 256 {
          return Err(BadSymbol);
        }
        return Ok((root, out + [next.symbol]));
      }
      return Ok((next, out));
    }

    method Decode(data: seq<byte>, pad: byte, count: int) returns (r: Result<seq<byte>, DecodeError>)
      requires Valid()
      ensures r == Decoded(root, data, pad, count)
    {
      if pad > 7 || count < 0 || |data| * 8 < pad {
        return Err(Padding);
      }
      DecodedBy(root, data, pad, count);
      hide Decoded, BitSet, ValidBits, PrefixTree.Walk, Reached;
      var valid := |data| * 8 - pad;
      ghost var bits := ValidBits(data, valid);
      var cur := root;
      var out: seq<byte> := [];
      var seen := 0;
      ResumeStart(root, bits);
      for k := 0 to |data|
        invariant seen <= valid && (seen == 8 * k || (seen == valid && valid < 8 * k))
        invariant Reached(root, bits, cur, seen, out)
      {
        var b := data[k];
        var bit := 7;
        while bit >= 0
          invariant -1 <= bit <= 7
          invariant seen <= valid && (seen == 8 * k + (7 - bit) || (seen == valid && valid < 8 * k + (7 - bit)))
          invariant Reached(root, bits, cur, seen, out)
        {
          if seen >= valid {
            break;
          }
          NextBit(data, valid, k, bit);
          var turned := Turn(cur, BitSet(b, bit), out, bits, seen);
          seen := seen + 1;
          if turned.Err? {
            return Err(turned.error);
          }
          cur, out := turned.value.0, turned.value.1;
          bit := bit - 1;
        }
      }
      ResumeEnd(root, cur, bits, out);
      if cur != root || |out| != count {
        return Err(DecodedLength);
      }
      return Ok(out);
    }
  }

  /** What the decoder makes of a finished walk. */
  ghost function Judged(r: Walked, root: Tree, count: int): Result<seq<byte>, DecodeError>
  {
    match r
    case Err(e) => Err(e)
    case Ok((out, cur)) => if cur != root || |out| != count then Err(DecodedLength) else Ok(out)
  }

  lemma DecodedBy(root: Tree, data: seq<byte>, pad: byte, count: int)
    requires root.Node? && pad <= 7 && count >= 0 && 8 * |data| >= pad
    ensures Decoded(root, data, pad, count)
            == Judged(PrefixTree.Walk(root, root, ValidBits(data, 8 * |data| - pad)), root, count)
  {
    hide PrefixTree.Walk, Unpack;
  }

  /** What is left of a walk once `seen` bits are used and `out` is emitted. */
  ghost function Resume(root: Tree, cur: Tree, bits: seq<bool>, seen: nat, out: seq<byte>): Walked
    requires cur.Node? && seen <= |bits|
  {
    Emit(out, PrefixTree.Walk(root, cur, bits[seen..]))
  }

  /** The walk has come to `cur` after `seen` bits and `out`. */
  ghost predicate Reached(root: Tree, bits: seq<bool>, cur: Tree, seen: nat, out: seq<byte>)
  {
    && root.Node? && cur.Node? && seen <= |bits|
    && PrefixTree.Walk(root, root, bits) == Resume(root, cur, bits, seen, out)
  }

  lemma ResumeStart(root: Tree, bits: seq<bool>)
    requires root.Node?
    ensures Reached(root, bits, root, 0, [])
  {
    EmitEmit([], [], PrefixTree.Walk(root, root, bits));
    assert bits[0..] == bits;
  }

  /** One turn of the bit loop. */
  lemma ResumeOne(root: Tree, cur: Tree, bits: seq<bool>, seen: nat, out: seq<byte>)
    requires root.Node? && cur.Node? && seen < |bits|
    ensures var next := Child(cur, bits[seen]);
            Resume(root, cur, bits, seen, out) ==
            if next.Nil? then Err(TreePath)
            else if IsLeaf(next) then
              if next.symbol >= 256 then Err(BadSymbol)
              else Resume(root, root, bits, seen + 1, out + [next.symbol])
            else Resume(root, next, bits, seen + 1, out)
  {
    assert bits[seen..][1..] == bits[seen + 1..];
    var next := Child(cur, bits[seen]);
    if IsLeaf(next) && next.symbol < 256 {
      EmitEmit(out, [next.symbol], PrefixTree.Walk(root, root, bits[seen + 1..]));
    }
  }

  lemma ResumeEnd(root: Tree, cur: Tree, bits: seq<bool>, out: seq<byte>)
    requires Reached(root, bits, cur, |bits|, out)
    ensures PrefixTree.Walk(root, root, bits) == Ok((out, cur))
  {
    assert bits[|bits|..] == [];
    assert out + [] == out;
  }

  lemma MergeAssociates<K, V>(a: map<K, V>, b: map<K, V>, c: map<K, V>)
    ensures a + b + c == a + (b + c)
  {
  }

  /** The part of byte q that the first i bits fill. */
  function Chunk(bits: seq<bool>, q: nat, i: nat): (s: seq<bool>)
    requires i <= |bits|
    ensures |s| == if i <= 8 * q then 0 else if i <= 8 * q + 8 then i - 8 * q else 8
  {
    if i <= 8 * q then [] else bits[8 * q..if i <= 8 * q + 8 then i else 8 * q + 8]
  }

  lemma ChunkGrows(bits: seq<bool>, i: nat)
    requires i < |bits|
    ensures Chunk(bits, i / 8, i + 1) == Chunk(bits, i / 8, i) + [bits[i]]
    ensures forall q: nat :: q != i / 8 ==> Chunk(bits, q, i + 1) == Chunk(bits, q, i)
  {
    var q := i / 8;
    assert 8 * q <= i < 8 * q + 8;
  }

  lemma EmptyChunks(bits: seq<bool>)
    ensures forall q: nat :: Value(Rev(Chunk(bits, q, 0))) == 0
  {
  }

  lemma AllChunks(bits: seq<bool>, packed: seq<byte>)
    requires |bits| % 8 == 0 && |packed| == |bits| / 8
    requires forall q :: 0 <= q < |packed| ==> packed[q] == Value(Rev(Chunk(bits, q, |bits|)))
    ensures packed == PackBytes(bits)
  {
    hide Value;
    forall q | 0 <= q < |packed|
      ensures packed[q] == PackBytes(bits)[q]
    {
      assert Chunk(bits, q, |bits|) == bits[8 * q..8 * q + 8];
    }
  }

  /** The bits in front of the padding. */
  ghost function ValidBits(data: seq<byte>, valid: nat): (bits: seq<bool>)
    requires valid <= 8 * |data|
    ensures |bits| == valid
  {
    Unpack(data)[..valid]
  }

  lemma NextBit(data: seq<byte>, valid: nat, k: nat, bit: nat)
    requires k < |data| && bit <= 7 && 8 * k + (7 - bit) < valid <= 8 * |data|
    ensures ValidBits(data, valid)[8 * k + (7 - bit)] == BitSet(data[k], bit)
  {
    hide Bits, Pow2;
    BitIsShift(data[k], 8, bit);
    assert (8 * k + (7 - bit)) / 8 == k && (8 * k + (7 - bit)) % 8 == 7 - bit;
  }

  lemma {:induction false} AppendCode(codes: CodeMap, data: seq<byte>, b: byte)
    ensures EncodeBits(codes, data + [b]) == EncodeBits(codes, data) + CodeFor(codes, b)
  {
    if data == [] {
      assert EncodeBits(codes, [b]) == CodeFor(codes, b) + [];
    } else {
      assert (data + [b])[1..] == data[1..] + [b];
      AppendCode(codes, data[1..], b);
    }
  }

  lemma ShiftIn(s: seq<bool>, b: bool)
    requires |s| < 8
    ensures Value(Rev(s + [b])) == 2 * Value(Rev(s)) + Digit(b) < 256
  {
    assert Rev(s + [b])[1..] == Rev(s);
    BitsOfValue(Rev(s + [b]));
    PowMonotone(|s| + 1, 8);
    assert Pow2(8) == 256;
  }

  lemma {:induction false} PowMonotone(m: nat, n: nat)
    requires m <= n
    ensures Pow2(m) <= Pow2(n)
    decreases n
  {
    if m < n {
      PowMonotone(m, n - 1);
    }
  }
}
