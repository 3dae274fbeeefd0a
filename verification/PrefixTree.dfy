/** Binary code trees with possibly absent children, the codes they assign, and bit packing. */
module PrefixTree {
  import opened Prelude
  import opened Bytes

  /** `Nil` is an absent child; a node without children is a leaf. */
  datatype Tree = Nil | Node(symbol: word, left: Tree, right: Tree)

  predicate IsLeaf(t: Tree) { t.Node? && t.left.Nil? && t.right.Nil? }

  /** Every node has two children or none. */
  predicate Full(t: Tree)
  {
    t.Node? && (IsLeaf(t) || (Full(t.left) && Full(t.right)))
  }

  function Leaf(s: word): Tree { Node(s, Nil, Nil) }

  function Size(t: Tree): nat
  {
    if t.Nil? then 0 else 1 + Size(t.left) + Size(t.right)
  }

  /** Symbols of the leaves, left to right. */
  function Leaves(t: Tree): seq<word>
  {
    if t.Nil? then []
    else if IsLeaf(t) then [t.symbol]
    else Leaves(t.left) + Leaves(t.right)
  }

  function Child(t: Tree, b: bool): Tree
    requires t.Node?
  {
    if b then t.right else t.left
  }

  // ----- codes

  type CodeMap = map<byte, seq<bool>>

  /** The codes that the recursive walk records below a node reached by `bits`; a root that is
      itself a leaf gets the one-bit code 0. */
  function Codes(t: Tree, bits: seq<bool>): CodeMap
    requires Full(t)
  {
    if IsLeaf(t) then
      if t.symbol < 256 then map[t.symbol := if bits == [] then [false] else bits] else map[]
    else
      Codes(t.left, bits + [false]) + Codes(t.right, bits + [true])
  }

  /** A byte without a leaf has the empty code: encoding it silently emits nothing. */
  function CodeFor(codes: CodeMap, b: byte): seq<bool>
  {
    if b in codes then codes[b] else []
  }

  function EncodeBits(codes: CodeMap, data: seq<byte>): seq<bool>
  {
    if data == [] then [] else CodeFor(codes, data[0]) + EncodeBits(codes, data[1..])
  }

  /** The turns from t to its leaf s. */
  function Path(t: Tree, s: word): seq<bool>
    requires Full(t) && s in Leaves(t)
  {
    if IsLeaf(t) then []
    else if s in Leaves(t.left) then [false] + Path(t.left, s)
    else [true] + Path(t.right, s)
  }

  /** Codes and paths of an inner node by those of its children. */
  lemma InnerNode(t: Tree, bits: seq<bool>, s: word)
    requires Full(t) && !IsLeaf(t)
    ensures Codes(t, bits) == Codes(t.left, bits + [false]) + Codes(t.right, bits + [true])
    ensures Leaves(t) == Leaves(t.left) + Leaves(t.right)
    ensures s in Leaves(t.left) ==> bits + Path(t, s) == bits + [false] + Path(t.left, s)
    ensures s !in Leaves(t.left) && s in Leaves(t.right) ==> bits + Path(t, s) == bits + [true] + Path(t.right, s)
  {
  }

  lemma {:induction false} CodeIsPath(t: Tree, bits: seq<bool>, s: byte)
    requires Full(t) && NoDup(Leaves(t))
    ensures s in Codes(t, bits) <==> s in Leaves(t)
    ensures s in Leaves(t) ==>
              Codes(t, bits)[s] == if bits + Path(t, s) == [] then [false] else bits + Path(t, s)
    decreases t
  {
    if IsLeaf(t) {
      assert s in Leaves(t) ==> bits + Path(t, s) == bits;
    } else {
      hide NoDup, Codes, Leaves, Path;
      InnerNode(t, bits, s);
      NoDupParts(Leaves(t.left), Leaves(t.right));
      CodeIsPath(t.left, bits + [false], s);
      CodeIsPath(t.right, bits + [true], s);
    }
  }

  lemma CodeForPath(t: Tree, s: byte)
    requires Full(t) && !IsLeaf(t) && NoDup(Leaves(t))
    ensures CodeFor(Codes(t, []), s) == if s in Leaves(t) then Path(t, s) else []
  {
    CodeIsPath(t, [], s);
    if s in Leaves(t) {
      assert Path(t, s) != [];
      assert [] + Path(t, s) == Path(t, s);
    }
  }

  /** The node that bits lead to, a one turning right. */
  function Follow(t: Tree, bits: seq<bool>): Tree
    decreases bits
  {
    if t.Nil? || bits == [] then t else Follow(if bits[0] then t.right else t.left, bits[1..])
  }

  lemma {:induction false} FollowPath(t: Tree, s: word)
    requires Full(t) && s in Leaves(t)
    ensures Follow(t, Path(t, s)) == Leaf(s)
    decreases t
  {
    if !IsLeaf(t) {
      if s in Leaves(t.left) {
        FollowPath(t.left, s);
      } else {
        FollowPath(t.right, s);
      }
    }
  }

  /** Codes turn left on zero and right on one; a lone leaf has the code 0. */
  lemma CodeLeads(t: Tree, s: byte)
    requires Full(t) && NoDup(Leaves(t))
    ensures s in Codes(t, []) && !IsLeaf(t) ==> Follow(t, Codes(t, [])[s]) == Leaf(s)
    ensures s in Codes(t, []) && IsLeaf(t) ==> t == Leaf(s) && Codes(t, [])[s] == [false]
  {
    CodeIsPath(t, [], s);
    if s in Leaves(t) && !IsLeaf(t) {
      CodeForPath(t, s);
      FollowPath(t, s);
    }
  }

  // ----- walking the tree along bits

  datatype DecodeError = Padding | TreePath | BadSymbol | DecodedLength

  type Walked = Result<(seq<byte>, Tree), DecodeError>

  function Emit(out: seq<byte>, r: Walked): Walked
  {
    match r
    case Ok((more, cur)) => Ok((out + more, cur))
    case Err(e) => Err(e)
  }

  /** The bytes emitted, and the node reached, when walking from `cur` along `bits`. */
  function Walk(root: Tree, cur: Tree, bits: seq<bool>): Walked
    requires cur.Node?
    decreases bits
  {
    if bits == [] then Ok(([], cur)) else
    var next := Child(cur, bits[0]);
    if next.Nil? then Err(TreePath)
    else if IsLeaf(next) then
      if next.symbol >= 256 || root.Nil? then Err(BadSymbol)
      else Emit([next.symbol], Walk(root, root, bits[1..]))
    else Walk(root, next, bits[1..])
  }

  lemma EmitEmit(a: seq<byte>, b: seq<byte>, r: Walked)
    ensures Emit(a, Emit(b, r)) == Emit(a + b, r)
    ensures Emit([], r) == r
  {
    if r.Ok? {
      assert a + (b + r.value.0) == a + b + r.value.0;
      assert [] + r.value.0 == r.value.0;
    }
  }

  lemma {:induction false} WalkPath(root: Tree, cur: Tree, s: byte, rest: seq<bool>)
    requires root.Node? && Full(cur) && !IsLeaf(cur) && s in Leaves(cur)
    ensures Walk(root, cur, Path(cur, s) + rest) == Emit([s], Walk(root, root, rest))
    decreases cur
  {
    var b := s !in Leaves(cur.left);
    var next := Child(cur, b);
    var bits := Path(cur, s) + rest;
    assert bits[0] == b && bits[1..] == Path(next, s) + rest;
    if IsLeaf(next) {
      assert Path(next, s) + rest == rest;
    } else {
      hide Path, Emit, Leaves;
      WalkPath(root, next, s, rest);
    }
  }

  /** The bytes of `data` that have a leaf, in order. */
  function Known(t: Tree, data: seq<byte>): seq<byte>
  {
    if data == [] then []
    else (if data[0] in Leaves(t) then [data[0]] else []) + Known(t, data[1..])
  }

  lemma {:induction false} WalkEncoded(t: Tree, data: seq<byte>)
    requires Full(t) && !IsLeaf(t) && NoDup(Leaves(t))
    ensures Walk(t, t, EncodeBits(Codes(t, []), data)) == Ok((Known(t, data), t))
  {
    if data != [] {
      var rest := EncodeBits(Codes(t, []), data[1..]);
      WalkEncoded(t, data[1..]);
      CodeForPath(t, data[0]);
      if data[0] in Leaves(t) {
        WalkPath(t, t, data[0], rest);
      } else {
        assert [] + rest == rest;
        assert [] + Known(t, data[1..]) == Known(t, data[1..]);
      }
    }
  }

  /** Going from t along p arrives at u. */
  predicate LeadsTo(t: Tree, p: seq<bool>, u: Tree)
  {
    if p == [] then t == u else t.Node? && LeadsTo(Child(t, p[0]), p[1..], u)
  }

  lemma {:induction false} LeadsToStep(t: Tree, p: seq<bool>, u: Tree, b: bool)
    requires LeadsTo(t, p, u) && u.Node?
    ensures LeadsTo(t, p + [b], Child(u, b))
    decreases p
  {
    if p != [] {
      LeadsToStep(Child(t, p[0]), p[1..], u, b);
      assert (p + [b])[1..] == p[1..] + [b];
    }
  }

  lemma {:induction false} LeadsToShrinks(t: Tree, p: seq<bool>, u: Tree)
    requires LeadsTo(t, p, u)
    ensures Full(t) && u.Node? ==> Full(u)
    ensures Size(u) + |p| <= Size(t)
    decreases p
  {
    if p != [] {
      LeadsToShrinks(Child(t, p[0]), p[1..], u);
    }
  }

  lemma {:induction false} LeadsToLeaf(t: Tree, p: seq<bool>, s: word)
    requires Full(t) && NoDup(Leaves(t)) && LeadsTo(t, p, Leaf(s))
    ensures s in Leaves(t) && Path(t, s) == p
    decreases p
  {
    if p != [] {
      if IsLeaf(t) {
        assert false;
      }
      NoDupParts(Leaves(t.left), Leaves(t.right));
      LeadsToLeaf(Child(t, p[0]), p[1..], s);
    }
  }

  /** Whatever a walk emits, its bits are exactly the codes of what it emitted. */
  lemma {:induction false} WalkExact(t: Tree, cur: Tree, p: seq<bool>, bits: seq<bool>)
    requires Full(t) && NoDup(Leaves(t)) && cur.Node? && LeadsTo(t, p, cur)
    requires Walk(t, cur, bits).Ok? && Walk(t, cur, bits).value.1 == t
    ensures p + bits == EncodeBits(Codes(t, []), Walk(t, cur, bits).value.0)
    decreases |bits|
  {
    var out := Walk(t, cur, bits).value.0;
    if bits == [] {
      LeadsToShrinks(t, p, t);
    } else {
      var next := Child(cur, bits[0]);
      var q := p + [bits[0]];
      LeadsToStep(t, p, cur, bits[0]);
      assert p + bits == q + bits[1..];
      if IsLeaf(next) {
        WalkExact(t, t, [], bits[1..]);
        assert [] + bits[1..] == bits[1..];
        assert out[1..] == Walk(t, t, bits[1..]).value.0;
        assert next == Leaf(next.symbol);
        LeadsToLeaf(t, q, next.symbol);
        CodeForPath(t, out[0]);
      } else {
        WalkExact(t, next, q, bits[1..]);
      }
    }
  }

  // ----- packing bits into bytes, most significant first

  function Rev(s: seq<bool>): (r: seq<bool>)
    ensures |r| == |s|
    ensures forall i :: 0 <= i < |s| ==> r[i] == s[|s| - 1 - i]
  {
    seq(|s|, i requires 0 <= i < |s| => s[|s| - 1 - i])
  }

  /** The byte whose bits, from the most significant down, are s. */
  function MsbByte(s: seq<bool>): byte
    requires |s| == 8
  {
    ByteOf(Rev(s))
  }

  function PackBytes(bits: seq<bool>): (r: seq<byte>)
    requires |bits| % 8 == 0
    ensures |r| == |bits| / 8
    ensures forall q :: 0 <= q < |r| ==> r[q] == MsbByte(bits[8 * q..8 * q + 8])
  {
    seq(|bits| / 8, q requires 0 <= q < |bits| / 8 => MsbByte(bits[8 * q..8 * q + 8]))
  }

  function Unpack(data: seq<byte>): (r: seq<bool>)
    ensures |r| == 8 * |data|
    ensures forall i :: 0 <= i < |r| ==> r[i] == BitsOf(data[i / 8])[7 - i % 8]
  {
    seq(8 * |data|, i requires 0 <= i < 8 * |data| => BitsOf(data[i / 8])[7 - i % 8])
  }

  function PadFor(n: nat): nat { (8 - n % 8) % 8 }

  function Ones(n: nat): (s: seq<bool>)
    ensures |s| == n && forall i :: 0 <= i < n ==> s[i]
  {
    seq(n, i => true)
  }

  lemma UnpackPack(bits: seq<bool>)
    requires |bits| % 8 == 0
    ensures Unpack(PackBytes(bits)) == bits
  {
    hide BitsOf, ByteOf;
    var data := PackBytes(bits);
    forall i | 0 <= i < |bits|
      ensures Unpack(data)[i] == bits[i]
    {
      var q := i / 8;
      var s := bits[8 * q..8 * q + 8];
      BitsOfByte(Rev(s));
      assert s[i % 8] == bits[i];
    }
  }

  /** Bits are unpacked from the top of each byte down. */
  lemma UnpackBit(data: seq<byte>, k: nat)
    requires k < 8 * |data|
    ensures Unpack(data)[k] == BitSet(data[k / 8], 7 - k % 8)
  {
    hide Bits, Pow2;
    BitIsShift(data[k / 8], 8, 7 - k % 8);
  }

  lemma PackUnpack(data: seq<byte>)
    ensures PackBytes(Unpack(data)) == data
  {
    hide BitsOf, ByteOf;
    forall q | 0 <= q < |data|
      ensures PackBytes(Unpack(data))[q] == data[q]
    {
      UnpackedByte(data, q);
      ByteOfBits(data[q]);
    }
  }

  lemma UnpackedByte(data: seq<byte>, q: nat)
    requires q < |data|
    ensures Rev(Unpack(data)[8 * q..8 * q + 8]) == BitsOf(data[q])
  {
    hide BitsOf, ByteOf;
    var bits := Unpack(data);
    forall j | 0 <= j < 8
      ensures Rev(bits[8 * q..8 * q + 8])[j] == BitsOf(data[q])[j]
    {
      assert bits[8 * q..8 * q + 8][7 - j] == bits[8 * q + 7 - j];
      assert (8 * q + 7 - j) / 8 == q && (8 * q + 7 - j) % 8 == 7 - j;
    }
  }

  // ----- the row coder

  function Encoded(codes: CodeMap, data: seq<byte>): (seq<byte>, byte)
  {
    var bits := EncodeBits(codes, data);
    (PackBytes(bits + Ones(PadFor(|bits|))), PadFor(|bits|))
  }

  function Decoded(root: Tree, data: seq<byte>, pad: byte, count: int): Result<seq<byte>, DecodeError>
    requires root.Node?
  {
    if pad > 7 || count < 0 || 8 * |data| < pad then Err(Padding) else
    match Walk(root, root, Unpack(data)[..8 * |data| - pad])
    case Err(e) => Err(e)
    case Ok((out, cur)) => if cur != root || |out| != count then Err(DecodedLength) else Ok(out)
  }

  /** What a coded byte string looks like: whole bytes filled from the top bit down, first the code
      bits and then less than a byte of ones, which are counted. */
  lemma EncodedLayout(codes: CodeMap, data: seq<byte>)
    ensures var (packed, pad) := Encoded(codes, data); var bits := EncodeBits(codes, data);
            && pad < 8 && 8 * |packed| == |bits| + pad
            && forall k :: 0 <= k < 8 * |packed| ==> (BitSet(packed[k / 8], 7 - k % 8) <==> k >= |bits| || bits[k])
  {
    hide EncodeBits, BitSet, PackBytes, Unpack;
    var (packed, pad) := Encoded(codes, data);
    var bits := EncodeBits(codes, data);
    var padded := bits + Ones(PadFor(|bits|));
    PackedBits(padded, packed);
    forall k | 0 <= k < 8 * |packed|
      ensures BitSet(packed[k / 8], 7 - k % 8) <==> k >= |bits| || bits[k]
    {
      UnpackBit(packed, k);
    }
  }

  lemma PackedBits(bits: seq<bool>, packed: seq<byte>)
    requires |bits| % 8 == 0 && packed == PackBytes(bits)
    ensures 8 * |packed| == |bits| && Unpack(packed) == bits
  {
    UnpackPack(bits);
  }

  lemma {:induction false} KnownAll(t: Tree, data: seq<byte>)
    ensures |Known(t, data)| <= |data|
    ensures |Known(t, data)| == |data| <==> forall b :: b in data ==> b in Leaves(t)
    ensures |Known(t, data)| == |data| ==> Known(t, data) == data
  {
    if data != [] {
      KnownAll(t, data[1..]);
      assert data == [data[0]] + data[1..];
      assert (forall b :: b in data ==> b in Leaves(t))
        <==> data[0] in Leaves(t) && (forall b :: b in data[1..] ==> b in Leaves(t));
    }
  }

  lemma DecodeValidBits(root: Tree, codes: CodeMap, data: seq<byte>, count: int)
    requires root.Node? && count >= 0
    ensures var (packed, pad) := Encoded(codes, data);
            Decoded(root, packed, pad, count) ==
            match Walk(root, root, EncodeBits(codes, data))
            case Err(e) => Err(e)
            case Ok((out, cur)) => if cur != root || |out| != count then Err(DecodedLength) else Ok(out)
  {
    hide Walk, PackBytes, Unpack;
    var bits := EncodeBits(codes, data);
    var padded := bits + Ones(PadFor(|bits|));
    UnpackPack(padded);
    assert padded[..|bits|] == bits;
  }

  lemma SingleLeaf(t: Tree, data: seq<byte>)
    requires IsLeaf(t) && data != []
    ensures Decoded(t, Encoded(Codes(t, []), data).0, Encoded(Codes(t, []), data).1, |data|).Err?
  {
    DecodeValidBits(t, Codes(t, []), data, |data|);
  }

  /** Decoding undoes encoding exactly when there is nothing to encode, or the tree is not a lone
      leaf and has a leaf for every byte; otherwise it fails. */
  lemma DecodeEncode(t: Tree, data: seq<byte>)
    requires Full(t) && NoDup(Leaves(t))
    ensures var (packed, pad) := Encoded(Codes(t, []), data);
            Decoded(t, packed, pad, |data|) == Ok(data)
            <==> data == [] || (!IsLeaf(t) && forall b :: b in data ==> b in Leaves(t))
    ensures var (packed, pad) := Encoded(Codes(t, []), data);
            Decoded(t, packed, pad, |data|).Ok? ==> Decoded(t, packed, pad, |data|) == Ok(data)
  {
    hide Walk, Encoded, Decoded;
    if IsLeaf(t) && data != [] {
      SingleLeaf(t, data);
    } else {
      DecodeValidBits(t, Codes(t, []), data, |data|);
      if !IsLeaf(t) {
        WalkEncoded(t, data);
        KnownAll(t, data);
      } else {
        assert EncodeBits(Codes(t, []), data) == [];
        EmptyWalk(t);
      }
    }
  }

  lemma EmptyWalk(t: Tree)
    requires t.Node?
    ensures Walk(t, t, []) == Ok(([], t))
  {
  }

  /** Whenever decoding succeeds, the unpadded bits are the codes of the result, so encoding the
      result gives the same padding and the same bits up to the padding. */
  lemma EncodeDecode(t: Tree, data: seq<byte>, pad: byte, count: int)
    requires Full(t) && NoDup(Leaves(t))
    requires Decoded(t, data, pad, count).Ok?
    ensures var out := Decoded(t, data, pad, count).value;
            var (packed, pad') := Encoded(Codes(t, []), out);
            && |out| == count
            && pad' == pad && |packed| == |data|
            && Unpack(data)[..8 * |data| - pad] == EncodeBits(Codes(t, []), out)
            && Unpack(packed) == Unpack(data)[..8 * |data| - pad] + Ones(pad)
  {
    hide Walk, PackBytes, Unpack, EncodeBits;
    var n := 8 * |data| - pad;
    var bits := Unpack(data)[..n];
    WalkExact(t, t, [], bits);
    assert [] + bits == bits;
    assert PadFor(n) == pad;
    UnpackPack(bits + Ones(pad));
  }
}
