/** Exactly which streams the strict decoder accepts. */
module StrictDecoder {
  import opened Prelude
  import opened Bytes
  import opened PrefixTree
  import opened TreeWire
  import opened Framing
  import opened PrintJob
  import opened WireFormat

  /** The bits of a row payload that are not padding. */
  function CodedBits(p: seq<byte>): seq<bool>
    requires |p| >= 12
  {
    var n := 8 * |p[12..]| - p[11];
    if n < 0 then [] else Unpack(p[12..])[..n]
  }

  /** A frame that carries `row` as number `index`: the encoder's own frame up to the values of the
      padding bits, for a tree that can code the row. */
  ghost predicate CarriesRow(f: Frame, index: int, row: seq<byte>, tree: Tree)
    requires Full(tree)
  {
    var g := RowFrame(index, row, Codes(tree, []));
    && f.app == g.app && f.command == g.command && f.sub == g.sub
    && |f.payload| == |g.payload| >= 12 && f.payload[..12] == g.payload[..12]
    && CodedBits(f.payload) == CodedBits(g.payload)
    && !IsLeaf(tree) && (forall b :: b in row ==> b in Leaves(tree))
  }

  lemma PayloadHead(index: word, row: seq<byte>, codes: CodeMap)
    requires |row| < 256 && 8 + |Encoded(codes, row).0| < 0x1_0000
    ensures var p := RowPayload(index, row, codes); var (packed, pad) := Encoded(codes, row);
            && |p| == 12 + |packed|
            && p[..12] == PutWord(index) + PutWord(8 + |packed|) + [0x11, |row|, 0, 0, 0, 0, 0, pad]
            && p[12..] == packed
  {
    hide GetWord, PutWord, Encoded, ToWord, ToByte;
    var (packed, pad) := Encoded(codes, row);
    ToWordId(index);
    ToWordId(8 + |packed|);
    SmallByte(|row|);
    var head := PutWord(index) + PutWord(8 + |packed|) + [0x11, |row|, 0, 0, 0, 0, 0, pad];
    assert RowPayload(index, row, codes) == head + packed;
  }

  /** A checked header is the one the encoder writes for the same index, width, padding and size. */
  lemma HeaderIsForced(p: seq<byte>, index: word, rowBytes: byte)
    requires 12 <= |p| < 0x1_0000
    ensures RowHeaderOk(p, index, rowBytes) <==>
            p[11] <= 7 && p[..12] == PutWord(index) + PutWord(|p| - 4) + [0x11, rowBytes, 0, 0, 0, 0, 0, p[11]]
  {
    hide GetWord, PutWord;
    var q := PutWord(index) + PutWord(|p| - 4) + [0x11, rowBytes, 0, 0, 0, 0, 0, p[11]];
    WordRoundTrip(index, p[0], p[1]);
    WordRoundTrip(|p| - 4, p[2], p[3]);
    HeaderLayout(PutWord(index), PutWord(|p| - 4), [0x11, rowBytes, 0, 0, 0, 0, 0, p[11]], p[12..]);
    HeaderParts(p);
    if RowHeaderOk(p, index, rowBytes) {
      assert p[..12] == q;
    }
    if p[11] <= 7 && p[..12] == q {
      assert p == q + p[12..];
    }
  }

  lemma HeaderParts(p: seq<byte>)
    requires |p| >= 12
    ensures p[..12] == [p[0], p[1]] + [p[2], p[3]] + ([p[4], p[5]] + p[6..11] + [p[11]])
  {
  }

  /** Every row the strict decoder reads was carried by its frame. */
  lemma ReadRowIsCarried(f: Frame, index: word, tree: Tree, rowBytes: byte)
    requires Full(tree) && NoDup(Leaves(tree)) && rowBytes > 0 && |f.payload| < 0x1_0000
    requires RowOf(f, index, tree, rowBytes).Ok?
    ensures CarriesRow(f, index, RowOf(f, index, tree, rowBytes).value, tree)
  {
    hide Encoded, Decoded, Codes, RowHeaderOk, NoDup, Walk, PutWord, RowPayload, Unpack;
    var p := f.payload;
    var row := RowOf(f, index, tree, rowBytes).value;
    var codes := Codes(tree, []);
    var (packed, pad) := Encoded(codes, row);
    PayloadLength(p, index, rowBytes);
    EncodeDecode(tree, p[12..], p[11], rowBytes);
    PayloadHead(index, row, codes);
    HeaderIsForced(p, index, rowBytes);
    ReadNeedsLeaves(tree, p[12..], p[11], rowBytes);
    var n := 8 * |p[12..]| - p[11];
    assert Unpack(packed)[..n] == Unpack(p[12..])[..n];
  }

  lemma PayloadLength(p: seq<byte>, index: int, rowBytes: int)
    requires RowHeaderOk(p, index, rowBytes)
    ensures |p| >= 12 && p[11] <= 7
  {
  }

  /** A successful decoding of a non-empty row shows that the tree has leaves for all of it. */
  lemma ReadNeedsLeaves(tree: Tree, data: seq<byte>, pad: byte, count: int)
    requires Full(tree) && NoDup(Leaves(tree)) && count > 0
    requires Decoded(tree, data, pad, count).Ok?
    ensures !IsLeaf(tree) && forall b :: b in Decoded(tree, data, pad, count).value ==> b in Leaves(tree)
  {
    hide Walk, Encoded, NoDup, Unpack, EncodeBits;
    var out := Decoded(tree, data, pad, count).value;
    EncodeDecode(tree, data, pad, count);
    var (packed, pad') := Encoded(Codes(tree, []), out);
    assert Unpack(packed)[..8 * |packed| - pad'] == Unpack(data)[..8 * |data| - pad];
    assert Decoded(tree, packed, pad', |out|) == Ok(out);
    DecodeEncode(tree, out);
  }

  lemma CarriedHead(f: Frame, index: word, row: seq<byte>, tree: Tree)
    requires Full(tree) && |row| < 256 && 8 + |Encoded(Codes(tree, []), row).0| < 0x1_0000
    requires CarriesRow(f, index, row, tree)
    ensures var (packed, pad) := Encoded(Codes(tree, []), row); var p := f.payload;
            && f.app == 0x10 && f.command == 5 && f.sub == 0x0d
            && |p| == 12 + |packed| && p[11] == pad
            && p[..12] == PutWord(index) + PutWord(|p| - 4) + [0x11, |row|, 0, 0, 0, 0, 0, pad]
            && CodedBits(p) == CodedBits(RowPayload(index, row, Codes(tree, [])))
            && RowPayload(index, row, Codes(tree, []))[12..] == packed
            && RowPayload(index, row, Codes(tree, []))[11] == pad
  {
    hide Encoded, Codes, PutWord, RowPayload, CodedBits;
    var (packed, pad) := Encoded(Codes(tree, []), row);
    var g := RowPayload(index, row, Codes(tree, []));
    PayloadHead(index, row, Codes(tree, []));
    TwelfthByte(PutWord(index), PutWord(8 + |packed|), [0x11, |row|, 0, 0, 0, 0, 0, pad]);
    assert f.payload[11] == f.payload[..12][11] && g[11] == g[..12][11];
  }

  lemma SameBitsDecode(tree: Tree, a: seq<byte>, b: seq<byte>, pad: byte, count: int)
    requires tree.Node? && |a| == |b| && pad <= 8 * |a|
    requires Unpack(a)[..8 * |a| - pad] == Unpack(b)[..8 * |b| - pad]
    ensures Decoded(tree, a, pad, count) == Decoded(tree, b, pad, count)
  {
    hide Walk, Unpack;
  }

  /** A frame that carries a row is read as that row. */
  lemma CarriedRowIsRead(f: Frame, index: word, row: seq<byte>, tree: Tree)
    requires Full(tree) && NoDup(Leaves(tree)) && 0 < |row| <= 208 && |f.payload| < 0x1_0000
    requires 8 + |Encoded(Codes(tree, []), row).0| < 0x1_0000
    requires CarriesRow(f, index, row, tree)
    ensures RowOf(f, index, tree, |row|) == Ok(row)
  {
    CarriedHead(f, index, row, tree);
    hide Encoded, Codes, RowHeaderOk, NoDup, PutWord, RowPayload, Unpack, Decoded, EncodeBits, Leaves;
    var (packed, pad) := Encoded(Codes(tree, []), row);
    PackedSize(Codes(tree, []), row);
    HeaderIsForced(f.payload, index, |row|);
    DecodeEncode(tree, row);
    SameBitsDecode(tree, f.payload[12..], packed, pad, |row|);
  }

  lemma TwelfthByte(a: seq<byte>, b: seq<byte>, c: seq<byte>)
    requires |a| == 2 && |b| == 2 && |c| == 8
    ensures (a + b + c)[11] == c[7]
  {
  }

  // ----- all rows

  ghost predicate CarriesRows(fs: seq<Frame>, rows: seq<seq<byte>>, tree: Tree, rowBytes: int)
    requires Full(tree)
  {
    && |fs| == |rows|
    && forall i :: 0 <= i < |fs| ==> |rows[i]| == rowBytes && CarriesRow(fs[i], i + 1, rows[i], tree)
  }

  lemma {:induction false} RowsOfAt(fs: seq<Frame>, index: int, tree: Tree, rowBytes: int, i: nat)
    requires tree.Node? && RowsOf(fs, index, tree, rowBytes).Ok? && i < |fs|
    ensures RowOf(fs[i], index + i, tree, rowBytes) == Ok(RowsOf(fs, index, tree, rowBytes).value[i])
    decreases fs
  {
    hide RowOf;
    if i > 0 {
      RowsOfAt(fs[1..], index + 1, tree, rowBytes, i - 1);
    }
  }

  lemma {:induction false} RowsOfAll(fs: seq<Frame>, index: int, tree: Tree, rowBytes: int, rows: seq<seq<byte>>)
    requires tree.Node? && |fs| == |rows|
    requires forall i :: 0 <= i < |fs| ==> RowOf(fs[i], index + i, tree, rowBytes) == Ok(rows[i])
    ensures RowsOf(fs, index, tree, rowBytes) == Ok(rows)
    decreases fs
  {
    hide RowOf;
    if fs != [] {
      assert RowOf(fs[0], index + 0, tree, rowBytes) == Ok(rows[0]);
      forall i | 0 <= i < |fs[1..]|
        ensures RowOf(fs[1..][i], index + 1 + i, tree, rowBytes) == Ok(rows[1..][i])
      {
        assert RowOf(fs[i + 1], index + (i + 1), tree, rowBytes) == Ok(rows[i + 1]);
      }
      RowsOfAll(fs[1..], index + 1, tree, rowBytes, rows[1..]);
      assert rows == [rows[0]] + rows[1..];
    }
  }

  lemma RowsExact(fs: seq<Frame>, tree: Tree, rowBytes: byte, rows: seq<seq<byte>>)
    requires Full(tree) && NoDup(Leaves(tree)) && 0 < rowBytes <= 208 && |fs| <= 65535 && AllLegal(fs)
    ensures RowsOf(fs, 1, tree, rowBytes) == Ok(rows) <==> CarriesRows(fs, rows, tree, rowBytes)
  {
    hide RowOf, CarriesRow, NoDup;
    if RowsOf(fs, 1, tree, rowBytes) == Ok(rows) {
      forall i | 0 <= i < |fs|
        ensures |rows[i]| == rowBytes && CarriesRow(fs[i], i + 1, rows[i], tree)
      {
        assert fs[i] in fs;
        RowsOfAt(fs, 1, tree, rowBytes, i);
        ReadRowIsCarried(fs[i], 1 + i, tree, rowBytes);
      }
    }
    if CarriesRows(fs, rows, tree, rowBytes) {
      forall i | 0 <= i < |fs|
        ensures RowOf(fs[i], 1 + i, tree, rowBytes) == Ok(rows[i])
      {
        assert fs[i] in fs;
        CarriedSize(fs[i], i + 1, rows[i], tree);
        CarriedRowIsRead(fs[i], 1 + i, rows[i], tree);
      }
      RowsOfAll(fs, 1, tree, rowBytes, rows);
    }
  }

  lemma CarriedSize(f: Frame, index: int, row: seq<byte>, tree: Tree)
    requires Full(tree) && Legal(f) && CarriesRow(f, index, row, tree)
    ensures 8 + |Encoded(Codes(tree, []), row).0| < 0x1_0000
  {
    hide Encoded, Codes, PutWord;
    var (packed, pad) := Encoded(Codes(tree, []), row);
    assert |RowPayload(index, row, Codes(tree, []))| == 12 + |packed|;
  }

  // ----- the whole stream

  /** The stream of a job, as numbers: nothing but legal frames, the fixed ones carrying some legal
      settings and a sendable tree, around one frame per row. */
  ghost predicate IsJobStream(data: seq<byte>, job: DecodedJob, s: Settings, tree: Tree, fs: seq<Frame>)
  {
    var h := job.height;
    && 0 < |data| <= 67_108_864
    && (job.widthBytes == 199 || job.widthBytes == 208) && 0 < h < 0x1_0000
    && 1 <= s.speed <= 255 && 1 <= s.density <= 15 && 0 <= s.tracking <= 255 && 1 <= s.copies <= 255
    && s.copies == job.copies
    && Sendable(tree) && Size(tree) <= 511
    && data == Stream(fs) && |fs| == h + 8 && (forall f :: f in fs ==> |f.payload| <= 65530)
    && SetupLayout(fs, 8 * job.widthBytes, h, s) && fs[4].payload == Serialized(tree)
    && FinishLayout(fs[6 + h], fs[7 + h], s)
    && (SendableDistinct(tree); RowsCarried(fs[6..6 + h], job.rows, tree, job.widthBytes))
  }

  /** One frame per row, in order, for a tree that can code every row. */
  ghost predicate RowsCarried(fs: seq<Frame>, rows: seq<seq<byte>>, tree: Tree, rowBytes: int)
    requires Full(tree)
  {
    && |fs| == |rows|
    && forall i :: 0 <= i < |fs| ==>
         |rows[i]| == rowBytes && RowCarried(fs[i], i + 1, rows[i], Codes(tree, [])) && CanCode(tree, rows[i])
  }

  predicate CanCode(tree: Tree, row: seq<byte>)
  {
    !IsLeaf(tree) && forall b :: b in row ==> b in Leaves(tree)
  }

  /** The coded bits of two payloads are the same exactly when the code bits stand in both. */
  lemma CodedBitsAre(p: seq<byte>, row: seq<byte>, codes: CodeMap)
    requires |p| >= 12 && 8 * (|p| - 12) == |EncodeBits(codes, row)| + p[11] as int
    ensures CodedBits(p) == EncodeBits(codes, row) <==>
            forall k :: 0 <= k < |EncodeBits(codes, row)| ==> (BitSet(p[12 + k / 8], 7 - k % 8) <==> EncodeBits(codes, row)[k])
  {
    hide Unpack, BitSet, EncodeBits;
    var n, c := |EncodeBits(codes, row)|, p[12..];
    forall k | 0 <= k < n
      ensures CodedBits(p)[k] <==> BitSet(p[12 + k / 8], 7 - k % 8)
    {
      UnpackBit(c, k);
      assert c[k / 8] == p[12 + k / 8];
    }
    if CodedBits(p) == EncodeBits(codes, row) {
      forall k | 0 <= k < n
        ensures BitSet(p[12 + k / 8], 7 - k % 8) <==> EncodeBits(codes, row)[k]
      {
        assert CodedBits(p)[k] == EncodeBits(codes, row)[k];
      }
    }
  }

  lemma CodedBitsOfEncoded(index: word, row: seq<byte>, codes: CodeMap)
    requires |row| < 256 && 8 + |Encoded(codes, row).0| < 0x1_0000
    ensures var p := RowPayload(index, row, codes); |p| >= 12 && CodedBits(p) == EncodeBits(codes, row)
  {
    hide PutWord, EncodeBits, Unpack, BitSet, RowPayload;
    var (packed, pad) := Encoded(codes, row);
    var p := RowPayload(index, row, codes);
    PayloadHead(index, row, codes);
    TwelfthByte(PutWord(index), PutWord(8 + |packed|), [0x11, |row|, 0, 0, 0, 0, 0, pad]);
    assert p[11] == p[..12][11];
    EncodedLayout(codes, row);
    assert forall i :: 0 <= i < |packed| ==> p[12 + i] == packed[i] by {
      assert forall i :: 0 <= i < |packed| ==> p[12..][i] == p[12 + i];
    }
    CodedBitsAre(p, row, codes);
  }

  /** A header of the encoder's, as numbers. */
  lemma HeaderNumbers(p: seq<byte>, index: word, rowBytes: byte)
    requires 12 <= |p| < 0x1_0000
    ensures RowHeaderOk(p, index, rowBytes) <==>
            && p[0] as int + 256 * p[1] as int == index
            && p[2] as int + 256 * p[3] as int == |p| - 4
            && p[4] == 0x11 && p[5] == rowBytes && p[6] == 0 && p[7] == 0 && p[8] == 0 && p[9] == 0 && p[10] == 0
            && p[11] < 8
  {
    var z := p[6..11];
    assert z[0] == p[6] && z[1] == p[7] && z[2] == p[8] && z[3] == p[9] && z[4] == p[10];
    assert z == [0, 0, 0, 0, 0] <==> z[0] == 0 && z[1] == 0 && z[2] == 0 && z[3] == 0 && z[4] == 0;
  }

  lemma CarriedNumbers(f: Frame, index: word, row: seq<byte>, tree: Tree)
    requires Full(tree) && |row| < 256 && Legal(f)
    ensures CarriesRow(f, index, row, tree) <==> RowCarried(f, index, row, Codes(tree, [])) && CanCode(tree, row)
  {
    hide PutWord, Encoded, EncodeBits, BitSet, Unpack, RowPayload, CodedBits, RowHeaderOk, Codes, Leaves;
    var codes, p := Codes(tree, []), f.payload;
    var (packed, pad) := Encoded(codes, row);
    PackedSize(codes, row);
    if CarriesRow(f, index, row, tree) {
      CarriedSize(f, index, row, tree);
      CarriedHead(f, index, row, tree);
      HeaderIsForced(p, index, |row|);
      HeaderNumbers(p, index, |row|);
      CodedBitsOfEncoded(index, row, codes);
      CodedBitsAre(p, row, codes);
    }
    if RowCarried(f, index, row, codes) && CanCode(tree, row) {
      HeaderNumbers(p, index, |row|);
      HeaderIsForced(p, index, |row|);
      SamePad(|EncodeBits(codes, row)|, p[11], |p| - 12, pad, |packed|);
      PayloadHead(index, row, codes);
      CodedBitsAre(p, row, codes);
      CodedBitsOfEncoded(index, row, codes);
    }
  }

  /** Less than a byte of padding is determined by the bits in front of it. */
  lemma SamePad(bits: nat, a: nat, m: nat, b: nat, n: nat)
    requires 8 * m == bits + a && a < 8 && 8 * n == bits + b && b < 8
    ensures a == b && m == n
  {
  }

  /** Which payloads decode to a row, whatever their headers say besides width and padding. */
  lemma DecodedExact(tree: Tree, p: seq<byte>, row: seq<byte>)
    requires Full(tree) && NoDup(Leaves(tree)) && |p| >= 12
    ensures Decoded(tree, p[12..], p[11], p[5]) == Ok(row) <==>
            && p[5] == |row| && p[11] < 8 && 8 * (|p| - 12) == |EncodeBits(Codes(tree, []), row)| + p[11] as int
            && CodedBits(p) == EncodeBits(Codes(tree, []), row)
            && (row == [] || CanCode(tree, row))
  {
    hide Encoded, NoDup, Unpack, EncodeBits, Codes, Leaves, Walk;
    var bits := EncodeBits(Codes(tree, []), row);
    if Decoded(tree, p[12..], p[11], p[5]) == Ok(row) {
      EncodeDecode(tree, p[12..], p[11], p[5]);
      if row != [] {
        ReadNeedsLeaves(tree, p[12..], p[11], p[5]);
      }
    }
    hide Decoded;
    if p[5] == |row| && p[11] < 8 && 8 * (|p| - 12) == |bits| + p[11] as int && CodedBits(p) == bits
       && (row == [] || CanCode(tree, row)) {
      var (packed, pad) := Encoded(Codes(tree, []), row);
      PackedSize(Codes(tree, []), row);
      SamePad(|bits|, p[11], |p| - 12, pad, |packed|);
      DecodeEncode(tree, row);
      EncodeDecode(tree, packed, pad, |row|);
      SameBitsDecode(tree, p[12..], packed, pad, |row|);
    }
  }

  lemma RowsInNumbers(fs: seq<Frame>, rows: seq<seq<byte>>, tree: Tree, rowBytes: int)
    requires Full(tree) && 0 < rowBytes <= 208 && |fs| <= 65535 && AllLegal(fs)
    ensures CarriesRows(fs, rows, tree, rowBytes) <==> RowsCarried(fs, rows, tree, rowBytes)
  {
    hide CarriesRow, RowCarried, CanCode, Codes, Legal;
    if |fs| == |rows| {
      forall i | 0 <= i < |fs| && |rows[i]| == rowBytes
        ensures CarriesRow(fs[i], i + 1, rows[i], tree) <==>
                RowCarried(fs[i], i + 1, rows[i], Codes(tree, [])) && CanCode(tree, rows[i])
      {
        assert fs[i] in fs;
        CarriedNumbers(fs[i], i + 1, rows[i], tree);
      }
    }
  }

  lemma SetupIsForced(fs: seq<Frame>, w: int, h: int) returns (s: Settings)
    requires |fs| >= 8 && SettingsOf(fs).Ok? && GeometryOf(fs[3]) == Ok((w, h)) && TreeFrame(fs[4]).Ok?
    requires SentinelCheck(fs[5], w / 8).Ok? && CopiesOf(fs[|fs| - 2], fs[|fs| - 1]).Ok?
    ensures SettingsLegal(s) && s.copies == CopiesOf(fs[|fs| - 2], fs[|fs| - 1]).value
    ensures fs[..6] == Setup(w, h, s, TreeFrame(fs[4]).value)
    ensures fs[|fs| - 2..] == Finish(s)
  {
    hide Sendable, TreeOf, Serialized, StartPayload, SentinelPayload;
    var commit := fs[|fs| - 1];
    s := Settings(fs[1].payload[0], fs[2].payload[1], fs[0].payload[0], commit.payload[0]);
    StartIsForced(fs[3].payload, w, h);
    TreeWireExact(fs[4].payload, 511, TreeFrame(fs[4]).value);
    SmallByte(s.speed);
    SmallByte(s.density);
    SmallByte(s.tracking);
    SmallByte(s.copies);
    assert fs[0] == Frame(0x11, 5, 0x11, [ToByte(s.tracking)]);
    assert fs[1] == Frame(0x11, 5, 0x07, [ToByte(s.speed)]);
    assert fs[2] == Frame(0x11, 5, 0x04, [3, ToByte(s.density), 8]);
    assert commit == Frame(0x11, 5, 0x08, [ToByte(s.copies), 0x13, 0]);
    assert fs[|fs| - 2] == Frame(0x11, 5, 0x0c, []);
  }

  lemma StartIsForced(p: seq<byte>, w: int, h: int)
    requires |p| == 7 && w == GetWord(p[0], p[1]) && h == GetWord(p[2], p[3]) && p[4] == 0 && p[5] == 0 && p[6] == 1
    ensures p == StartPayload(w, h)
  {
    hide GetWord, PutWord, ToWord;
    WordRoundTrip(0, p[0], p[1]);
    WordRoundTrip(0, p[2], p[3]);
    ToWordId(w);
    ToWordId(h);
    assert p == [p[0], p[1]] + [p[2], p[3]] + [0, 0, 1];
  }

  /** Every accepted stream is the stream of the job it was read as. */
  lemma AcceptedIsJobStream(data: seq<byte>) returns (s: Settings, tree: Tree, fs: seq<Frame>)
    requires JobOfStream(data).Ok?
    ensures IsJobStream(data, JobOfStream(data).value, s, tree, fs)
  {
    hide Stream, Setup, Finish, RowsOf, CarriesRows, RowsCarried, SettingsOf, GeometryOf, TreeFrame, SentinelCheck, CopiesOf,
      ReadFrames, Sendable, Size, SetupLayout, FinishLayout, Serialized;
    fs := ReadFrames(data).value;
    var job := JobOfStream(data).value;
    var h := job.height;
    var w := GeometryOf(fs[3]).value.0;
    tree := TreeFrame(fs[4]).value;
    var rowFrames := fs[6..6 + h];
    FramingExact(data, fs);
    s := SetupIsForced(fs, w, h);
    TreeFits(fs[4]);
    SendableDistinct(tree);
    assert AllLegal(rowFrames);
    RowsExact(rowFrames, tree, w / 8, job.rows);
    RowsInNumbers(rowFrames, job.rows, tree, w / 8);
    assert [fs[6 + h], fs[7 + h]] == fs[|fs| - 2..];
    SetupBytes(w, h, s, tree, fs);
    FinishBytes(fs[6 + h], fs[7 + h], s);
  }

  lemma TreeFits(f: Frame)
    requires TreeFrame(f).Ok?
    ensures Sendable(TreeFrame(f).value) && Size(TreeFrame(f).value) <= 511
  {
    hide Sendable, TreeOf;
    TreeWireExact(f.payload, 511, TreeFrame(f).value);
  }

  lemma JobStreamIsAccepted(data: seq<byte>, job: DecodedJob, s: Settings, tree: Tree, fs: seq<Frame>)
    requires IsJobStream(data, job, s, tree, fs)
    ensures JobOfStream(data) == Ok(job)
  {
    hide Stream, Setup, RowsOf, CarriesRows, RowsCarried, SettingsOf, GeometryOf, TreeFrame, SentinelCheck, ReadFrames, Sendable,
      Size, SetupLayout, FinishLayout, Serialized;
    var w, h := 8 * job.widthBytes, job.height;
    SendableDistinct(tree);
    SetupBytes(w, h, s, tree, fs);
    FinishBytes(fs[6 + h], fs[7 + h], s);
    FramingExact(data, fs);
    var rowFrames := fs[6..6 + h];
    SetupReads(w, h, s, tree, fs);
    RowsInNumbers(rowFrames, job.rows, tree, job.widthBytes);
    RowsExact(rowFrames, tree, job.widthBytes, job.rows);
    SmallByte(s.copies);
    assert [fs[6 + h], fs[7 + h]][0] == Finish(s)[0] && [fs[6 + h], fs[7 + h]][1] == Finish(s)[1];
  }

  /** The strict decoder reads a stream as a job exactly when it is that job's stream: nothing else,
      not one stray byte, frame, header field or code bit, is ever accepted. */
  lemma StrictAcceptance(data: seq<byte>, job: DecodedJob)
    ensures JobOfStream(data) == Ok(job) <==>
            exists s, tree, fs :: IsJobStream(data, job, s, tree, fs)
  {
    hide JobOfStream, IsJobStream;
    if JobOfStream(data) == Ok(job) {
      var s, tree, fs := AcceptedIsJobStream(data);
    }
    if exists s, tree, fs :: IsJobStream(data, job, s, tree, fs) {
      var s, tree, fs :| IsJobStream(data, job, s, tree, fs);
      JobStreamIsAccepted(data, job, s, tree, fs);
    }
  }
}
