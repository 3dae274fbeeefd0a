/** A print job as numbers on the wire: what every frame of it carries. */
module WireFormat {
  import opened Prelude
  import opened Bytes
  import opened PrefixTree
  import opened TreeWire
  import opened Framing
  import opened PrintJob
  import HuffmanBuild
  import HuffmanTheorems

  // ----- the fixed frames

  ghost predicate Headed(f: Frame, app: int, sub: int)
  {
    f.app == app && f.command == 5 && f.sub == sub
  }

  /** Tracking, speed, density, start, tree and sentinel. */
  ghost predicate SetupLayout(fs: seq<Frame>, width: nat, height: nat, s: Settings)
  {
    && |fs| >= 6
    && Headed(fs[0], 0x11, 0x11) && fs[0].payload == [s.tracking]
    && Headed(fs[1], 0x11, 0x07) && fs[1].payload == [s.speed]
    && Headed(fs[2], 0x11, 0x04) && fs[2].payload == [3, s.density, 8]
    && Headed(fs[3], 0x11, 0x0b)
    && fs[3].payload == [width % 256, width / 256 % 256, height % 256, height / 256 % 256, 0, 0, 1]
    && Headed(fs[4], 0x11, 0x0e)
    && Headed(fs[5], 0x10, 0x0d) && fs[5].payload == [0, 0, 8, 0, 0x11, width / 8 % 256, 0, 0, 0, 0, 0, 1]
  }

  ghost predicate FinishLayout(end: Frame, commit: Frame, s: Settings)
  {
    && Headed(end, 0x11, 0x0c) && end.payload == []
    && Headed(commit, 0x11, 0x08) && commit.payload == [s.copies, 0x13, 0]
  }

  lemma WordParts(n: nat)
    ensures PutWord(ToWord(n)) == [n % 256, n / 256 % 256]
  {
    var w := n % 0x1_0000;
    assert n == 0x1_0000 * (n / 0x1_0000) + w;
    assert w == 256 * (w / 256) + w % 256;
    assert n / 256 == 256 * (n / 0x1_0000) + w / 256;
  }

  lemma SetupBytes(width: nat, height: nat, s: Settings, tree: Tree, fs: seq<Frame>)
    requires SettingsLegal(s) && |fs| >= 6
    ensures fs[..6] == Setup(width, height, s, tree) <==> SetupLayout(fs, width, height, s) && fs[4].payload == Serialized(tree)
  {
    hide PutWord, ToWord, Serialized;
    WordParts(width);
    WordParts(height);
    SmallByte(s.tracking);
    SmallByte(s.speed);
    SmallByte(s.density);
    var g := Setup(width, height, s, tree);
    SixFrames(fs, g);
    assert g[3].payload == [width % 256, width / 256 % 256, height % 256, height / 256 % 256, 0, 0, 1];
  }

  lemma SixFrames(fs: seq<Frame>, g: seq<Frame>)
    requires |fs| >= 6 && |g| == 6
    ensures fs[..6] == g <==> fs[0] == g[0] && fs[1] == g[1] && fs[2] == g[2] && fs[3] == g[3] && fs[4] == g[4] && fs[5] == g[5]
  {
    if fs[..6] == g {
      assert forall i :: 0 <= i < 6 ==> fs[i] == fs[..6][i];
    }
  }

  lemma FinishBytes(end: Frame, commit: Frame, s: Settings)
    requires SettingsLegal(s)
    ensures [end, commit] == Finish(s) <==> FinishLayout(end, commit, s)
  {
    SmallByte(s.copies);
    var g := Finish(s);
    assert [end, commit] == g <==> end == g[0] && commit == g[1];
  }

  // ----- row frames

  /** A frame that carries a row: its header, and the codes of the row from the top bit of the first
      byte down, with less than a byte of padding whose length the header gives. */
  ghost predicate RowCarried(f: Frame, index: int, row: seq<byte>, codes: CodeMap)
  {
    var p, bits := f.payload, EncodeBits(codes, row);
    && Headed(f, 0x10, 0x0d) && |p| >= 12
    && p[0] as int + 256 * p[1] as int == index
    && p[2] as int + 256 * p[3] as int == |p| - 4
    && p[4] == 0x11 && p[5] == |row| && p[6] == 0 && p[7] == 0 && p[8] == 0 && p[9] == 0 && p[10] == 0
    && p[11] < 8 && 8 * (|p| - 12) == |bits| + p[11] as int
    && forall k :: 0 <= k < |bits| ==> (BitSet(p[12 + k / 8], 7 - k % 8) <==> bits[k])
  }

  /** The encoder fills the padding with ones. */
  ghost predicate RowLayout(f: Frame, index: int, row: seq<byte>, codes: CodeMap)
  {
    && RowCarried(f, index, row, codes)
    && forall k :: |EncodeBits(codes, row)| <= k < 8 * (|f.payload| - 12) ==> BitSet(f.payload[12 + k / 8], 7 - k % 8)
  }

  lemma RowBytes(index: nat, row: seq<byte>, codes: CodeMap)
    requires index <= 65535 && |row| < 256 && |Encoded(codes, row).0| <= 6630
    ensures RowLayout(RowFrame(index, row, codes), index, row, codes)
  {
    hide PutWord, ToWord, ToByte, Encoded, EncodeBits, BitSet, RowCarried;
    var (packed, pad) := Encoded(codes, row);
    var p := RowPayload(index, row, codes);
    WordParts(index);
    WordParts(8 + |packed|);
    assert ToByte(|row|) == |row| by { SmallByte(|row|); }
    var head := [index % 256, index / 256 % 256, (8 + |packed|) % 256, (8 + |packed|) / 256 % 256, 0x11, |row|, 0, 0, 0, 0, 0, pad];
    assert p == head + packed;
    EncodedLayout(codes, row);
    Behind(head, packed, p);
    RowNumbers(RowFrame(index, row, codes), index, row, codes, packed, pad);
  }

  lemma Behind(head: seq<byte>, packed: seq<byte>, p: seq<byte>)
    requires |head| == 12 && p == head + packed
    ensures |p| == 12 + |packed| && (forall i :: 0 <= i < 12 ==> p[i] == head[i]) && (forall i :: 0 <= i < |packed| ==> p[12 + i] == packed[i])
  {
  }

  lemma WordSum(n: nat)
    requires n < 0x1_0000
    ensures n % 256 + 256 * (n / 256 % 256) == n
  {
    assert n / 256 < 256;
  }

  lemma RowNumbers(f: Frame, index: nat, row: seq<byte>, codes: CodeMap, packed: seq<byte>, pad: byte)
    requires Headed(f, 0x10, 0x0d) && |f.payload| == 12 + |packed| && index <= 65535 && |packed| <= 6630
    requires var p := f.payload;
             && p[0] == index % 256 && p[1] == index / 256 % 256 && p[2] == (8 + |packed|) % 256 && p[3] == (8 + |packed|) / 256 % 256
             && p[4] == 0x11 && p[5] == |row| && p[6] == 0 && p[7] == 0 && p[8] == 0 && p[9] == 0 && p[10] == 0 && p[11] == pad
             && forall i :: 0 <= i < |packed| ==> p[12 + i] == packed[i]
    requires var bits := EncodeBits(codes, row);
             && pad < 8 && 8 * |packed| == |bits| + pad
             && forall k :: 0 <= k < 8 * |packed| ==> (BitSet(packed[k / 8], 7 - k % 8) <==> k >= |bits| || bits[k])
    ensures RowCarried(f, index, row, codes)
    ensures forall k :: |EncodeBits(codes, row)| <= k < 8 * (|f.payload| - 12) ==> BitSet(f.payload[12 + k / 8], 7 - k % 8)
  {
    hide BitSet, EncodeBits;
    var p, bits := f.payload, EncodeBits(codes, row);
    WordSum(index);
    WordSum(8 + |packed|);
    forall k | 0 <= k < |bits|
      ensures BitSet(p[12 + k / 8], 7 - k % 8) <==> bits[k]
    {
      assert p[12 + k / 8] == packed[k / 8];
    }
    forall k | |bits| <= k < 8 * (|p| - 12)
      ensures BitSet(p[12 + k / 8], 7 - k % 8)
    {
      assert p[12 + k / 8] == packed[k / 8];
    }
  }

  // ----- the whole job

  /** The frames of a stream, as numbers. */
  ghost predicate JobLayout(data: seq<byte>, rows: seq<seq<byte>>, width: nat, height: nat, s: Settings)
  {
    ReadFrames(data).Ok? &&
    var fs, h, page := ReadFrames(data).value, |rows|, Flat(rows);
    && |fs| == h + 8
    && SetupLayout(fs, width, height, s)
    && fs[4].payload == Serialized(HuffmanBuild.BuildTree(page))
    && (forall i :: 0 <= i < h ==> RowLayout(fs[6 + i], i + 1, rows[i], HuffmanTheorems.PageCodes(page)))
    && FinishLayout(fs[6 + h], fs[7 + h], s)
  }

  lemma {:induction false} RowFrameAt(rows: seq<seq<byte>>, codes: CodeMap, index: int, i: nat)
    requires i < |rows|
    ensures RowFrames(rows, codes, index)[i] == RowFrame(index + i, rows[i], codes)
  {
    hide RowFrame;
    if i > 0 {
      RowFrameAt(rows[1..], codes, index + 1, i - 1);
    }
  }

  lemma RowFramesLayout(rows: seq<seq<byte>>, t: Tree, i: nat)
    requires Full(t) && RowsFramable(rows) && (forall r :: r in rows ==> Covers(t, r)) && i < |rows|
    ensures var f := RowFrames(rows, Codes(t, []), 1)[i]; RowLayout(f, i + 1, rows[i], Codes(t, [])) && Legal(f)
  {
    hide RowFrame, RowFrames, Covers, Codes, RowLayout, Encoded, Legal;
    assert rows[i] in rows;
    RowFrameAt(rows, Codes(t, []), 1, i);
    RowFits(t, rows[i]);
    RowBytes(i + 1, rows[i], Codes(t, []));
    RowLegal(t, i + 1, rows[i]);
  }

  /** The frames of a job of framable rows can all be encoded and carry what they should. */
  lemma AllFramesLayout(rows: seq<seq<byte>>, width: nat, height: nat, s: Settings)
    requires RowsFramable(rows) && SettingsLegal(s)
    ensures AllLegal(AllFrames(rows, width, height, s))
    ensures JobLayout(Stream(AllFrames(rows, width, height, s)), rows, width, height, s)
  {
    hide Stream, ReadFrames, Setup, Finish, RowFrames, HuffmanBuild.BuildTree, HuffmanTheorems.PageCodes, Flat, Covers,
      RowLayout, SetupLayout, FinishLayout, Serialized, Codes, Legal, RowsFramable, SettingsLegal, Full, Size;
    var page, h := Flat(rows), |rows|;
    var t, codes := HuffmanBuild.BuildTree(page), HuffmanTheorems.PageCodes(page);
    var a, b, c := Setup(width, height, s, t), RowFrames(rows, codes, 1), Finish(s);
    var fs := AllFrames(rows, width, height, s);
    PageCoversRows(rows);
    CodesOfPage(page);
    SetupSizes(width, height, s, t);
    forall i | 0 <= i < h
      ensures RowLayout(b[i], i + 1, rows[i], codes) && Legal(b[i])
    {
      RowFramesLayout(rows, t, i);
    }
    LegalConcat(a, b);
    LegalConcat(a + b, c);
    ReadStream(fs);
    assert fs[..6] == a && (forall i :: 0 <= i < h ==> fs[6 + i] == b[i]) && [fs[6 + h], fs[7 + h]] == c;
    SetupBytes(width, height, s, t, fs);
    FinishBytes(fs[6 + h], fs[7 + h], s);
  }
}
