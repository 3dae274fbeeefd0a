/** The encoder and the strict decoder as they run, over the frame list of PrintJob. */
module JobCodec {
  import opened Prelude
  import opened Bytes
  import opened PrefixTree
  import TreeWire
  import HuffmanBuild
  import HuffmanTheorems
  import HuffmanCoder
  import opened Framing
  import Raster
  import opened PrintJob
  import opened WireFormat
  import StrictDecoder

  method EncodeRowFrame(index: int, row: seq<byte>, tree: HuffmanCoder.Huffman) returns (r: Result<seq<byte>, JobError>)
    requires tree.Valid()
    ensures r == if (|row| != 199 && |row| != 208) || index < 0 || index > 65535 then Err(Row)
                 else if Legal(RowFrame(index, row, tree.codes)) then Ok(Wire(RowFrame(index, row, tree.codes)))
                 else Err(BadFrame(PayloadTooLarge))
  {
    if (|row| != 199 && |row| != 208) || index < 0 || index > 65535 {
      return Err(Row);
    }
    hide FrameLayout, Wire, Encoded, PutWord, ToWord, ToByte, RowPayload, Legal;
    var packed, pad := tree.Encode(row);
    RowPayloadIs(index, row, tree.codes);
    var p := PutWord(ToWord(index)) + PutWord(ToWord(8 + |packed|)) + [0x11, ToByte(|row|), 0, 0, 0, 0, 0, pad] + packed;
    var x := EncodeFrame(Frame(0x10, 5, 0x0d, p));
    match x
    case Ok(w) => return Ok(w);
    case Err(e) => return Err(BadFrame(e));
  }

  lemma RowPayloadIs(index: int, row: seq<byte>, codes: CodeMap)
    ensures var (packed, pad) := Encoded(codes, row);
            RowPayload(index, row, codes)
            == PutWord(ToWord(index)) + PutWord(ToWord(8 + |packed|)) + [0x11, ToByte(|row|), 0, 0, 0, 0, 0, pad] + packed
  {
    hide Encoded, PutWord;
  }

  /** The closure that appends one frame to the stream when it can be encoded; fs is what the
      stream holds so far. */
  method Add(out: seq<byte>, f: Frame, ghost fs: seq<Frame>) returns (next: seq<byte>, ok: bool)
    requires out == Stream(fs)
    ensures ok == Legal(f) && next == Stream(if ok then fs + [f] else fs)
  {
    hide Wire, FrameLayout;
    StreamAppend(fs, f);
    var x := EncodeFrame(f);
    match x
    case Ok(w) => return out + w, true;
    case Err(_) => return out, false;
  }

  lemma StreamAppend(fs: seq<Frame>, f: Frame)
    ensures Stream(fs + [f]) == Stream(fs) + Wire(f)
  {
    hide Wire;
    StreamConcat(fs, [f]);
    assert [f][1..] == [];
    assert Wire(f) + [] == Wire(f);
  }

  method AddSetup(width: int, height: int, s: Settings, root: Tree) returns (r: Result<seq<byte>, JobError>)
    requires root.Node? && Size(root) <= 511
    ensures r == Ok(Stream(Setup(width, height, s, root)))
  {
    hide Stream, Size, Legal, PutWord, ToWord, ToByte, TreeWire.Serialized;
    ghost var fs := Setup(width, height, s, root);
    SetupSizes(width, height, s, root);
    assert Legal(fs[0]) && Legal(fs[1]) && Legal(fs[2]) && Legal(fs[3]) && Legal(fs[4]) && Legal(fs[5]);
    NoStream();
    PrefixGrows(fs);
    var out, ok := Add([], Frame(0x11, 5, 0x11, [ToByte(s.tracking)]), fs[..0]);
    if !ok {
      return Err(BadFrame(PayloadTooLarge));
    }
    out, ok := Add(out, Frame(0x11, 5, 0x07, [ToByte(s.speed)]), fs[..1]);
    out, ok := Add(out, Frame(0x11, 5, 0x04, [3, ToByte(s.density), 8]), fs[..2]);
    var start := PutWord(ToWord(width)) + PutWord(ToWord(height)) + [0, 0, 1];
    out, ok := Add(out, Frame(0x11, 5, 0x0b, start), fs[..3]);
    var traversals := TreeWire.SerializedTraversals(root);
    out, ok := Add(out, Frame(0x11, 5, 0x0e, traversals), fs[..4]);
    var sent := [0, 0, 8, 0, 0x11, ToByte(width / 8), 0, 0, 0, 0, 0, 1];
    out, ok := Add(out, Frame(0x10, 5, 0x0d, sent), fs[..5]);
    return Ok(out);
  }

  lemma PrefixGrows(fs: seq<Frame>)
    ensures fs[..0] == [] && fs[..|fs|] == fs
    ensures forall i :: 0 <= i < |fs| ==> fs[..i] + [fs[i]] == fs[..i + 1]
  {
  }

  lemma NoStream()
    ensures Stream([]) == []
  {
  }

  method EncodeRows(rows: seq<seq<byte>>, outputWidth: nat, height: nat, s: Settings) returns (r: Result<seq<byte>, JobError>)
    ensures r == if !SettingsLegal(s) then Err(PrintSettings)
                 else if !RowsFramable(rows) then Err(Row)
                 else Ok(Stream(AllFrames(rows, outputWidth, height, s)))
    ensures r.Ok? <==>
              && 1 <= s.speed <= 255 && 1 <= s.density <= 15 && 0 <= s.tracking <= 255 && 1 <= s.copies <= 255
              && |rows| <= 65535 && forall row :: row in rows ==> |row| == 199 || |row| == 208
    ensures r.Ok? ==> JobLayout(r.value, rows, outputWidth, height, s)
  {
    if s.speed < 1 || s.speed > 255 || s.density < 1 || s.density > 15 || s.tracking < 0 || s.tracking > 255
       || s.copies < 1 || s.copies > 255 {
      return Err(PrintSettings);
    }
    hide AllFrames, Stream, Flat, HuffmanBuild.BuildTree, RowsFramable, JobLayout;
    if RowsFramable(rows) {
      AllFramesLayout(rows, outputWidth, height, s);
    }
    var all := Flatten(rows);
    var root := HuffmanBuild.BuildHuffman(all);
    r := EmitJob(rows, outputWidth, height, s, root);
  }

  /** The frames of the job in order, once the page's tree is built. */
  method EmitJob(rows: seq<seq<byte>>, outputWidth: int, height: int, s: Settings, root: Tree)
    returns (r: Result<seq<byte>, JobError>)
    requires root == HuffmanBuild.BuildTree(Flat(rows))
    ensures r == if RowsFramable(rows) then Ok(Stream(AllFrames(rows, outputWidth, height, s))) else Err(Row)
  {
    hide Stream, Setup, Finish, RowFrames, HuffmanBuild.BuildTree, HuffmanTheorems.PageCodes, Flat, Size, Codes, Full, Covers, RowsFramable;
    PageCoversRows(rows);
    CodesOfPage(Flat(rows));
    var tree := new HuffmanCoder.Huffman(root);
    ghost var codes := tree.codes;
    var setup := AddSetup(outputWidth, height, s, root);
    if setup.Err? {
      return setup;
    }
    ghost var fs := Setup(outputWidth, height, s, root);
    var imaged := AddRows(setup.value, rows, tree, fs);
    if imaged.Err? {
      return imaged;
    }
    var out := AddFinish(imaged.value, s, fs + RowFrames(rows, codes, 1));
    return Ok(out);
  }

  method AddFinish(image: seq<byte>, s: Settings, ghost fs: seq<Frame>) returns (out: seq<byte>)
    requires image == Stream(fs)
    ensures out == Stream(fs + Finish(s))
  {
    hide Stream, ToByte;
    var ok;
    out, ok := Add(image, Frame(0x11, 5, 0x0c, []), fs);
    out, ok := Add(out, Frame(0x11, 5, 0x08, [ToByte(s.copies), 0x13, 0]), fs + [Finish(s)[0]]);
    assert fs + [Finish(s)[0]] + [Finish(s)[1]] == fs + Finish(s);
  }

  /** The row loop: every row becomes one frame behind the set-up frames fs, up to the first row that
      cannot be framed. */
  method AddRows(setup: seq<byte>, rows: seq<seq<byte>>, tree: HuffmanCoder.Huffman, ghost fs: seq<Frame>)
    returns (r: Result<seq<byte>, JobError>)
    requires tree.Valid() && setup == Stream(fs)
    requires tree.codes == Codes(tree.root, []) && forall row :: row in rows ==> Covers(tree.root, row)
    ensures r == if RowsFramable(rows) then Ok(Stream(fs + RowFrames(rows, tree.codes, 1))) else Err(Row)
  {
    hide Stream, RowFrames, RowFrame, Legal, Codes, Full, Wire, Covers;
    ghost var frames := RowFrames(rows, tree.codes, 1);
    var out := setup;
    assert fs + frames[..0] == fs;
    for i := 0 to |rows|
      invariant tree.Valid() && tree.codes == Codes(tree.root, []) && frames == RowFrames(rows, tree.codes, 1)
      invariant forall row :: row in rows ==> Covers(tree.root, row)
      invariant i <= 65535 && forall k :: 0 <= k < i ==> |rows[k]| == 199 || |rows[k]| == 208
      invariant out == Stream(fs + frames[..i])
    {
      assert rows[i] in rows;
      RowFrameAt(rows, tree.codes, 1, i);
      var x := EncodeRowFrame(i + 1, rows[i], tree);
      if i + 1 <= 65535 && (|rows[i]| == 199 || |rows[i]| == 208) {
        RowLegal(tree.root, i + 1, rows[i]);
      }
      if x.Err? {
        return x;
      }
      StreamAppend(fs + frames[..i], frames[i]);
      assert fs + frames[..i] + [frames[i]] == fs + frames[..i + 1];
      out := out + x.value;
    }
    assert frames[..|rows|] == frames;
    return Ok(out);
  }

  method Flatten(rows: seq<seq<byte>>) returns (all: seq<byte>)
    ensures all == Flat(rows)
  {
    all := [];
    for k := 0 to |rows|
      invariant all == Flat(rows[..k])
    {
      FlatAppend(rows[..k], rows[k]);
      assert rows[..k] + [rows[k]] == rows[..k + 1];
      all := all + rows[k];
    }
    assert rows[..|rows|] == rows;
  }

  lemma {:induction false} FlatAppend(rows: seq<seq<byte>>, r: seq<byte>)
    ensures Flat(rows + [r]) == Flat(rows) + r
  {
    if rows == [] {
      assert Flat([r]) == r + [];
    } else {
      assert (rows + [r])[1..] == rows[1..] + [r];
      FlatAppend(rows[1..], r);
    }
  }

  /** What encoding a raster comes to. */
  lemma RasterJob(rows: seq<seq<byte>>, width: int, s: Settings)
    requires RasterShape(rows, width)
    ensures RowsFramable(rows) && AllFrames(rows, width, |rows|, s) == JobFrames(rows, width, s)
    ensures SettingsLegal(s) ==>
              JobOfStream(Stream(JobFrames(rows, width, s))) == Ok(DecodedJob(width / 8, |rows|, s.copies, rows))
  {
    hide Stream, AllFrames, JobOfStream;
    if SettingsLegal(s) {
      JobRoundTrip(rows, width, s);
    }
  }

  /** EncodeJob succeeds exactly on legal rasters and settings, and then its stream decodes to the
      monochrome rows. */
  method EncodeJob(gray: seq<byte>, width: int, height: int, s: Settings) returns (r: Result<seq<byte>, JobError>)
    ensures r.Ok? <==>
              && width >= 1592 && 0 < height <= 65535 && |gray| == width * height
              && 1 <= s.speed <= 255 && 1 <= s.density <= 15 && 0 <= s.tracking <= 255 && 1 <= s.copies <= 255
    ensures r.Ok? ==> r.value == Stream(JobFrames(Raster.MonoRows(gray, width, height), 1592, s))
    ensures r.Ok? ==>
              JobOfStream(r.value) == Ok(DecodedJob(199, height, s.copies, Raster.MonoRows(gray, width, height)))
    ensures r.Ok? ==> JobLayout(r.value, Raster.MonoRows(gray, width, height), 1592, height, s)
  {
    hide Stream, AllFrames, JobFrames, JobOfStream, RowsFramable, JobLayout;
    var rows := Raster.Monochrome(gray, width, height);
    if rows.Err? {
      return Err(BadRaster);
    }
    RasterJob(rows.value, 1592, s);
    r := EncodeRows(rows.value, 1592, height, s);
  }

  method EncodeNativeJob(gray: seq<byte>, width: int, height: int, s: Settings) returns (r: Result<seq<byte>, JobError>)
    ensures r.Ok? <==>
              && width == 1664 && 0 < height <= 65535 && |gray| == width * height
              && 1 <= s.speed <= 255 && 1 <= s.density <= 15 && 0 <= s.tracking <= 255 && 1 <= s.copies <= 255
    ensures r.Ok? ==> r.value == Stream(JobFrames(Raster.NativeRows(gray, width, height), 1664, s))
    ensures r.Ok? ==>
              JobOfStream(r.value) == Ok(DecodedJob(208, height, s.copies, Raster.NativeRows(gray, width, height)))
    ensures r.Ok? ==> JobLayout(r.value, Raster.NativeRows(gray, width, height), 1664, height, s)
  {
    hide Stream, AllFrames, JobFrames, JobOfStream, RowsFramable, JobLayout;
    var rows := Raster.NativeMonochrome(gray, width, height);
    if rows.Err? {
      return Err(BadRaster);
    }
    RasterJob(rows.value, 1664, s);
    r := EncodeRows(rows.value, 1664, height, s);
  }

  // ----- decoding

  /** The `expect` closure: the payload of a frame with the given header and size. */
  method Expect(f: Frame, app: byte, command: byte, sub: byte, size: int) returns (ok: bool, payload: seq<byte>)
    ensures ok == IsFrame(f, app, command, sub, size) && payload == f.payload
    ensures ok && size >= 0 ==> |payload| == size
  {
    if f.app != app || f.command != command || f.sub != sub || (size >= 0 && |f.payload| != size) {
      return false, f.payload;
    }
    return true, f.payload;
  }

  /** The first three frames. */
  method DecodeSettings(fs: seq<Frame>) returns (r: Result<(), JobError>)
    requires |fs| >= 8
    ensures r == SettingsOf(fs)
  {
    hide IsFrame;
    var ok, p := Expect(fs[0], 0x11, 5, 0x11, 1);
    if !ok || p[0] > 255 {
      return Err(TrackingFrame);
    }
    ok, p := Expect(fs[1], 0x11, 5, 0x07, 1);
    if !ok || p[0] == 0 {
      return Err(SpeedFrame);
    }
    ok, p := Expect(fs[2], 0x11, 5, 0x04, 3);
    if !ok || p[0] != 3 || p[1] < 1 || p[1] > 15 || p[2] != 8 {
      return Err(DensityFrame);
    }
    return Ok(());
  }

  method DecodeJob(data: seq<byte>) returns (r: Result<DecodedJob, JobError>)
    ensures r == JobOfStream(data)
  {
    hide ReadFrames, RowsOf, TreeWire.TreeOf, GetWord;
    if |data| == 0 || |data| > 64 * 1024 * 1024 {
      return Err(StreamSize);
    }
    var decoded := DecodeFrames(data);
    if decoded.Err? {
      return Err(BadFrame(decoded.error));
    }
    var fs := decoded.value;
    if |fs| < 8 {
      return Err(FrameCount);
    }
    var settings := DecodeSettings(fs);
    if settings.Err? {
      return Err(settings.error);
    }
    var ok, p := Expect(fs[3], 0x11, 5, 0x0b, 7);
    if !ok {
      return Err(UnexpectedFrame);
    }
    var w: int, h: int := GetWord(p[0], p[1]), GetWord(p[2], p[3]);
    if (w != 1592 && w != 1664) || h <= 0 || p[4] != 0 || p[5] != 0 || p[6] != 1 {
      return Err(Geometry);
    }
    var rowBytes := w / 8;
    ok, p := Expect(fs[4], 0x11, 5, 0x0e, -1);
    if !ok {
      return Err(UnexpectedFrame);
    }
    var t := TreeWire.TreeFrom(p);
    if t.Err? {
      return Err(BadTree(t.error));
    }
    TreeWire.TreeWireExact(p, 511, t.value);
    if |fs| != h + 8 {
      return Err(FrameCount);
    }
    ok, p := Expect(fs[5], 0x10, 5, 0x0d, 12);
    if !ok {
      return Err(UnexpectedFrame);
    }
    if p != [0, 0, 8, 0, 0x11, ToByte(rowBytes), 0, 0, 0, 0, 0, 1] {
      return Err(Sentinel);
    }
    var rows := DecodeRows(fs, h, t.value, rowBytes);
    if rows.Err? {
      return Err(rows.error);
    }
    ok, p := Expect(fs[6 + h], 0x11, 5, 0x0c, 0);
    if !ok {
      return Err(UnexpectedFrame);
    }
    ok, p := Expect(fs[7 + h], 0x11, 5, 0x08, 3);
    if !ok || p[0] == 0 || p[1] != 0x13 || p[2] != 0 {
      return Err(CopiesFrame);
    }
    return Ok(DecodedJob(rowBytes, h, p[0], rows.value));
  }

  /** The row loop of DecodeJob. */
  method DecodeRows(fs: seq<Frame>, h: nat, root: Tree, rowBytes: int) returns (r: Result<seq<seq<byte>>, JobError>)
    requires |fs| == h + 8 && Full(root)
    ensures r == RowsOf(fs[6..6 + h], 1, root, rowBytes)
  {
    hide Decoded, RowHeaderOk, GetWord;
    var tree := new HuffmanCoder.Huffman(root);
    var rows: seq<seq<byte>> := [];
    ghost var all := RowsOf(fs[6..6 + h], 1, root, rowBytes);
    RowsThenNone(all);
    for i := 0 to h
      invariant tree.Valid() && tree.root == root
      invariant all == RowsThen(rows, RowsOf(fs[6 + i..6 + h], 1 + i, root, rowBytes))
    {
      ghost var rest := fs[6 + i..6 + h];
      assert rest[0] == fs[6 + i] && rest[1..] == fs[7 + i..6 + h];
      var ok, p := Expect(fs[6 + i], 0x10, 5, 0x0d, -1);
      if !ok {
        return Err(UnexpectedFrame);
      }
      HeaderChecks(p, 1 + i, rowBytes);
      if |p| < 12 || GetWord(p[0], p[1]) != i + 1 || GetWord(p[2], p[3]) != |p| - 4 || p[4] != 0x11
         || p[5] != rowBytes || p[6..11] != [0, 0, 0, 0, 0] || p[11] > 7 {
        return Err(RowHeader);
      }
      var x := tree.Decode(p[12..], p[11], rowBytes);
      if x.Err? || |x.value| != rowBytes {
        return Err(RowData);
      }
      RowsThenOne(rows, x.value, RowsOf(fs[7 + i..6 + h], 2 + i, root, rowBytes));
      rows := rows + [x.value];
    }
    assert fs[6 + h..6 + h] == [];
    assert rows + [] == rows;
    return Ok(rows);
  }

  /** What DecodeRow makes of a packet: the first frame's row, with no look at the header but its
      width and padding fields. */
  function RowOfPacket(packet: seq<byte>, root: Tree): Result<seq<byte>, JobError>
    requires root.Node?
  {
    match ReadFrames(packet)
    case Err(e) => Err(BadFrame(e))
    case Ok(fs) =>
      if fs == [] then Err(FrameCount)
      else if |fs[0].payload| < 12 then Err(RowHeader)
      else
        match Decoded(root, fs[0].payload[12..], fs[0].payload[11], fs[0].payload[5])
        case Ok(row) => Ok(row)
        case Err(_) => Err(RowData)
  }

  method DecodeRow(packet: seq<byte>, tree: HuffmanCoder.Huffman) returns (r: Result<seq<byte>, JobError>)
    requires tree.Valid()
    ensures r == RowOfPacket(packet, tree.root)
  {
    hide Decoded, ReadFrames;
    var fs := DecodeFrames(packet);
    if fs.Err? {
      return Err(BadFrame(fs.error));
    }
    if |fs.value| == 0 {
      return Err(FrameCount);
    }
    var p := fs.value[0].payload;
    if |p| < 12 {
      return Err(RowHeader);
    }
    var row := tree.Decode(p[12..], p[11], p[5]);
    match row
    case Ok(out) => return Ok(out);
    case Err(_) => return Err(RowData);
  }

  /** A single row packet decodes to its row, for every row the tree covers. */
  lemma RowPacketRoundTrip(t: Tree, index: word, row: seq<byte>)
    requires Full(t) && Covers(t, row) && (|row| == 199 || |row| == 208)
    ensures RowOfPacket(Wire(RowFrame(index, row, Codes(t, []))), t) == Ok(row)
  {
    hide Encoded, Decoded, Codes, RowPayload, Covers, Wire, ReadFrames, Legal;
    var f := RowFrame(index, row, Codes(t, []));
    RowLegal(t, index, row);
    RowRoundTrip(t, index, row);
    ReadStream([f]);
    StreamAppend([], f);
    NoStream();
    assert [] + [f] == [f] && [] + Wire(f) == Wire(f);
  }

  /** Which packets decode to a row: legal frames, the first of which has a payload whose width byte,
      padding count and bits are those of the row's codes. */
  lemma RowPacketExact(packet: seq<byte>, t: Tree, row: seq<byte>)
    requires Full(t) && NoDup(Leaves(t))
    ensures RowOfPacket(packet, t) == Ok(row) <==> exists fs :: IsPacket(packet, fs, t, row)
  {
    hide ReadFrames, Decoded, PacketRow, Stream, NoDup;
    if RowOfPacket(packet, t) == Ok(row) {
      var fs := ReadFrames(packet).value;
      FramingExact(packet, fs);
      PacketRowExact(fs[0].payload, t, row);
      assert IsPacket(packet, fs, t, row);
    }
    if fs: seq<Frame> :| IsPacket(packet, fs, t, row) {
      FramingExact(packet, fs);
      PacketRowExact(fs[0].payload, t, row);
    }
  }

  ghost predicate IsPacket(packet: seq<byte>, fs: seq<Frame>, t: Tree, row: seq<byte>)
    requires Full(t)
  {
    && packet == Stream(fs) && (forall f :: f in fs ==> |f.payload| <= 65530)
    && fs != [] && PacketRow(fs[0].payload, t, row)
  }

  ghost predicate PacketRow(p: seq<byte>, t: Tree, row: seq<byte>)
    requires Full(t)
  {
    var bits := EncodeBits(Codes(t, []), row);
    && |p| >= 12 && p[5] == |row| && p[11] < 8 && 8 * (|p| - 12) == |bits| + p[11] as int
    && (forall k :: 0 <= k < |bits| ==> (BitSet(p[12 + k / 8], 7 - k % 8) <==> bits[k]))
    && (row == [] || (!IsLeaf(t) && forall b :: b in row ==> b in Leaves(t)))
  }

  lemma PacketRowExact(p: seq<byte>, t: Tree, row: seq<byte>)
    requires Full(t) && NoDup(Leaves(t))
    ensures PacketRow(p, t, row) <==> |p| >= 12 && Decoded(t, p[12..], p[11], p[5]) == Ok(row)
  {
    hide Decoded, NoDup, EncodeBits, Codes, Leaves, BitSet, StrictDecoder.CodedBits;
    if |p| >= 12 {
      StrictDecoder.DecodedExact(t, p, row);
      if 8 * (|p| - 12) == |EncodeBits(Codes(t, []), row)| + p[11] as int {
        StrictDecoder.CodedBitsAre(p, row, Codes(t, []));
      }
    }
  }

  lemma HeaderChecks(p: seq<byte>, index: int, rowBytes: int)
    ensures RowHeaderOk(p, index, rowBytes) <==>
            !(|p| < 12 || GetWord(p[0], p[1]) != index || GetWord(p[2], p[3]) != |p| - 4 || p[4] != 0x11
              || p[5] != rowBytes || p[6..11] != [0, 0, 0, 0, 0] || p[11] > 7)
  {
  }

  type RowsResult = Result<seq<seq<byte>>, JobError>

  ghost function RowsThen(rows: seq<seq<byte>>, r: RowsResult): RowsResult
  {
    match r
    case Ok(more) => Ok(rows + more)
    case Err(e) => Err(e)
  }

  lemma RowsThenNone(r: RowsResult)
    ensures RowsThen([], r) == r
  {
    if r.Ok? {
      assert [] + r.value == r.value;
    }
  }

  lemma RowsThenOne(rows: seq<seq<byte>>, row: seq<byte>, r: RowsResult)
    ensures RowsThen(rows + [row], r) == RowsThen(rows, if r.Ok? then Ok([row] + r.value) else r)
  {
    if r.Ok? {
      assert rows + [row] + r.value == rows + ([row] + r.value);
    }
  }
}
