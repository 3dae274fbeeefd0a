/** A whole print job: the fixed frame sequence, its encoder and its strict decoder. */
module PrintJob {
  import opened Prelude
  import opened Bytes
  import opened PrefixTree
  import opened TreeWire
  import Optimality
  import opened HuffmanBuild
  import opened HuffmanTheorems
  import opened Framing

  datatype Settings = Settings(speed: int, density: int, tracking: int, copies: int)

  predicate SettingsLegal(s: Settings)
  {
    1 <= s.speed <= 255 && 1 <= s.density <= 15 && 0 <= s.tracking <= 255 && 1 <= s.copies <= 255
  }

  datatype JobError =
    | BadRaster | PrintSettings | Row | StreamSize | FrameCount | TrackingFrame | SpeedFrame | DensityFrame
    | UnexpectedFrame | Geometry | BadTree(tree: TreeError) | Sentinel | RowHeader | RowData | CopiesFrame
    | BadFrame(frame: FrameError)

  datatype DecodedJob = DecodedJob(widthBytes: int, height: int, copies: int, rows: seq<seq<byte>>)

  const LIMIT := 64 * 1024 * 1024

  /** What both rasterisers hand to the encoder. */
  predicate RasterShape(rows: seq<seq<byte>>, width: int)
  {
    && (width == 1592 || width == 1664)
    && 1 <= |rows| <= 65535
    && forall r :: r in rows ==> |r| == width / 8
  }

  /** Rows that can be framed: both head widths, and no more of them than a row number can count. */
  predicate RowsFramable(rows: seq<seq<byte>>)
  {
    |rows| <= 65535 && forall row :: row in rows ==> |row| == 199 || |row| == 208
  }

  function Flat(rows: seq<seq<byte>>): seq<byte>
  {
    if rows == [] then [] else rows[0] + Flat(rows[1..])
  }

  // ----- the frames of a job

  function StartPayload(width: int, height: int): seq<byte>
  {
    PutWord(ToWord(width)) + PutWord(ToWord(height)) + [0, 0, 1]
  }

  function SentinelPayload(rowBytes: int): seq<byte>
  {
    [0, 0, 8, 0, 0x11, ToByte(rowBytes), 0, 0, 0, 0, 0, 1]
  }

  function RowPayload(index: int, row: seq<byte>, codes: CodeMap): seq<byte>
  {
    var (packed, pad) := Encoded(codes, row);
    PutWord(ToWord(index)) + PutWord(ToWord(8 + |packed|)) + [0x11, ToByte(|row|), 0, 0, 0, 0, 0, pad] + packed
  }

  function RowFrame(index: int, row: seq<byte>, codes: CodeMap): Frame
  {
    Frame(0x10, 5, 0x0d, RowPayload(index, row, codes))
  }

  function RowFrames(rows: seq<seq<byte>>, codes: CodeMap, index: int): (fs: seq<Frame>)
    ensures |fs| == |rows|
  {
    if rows == [] then [] else [RowFrame(index, rows[0], codes)] + RowFrames(rows[1..], codes, index + 1)
  }

  function Setup(width: int, height: int, s: Settings, tree: Tree): (fs: seq<Frame>)
    ensures |fs| == 6
  {
    [Frame(0x11, 5, 0x11, [ToByte(s.tracking)]),
     Frame(0x11, 5, 0x07, [ToByte(s.speed)]),
     Frame(0x11, 5, 0x04, [3, ToByte(s.density), 8]),
     Frame(0x11, 5, 0x0b, StartPayload(width, height)),
     Frame(0x11, 5, 0x0e, Serialized(tree)),
     Frame(0x10, 5, 0x0d, SentinelPayload(width / 8))]
  }

  function Finish(s: Settings): (fs: seq<Frame>)
    ensures |fs| == 2
  {
    [Frame(0x11, 5, 0x0c, []), Frame(0x11, 5, 0x08, [ToByte(s.copies), 0x13, 0])]
  }

  /** All frames of a job, with the height as it is announced. */
  function AllFrames(rows: seq<seq<byte>>, width: int, height: int, s: Settings): seq<Frame>
  {
    Setup(width, height, s, BuildTree(Flat(rows))) + RowFrames(rows, PageCodes(Flat(rows)), 1) + Finish(s)
  }

  function JobFrames(rows: seq<seq<byte>>, width: int, s: Settings): seq<Frame>
  {
    AllFrames(rows, width, |rows|, s)
  }

  // ----- the strict decoder

  predicate IsFrame(f: Frame, app: byte, command: byte, sub: byte, size: int)
  {
    f.app == app && f.command == command && f.sub == sub && (size >= 0 ==> |f.payload| == size)
  }

  predicate RowHeaderOk(p: seq<byte>, index: int, rowBytes: int)
  {
    && |p| >= 12
    && GetWord(p[0], p[1]) == index
    && GetWord(p[2], p[3]) == |p| - 4
    && p[4] == 0x11
    && p[5] == rowBytes
    && p[6..11] == [0, 0, 0, 0, 0]
    && p[11] <= 7
  }

  function RowOf(f: Frame, index: int, tree: Tree, rowBytes: int): (r: Result<seq<byte>, JobError>)
    requires tree.Node?
    ensures r.Ok? ==> |r.value| == rowBytes
  {
    if !IsFrame(f, 0x10, 5, 0x0d, -1) then Err(UnexpectedFrame)
    else if !RowHeaderOk(f.payload, index, rowBytes) then Err(RowHeader)
    else
      match Decoded(tree, f.payload[12..], f.payload[11], rowBytes)
      case Err(_) => Err(RowData)
      case Ok(row) => Ok(row)
  }

  function RowsOf(fs: seq<Frame>, index: int, tree: Tree, rowBytes: int): (r: Result<seq<seq<byte>>, JobError>)
    requires tree.Node?
    ensures r.Ok? ==> |r.value| == |fs|
  {
    if fs == [] then Ok([])
    else
      match RowOf(fs[0], index, tree, rowBytes)
      case Err(e) => Err(e)
      case Ok(row) =>
        match RowsOf(fs[1..], index + 1, tree, rowBytes)
        case Err(e) => Err(e)
        case Ok(rows) => Ok([row] + rows)
  }

  function SettingsOf(fs: seq<Frame>): Result<(), JobError>
    requires |fs| >= 8
  {
    if !IsFrame(fs[0], 0x11, 5, 0x11, 1) then Err(TrackingFrame)
    else if !IsFrame(fs[1], 0x11, 5, 0x07, 1) || fs[1].payload[0] == 0 then Err(SpeedFrame)
    else if !IsFrame(fs[2], 0x11, 5, 0x04, 3) || fs[2].payload[0] != 3 || fs[2].payload[1] < 1
            || fs[2].payload[1] > 15 || fs[2].payload[2] != 8 then Err(DensityFrame)
    else Ok(())
  }

  function GeometryOf(f: Frame): (r: Result<(int, int), JobError>)
    ensures r.Ok? ==> (r.value.0 == 1592 || r.value.0 == 1664) && 0 < r.value.1 < 0x1_0000
  {
    if !IsFrame(f, 0x11, 5, 0x0b, 7) then Err(UnexpectedFrame)
    else
      var w, h := GetWord(f.payload[0], f.payload[1]), GetWord(f.payload[2], f.payload[3]);
      if (w != 1592 && w != 1664) || h <= 0 || f.payload[4] != 0 || f.payload[5] != 0 || f.payload[6] != 1
      then Err(Geometry) else Ok((w, h))
  }

  function CopiesOf(end: Frame, commit: Frame): Result<int, JobError>
  {
    if !IsFrame(end, 0x11, 5, 0x0c, 0) then Err(UnexpectedFrame)
    else if !IsFrame(commit, 0x11, 5, 0x08, 3) || commit.payload[0] == 0 || commit.payload[1] != 0x13
            || commit.payload[2] != 0 then Err(CopiesFrame)
    else Ok(commit.payload[0])
  }

  function TreeFrame(f: Frame): (r: Result<Tree, JobError>)
    ensures r.Ok? ==> Sendable(r.value)
  {
    if !IsFrame(f, 0x11, 5, 0x0e, -1) then Err(UnexpectedFrame)
    else
      match TreeOf(f.payload, 511)
      case Err(e) => Err(BadTree(e))
      case Ok(t) =>
        TreeWireExact(f.payload, 511, t);
        Ok(t)
  }

  function SentinelCheck(f: Frame, rowBytes: int): Result<(), JobError>
  {
    if !IsFrame(f, 0x10, 5, 0x0d, 12) then Err(UnexpectedFrame)
    else if f.payload != SentinelPayload(rowBytes) then Err(Sentinel)
    else Ok(())
  }

  /** The checks of DecodeJob on the frame list, in the order it makes them. */
  function JobOf(fs: seq<Frame>): Result<DecodedJob, JobError>
  {
    if |fs| < 8 then Err(FrameCount) else
    match SettingsOf(fs) case Err(e) => Err(e) case Ok(_) =>
    match GeometryOf(fs[3]) case Err(e) => Err(e) case Ok((w, h)) =>
    match TreeFrame(fs[4]) case Err(e) => Err(e) case Ok(tree) =>
    if |fs| != h + 8 then Err(FrameCount) else
    match SentinelCheck(fs[5], w / 8) case Err(e) => Err(e) case Ok(_) =>
    match RowsOf(fs[6..6 + h], 1, tree, w / 8) case Err(e) => Err(e) case Ok(rows) =>
    match CopiesOf(fs[6 + h], fs[7 + h]) case Err(e) => Err(e) case Ok(copies) =>
    Ok(DecodedJob(w / 8, h, copies, rows))
  }

  function JobOfStream(data: seq<byte>): Result<DecodedJob, JobError>
  {
    if |data| == 0 || |data| > LIMIT then Err(StreamSize) else
    match ReadFrames(data)
    case Err(e) => Err(BadFrame(e))
    case Ok(fs) => JobOf(fs)
  }

  // ----- one row

  /** A tree the encoder works with, and a page it has leaves for. */
  ghost predicate Covers(t: Tree, data: seq<byte>)
  {
    Sendable(t) && !IsLeaf(t) && Optimality.Height(t) <= 255 && forall b :: b in data ==> b in Leaves(t)
  }

  lemma {:induction false} CodeLengthBound(t: Tree, data: seq<byte>)
    requires Covers(t, data)
    ensures |EncodeBits(Codes(t, []), data)| <= 255 * |data|
  {
    hide Sendable, ByteLeaves, Codes, Leaves;
    if data != [] {
      assert Sendable(t) && data[0] in Leaves(t) && Optimality.Height(t) <= 255;
      assert forall b :: b in data[1..] ==> b in data;
      CodeLengthBound(t, data[1..]);
      SendableDistinct(t);
      CodeForPath(t, data[0]);
      PathWithinHeight(t, data[0]);
    }
  }

  lemma SendableDistinct(t: Tree)
    requires Sendable(t)
    ensures Full(t) && NoDup(Leaves(t))
  {
    DistinctSymbols(t);
  }

  lemma PackedSize(codes: CodeMap, data: seq<byte>)
    ensures var (packed, pad) := Encoded(codes, data);
            && pad <= 7
            && 8 * |packed| == |EncodeBits(codes, data)| + pad
  {
    hide EncodeBits, PadFor;
    PadToByte(|EncodeBits(codes, data)|);
  }

  lemma PadToByte(n: nat)
    ensures PadFor(n) <= 7 && (n + PadFor(n)) % 8 == 0
  {
  }

  /** A row of at most 208 bytes packs into at most 6630, so its frame payload is at most 6642. */
  lemma RowFits(t: Tree, row: seq<byte>)
    requires Covers(t, row) && |row| <= 208
    ensures |Encoded(Codes(t, []), row).0| <= 6630
  {
    CodeLengthBound(t, row);
    PackedSize(Codes(t, []), row);
  }

  lemma RowPayloadLayout(index: word, row: seq<byte>, codes: CodeMap)
    requires |row| < 256 && |Encoded(codes, row).0| <= 6630
    ensures var p := RowPayload(index, row, codes);
            && |p| == 12 + |Encoded(codes, row).0|
            && RowHeaderOk(p, index, |row|)
            && p[11] == Encoded(codes, row).1 && p[12..] == Encoded(codes, row).0
  {
    hide GetWord, PutWord, Encoded, ToWord, ToByte;
    var (packed, pad) := Encoded(codes, row);
    PackedSize(codes, row);
    ToWordId(index);
    ToWordId(8 + |packed|);
    assert ToByte(|row|) == |row| by { SmallByte(|row|); }
    WordRoundTrip(index, 0, 0);
    WordRoundTrip(8 + |packed|, 0, 0);
    HeaderLayout(PutWord(index), PutWord(8 + |packed|), [0x11, |row|, 0, 0, 0, 0, 0, pad], packed);
  }

  lemma SmallByte(n: int)
    requires 0 <= n < 256
    ensures ToByte(n) == n
  {
  }

  lemma HeaderLayout(a: seq<byte>, b: seq<byte>, c: seq<byte>, d: seq<byte>)
    requires |a| == 2 && |b| == 2 && |c| == 8
    ensures var p := a + b + c + d;
            && |p| == 12 + |d|
            && p[0] == a[0] && p[1] == a[1] && p[2] == b[0] && p[3] == b[1]
            && p[4] == c[0] && p[5] == c[1] && p[6..11] == c[2..7] && p[11] == c[7] && p[12..] == d
  {
  }

  lemma RowRoundTrip(t: Tree, index: word, row: seq<byte>)
    requires Full(t) && Covers(t, row) && |row| <= 208
    ensures RowOf(RowFrame(index, row, Codes(t, [])), index, t, |row|) == Ok(row)
    ensures |RowPayload(index, row, Codes(t, []))| <= 6642
  {
    hide Encoded, Decoded, Codes, RowPayload, RowHeaderOk, Sendable, Leaves;
    RowFits(t, row);
    RowPayloadLayout(index, row, Codes(t, []));
    SendableDistinct(t);
    DecodeEncode(t, row);
  }

  // ----- all rows

  ghost predicate AllCovered(t: Tree, rows: seq<seq<byte>>, rowBytes: int)
  {
    rowBytes <= 208 && forall r :: r in rows ==> |r| == rowBytes && Covers(t, r)
  }

  lemma CoveredParts(t: Tree, rows: seq<seq<byte>>, rowBytes: int)
    requires AllCovered(t, rows, rowBytes) && rows != []
    ensures |rows[0]| == rowBytes <= 208 && Covers(t, rows[0]) && AllCovered(t, rows[1..], rowBytes)
  {
    hide Covers;
    assert rows[0] in rows;
    assert forall r :: r in rows[1..] ==> r in rows;
  }

  lemma {:induction false} RowsRoundTrip(t: Tree, rows: seq<seq<byte>>, index: nat, rowBytes: int)
    requires t.Node? && AllCovered(t, rows, rowBytes) && Full(t)
    requires index + |rows| <= 0x1_0000
    ensures RowsOf(RowFrames(rows, Codes(t, []), index), index, t, rowBytes) == Ok(rows)
    ensures AllLegal(RowFrames(rows, Codes(t, []), index))
    decreases rows
  {
    hide RowOf, RowFrame, Codes, Covers, AllCovered, Legal;
    if rows != [] {
      CoveredParts(t, rows, rowBytes);
      RowLegal(t, index, rows[0]);
      RowRoundTrip(t, index, rows[0]);
      RowsRoundTrip(t, rows[1..], index + 1, rowBytes);
      var fs := RowFrames(rows, Codes(t, []), index);
      assert fs[1..] == RowFrames(rows[1..], Codes(t, []), index + 1);
      assert rows == [rows[0]] + rows[1..];
    }
  }

  lemma RowLegal(t: Tree, index: word, row: seq<byte>)
    requires Full(t) && Covers(t, row) && |row| <= 208
    ensures Legal(RowFrame(index, row, Codes(t, [])))
  {
    hide RowPayload;
    RowRoundTrip(t, index, row);
  }

  lemma {:induction false} BitsConcat(codes: CodeMap, a: seq<byte>, b: seq<byte>)
    ensures EncodeBits(codes, a + b) == EncodeBits(codes, a) + EncodeBits(codes, b)
  {
    if a == [] {
      assert a + b == b;
    } else {
      assert (a + b)[1..] == a[1..] + b;
      BitsConcat(codes, a[1..], b);
    }
  }

  /** Row frames cost 27 bytes each plus the code bits of the page rounded up per row. */
  lemma {:induction false} RowStreamSize(rows: seq<seq<byte>>, codes: CodeMap, index: int)
    ensures 8 * |Stream(RowFrames(rows, codes, index))| <= |EncodeBits(codes, Flat(rows))| + 223 * |rows|
    decreases rows
  {
    if rows != [] {
      hide EncodeBits, Wire, Encoded;
      var fs := RowFrames(rows, codes, index);
      PackedSize(codes, rows[0]);
      WireSize(fs[0]);
      assert |RowPayload(index, rows[0], codes)| == 12 + |Encoded(codes, rows[0]).0|;
      BitsConcat(codes, rows[0], Flat(rows[1..]));
      assert fs[1..] == RowFrames(rows[1..], codes, index + 1);
      RowStreamSize(rows[1..], codes, index + 1);
    }
  }

  lemma WireSize(f: Frame)
    ensures |Wire(f)| == 15 + |f.payload|
  {
  }

  lemma {:induction false} FlatSize(rows: seq<seq<byte>>, rowBytes: nat)
    requires forall r :: r in rows ==> |r| == rowBytes
    ensures |Flat(rows)| == rowBytes * |rows|
  {
    if rows != [] {
      assert rows[0] in rows;
      assert forall r :: r in rows[1..] ==> r in rows;
      FlatSize(rows[1..], rowBytes);
      OneMore(rowBytes, |rows|);
    }
  }

  lemma OneMore(a: nat, n: nat)
    requires n > 0
    ensures a * n == a + a * (n - 1)
  {
  }

  lemma {:induction false} FlatHolds(rows: seq<seq<byte>>, r: seq<byte>, b: byte)
    requires r in rows && b in r
    ensures b in Flat(rows)
  {
    if r != rows[0] {
      assert r in rows[1..];
      FlatHolds(rows[1..], r, b);
    }
  }

  // ----- the whole job

  /** The page's own tree covers every one of its rows, whatever their lengths. */
  lemma PageCoversRows(rows: seq<seq<byte>>)
    ensures var t := BuildTree(Flat(rows));
            Full(t) && Sendable(t) && Size(t) <= 511 && forall r :: r in rows ==> Covers(t, r)
  {
    hide InnerHigh, Pre, Leaves, Sendable, Size;
    var t := BuildTree(Flat(rows));
    BuiltShape(Flat(rows));
    SendableDistinct(t);
    forall r | r in rows
      ensures Covers(t, r)
    {
      forall b | b in r
        ensures b in Leaves(t)
      {
        FlatHolds(rows, r, b);
      }
    }
  }

  lemma PageCovered(rows: seq<seq<byte>>, width: int)
    requires RasterShape(rows, width)
    ensures var t := BuildTree(Flat(rows));
            Full(t) && Sendable(t) && Size(t) <= 511 && AllCovered(t, rows, width / 8)
  {
    hide Covers, Full, Sendable, Size, BuildTree, Flat;
    PageCoversRows(rows);
  }

  lemma SetupSizes(width: int, height: int, s: Settings, tree: Tree)
    requires Size(tree) <= 511
    ensures AllLegal(Setup(width, height, s, tree)) && AllLegal(Finish(s))
    ensures |Stream(Setup(width, height, s, tree))| <= 2158
    ensures |Stream(Finish(s))| == 33
  {
    hide Wire, PutWord, ToWord, ToByte, Pre, Mid, Words;
    TraversalSizes(tree);
    assert |Serialized(tree)| == 4 * Size(tree);
    var fs := Setup(width, height, s, tree);
    StreamOfSix(fs);
    StreamOfTwo(Finish(s));
  }

  lemma StreamOfTwo(fs: seq<Frame>)
    requires |fs| == 2
    ensures |Stream(fs)| == |Wire(fs[0])| + |Wire(fs[1])|
  {
    hide Wire;
    assert fs[1..][1..] == [];
    assert Stream(fs[1..]) == Wire(fs[1..][0]) + Stream([]);
    assert fs[1..][0] == fs[1];
  }

  lemma StreamOfSix(fs: seq<Frame>)
    requires |fs| == 6
    ensures |Stream(fs)| == |Wire(fs[0])| + |Wire(fs[1])| + |Wire(fs[2])| + |Wire(fs[3])| + |Wire(fs[4])| + |Wire(fs[5])|
  {
    hide Wire, Stream;
    StreamConcat(fs[..2], fs[2..]);
    StreamConcat(fs[2..4], fs[4..]);
    assert fs == fs[..2] + fs[2..] && fs[2..] == fs[2..4] + fs[4..];
    StreamOfTwo(fs[..2]);
    StreamOfTwo(fs[2..4]);
    StreamOfTwo(fs[4..]);
  }

  /** All row frames together take at most 236 bytes per row. */
  lemma RowFramesSize(rows: seq<seq<byte>>, width: int)
    requires RasterShape(rows, width)
    ensures |Stream(RowFrames(rows, PageCodes(Flat(rows)), 1))| <= 236 * |rows|
  {
    hide Stream, RowFrames, EncodeBits, PageCodes, Flat;
    RowStreamSize(rows, PageCodes(Flat(rows)), 1);
    NoExpansion(Flat(rows));
    FlatSize(rows, width / 8);
    assert (width / 8) * |rows| <= 208 * |rows|;
  }

  lemma LegalConcat(a: seq<Frame>, b: seq<Frame>)
    requires AllLegal(a) && AllLegal(b)
    ensures AllLegal(a + b)
  {
  }

  /** No job comes near the 64 MiB the decoder reads: about 15.5 million bytes at the very most. */
  lemma JobSize(rows: seq<seq<byte>>, width: int, s: Settings)
    requires RasterShape(rows, width)
    ensures 0 < |Stream(JobFrames(rows, width, s))| <= 15_468_451 < LIMIT
    ensures AllLegal(JobFrames(rows, width, s))
  {
    hide Stream, Setup, Finish, RowFrames, BuildTree, PageCodes, AllCovered, Size, AllLegal, Flat;
    var page := Flat(rows);
    var t, codes := BuildTree(page), PageCodes(page);
    var a, b, c := Setup(width, |rows|, s, t), RowFrames(rows, codes, 1), Finish(s);
    PageCovered(rows, width);
    CodesOfPage(page);
    RowsRoundTrip(t, rows, 1, width / 8);
    SetupSizes(width, |rows|, s, t);
    LegalConcat(a, b);
    LegalConcat(a + b, c);
    StreamConcat(a, b);
    StreamConcat(a + b, c);
    RowFramesSize(rows, width);
  }

  /** No frame of a job can fail to encode: the tree payload is at most 2044 bytes and each row
      payload at most 6642, far below the 65530 a frame takes, so no error that the encoder drops
      can occur. */
  lemma FrameLimits(rows: seq<seq<byte>>, width: int, s: Settings)
    requires RasterShape(rows, width)
    ensures AllLegal(JobFrames(rows, width, s))
    ensures |Serialized(BuildTree(Flat(rows)))| <= 2044
    ensures forall i: word, r :: r in rows ==> |RowPayload(i, r, PageCodes(Flat(rows)))| <= 6642
  {
    hide JobFrames, BuildTree, PageCodes, Flat, RowPayload, AllLegal, Codes, Covers, Size, Pre, Mid, Words;
    var t := BuildTree(Flat(rows));
    JobSize(rows, width, s);
    PageCovered(rows, width);
    CodesOfPage(Flat(rows));
    WordsSize(t);
    forall i: word, r | r in rows
      ensures |RowPayload(i, r, PageCodes(Flat(rows)))| <= 6642
    {
      RowRoundTrip(t, i, r);
    }
  }

  lemma WordsSize(t: Tree)
    ensures |Serialized(t)| == 4 * Size(t)
  {
    TraversalSizes(t);
  }

  /** The fixed frames read back as they were written. */
  lemma SetupReads(width: int, height: int, s: Settings, tree: Tree, fs: seq<Frame>)
    requires SettingsLegal(s) && (width == 1592 || width == 1664) && 1 <= height <= 65535
    requires Sendable(tree) && Size(tree) <= 511
    requires |fs| >= 8 && fs[..6] == Setup(width, height, s, tree)
    ensures SettingsOf(fs) == Ok(())
    ensures GeometryOf(fs[3]) == Ok((width, height))
    ensures TreeFrame(fs[4]) == Ok(tree)
    ensures SentinelCheck(fs[5], width / 8) == Ok(())
  {
    hide PutWord, GetWord, ToWord, Serialized, Sendable, Size;
    var f := Setup(width, height, s, tree);
    assert forall i :: 0 <= i < 6 ==> fs[i] == fs[..6][i];
    ToWordId(width);
    ToWordId(height);
    WordRoundTrip(width, 0, 0);
    WordRoundTrip(height, 0, 0);
    TreeWireExact(Serialized(tree), 511, tree);
    SentinelSize(width / 8);
  }

  lemma SentinelSize(rowBytes: int)
    ensures |SentinelPayload(rowBytes)| == 12
  {
  }

  lemma JobReads(rows: seq<seq<byte>>, width: int, s: Settings)
    requires RasterShape(rows, width) && SettingsLegal(s)
    ensures JobOf(JobFrames(rows, width, s)) == Ok(DecodedJob(width / 8, |rows|, s.copies, rows))
  {
    hide Setup, RowFrames, BuildTree, PageCodes, AllCovered, Size, Flat, SettingsOf, GeometryOf, TreeFrame, SentinelCheck,
      RowsOf, Sendable;
    var page := Flat(rows);
    var t, codes := BuildTree(page), PageCodes(page);
    var a, b, c := Setup(width, |rows|, s, t), RowFrames(rows, codes, 1), Finish(s);
    var fs := JobFrames(rows, width, s);
    var h := |rows|;
    PageCovered(rows, width);
    CodesOfPage(page);
    SetupReads(width, h, s, t, fs);
    RowsRoundTrip(t, rows, 1, width / 8);
    assert fs[6..6 + h] == b && fs[6 + h] == c[0] && fs[7 + h] == c[1];
    SmallByte(s.copies);
  }

  /** For every raster and all legal settings the encoded job decodes to exactly that raster, with
      the height and copy count that went in; no length wraps and no decoder limit is reached. */
  lemma JobRoundTrip(rows: seq<seq<byte>>, width: int, s: Settings)
    requires RasterShape(rows, width) && SettingsLegal(s)
    ensures JobOfStream(Stream(JobFrames(rows, width, s)))
            == Ok(DecodedJob(width / 8, |rows|, s.copies, rows))
  {
    hide Stream, JobFrames, JobOf, AllLegal;
    JobSize(rows, width, s);
    ReadStream(JobFrames(rows, width, s));
    JobReads(rows, width, s);
  }

  /** A job damaged anywhere within four consecutive bytes is rejected. */
  lemma DamagedJobRejected(rows: seq<seq<byte>>, width: int, s: Settings, e: seq<byte>, k: int)
    requires RasterShape(rows, width)
    requires Burst(Stream(JobFrames(rows, width, s)), e, k)
    ensures JobOfStream(e).Err?
  {
    hide Stream, JobFrames, JobOf, AllLegal;
    JobSize(rows, width, s);
    BurstDetected(JobFrames(rows, width, s), e, k);
  }

  lemma CodesOfPage(data: seq<byte>)
    ensures Full(BuildTree(data)) && PageCodes(data) == Codes(BuildTree(data), [])
  {
    BuiltShape(data);
  }
}
