/**
  The reference application's own decoder of the same stream. It looks its set-up frames up by
  subcommand, keeps every row-class frame, checks fewer header fields and has no size limits.
  Its frame loop makes the same checks in the same order as the appliance's, so both share
  `ReadFrames`.
 */
module SwiftDecoder {
  import opened Prelude
  import opened Bytes
  import opened PrefixTree
  import opened TreeWire
  import opened Framing
  import opened PrintJob
  import StrictDecoder

  datatype SwiftError = Frames | MissingSetup | SwiftGeometry | SwiftTree | RowCount | SwiftRowHeader | SwiftRowData

  datatype SwiftJob = SwiftJob(widthBytes: int, height: int, rows: seq<seq<byte>>)

  datatype Found = Missing | Found(frame: Frame)

  /** `first(where:)` on the subcommand. */
  function First(fs: seq<Frame>, sub: byte): Found
  {
    if fs == [] then Missing else if fs[0].sub == sub then Found(fs[0]) else First(fs[1..], sub)
  }

  predicate RowClass(f: Frame) { f.app == 0x10 && f.sub == 0x0d }

  /** `filter` on the row class. */
  function RowClassFrames(fs: seq<Frame>): seq<Frame>
  {
    if fs == [] then []
    else (if RowClass(fs[0]) then [fs[0]] else []) + RowClassFrames(fs[1..])
  }

  /** `decode` answers every failure with empty data. */
  function LaxDecode(tree: Tree, data: seq<byte>, pad: byte, count: int): seq<byte>
    requires tree.Node?
  {
    match Decoded(tree, data, pad, count)
    case Ok(out) => out
    case Err(_) => []
  }

  function SwiftRow(f: Frame, tree: Tree, rowBytes: int): Result<seq<byte>, SwiftError>
    requires tree.Node?
  {
    var p := f.payload;
    if |p| < 12 || p[5] != rowBytes then Err(SwiftRowHeader)
    else
      var row := LaxDecode(tree, p[12..], p[11], p[5]);
      if |row| != rowBytes then Err(SwiftRowData) else Ok(row)
  }

  function SwiftRows(fs: seq<Frame>, tree: Tree, rowBytes: int): Result<seq<seq<byte>>, SwiftError>
    requires tree.Node?
  {
    if fs == [] then Ok([])
    else
      match SwiftRow(fs[0], tree, rowBytes)
      case Err(e) => Err(e)
      case Ok(row) =>
        match SwiftRows(fs[1..], tree, rowBytes)
        case Err(e) => Err(e)
        case Ok(rows) => Ok([row] + rows)
  }

  function SwiftTreeOf(data: seq<byte>): (r: Result<Tree, SwiftError>)
    ensures r.Ok? ==> r.value.Node?
  {
    match TreeOf(data, |data|)
    case Err(_) => Err(SwiftTree)
    case Ok(t) =>
      TreeWireExact(data, |data|, t);
      SendableIsNode(t);
      Ok(t)
  }

  function SwiftJobOf(fs: seq<Frame>): Result<SwiftJob, SwiftError>
  {
    var start, tf := First(fs, 0x0b), First(fs, 0x0e);
    if start.Missing? || |start.frame.payload| < 4 || tf.Missing? then Err(MissingSetup) else
    var p := start.frame.payload;
    var w, h := GetWord(p[0], p[1]), GetWord(p[2], p[3]);
    if w != 1592 || h <= 0 then Err(SwiftGeometry) else
    match SwiftTreeOf(tf.frame.payload) case Err(e) => Err(e) case Ok(tree) =>
    var rfs := RowClassFrames(fs);
    var body := if rfs == [] then [] else rfs[1..];
    if |body| != h then Err(RowCount) else
    match SwiftRows(body, tree, w / 8) case Err(e) => Err(e) case Ok(rows) =>
    Ok(SwiftJob(w / 8, h, rows))
  }

  function SwiftJobOfStream(data: seq<byte>): Result<SwiftJob, SwiftError>
  {
    match ReadFrames(data)
    case Err(_) => Err(Frames)
    case Ok(fs) => SwiftJobOf(fs)
  }

  // ----- agreement

  lemma {:induction false} RowsAgree(fs: seq<Frame>, index: int, tree: Tree, rowBytes: int)
    requires tree.Node? && RowsOf(fs, index, tree, rowBytes).Ok?
    ensures SwiftRows(fs, tree, rowBytes) == Ok(RowsOf(fs, index, tree, rowBytes).value)
    ensures RowClassFrames(fs) == fs
    decreases fs
  {
    hide Decoded;
    if fs != [] {
      RowsAgree(fs[1..], index + 1, tree, rowBytes);
      assert fs == [fs[0]] + fs[1..];
    }
  }

  lemma {:induction false} FilterConcat(a: seq<Frame>, b: seq<Frame>)
    ensures RowClassFrames(a + b) == RowClassFrames(a) + RowClassFrames(b)
  {
    hide RowClass;
    if a == [] {
      assert a + b == b;
    } else {
      assert (a + b)[1..] == a[1..] + b && (a + b)[0] == a[0];
      FilterConcat(a[1..], b);
      var head := if RowClass(a[0]) then [a[0]] else [];
      assert head + (RowClassFrames(a[1..]) + RowClassFrames(b)) == head + RowClassFrames(a[1..]) + RowClassFrames(b);
    }
  }

  lemma {:induction false} FilterNone(fs: seq<Frame>)
    requires forall f :: f in fs ==> !RowClass(f)
    ensures RowClassFrames(fs) == []
  {
    if fs != [] {
      assert fs[0] in fs;
      FilterNone(fs[1..]);
    }
  }

  lemma {:induction false} FirstAt(fs: seq<Frame>, sub: byte, i: nat)
    requires i < |fs| && fs[i].sub == sub && forall k :: 0 <= k < i ==> fs[k].sub != sub
    ensures First(fs, sub) == Found(fs[i])
  {
    if i > 0 {
      FirstAt(fs[1..], sub, i - 1);
    }
  }

  /** The frames of an accepted job: six set-up frames, h rows, then `end`, commit and whatever else. */
  lemma AcceptedFilter(fs: seq<Frame>, h: nat, tree: Tree, tail: seq<Frame>)
    requires |fs| == h + 8 && tree.Node?
    requires SettingsOf(fs).Ok? && GeometryOf(fs[3]).Ok? && TreeFrame(fs[4]).Ok? && SentinelCheck(fs[5], 199).Ok?
    requires RowsOf(fs[6..6 + h], 1, tree, 199).Ok? && CopiesOf(fs[6 + h], fs[7 + h]).Ok?
    requires forall f :: f in tail ==> !RowClass(f)
    ensures RowClassFrames(fs + tail) == [fs[5]] + fs[6..6 + h]
  {
    hide RowsOf, SettingsOf, GeometryOf, TreeFrame, SentinelCheck, CopiesOf, RowClass, RowClassFrames;
    FixedClasses(fs, h);
    FilterNone(fs[..5]);
    RowsAgree(fs[6..6 + h], 1, tree, 199);
    FilterNone(fs[6 + h..]);
    FilterNone(tail);
    FilterOne(fs[5]);
    var head := fs[..5] + [fs[5]];
    FilterConcat(fs[..5], [fs[5]]);
    FilterConcat(head, fs[6..6 + h]);
    FilterConcat(head + fs[6..6 + h], fs[6 + h..]);
    assert fs == head + fs[6..6 + h] + fs[6 + h..];
    FilterConcat(fs, tail);
  }

  lemma FilterOne(f: Frame)
    requires RowClass(f)
    ensures RowClassFrames([f]) == [f]
  {
    assert [f][1..] == [];
  }

  /** Of the fixed frames only the sentinel is of the row class. */
  lemma FixedClasses(fs: seq<Frame>, h: nat)
    requires |fs| == h + 8
    requires SettingsOf(fs).Ok? && GeometryOf(fs[3]).Ok? && TreeFrame(fs[4]).Ok? && SentinelCheck(fs[5], 199).Ok?
    requires CopiesOf(fs[6 + h], fs[7 + h]).Ok?
    ensures RowClass(fs[5])
    ensures forall f :: f in fs[..5] || f in fs[6 + h..] ==> !RowClass(f)
  {
    hide TreeOf, GetWord, Sendable;
    assert fs[..5] == [fs[0], fs[1], fs[2], fs[3], fs[4]];
    assert fs[6 + h..] == [fs[6 + h], fs[7 + h]];
  }

  /** What the strict decoder accepts at width 1592 the lax one accepts with the same rows, even
      with further frames behind it as long as none is of the row class. */
  lemma AcceptedByBoth(fs: seq<Frame>, tail: seq<Frame>)
    requires JobOf(fs).Ok? && JobOf(fs).value.widthBytes == 199
    requires forall f :: f in tail ==> !RowClass(f)
    ensures var job := JobOf(fs).value;
            SwiftJobOf(fs + tail) == Ok(SwiftJob(199, job.height, job.rows))
  {
    hide Decoded, TreeOf, RowsOf, RowClassFrames, SwiftRows, GetWord, Sendable, First;
    var job := JobOf(fs).value;
    var h := job.height;
    var tree := TreeFrame(fs[4]).value;
    SendableIsNode(tree);
    AcceptedFilter(fs, h, tree, tail);
    RowsAgree(fs[6..6 + h], 1, tree, 199);
    FirstAt(fs + tail, 0x0b, 3);
    FirstAt(fs + tail, 0x0e, 4);
    var payload := fs[4].payload;
    TreeWireExact(payload, 511, tree);
    TreeWireExact(payload, |payload|, tree);
    NodesWithinBytes(payload, tree);
    assert ([fs[5]] + fs[6..6 + h])[1..] == fs[6..6 + h];
  }

  lemma NodesWithinBytes(payload: seq<byte>, tree: Tree)
    requires payload == Serialized(tree)
    ensures Size(tree) <= |payload|
  {
    TraversalSizes(tree);
  }

  lemma DecodersAgree(data: seq<byte>)
    requires JobOfStream(data).Ok? && JobOfStream(data).value.widthBytes == 199
    ensures var job := JobOfStream(data).value;
            SwiftJobOfStream(data) == Ok(SwiftJob(199, job.height, job.rows))
  {
    hide JobOf, SwiftJobOf, ReadFrames;
    var fs := ReadFrames(data).value;
    AcceptedByBoth(fs, []);
    assert fs + [] == fs;
  }

  /** The lax decoder is strictly laxer: any accepted 1592-dot stream followed by one more legal
      frame outside the row class keeps its rows there and is rejected by the strict decoder. */
  lemma ExtraFrameTellsApart(data: seq<byte>, extra: Frame)
    requires JobOfStream(data).Ok? && JobOfStream(data).value.widthBytes == 199
    requires Legal(extra) && !RowClass(extra)
    ensures var job := JobOfStream(data).value;
            && SwiftJobOfStream(data + Wire(extra)) == Ok(SwiftJob(199, job.height, job.rows))
            && JobOfStream(data + Wire(extra)).Err?
  {
    hide SwiftJobOf, ReadFrames, Wire, Stream, Legal, RowClass, RowsOf, TreeFrame, GeometryOf, SettingsOf, SentinelCheck, CopiesOf;
    var fs := ReadFrames(data).value;
    FramingExact(data, fs);
    StreamConcat(fs, [extra]);
    assert Stream([extra]) == Wire(extra) by { OneFrame(extra); }
    FramingExact(data + Wire(extra), fs + [extra]);
    AcceptedByBoth(fs, [extra]);
    SameSettings(fs, extra);
  }

  lemma OneFrame(f: Frame)
    ensures Stream([f]) == Wire(f)
  {
    hide Wire;
    assert [f][1..] == [];
    assert Wire(f) + [] == Wire(f);
  }

  lemma SameSettings(fs: seq<Frame>, extra: Frame)
    requires |fs| >= 8
    ensures SettingsOf(fs + [extra]) == SettingsOf(fs)
    ensures (fs + [extra])[3] == fs[3] && (fs + [extra])[4] == fs[4]
  {
  }

  // ----- exactly what the lax decoder accepts

  /** Frame i is the first with this subcommand. */
  ghost predicate FirstWith(fs: seq<Frame>, sub: int, i: nat)
  {
    i < |fs| && fs[i].sub == sub && forall k :: 0 <= k < i ==> fs[k].sub != sub
  }

  lemma {:induction false} FindFirst(fs: seq<Frame>, sub: byte) returns (i: nat)
    requires First(fs, sub).Found?
    ensures FirstWith(fs, sub, i) && First(fs, sub) == Found(fs[i])
  {
    if fs[0].sub == sub {
      i := 0;
    } else {
      var k := FindFirst(fs[1..], sub);
      i := k + 1;
    }
  }

  /** A frame with a row in it, whatever its number and length field say: the width byte, the padding
      count and the code bits are all that is looked at. */
  ghost predicate LaxRow(p: seq<byte>, tree: Tree, row: seq<byte>)
    requires Full(tree)
  {
    var bits := EncodeBits(Codes(tree, []), row);
    && |p| >= 12 && p[5] == 199 && |row| == 199 && p[11] < 8 && 8 * (|p| - 12) == |bits| + p[11] as int
    && (forall k :: 0 <= k < |bits| ==> (BitSet(p[12 + k / 8], 7 - k % 8) <==> bits[k]))
    && !IsLeaf(tree) && forall b :: b in row ==> b in Leaves(tree)
  }

  lemma LaxRowExact(f: Frame, tree: Tree, row: seq<byte>)
    requires Full(tree) && NoDup(Leaves(tree))
    ensures SwiftRow(f, tree, 199) == Ok(row) <==> LaxRow(f.payload, tree, row)
  {
    hide Decoded, NoDup, EncodeBits, Codes, Leaves, BitSet, StrictDecoder.CodedBits;
    var p := f.payload;
    if |p| >= 12 {
      StrictDecoder.DecodedExact(tree, p, row);
      if 8 * (|p| - 12) == |EncodeBits(Codes(tree, []), row)| + p[11] as int {
        StrictDecoder.CodedBitsAre(p, row, Codes(tree, []));
      }
    }
  }

  ghost predicate LaxRows(fs: seq<Frame>, tree: Tree, rows: seq<seq<byte>>)
    requires Full(tree)
  {
    |fs| == |rows| && forall n :: 0 <= n < |fs| ==> LaxRow(fs[n].payload, tree, rows[n])
  }

  lemma {:induction false} LaxRowsExact(fs: seq<Frame>, tree: Tree, rows: seq<seq<byte>>)
    requires Full(tree) && NoDup(Leaves(tree))
    ensures SwiftRows(fs, tree, 199) == Ok(rows) <==> LaxRows(fs, tree, rows)
    decreases fs
  {
    hide SwiftRow, LaxRow, NoDup;
    if fs != [] && rows != [] {
      LaxRowExact(fs[0], tree, rows[0]);
      LaxRowsExact(fs[1..], tree, rows[1..]);
      assert rows == [rows[0]] + rows[1..];
      LaxParts(fs, tree, rows);
    } else if fs == [] {
      assert SwiftRows(fs, tree, 199) == Ok([]);
    }
  }

  lemma LaxParts(fs: seq<Frame>, tree: Tree, rows: seq<seq<byte>>)
    requires Full(tree) && fs != [] && rows != []
    ensures LaxRows(fs, tree, rows) <==> LaxRow(fs[0].payload, tree, rows[0]) && LaxRows(fs[1..], tree, rows[1..])
  {
    hide LaxRow;
    if LaxRow(fs[0].payload, tree, rows[0]) && LaxRows(fs[1..], tree, rows[1..]) {
      forall n | 0 <= n < |fs|
        ensures LaxRow(fs[n].payload, tree, rows[n])
      {
        assert n > 0 ==> LaxRow(fs[1..][n - 1].payload, tree, rows[1..][n - 1]);
      }
    }
    if LaxRows(fs, tree, rows) {
      forall n | 0 <= n < |fs[1..]|
        ensures LaxRow(fs[1..][n].payload, tree, rows[1..][n])
      {
        assert LaxRow(fs[n + 1].payload, tree, rows[n + 1]);
      }
    }
  }

  /** The frames of class 0x10 and subcommand 0x0d, in order. */
  lemma FilterSteps(f: Frame, rest: seq<Frame>)
    ensures RowClassFrames([]) == []
    ensures RowClassFrames([f] + rest) == (if f.app == 0x10 && f.sub == 0x0d then [f] else []) + RowClassFrames(rest)
  {
    assert ([f] + rest)[1..] == rest;
  }

  /** Legal frames with a start and a tree frame found by subcommand, and row-class frames of which all
      but the first carry the rows. */
  ghost predicate IsLaxStream(data: seq<byte>, job: SwiftJob, fs: seq<Frame>, i: nat, j: nat, tree: Tree)
  {
    && data == Stream(fs) && (forall f :: f in fs ==> |f.payload| <= 65530)
    && FirstWith(fs, 0x0b, i) && FirstWith(fs, 0x0e, j)
    && (var p := fs[i].payload;
        |p| >= 4 && p[0] as int + 256 * p[1] as int == 1592 && p[2] as int + 256 * p[3] as int == job.height)
    && job.height > 0 && job.widthBytes == 199
    && Sendable(tree) && fs[j].payload == Serialized(tree)
    && |RowClassFrames(fs)| == job.height + 1
    && LaxRows(RowClassFrames(fs)[1..], tree, job.rows)
  }

  /** The lax decoder reads a stream as a job exactly when it is such a stream of that job. */
  lemma LaxAcceptance(data: seq<byte>, job: SwiftJob)
    ensures SwiftJobOfStream(data) == Ok(job) <==> exists fs, i, j, tree :: IsLaxStream(data, job, fs, i, j, tree)
  {
    hide SwiftJobOf, IsLaxStream, ReadFrames;
    if SwiftJobOfStream(data) == Ok(job) {
      var fs := ReadFrames(data).value;
      FramingExact(data, fs);
      var i, j, tree := LaxAccepted(data, fs);
    }
    if fs, i, j, tree :| IsLaxStream(data, job, fs, i, j, tree) {
      LaxIsAccepted(data, job, fs, i, j, tree);
    }
  }

  lemma LaxTree(payload: seq<byte>, tree: Tree)
    ensures SwiftTreeOf(payload) == Ok(tree) <==> Sendable(tree) && payload == Serialized(tree)
  {
    hide TreeOf, Sendable;
    TreeWireExact(payload, |payload|, tree);
    if payload == Serialized(tree) {
      NodesWithinBytes(payload, tree);
    }
  }

  lemma LaxAccepted(data: seq<byte>, fs: seq<Frame>) returns (i: nat, j: nat, tree: Tree)
    requires SwiftJobOf(fs).Ok? && data == Stream(fs) && AllLegal(fs)
    ensures IsLaxStream(data, SwiftJobOf(fs).value, fs, i, j, tree)
  {
    hide First, SwiftTreeOf, SwiftRows, LaxRows, RowClassFrames, Sendable, Stream, Serialized, FirstWith;
    i := FindFirst(fs, 0x0b);
    j := FindFirst(fs, 0x0e);
    tree := SwiftTreeOf(fs[j].payload).value;
    LaxTree(fs[j].payload, tree);
    SendableDistinct(tree);
    LaxRowsExact(RowClassFrames(fs)[1..], tree, SwiftJobOf(fs).value.rows);
  }

  lemma LaxIsAccepted(data: seq<byte>, job: SwiftJob, fs: seq<Frame>, i: nat, j: nat, tree: Tree)
    requires IsLaxStream(data, job, fs, i, j, tree)
    ensures SwiftJobOfStream(data) == Ok(job)
  {
    hide First, SwiftTreeOf, SwiftRows, LaxRows, RowClassFrames, Sendable, Stream, Serialized, ReadFrames;
    FramingExact(data, fs);
    FirstAt(fs, 0x0b, i);
    FirstAt(fs, 0x0e, j);
    LaxTree(fs[j].payload, tree);
    SendableDistinct(tree);
    LaxRowsExact(RowClassFrames(fs)[1..], tree, job.rows);
  }
}
