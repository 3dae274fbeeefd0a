/** Length-prefixed, checksummed frames: the outer layer of a print job. */
module Framing {
  import opened Prelude
  import opened Bytes
  import opened Crc

  datatype Frame = Frame(app: byte, command: byte, sub: byte, payload: seq<byte>)

  datatype FrameError = PayloadTooLarge | SyncType | ShortBody | Truncated | BadCrc | BadLength

  const SYNC: seq<byte> := [0xa3, 0x1e, 0x1c, 0]

  predicate Legal(f: Frame) { |f.payload| <= 65530 }

  function Body(f: Frame): (b: seq<byte>)
    ensures |b| == 5 + |f.payload|
  {
    [f.app, f.command, f.sub] + PutWord(ToWord(|f.payload|)) + f.payload
  }

  /** The bytes that EncodeFrame lays out; the length fields are Go's truncating uint16 stores. */
  function Wire(f: Frame): (w: seq<byte>)
    ensures |w| == 15 + |f.payload|
  {
    SYNC + PutWord(ToWord(|Body(f)|)) + Body(f) + PutRegister(Sum(Body(f)))
  }

  /** The bytes of a frame, as numbers: sync, body length, class, command, subcommand, payload length,
      payload, and the checksum of everything between sync and checksum; all numbers low byte first. */
  ghost predicate FrameLayout(out: seq<byte>, f: Frame)
  {
    var n := |f.payload|;
    && |out| == n + 15
    && out[0] == 0xa3 && out[1] == 0x1e && out[2] == 0x1c && out[3] == 0
    && out[4] as int + 256 * out[5] as int == n + 5
    && out[6] == f.app && out[7] == f.command && out[8] == f.sub
    && out[9] as int + 256 * out[10] as int == n
    && out[11..n + 11] == f.payload
    && out[n + 11] as int + 0x100 * out[n + 12] as int + 0x1_0000 * out[n + 13] as int + 0x100_0000 * out[n + 14] as int
       == Value(Sum(out[6..n + 11]))
  }

  lemma FrameBytes(f: Frame)
    requires |f.payload| <= 65530
    ensures FrameLayout(Wire(f), f)
  {
    hide Sum, PutRegister, Value;
    var n, body, w := |f.payload|, Body(f), Wire(f);
    var tail := PutRegister(Sum(body));
    StoredValue(Sum(body));
    assert w == SYNC + PutWord(ToWord(n + 5)) + body + tail;
    assert w[6..n + 11] == body && w[n + 11..] == tail;
    assert w[n + 11] == tail[0] && w[n + 12] == tail[1] && w[n + 13] == tail[2] && w[n + 14] == tail[3];
    assert w[6] == body[0] && w[7] == body[1] && w[8] == body[2] && w[9] == body[3] && w[10] == body[4];
    assert w[11..n + 11] == body[5..] == f.payload;
  }

  method EncodeFrame(f: Frame) returns (r: Result<seq<byte>, FrameError>)
    ensures r == if Legal(f) then Ok(Wire(f)) else Err(PayloadTooLarge)
    ensures r.Ok? <==> |f.payload| <= 65530
    ensures r.Ok? ==> FrameLayout(r.value, f)
  {
    if |f.payload| > 65530 {
      return Err(PayloadTooLarge);
    }
    var body := [f.app, f.command, f.sub] + PutWord(ToWord(|f.payload|)) + f.payload;
    var out := [0xa3, 0x1e, 0x1c, 0] + PutWord(ToWord(|body|)) + body;
    var sum := Checksum(body);
    FrameBytes(f);
    return Ok(out + PutRegister(sum));
  }

  function Stream(fs: seq<Frame>): seq<byte>
  {
    if fs == [] then [] else Wire(fs[0]) + Stream(fs[1..])
  }

  predicate AllLegal(fs: seq<Frame>) { forall f :: f in fs ==> Legal(f) }

  /** The checks made on one frame's body and stored checksum once they are cut out. */
  function Unwrap(body: seq<byte>, tail: seq<byte>): Result<Frame, FrameError>
    requires |body| >= 5 && |tail| == 4
  {
    if Sum(body) != GetRegister(tail) then Err(BadCrc) else
    if GetWord(body[3], body[4]) != |body| - 5 then Err(BadLength) else
    Ok(Frame(body[0], body[1], body[2], body[5..]))
  }

  /** What the decoder reads from the head of the remaining bytes: one frame and its wire size. */
  function ReadFrame(d: seq<byte>): (r: Result<(Frame, nat), FrameError>)
    ensures r.Ok? ==> 15 <= r.value.1 <= |d|
  {
    if |d| < 15 || d[..4] != SYNC then Err(SyncType) else
    var n: int := GetWord(d[4], d[5]);
    if n < 5 then Err(ShortBody) else
    if n + 10 > |d| then Err(Truncated) else
    match Unwrap(d[6..6 + n], d[n + 6..n + 10])
    case Ok(f) => Ok((f, n + 10))
    case Err(e) => Err(e)
  }

  function ReadFrames(d: seq<byte>): Result<seq<Frame>, FrameError>
  {
    if d == [] then Ok([]) else
    match ReadFrame(d)
    case Err(e) => Err(e)
    case Ok((f, n)) => Prepend(f, ReadFrames(d[n..]))
  }

  function Prepend(f: Frame, r: Result<seq<Frame>, FrameError>): Result<seq<Frame>, FrameError>
  {
    match r
    case Ok(fs) => Ok([f] + fs)
    case Err(e) => Err(e)
  }

  function PrependAll(fs: seq<Frame>, r: Result<seq<Frame>, FrameError>): Result<seq<Frame>, FrameError>
  {
    match r
    case Ok(gs) => Ok(fs + gs)
    case Err(e) => Err(e)
  }

  predicate BadSync(data: seq<byte>, i: nat)
    requires i < |data|
  {
    i + 15 > |data| || data[i] != 0xa3 || data[i + 1] != 0x1e || data[i + 2] != 0x1c || data[i + 3] != 0
  }

  method DecodeFrames(data: seq<byte>) returns (r: Result<seq<Frame>, FrameError>)
    ensures r == ReadFrames(data)
  {
    hide Sum, GetRegister, GetWord, ReadFrame;
    var out: seq<Frame> := [];
    var i := 0;
    assert data[0..] == data;
    PrependNone(ReadFrames(data));
    while i < |data|
      invariant 0 <= i <= |data|
      invariant ReadFrames(data) == PrependAll(out, ReadFrames(data[i..]))
    {
      ReadFrameAt(data, i);
      if i + 15 > |data| || data[i] != 0xa3 || data[i + 1] != 0x1e || data[i + 2] != 0x1c || data[i + 3] != 0 {
        return Err(SyncType);
      }
      var n: int := GetWord(data[i + 4], data[i + 5]);
      if n < 5 {
        return Err(ShortBody);
      }
      var end := i + 6 + n + 4;
      if end > |data| {
        return Err(Truncated);
      }
      var body := data[i + 6..i + 6 + n];
      var sum := Checksum(body);
      if sum != GetRegister(data[end - 4..end]) {
        return Err(BadCrc);
      }
      var plen := GetWord(body[3], body[4]);
      if plen != |body| - 5 {
        return Err(BadLength);
      }
      var f := Frame(body[0], body[1], body[2], body[5..]);
      assert data[i..][end - i..] == data[end..];
      AppendStep(out, f, ReadFrames(data[end..]));
      out := out + [f];
      i := end;
    }
    assert data[i..] == [];
    assert out + [] == out;
    return Ok(out);
  }

  /** Reading at index i of the whole buffer, as the loop does, is reading the head of the rest. */
  lemma ReadFrameAt(data: seq<byte>, i: nat)
    requires i < |data|
    ensures BadSync(data, i) ==> ReadFrame(data[i..]) == Err(SyncType)
    ensures !BadSync(data, i) ==>
              var n: int := GetWord(data[i + 4], data[i + 5]);
              ReadFrame(data[i..]) ==
              if n < 5 then Err(ShortBody) else if i + n + 10 > |data| then Err(Truncated) else
              match Unwrap(data[i + 6..i + 6 + n], data[i + n + 6..i + n + 10])
              case Ok(f) => Ok((f, n + 10))
              case Err(e) => Err(e)
  {
    hide Unwrap, GetWord;
    var d := data[i..];
    if BadSync(data, i) {
      assert |d| < 15 || d[..4][0] != 0xa3 || d[..4][1] != 0x1e || d[..4][2] != 0x1c || d[..4][3] != 0;
    } else {
      assert d[..4] == SYNC;
      var n: int := GetWord(data[i + 4], data[i + 5]);
      if n >= 5 && i + n + 10 <= |data| {
        assert d[6..6 + n] == data[i + 6..i + 6 + n] && d[n + 6..n + 10] == data[i + n + 6..i + n + 10];
      }
    }
  }

  lemma PrependNone(r: Result<seq<Frame>, FrameError>)
    ensures PrependAll([], r) == r
  {
    if r.Ok? {
      assert [] + r.value == r.value;
    }
  }

  lemma AppendStep(out: seq<Frame>, f: Frame, r: Result<seq<Frame>, FrameError>)
    ensures PrependAll(out, Prepend(f, r)) == PrependAll(out + [f], r)
  {
    if r.Ok? {
      assert out + ([f] + r.value) == out + [f] + r.value;
    }
  }

  // ----- framing is exact

  lemma ToWordId(n: int)
    requires 0 <= n < 0x1_0000
    ensures ToWord(n) == n
  {
  }

  lemma Layout(head: seq<byte>, len: seq<byte>, body: seq<byte>, tail: seq<byte>, rest: seq<byte>)
    requires |head| == 4 && |len| == 2 && |tail| == 4
    ensures var d := head + len + body + tail + rest; var n := |body|;
            && d[..4] == head && d[4] == len[0] && d[5] == len[1]
            && d[6..6 + n] == body && d[6 + n..10 + n] == tail && d[10 + n..] == rest
  {
  }

  lemma BodyParts(head: seq<byte>, len: seq<byte>, payload: seq<byte>)
    requires |head| == 3 && |len| == 2
    ensures var b := head + len + payload;
            && b[0] == head[0] && b[1] == head[1] && b[2] == head[2]
            && b[3] == len[0] && b[4] == len[1] && b[5..] == payload
  {
  }

  lemma BodyLayout(f: Frame)
    requires Legal(f)
    ensures var b := Body(f);
            && b[0] == f.app && b[1] == f.command && b[2] == f.sub
            && GetWord(b[3], b[4]) == |f.payload| && b[5..] == f.payload
  {
    hide PutWord, GetWord, ToWord;
    var len := PutWord(ToWord(|f.payload|));
    ToWordId(|f.payload|);
    BodyParts([f.app, f.command, f.sub], len, f.payload);
    WordRoundTrip(|f.payload|, 0, 0);
  }

  lemma BodyFromBytes(b: seq<byte>)
    requires 5 <= |b| <= 65535 && GetWord(b[3], b[4]) == |b| - 5
    ensures Body(Frame(b[0], b[1], b[2], b[5..])) == b
  {
    hide PutWord, GetWord, ToWord;
    WordRoundTrip(0, b[3], b[4]);
    ToWordId(|b| - 5);
    assert b == [b[0], b[1], b[2]] + [b[3], b[4]] + b[5..];
  }

  lemma UnwrapBody(f: Frame)
    requires Legal(f)
    ensures Unwrap(Body(f), PutRegister(Sum(Body(f)))) == Ok(f)
  {
    GetPut(Sum(Body(f)));
    BodyLayout(f);
  }

  lemma ReadParts(head: seq<byte>, len: seq<byte>, body: seq<byte>, tail: seq<byte>, rest: seq<byte>)
    requires head == SYNC && 5 <= |body| < 0x1_0000 && len == PutWord(|body|) && |tail| == 4
    requires Unwrap(body, tail).Ok?
    ensures ReadFrame(head + len + body + tail + rest) == Ok((Unwrap(body, tail).value, |body| + 10))
  {
    Layout(head, len, body, tail, rest);
    WordRoundTrip(|body|, 0, 0);
  }

  lemma ReadWire(f: Frame, rest: seq<byte>)
    requires Legal(f)
    ensures ReadFrame(Wire(f) + rest) == Ok((f, |Wire(f)|))
  {
    hide Unwrap, ReadFrame, Sum, PutRegister, PutWord, Body, ToWord;
    var body := Body(f);
    ToWordId(|body|);
    UnwrapBody(f);
    ReadParts(SYNC, PutWord(|body|), body, PutRegister(Sum(body)), rest);
  }

  lemma UnwrapExact(body: seq<byte>, tail: seq<byte>)
    requires 5 <= |body| < 0x1_0000 && |tail| == 4 && Unwrap(body, tail).Ok?
    ensures Body(Unwrap(body, tail).value) == body
    ensures PutRegister(Sum(body)) == tail
  {
    hide PutWord, Sum, ToWord;
    BodyFromBytes(body);
    PutGet(tail);
  }

  lemma Assemble(d: seq<byte>, n: nat)
    requires |d| >= n + 10
    ensures d[..n + 10] == d[..4] + [d[4], d[5]] + d[6..6 + n] + d[n + 6..n + 10]
  {
  }

  lemma ReadFrameExact(d: seq<byte>)
    requires ReadFrame(d).Ok?
    ensures Legal(ReadFrame(d).value.0)
    ensures d[..ReadFrame(d).value.1] == Wire(ReadFrame(d).value.0)
  {
    hide Unwrap, Sum, PutRegister, PutWord, GetWord, Body, ToWord;
    var n := GetWord(d[4], d[5]);
    var body, tail := d[6..6 + n], d[n + 6..n + 10];
    WordRoundTrip(0, d[4], d[5]);
    ToWordId(n);
    UnwrapExact(body, tail);
    Assemble(d, n);
  }

  lemma FrameThenList(f: Frame, w: seq<byte>, rest: seq<byte>)
    requires w != [] && ReadFrame(w + rest) == Ok((f, |w|))
    ensures ReadFrames(w + rest) == Prepend(f, ReadFrames(rest))
  {
    hide ReadFrame;
    assert (w + rest)[|w|..] == rest;
  }

  lemma HeadOfStream(fs: seq<Frame>)
    requires fs != [] && AllLegal(fs)
    ensures Stream(fs) == Wire(fs[0]) + Stream(fs[1..]) && Legal(fs[0]) && AllLegal(fs[1..]) && Wire(fs[0]) != []
  {
    hide Wire;
    assert fs[0] in fs;
  }

  lemma {:induction false} ReadStream(fs: seq<Frame>)
    requires AllLegal(fs)
    ensures ReadFrames(Stream(fs)) == Ok(fs)
  {
    if fs != [] {
      hide ReadFrame, ReadFrames, Wire, Stream;
      HeadOfStream(fs);
      ReadWire(fs[0], Stream(fs[1..]));
      FrameThenList(fs[0], Wire(fs[0]), Stream(fs[1..]));
      ReadStream(fs[1..]);
      assert fs == [fs[0]] + fs[1..];
    }
  }

  lemma {:induction false} ReadFramesExact(d: seq<byte>)
    requires ReadFrames(d).Ok?
    ensures AllLegal(ReadFrames(d).value)
    ensures d == Stream(ReadFrames(d).value)
    decreases |d|
  {
    hide ReadFrame, Wire;
    if d != [] {
      var (f, n) := ReadFrame(d).value;
      ReadFrameExact(d);
      ReadFramesExact(d[n..]);
      var rest := ReadFrames(d[n..]).value;
      assert ([f] + rest)[1..] == rest;
      assert d == d[..n] + d[n..];
    }
  }

  /** The decoder accepts exactly the concatenations of legal frames, and returns those frames. */
  lemma FramingExact(d: seq<byte>, fs: seq<Frame>)
    ensures ReadFrames(d) == Ok(fs) <==> AllLegal(fs) && d == Stream(fs)
  {
    if AllLegal(fs) && d == Stream(fs) {
      ReadStream(fs);
    }
    if ReadFrames(d) == Ok(fs) {
      ReadFramesExact(d);
    }
  }

  lemma {:induction false} StreamConcat(a: seq<Frame>, b: seq<Frame>)
    ensures Stream(a + b) == Stream(a) + Stream(b)
  {
    if a == [] {
      assert a + b == b;
    } else {
      assert (a + b)[1..] == a[1..] + b;
      StreamConcat(a[1..], b);
    }
  }

  // ----- every short burst of damage is detected

  /** d and e have the same length and agree outside the four bytes from k on. */
  ghost predicate Burst(d: seq<byte>, e: seq<byte>, k: int)
  {
    && |d| == |e|
    && d != e
    && forall i :: 0 <= i < |d| && !(k <= i < k + 4) ==> d[i] == e[i]
  }

  /** Any burst in a string of at least four bytes lies inside a four-byte window of it. */
  lemma BurstWindow(d: seq<byte>, e: seq<byte>, k: int) returns (m: nat)
    requires Burst(d, e, k) && |d| >= 4
    ensures m + 4 <= |d| && d[m..m + 4] != e[m..m + 4]
    ensures d == d[..m] + d[m..m + 4] + d[m + 4..]
    ensures e == d[..m] + e[m..m + 4] + d[m + 4..]
  {
    m := if k < 0 then 0 else if k + 4 > |d| then |d| - 4 else k;
    assert d[..m] == e[..m] && d[m + 4..] == e[m + 4..];
    assert e == e[..m] + e[m..m + 4] + e[m + 4..];
    assert d == d[..m] + d[m..m + 4] + d[m + 4..];
  }

  lemma BurstBreaksSum(body: seq<byte>, tail: seq<byte>, body': seq<byte>, tail': seq<byte>, k: int)
    requires |tail| == |tail'| == 4 && |body| == |body'|
    requires Burst(body + tail, body' + tail', k)
    requires Sum(body) == GetRegister(tail)
    ensures Sum(body') != GetRegister(tail')
  {
    var d, e := body + tail, body' + tail';
    StoredSumIsResidue(body, tail);
    StoredSumIsResidue(body', tail');
    var m := BurstWindow(d, e, k);
    BurstChangesRegister(Xor(SEED, ONES), d[..m], d[m..m + 4], e[m..m + 4], d[m + 4..]);
  }

  lemma TailBurst(d: seq<byte>, e: seq<byte>, n: nat, k: int)
    requires |d| == |e| && n + 10 <= |d| && d[..n + 10] != e[..n + 10]
    requires d[..4] == e[..4] && d[4] == e[4] && d[5] == e[5]
    requires forall i :: 0 <= i < |d| && !(k <= i < k + 4) ==> d[i] == e[i]
    ensures Burst(d[6..n + 6] + d[n + 6..n + 10], e[6..n + 6] + e[n + 6..n + 10], k - 6)
  {
    var x, y := d[6..n + 6] + d[n + 6..n + 10], e[6..n + 6] + e[n + 6..n + 10];
    assert d[..n + 10] == d[..4] + [d[4], d[5]] + x;
    assert e[..n + 10] == e[..4] + [e[4], e[5]] + y;
    forall i | 0 <= i < n + 4 && !(k - 6 <= i < k - 2)
      ensures x[i] == y[i]
    {
      assert x[i] == d[6 + i] && y[i] == e[6 + i];
    }
  }

  /** Damage confined to four bytes cannot touch both length fields of a frame. */
  lemma BurstKeepsLength(d: seq<byte>, e: seq<byte>, k: int)
    requires |d| == |e| && ReadFrame(d).Ok? && ReadFrame(e).Ok?
    requires forall i :: 0 <= i < |d| && !(k <= i < k + 4) ==> d[i] == e[i]
    ensures d[4] == e[4] && d[5] == e[5]
  {
    hide Sum, GetRegister, GetWord, PutWord;
    var n, n' := GetWord(d[4], d[5]), GetWord(e[4], e[5]);
    assert d[6..6 + n][3] == d[9] && d[6..6 + n][4] == d[10];
    assert e[6..6 + n'][3] == e[9] && e[6..6 + n'][4] == e[10];
    WordRoundTrip(0, d[4], d[5]);
    WordRoundTrip(0, e[4], e[5]);
    assert n == n';
    assert [d[4], d[5]] == [e[4], e[5]];
    assert d[4] == [d[4], d[5]][0] && d[5] == [d[4], d[5]][1];
  }

  /** A frame damaged within four bytes is never read as a frame, whatever follows it. */
  lemma BurstInFrame(f: Frame, rest: seq<byte>, e: seq<byte>, k: int)
    requires Legal(f)
    requires |e| == |Wire(f) + rest| && e[..|Wire(f)|] != Wire(f)
    requires forall i :: 0 <= i < |e| && !(k <= i < k + 4) ==> (Wire(f) + rest)[i] == e[i]
    ensures ReadFrame(e).Err?
  {
    hide Sum, GetWord, Body, PutRegister, GetRegister;
    var d := Wire(f) + rest;
    ReadWire(f, rest);
    if ReadFrame(e).Ok? {
      BurstKeepsLength(d, e, k);
      var n := GetWord(d[4], d[5]);
      assert d[..n + 10] == Wire(f);
      TailBurst(d, e, n, k);
      BurstBreaksSum(d[6..n + 6], d[n + 6..n + 10], e[6..n + 6], e[n + 6..n + 10], k - 6);
    }
  }

  lemma BurstInFirst(f: Frame, rest: seq<byte>, e: seq<byte>, k: int)
    requires Legal(f) && Burst(Wire(f) + rest, e, k) && e[..|Wire(f)|] != Wire(f)
    ensures ReadFrames(e).Err?
  {
    hide ReadFrame, Wire;
    BurstInFrame(f, rest, e, k);
  }

  /** Changing bytes of an encoded stream, however they are changed, makes decoding fail as long
      as every changed byte lies within four consecutive positions. */
  lemma {:induction false} BurstDetected(fs: seq<Frame>, e: seq<byte>, k: int)
    requires AllLegal(fs)
    requires Burst(Stream(fs), e, k)
    ensures ReadFrames(e).Err?
    decreases fs
  {
    if fs != [] {
      hide ReadFrame, ReadFrames, Wire, Burst, Stream, Legal, AllLegal;
      var w, rest := Wire(fs[0]), Stream(fs[1..]);
      HeadOfStream(fs);
      BurstLength(w, rest, e, k);
      if e[..|w|] != w {
        BurstInFirst(fs[0], rest, e, k);
      } else {
        var tail := e[|w|..];
        BurstLater(w, rest, e, k);
        ReadWire(fs[0], tail);
        FrameThenList(fs[0], w, tail);
        BurstDetected(fs[1..], tail, k - |w|);
      }
    }
  }

  lemma BurstLength(w: seq<byte>, rest: seq<byte>, e: seq<byte>, k: int)
    requires Burst(w + rest, e, k)
    ensures |e| == |w| + |rest|
  {
  }

  lemma BurstLater(w: seq<byte>, rest: seq<byte>, e: seq<byte>, k: int)
    requires Burst(w + rest, e, k) && e[..|w|] == w
    ensures Burst(rest, e[|w|..], k - |w|) && e == w + e[|w|..]
  {
    var n := |w|;
    forall i | 0 <= i < |rest| && !(k - n <= i < k - n + 4)
      ensures rest[i] == e[n..][i]
    {
      assert (w + rest)[n + i] == e[n + i];
    }
    assert e == w + e[n..];
  }
}
