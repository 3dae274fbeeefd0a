/** The compose-pgm and encode-pgm commands, and the pipeline they form. */
module F11d {
  import opened Prelude
  import opened Bytes
  import Framing
  import Raster
  import PrintJob
  import JobCodec
  import WireFormat
  import opened FitCanvas
  import opened Pgm

  datatype CommandError = BadCanvas | BadInput | Rejected | SelfCheckFailed

  /** Parse, fit on the 1664-dot head, and write the result as a PGM file again. */
  method ComposePgm(data: seq<byte>, canvasWidth: int, canvasHeight: int) returns (r: Result<seq<byte>, CommandError>)
    ensures r.Ok? <==>
              && 1 <= canvasWidth <= 1664 && 20 <= canvasHeight <= 2233 && |data| <= 33_554_432
              && Parsed(data, 1, 4096, 1, 4096).Ok?
    ensures r.Ok? ==>
              var img := Parsed(data, 1, 4096, 1, 4096).value;
              && FitLegal(img.gray, img.width, img.height, canvasWidth, canvasHeight)
              && r.value == [80, 53, 10, 49, 54, 54, 52, 32] + Decimal(canvasHeight) + [10, 50, 53, 53, 10]
                            + Padded(Fitted(img.gray, img.width, img.height, canvasWidth, canvasHeight),
                                     canvasWidth, canvasHeight, 1664)
  {
    hide Parsed, Header;
    if canvasWidth < 1 || canvasWidth > 1664 || canvasHeight < 20 || canvasHeight > 2233 {
      return Err(BadCanvas);
    }
    if |data| > 32 * 1024 * 1024 {
      return Err(BadInput);
    }
    var parsed := ParsePGMRange(data, 1, 4096, 1, 4096);
    if parsed.Err? {
      return Err(Rejected);
    }
    var img := parsed.value;
    ParsedImage(data, 1, 4096, 1, 4096);
    var gray := FitGrayHeadCanvas(img.gray, img.width, img.height, canvasWidth, canvasHeight, 1664);
    if gray.Err? {
      return Err(Rejected);
    }
    HeadHeader(canvasHeight);
    return Ok(Header(1664, canvasHeight) + gray.value);
  }

  /** The header for the head's width, byte by byte. */
  lemma HeadHeader(height: nat)
    ensures Header(1664, height) == [80, 53, 10, 49, 54, 54, 52, 32] + Decimal(height) + [10, 50, 53, 53, 10]
  {
    assert Decimal(1664) == [49, 54, 54, 52] by {
      assert Decimal(16) == [49, 54] && Decimal(166) == [49, 54, 54];
    }
    assert Decimal(255) == [50, 53, 53] by {
      assert Decimal(25) == [50, 53];
    }
  }

  lemma ParsedImage(data: seq<byte>, minW: int, maxW: int, minH: int, maxH: int)
    requires Parsed(data, minW, maxW, minH, maxH).Ok?
    ensures var img := Parsed(data, minW, maxW, minH, maxH).value;
            && GeometryOk(img.width, img.height, minW, maxW, minH, maxH)
            && |img.gray| == img.width * img.height
  {
    hide TokenAt, Atoi;
  }

  /** Parse, pad to the head, encode, then decode the stream again and compare every row. The
      comparison never fails, so the command succeeds exactly on files that parse. */
  method EncodePgm(data: seq<byte>) returns (r: Result<seq<byte>, CommandError>)
    ensures r.Ok? <==> Parsed(data, 1, 1664, 1, 2233).Ok?
    ensures r != Err(SelfCheckFailed)
    ensures r.Ok? ==>
              var img := Parsed(data, 1, 1664, 1, 2233).value;
              && PadLegal(img.gray, img.width, img.height, 1664)
              && Raster.NativeLegal(Padded(img.gray, img.width, img.height, 1664), 1664, img.height)
              && var rows := Raster.NativeRows(Padded(img.gray, img.width, img.height, 1664), 1664, img.height);
              && PrintJob.JobOfStream(r.value) == Ok(PrintJob.DecodedJob(208, img.height, 1, rows))
              && WireFormat.JobLayout(r.value, rows, 1664, img.height, PrintJob.Settings(12, 9, 0, 1))
  {
    hide Parsed, PrintJob.JobOfStream, Framing.Stream, PrintJob.JobFrames, Raster.Rows;
    var parsed := ParsePGMRange(data, 1, 1664, 1, 2233);
    if parsed.Err? {
      return Err(Rejected);
    }
    var img := parsed.value;
    ParsedImage(data, 1, 1664, 1, 2233);
    var padded := CenterPadGray(img.gray, img.width, img.height, 1664);
    if padded.Err? {
      return Err(Rejected);
    }
    var gray := padded.value;
    var stream := JobCodec.EncodeNativeJob(gray, 1664, img.height, PrintJob.Settings(12, 9, 0, 1));
    if stream.Err? {
      return Err(Rejected);
    }
    var decoded := JobCodec.DecodeJob(stream.value);
    if decoded.Err? || decoded.value.widthBytes != 208 || decoded.value.height != img.height {
      return Err(SelfCheckFailed);
    }
    var intended := Raster.NativeMonochrome(gray, 1664, img.height);
    if intended.Err? {
      return Err(SelfCheckFailed);
    }
    for i := 0 to |intended.value| {
      if decoded.value.rows[i] != intended.value[i] {
        return Err(SelfCheckFailed);
      }
    }
    return Ok(stream.value);
  }

  /** What compose-pgm writes, encode-pgm reads back as exactly the composed raster and sends
      unpadded: the stream decodes to the dithered rows of that raster. */
  lemma ComposedIsEncoded(gray: seq<byte>, canvasHeight: int)
    requires 20 <= canvasHeight <= 2233 && |gray| == 1664 * canvasHeight
    ensures Parsed(Header(1664, canvasHeight) + gray, 1, 1664, 1, 2233) == Ok(Image(1664, canvasHeight, gray))
    ensures PadLegal(gray, 1664, canvasHeight, 1664) && Padded(gray, 1664, canvasHeight, 1664) == gray
  {
    hide Header;
    ParseWritten(1664, canvasHeight, gray, 1, 1664, 1, 2233);
    PadToSameWidth(gray, 1664, canvasHeight);
  }
}
