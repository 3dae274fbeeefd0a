/** Ordered dithering of a grayscale page into packed one-bit rows. */
module Raster {
  import opened Prelude
  import opened Bytes
  import opened PrefixTree

  const BAYER: seq<seq<int>> := [[0, 8, 2, 10], [12, 4, 14, 6], [3, 11, 1, 9], [15, 7, 13, 5]]

  datatype RasterError = Dimensions

  function Threshold(y: nat, x: nat): int { BAYER[y % 4][x % 4] * 16 + 8 }

  lemma PixelInRange(y: nat, height: nat, x: nat, width: nat)
    requires y < height && x < width
    ensures y * width + x < width * height
  {
    assert (y + 1) * width <= height * width;
  }

  /** Whether dot x of output row y is marked, the output window starting at source column x0. */
  function Ink(gray: seq<byte>, width: nat, height: nat, x0: nat, y: nat, x: nat): bool
    requires width > 0 && |gray| == width * height && y < height
  {
    var sx := if x + x0 >= width then width - 1 else x + x0;
    PixelInRange(y, height, sx, width);
    gray[y * width + sx] < Threshold(y, x)
  }

  function InkBits(gray: seq<byte>, width: nat, height: nat, x0: nat, y: nat, dots: nat): (r: seq<bool>)
    requires width > 0 && |gray| == width * height && y < height
    ensures |r| == dots && forall x :: 0 <= x < dots ==> r[x] == Ink(gray, width, height, x0, y, x)
  {
    seq(dots, x requires 0 <= x < dots => Ink(gray, width, height, x0, y, x))
  }

  function Rows(gray: seq<byte>, width: nat, height: nat, x0: nat, dots: nat): (r: seq<seq<byte>>)
    requires width > 0 && |gray| == width * height && dots % 8 == 0
    ensures |r| == height
    ensures forall y :: 0 <= y < height ==>
              |r[y]| == dots / 8 && r[y] == PackBytes(InkBits(gray, width, height, x0, y, dots))
  {
    seq(height, y requires 0 <= y < height => PackBytes(InkBits(gray, width, height, x0, y, dots)))
  }

  predicate MonoLegal(gray: seq<byte>, width: int, height: int)
  {
    width >= 1592 && 0 < height <= 65535 && |gray| == width * height
  }

  predicate NativeLegal(gray: seq<byte>, width: int, height: int)
  {
    width == 1664 && 0 < height <= 65535 && |gray| == width * height
  }

  function MonoRows(gray: seq<byte>, width: int, height: int): seq<seq<byte>>
    requires MonoLegal(gray, width, height)
  {
    Rows(gray, width, height, (width - 1592) / 2, 1592)
  }

  function NativeRows(gray: seq<byte>, width: int, height: int): seq<seq<byte>>
    requires NativeLegal(gray, width, height)
  {
    Rows(gray, width, height, 0, 1664)
  }

  /** `b | 0x80 >> k`: set the k-th bit from the top. */
  function OrBit(b: byte, k: nat): byte
    requires k < 8
  {
    ByteOf(BitsOf(b)[7 - k := true])
  }

  lemma OrBitSets(row: seq<byte>, x: nat, j: nat)
    requires x < 8 * |row| && j < 8 * |row|
    ensures Unpack(row[x / 8 := OrBit(row[x / 8], x % 8)])[j] == (j == x || Unpack(row)[j])
  {
    hide BitsOf, ByteOf;
    BitsOfByte(BitsOf(row[x / 8])[7 - x % 8 := true]);
  }

  /** The inner dot loop for one row. */
  method DitherRow(gray: seq<byte>, width: nat, height: nat, x0: nat, y: nat, dots: nat) returns (row: seq<byte>)
    requires width > 0 && |gray| == width * height && y < height && dots % 8 == 0
    ensures row == PackBytes(InkBits(gray, width, height, x0, y, dots))
  {
    hide BitsOf, ByteOf, Threshold;
    var buffer := new byte[dots / 8](i => 0);
    BlankRow(buffer[..]);
    for x := 0 to dots
      invariant buffer.Length == dots / 8
      invariant forall j :: 0 <= j < dots ==>
                  Unpack(buffer[..])[j] == (j < x && Ink(gray, width, height, x0, y, j))
    {
      ghost var before := buffer[..];
      var sx := x + x0;
      if sx >= width {
        sx := width - 1;
      }
      PixelInRange(y, height, sx, width);
      if gray[y * width + sx] < Threshold(y, x) {
        buffer[x / 8] := OrBit(buffer[x / 8], x % 8);
        assert buffer[..] == before[x / 8 := OrBit(before[x / 8], x % 8)];
        forall j | 0 <= j < dots
          ensures Unpack(buffer[..])[j] == (j == x || Unpack(before)[j])
        {
          OrBitSets(before, x, j);
        }
      }
    }
    row := buffer[..];
    assert Unpack(row) == InkBits(gray, width, height, x0, y, dots);
    PackUnpack(row);
  }

  lemma BlankRow(row: seq<byte>)
    requires forall i :: 0 <= i < |row| ==> row[i] == 0
    ensures forall j :: 0 <= j < 8 * |row| ==> !Unpack(row)[j]
  {
    forall j | 0 <= j < 8 * |row|
      ensures !Unpack(row)[j]
    {
      ZeroBits(8, 7 - j % 8);
      assert row[j / 8] == 0;
    }
  }

  lemma {:induction false} ZeroBits(k: nat, i: nat)
    requires i < k
    ensures !Bits(0, k)[i]
  {
    if i > 0 {
      ZeroBits(k - 1, i - 1);
    }
  }

  method Monochrome(gray: seq<byte>, width: int, height: int) returns (r: Result<seq<seq<byte>>, RasterError>)
    ensures r == if MonoLegal(gray, width, height) then Ok(MonoRows(gray, width, height)) else Err(Dimensions)
    ensures r.Ok? <==> width >= 1592 && 0 < height <= 65535 && |gray| == width * height
  {
    if width < 1592 || height <= 0 || height > 65535 || |gray| != width * height {
      return Err(Dimensions);
    }
    var x0 := (width - 1592) / 2;
    var rows := DitherRows(gray, width, height, x0, 1592);
    return Ok(rows);
  }

  method NativeMonochrome(gray: seq<byte>, width: int, height: int) returns (r: Result<seq<seq<byte>>, RasterError>)
    ensures r == if NativeLegal(gray, width, height) then Ok(NativeRows(gray, width, height)) else Err(Dimensions)
    ensures r.Ok? <==> width == 1664 && 0 < height <= 65535 && |gray| == width * height
  {
    if width != 1664 || height <= 0 || height > 65535 || |gray| != width * height {
      return Err(Dimensions);
    }
    var rows := DitherRows(gray, width, height, 0, 1664);
    return Ok(rows);
  }

  method DitherRows(gray: seq<byte>, width: nat, height: nat, x0: nat, dots: nat) returns (rows: seq<seq<byte>>)
    requires width > 0 && |gray| == width * height && dots % 8 == 0
    ensures rows == Rows(gray, width, height, x0, dots)
  {
    rows := [];
    for y := 0 to height
      invariant rows == Rows(gray, width, height, x0, dots)[..y]
    {
      var row := DitherRow(gray, width, height, x0, y, dots);
      rows := rows + [row];
    }
  }

  /** A packed row unpacks to its ink. */
  lemma RowDot(gray: seq<byte>, width: nat, height: nat, x0: nat, dots: nat, y: nat, x: nat)
    requires width > 0 && |gray| == width * height && dots % 8 == 0 && y < height && x < dots && x + x0 < width
    ensures var row := Rows(gray, width, height, x0, dots)[y];
            && |row| == dots / 8 && Unpack(row)[x] == Ink(gray, width, height, x0, y, x)
  {
    hide PackBytes, Unpack, Ink;
    UnpackPack(InkBits(gray, width, height, x0, y, dots));
  }

  /** The low bit of a sum: the exclusive or of the low bits. */
  function Parity(a: nat, b: nat): nat { (a + b) % 2 }

  /** The threshold under dot (y, x), by the two low bits of each coordinate: the classic recursive
      four by four matrix, scaled to the middle of 16 steps of 16. */
  lemma ThresholdBits(y: nat, x: nat)
    ensures Threshold(y, x) == 16 * (8 * Parity(x, y) + 4 * (y % 2) + 2 * Parity(x / 2, y / 2) + y / 2 % 2) + 8
  {
    var r, c := y % 4, x % 4;
    LowBits(y);
    LowBits(x);
    assert Parity(x, y) == Parity(c, r);
    assert Parity(x / 2, y / 2) == Parity(c / 2, r / 2);
    SixteenCases(r, c);
  }

  lemma LowBits(n: nat)
    ensures n % 2 == n % 4 % 2 && n / 2 % 2 == n % 4 / 2
  {
  }

  lemma SixteenCases(r: nat, c: nat)
    requires r < 4 && c < 4
    ensures BAYER[r][c] == 8 * Parity(c, r) + 4 * (r % 2) + 2 * Parity(c / 2, r / 2) + r / 2
  {
    assert (r == 0 || r == 1 || r == 2 || r == 3) && (c == 0 || c == 1 || c == 2 || c == 3);
  }

  /** Every dot of a monochrome row is the bit from the top of its byte down that says whether the
      pixel under it in the centred window is darker than the ordered-dither threshold; the clamp of
      the source column is never needed. */
  lemma MonoDots(gray: seq<byte>, width: int, height: int, y: nat, x: nat)
    requires width >= 1592 && 0 < height <= 65535 && |gray| == width * height && y < height && x < 1592
    ensures var sx := x + (width - 1592) / 2; var rows := MonoRows(gray, width, height);
            && |rows| == height && |rows[y]| == 199 && 0 <= y * width + sx < |gray| && sx < width
            && (BitSet(rows[y][x / 8], 7 - x % 8) <==>
                  gray[y * width + sx] < 16 * (8 * Parity(x, y) + 4 * (y % 2) + 2 * Parity(x / 2, y / 2) + y / 2 % 2) + 8)
  {
    hide Rows, Unpack, Threshold, BitSet;
    var x0 := (width - 1592) / 2;
    PixelInRange(y, height, x + x0, width);
    RowDot(gray, width, height, x0, 1592, y, x);
    UnpackBit(MonoRows(gray, width, height)[y], x);
    ThresholdBits(y, x);
  }

  lemma NativeDots(gray: seq<byte>, width: int, height: int, y: nat, x: nat)
    requires width == 1664 && 0 < height <= 65535 && |gray| == width * height && y < height && x < 1664
    ensures var rows := NativeRows(gray, width, height);
            && |rows| == height && |rows[y]| == 208 && 0 <= y * width + x < |gray|
            && (BitSet(rows[y][x / 8], 7 - x % 8) <==>
                  gray[y * width + x] < 16 * (8 * Parity(x, y) + 4 * (y % 2) + 2 * Parity(x / 2, y / 2) + y / 2 % 2) + 8)
  {
    hide Rows, Unpack, Threshold, BitSet;
    PixelInRange(y, height, x, width);
    RowDot(gray, width, height, 0, 1664, y, x);
    UnpackBit(NativeRows(gray, width, height)[y], x);
    ThresholdBits(y, x);
  }
}
