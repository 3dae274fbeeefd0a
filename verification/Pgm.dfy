/** Reading binary PGM files with a byte reader, and the header the appliance writes. */
module Pgm {
  import opened Prelude
  import opened Bytes

  datatype PgmError = EndOfInput | TokenTooLong | NotANumber | BinaryRequired | EightBitRequired | BadGeometry | RasterSize | TrailingData

  datatype Image = Image(width: int, height: int, gray: seq<byte>)

  const NEWLINE: byte := 10
  const SPACE: byte := 32
  const HASH: byte := 35

  predicate IsSpace(b: byte) { b == 32 || b == 10 || b == 13 || b == 9 }

  // ----- tokens, as positions in the data

  /** Just behind the next newline. */
  function AfterLine(data: seq<byte>, pos: nat): (r: Result<nat, PgmError>)
    requires pos <= |data|
    ensures r.Ok? ==> pos < r.value <= |data|
    decreases |data| - pos
  {
    if pos == |data| then Err(EndOfInput)
    else if data[pos] == NEWLINE then Ok(pos + 1)
    else AfterLine(data, pos + 1)
  }

  /** The rest of a token whose first bytes are x; one delimiter is consumed with it. */
  function Collect(data: seq<byte>, pos: nat, x: seq<byte>): (r: Result<(seq<byte>, nat), PgmError>)
    requires pos <= |data|
    ensures r.Ok? ==> pos <= r.value.1 <= |data|
    decreases |data| - pos
  {
    if pos == |data| then Ok((x, pos))
    else if IsSpace(data[pos]) then Ok((x, pos + 1))
    else if |x| + 1 > 32 then Err(TokenTooLong)
    else Collect(data, pos + 1, x + [data[pos]])
  }

  function TokenAt(data: seq<byte>, pos: nat): (r: Result<(seq<byte>, nat), PgmError>)
    requires pos <= |data|
    ensures r.Ok? ==> pos < r.value.1 <= |data|
    decreases |data| - pos
  {
    if pos == |data| then Err(EndOfInput)
    else if data[pos] == HASH then
      match AfterLine(data, pos + 1)
      case Err(e) => Err(e)
      case Ok(next) => TokenAt(data, next)
    else if IsSpace(data[pos]) then TokenAt(data, pos + 1)
    else Collect(data, pos + 1, [data[pos]])
  }

  class Reader {
    const data: seq<byte>
    var pos: nat

    predicate Valid()
      reads this
    {
      pos <= |data|
    }

    constructor (data: seq<byte>)
      ensures this.data == data && pos == 0 && Valid()
    {
      this.data, pos := data, 0;
    }

    method ReadByte() returns (r: Result<byte, PgmError>)
      requires Valid()
      modifies this
      ensures Valid()
      ensures if old(pos) < |data| then r == Ok(data[old(pos)]) && pos == old(pos) + 1
              else r == Err(EndOfInput) && pos == old(pos)
    {
      if pos == |data| {
        return Err(EndOfInput);
      }
      r := Ok(data[pos]);
      pos := pos + 1;
    }

    method Token() returns (r: Result<seq<byte>, PgmError>)
      requires Valid()
      modifies this
      ensures Valid()
      ensures match TokenAt(data, old(pos))
              case Err(e) => r == Err(e)
              case Ok((x, next)) => r == Ok(x) && pos == next
    {
      while true
        invariant Valid()
        invariant TokenAt(data, old(pos)) == TokenAt(data, pos)
        decreases |data| - pos
      {
        ghost var at := pos;
        var b := ReadByte();
        if b.Err? {
          return Err(b.error);
        }
        if b.value == HASH {
          while b.Ok? && b.value != NEWLINE
            invariant Valid() && at < pos
            invariant b.Ok?
            invariant TokenAt(data, at)
                      == (match (if b.value == NEWLINE then Ok(pos) else AfterLine(data, pos))
                          case Err(e) => Err(e)
                          case Ok(next) => TokenAt(data, next))
            decreases |data| - pos
          {
            b := ReadByte();
            if b.Err? {
              return Err(b.error);
            }
          }
          continue;
        }
        if IsSpace(b.value) {
          continue;
        }
        var x := [b.value];
        while true
          invariant Valid() && at < pos
          invariant TokenAt(data, at) == Collect(data, pos, x)
          decreases |data| - pos
        {
          b := ReadByte();
          if b.Err? {
            return Ok(x);
          }
          if IsSpace(b.value) {
            return Ok(x);
          }
          x := x + [b.value];
          if |x| > 32 {
            return Err(TokenTooLong);
          }
        }
      }
    }
  }

  // ----- numbers

  predicate IsDigit(b: byte) { 48 <= b <= 57 }

  function DigitsValue(s: seq<byte>): Result<int, PgmError>
  {
    if s == [] then Ok(0)
    else
      var k := |s| - 1;
      match DigitsValue(s[..k])
      case Err(e) => Err(e)
      case Ok(v) => if IsDigit(s[k]) then Ok(10 * v + (s[k] - 48)) else Err(NotANumber)
  }

  const INT_MAX := 0x7fff_ffff_ffff_ffff

  /** strconv.Atoi: an optional sign, decimal digits, and the range of a 64-bit integer. */
  function Atoi(s: seq<byte>): Result<int, PgmError>
  {
    var signed := s != [] && (s[0] == 43 || s[0] == 45);
    var digits := if signed then s[1..] else s;
    if digits == [] then Err(NotANumber) else
    match DigitsValue(digits)
    case Err(e) => Err(e)
    case Ok(v) =>
      var n := if signed && s[0] == 45 then -v else v;
      if n < -INT_MAX - 1 || n > INT_MAX then Err(NotANumber) else Ok(n)
  }

  // ----- the file

  predicate GeometryOk(w: int, h: int, minW: int, maxW: int, minH: int, maxH: int)
  {
    minW <= w <= maxW && minH <= h <= maxH && 0 < minW <= maxW && 0 < minH <= maxH
  }

  /** The raster and what must follow it, namely nothing. */
  function RasterAt(data: seq<byte>, pos: nat, w: int, h: int): Result<Image, PgmError>
    requires pos <= |data| && w > 0 && h > 0
  {
    if |data| - pos < w * h then Err(RasterSize)
    else if |data| - pos > w * h then Err(TrailingData)
    else Ok(Image(w, h, data[pos..]))
  }

  function Parsed(data: seq<byte>, minW: int, maxW: int, minH: int, maxH: int): Result<Image, PgmError>
  {
    match TokenAt(data, 0) case Err(e) => Err(BinaryRequired) case Ok((magic, p1)) =>
    if magic != [80, 53] then Err(BinaryRequired) else
    match TokenAt(data, p1) case Err(e) => Err(e) case Ok((ws, p2)) =>
    match TokenAt(data, p2) case Err(e) => Err(e) case Ok((hs, p3)) =>
    match TokenAt(data, p3) case Err(e) => Err(e) case Ok((ms, p4)) =>
    match Atoi(ws) case Err(e) => Err(e) case Ok(w) =>
    match Atoi(hs) case Err(e) => Err(e) case Ok(h) =>
    if Atoi(ms) != Ok(255) then Err(EightBitRequired) else
    if !GeometryOk(w, h, minW, maxW, minH, maxH) then Err(BadGeometry) else
    RasterAt(data, p4, w, h)
  }

  method ParsePGMRange(data: seq<byte>, minW: int, maxW: int, minH: int, maxH: int) returns (r: Result<Image, PgmError>)
    ensures r == Parsed(data, minW, maxW, minH, maxH)
  {
    hide TokenAt, Atoi;
    var reader := new Reader(data);
    var magic := reader.Token();
    if magic.Err? || magic.value != [80, 53] {
      return Err(BinaryRequired);
    }
    var ws := reader.Token();
    if ws.Err? {
      return Err(ws.error);
    }
    var hs := reader.Token();
    if hs.Err? {
      return Err(hs.error);
    }
    var ms := reader.Token();
    if ms.Err? {
      return Err(ms.error);
    }
    var w := Atoi(ws.value);
    if w.Err? {
      return Err(w.error);
    }
    var h := Atoi(hs.value);
    if h.Err? {
      return Err(h.error);
    }
    var max := Atoi(ms.value);
    if max.Err? || max.value != 255 {
      return Err(EightBitRequired);
    }
    if w.value < minW || w.value > maxW || h.value < minH || h.value > maxH || minW <= 0 || maxW < minW || minH <= 0 || maxH < minH {
      return Err(BadGeometry);
    }
    var n := w.value * h.value;
    if |data| - reader.pos < n {
      return Err(RasterSize);
    }
    ProductPositive(w.value, h.value);
    var start := reader.pos;
    var pixels := data[start..start + n];
    reader.pos := start + n;
    var extra := reader.ReadByte();
    if extra.Ok? {
      return Err(TrailingData);
    }
    assert data[start..start + n] == data[start..];
    return Ok(Image(w.value, h.value, pixels));
  }

  lemma ProductPositive(a: int, b: int)
    requires a > 0 && b > 0
    ensures a * b > 0
  {
  }

  // ----- the writer

  /** A number in decimal. */
  function Decimal(n: nat): (s: seq<byte>)
    ensures |s| >= 1
  {
    if n < 10 then [48 + n] else Decimal(n / 10) + [48 + n % 10]
  }

  /** The header that compose-pgm puts before the pixels. */
  function Header(w: nat, h: nat): seq<byte>
  {
    [80, 53, NEWLINE] + Decimal(w) + [SPACE] + Decimal(h) + [NEWLINE] + Decimal(255) + [NEWLINE]
  }

  lemma {:induction false} DecimalDigits(n: nat)
    ensures DigitsValue(Decimal(n)) == Ok(n)
    ensures forall b :: b in Decimal(n) ==> IsDigit(b)
  {
    if n >= 10 {
      DecimalDigits(n / 10);
      var s := Decimal(n / 10);
      assert (s + [48 + n % 10])[..|s|] == s;
    }
  }

  function Pow10(k: nat): nat { if k == 0 then 1 else 10 * Pow10(k - 1) }

  lemma {:induction false} DecimalLength(n: nat, k: nat)
    requires k > 0 && n < Pow10(k)
    ensures |Decimal(n)| <= k
  {
    if n >= 10 {
      DecimalLength(n / 10, k - 1);
    }
  }

  lemma AtoiDecimal(n: nat)
    requires n <= INT_MAX
    ensures Atoi(Decimal(n)) == Ok(n)
    ensures |Decimal(n)| <= 19
  {
    DecimalDigits(n);
    assert Decimal(n)[0] in Decimal(n);
    BelowPow10();
    DecimalLength(n, 19);
  }

  lemma BelowPow10()
    ensures INT_MAX < Pow10(19)
  {
    assert Pow10(4) == 1_0000;
    assert Pow10(8) == 1_0000_0000;
    assert Pow10(12) == 1_0000_0000_0000;
    assert Pow10(16) == 1_0000_0000_0000_0000;
  }

  lemma {:induction false} CollectWord(data: seq<byte>, pos: nat, x: seq<byte>, word: seq<byte>)
    requires pos + |word| < |data| && data[pos..pos + |word|] == word
    requires forall b :: b in word ==> !IsSpace(b)
    requires IsSpace(data[pos + |word|]) && |x| + |word| <= 32
    ensures Collect(data, pos, x) == Ok((x + word, pos + |word| + 1))
    decreases |word|
  {
    if word == [] {
      assert x + [] == x;
    } else {
      assert data[pos] == data[pos..pos + |word|][0] == word[0];
      assert data[pos + 1..pos + 1 + |word[1..]|] == data[pos..pos + |word|][1..] == word[1..];
      assert word[0] in word && forall b :: b in word[1..] ==> b in word;
      CollectWord(data, pos + 1, x + [word[0]], word[1..]);
      assert x + [word[0]] + word[1..] == x + word;
    }
  }

  /** A word followed by one delimiter is read back whole, and exactly that delimiter with it. */
  lemma ReadWord(before: seq<byte>, word: seq<byte>, delimiter: byte, after: seq<byte>)
    requires 1 <= |word| <= 32 && word[0] != HASH && IsSpace(delimiter)
    requires forall b :: b in word ==> !IsSpace(b)
    ensures TokenAt(before + word + [delimiter] + after, |before|) == Ok((word, |before| + |word| + 1))
  {
    var data := before + word + [delimiter] + after;
    var p := |before|;
    assert data[p] == word[0] && word[0] in word;
    assert data[p + 1..p + |word|] == word[1..];
    assert data[p + |word|] == delimiter;
    assert forall b :: b in word[1..] ==> b in word;
    CollectWord(data, p + 1, [word[0]], word[1..]);
    assert [word[0]] + word[1..] == word;
  }

  lemma ReadNumber(before: seq<byte>, n: nat, delimiter: byte, after: seq<byte>)
    requires n <= INT_MAX && IsSpace(delimiter)
    ensures TokenAt(before + Decimal(n) + [delimiter] + after, |before|) == Ok((Decimal(n), |before| + |Decimal(n)| + 1))
  {
    AtoiDecimal(n);
    DecimalDigits(n);
    assert Decimal(n)[0] in Decimal(n);
    ReadWord(before, Decimal(n), delimiter, after);
  }

  /** What the parser makes of a file that the appliance wrote with these dimensions, whatever bytes
      follow the header: pixel data that looks like white space or a comment is never skipped. */
  lemma ParseWritten(w: nat, h: nat, body: seq<byte>, minW: int, maxW: int, minH: int, maxH: int)
    requires 0 < w <= INT_MAX && 0 < h <= INT_MAX
    ensures Parsed(Header(w, h) + body, minW, maxW, minH, maxH)
            == if !GeometryOk(w, h, minW, maxW, minH, maxH) then Err(BadGeometry)
               else if |body| < w * h then Err(RasterSize)
               else if |body| > w * h then Err(TrailingData)
               else Ok(Image(w, h, body))
  {
    hide TokenAt, Atoi, Decimal;
    var data := Header(w, h) + body;
    var a: seq<byte> := [80, 53];
    var b: seq<byte> := [80, 53, NEWLINE];
    var c := b + Decimal(w) + [SPACE];
    var d := c + Decimal(h) + [NEWLINE];
    var e := d + Decimal(255) + [NEWLINE];
    AtoiDecimal(w);
    AtoiDecimal(h);
    AtoiDecimal(255);
    ReadWord([], a, NEWLINE, data[3..]);
    ReadNumber(b, w, SPACE, Decimal(h) + [NEWLINE] + Decimal(255) + [NEWLINE] + body);
    ReadNumber(c, h, NEWLINE, Decimal(255) + [NEWLINE] + body);
    ReadNumber(d, 255, NEWLINE, body);
    assert data == [] + a + [NEWLINE] + data[3..];
    assert data == b + Decimal(w) + [SPACE] + (Decimal(h) + [NEWLINE] + Decimal(255) + [NEWLINE] + body);
    assert data == c + Decimal(h) + [NEWLINE] + (Decimal(255) + [NEWLINE] + body);
    assert data == d + Decimal(255) + [NEWLINE] + body;
    assert data[|e|..] == body;
  }

  /** PGM round trip for every raster, and rejection of the same file with anything appended. */
  lemma PgmRoundTrip(image: Image, minW: int, maxW: int, minH: int, maxH: int, extra: seq<byte>)
    requires |image.gray| == image.width * image.height
    requires GeometryOk(image.width, image.height, minW, maxW, minH, maxH)
    requires image.width <= INT_MAX && image.height <= INT_MAX
    ensures Parsed(Header(image.width, image.height) + image.gray + extra, minW, maxW, minH, maxH)
            == if extra == [] then Ok(image) else Err(TrailingData)
  {
    ParseWritten(image.width, image.height, image.gray + extra, minW, maxW, minH, maxH);
    assert Header(image.width, image.height) + image.gray + extra == Header(image.width, image.height) + (image.gray + extra);
    assert extra == [] ==> image.gray + extra == image.gray;
  }
}
