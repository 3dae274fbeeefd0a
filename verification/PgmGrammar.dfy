/** Which byte strings the PGM parser takes for which rasters, said without its reading loops. */
module PgmGrammar {
  import opened Prelude
  import opened Bytes
  import opened Pgm

  // ----- what may stand between words

  /** One byte of white space, or a comment with the newline that ends it. */
  datatype Piece = Blank(b: byte) | Comment(text: seq<byte>)

  predicate PieceOk(p: Piece)
  {
    match p
    case Blank(b) => b == 32 || b == 10 || b == 13 || b == 9
    case Comment(text) => 10 !in text
  }

  function PieceBytes(p: Piece): (s: seq<byte>)
    ensures s != []
  {
    match p
    case Blank(b) => [b]
    case Comment(text) => [35] + text + [10]
  }

  function GapBytes(ps: seq<Piece>): seq<byte>
  {
    if ps == [] then [] else PieceBytes(ps[0]) + GapBytes(ps[1..])
  }

  predicate GapOk(ps: seq<Piece>) { forall p :: p in ps ==> PieceOk(p) }

  /** Up to 32 bytes, none of them white space, that do not start a comment. */
  predicate WordOk(w: seq<byte>)
  {
    1 <= |w| <= 32 && w[0] != 35 && forall b :: b in w ==> b != 32 && b != 10 && b != 13 && b != 9
  }

  predicate Delimiter(b: byte) { b == 32 || b == 10 || b == 13 || b == 9 }

  /** From pos on stand a gap and a word, and the word ends the data or one delimiter follows it. */
  ghost predicate TokenHere(data: seq<byte>, pos: nat, ps: seq<Piece>, word: seq<byte>, next: nat)
  {
    var end := pos + |GapBytes(ps)| + |word|;
    && GapOk(ps) && WordOk(word)
    && end <= |data| && data[pos..end] == GapBytes(ps) + word
    && ((end == |data| && next == end) || (end < |data| && Delimiter(data[end]) && next == end + 1))
  }

  // ----- one token

  lemma {:induction false} LineEnds(data: seq<byte>, pos: nat, text: seq<byte>)
    requires pos + |text| < |data| && data[pos..pos + |text|] == text && 10 !in text && data[pos + |text|] == 10
    ensures AfterLine(data, pos) == Ok(pos + |text| + 1)
    decreases |text|
  {
    if text != [] {
      assert data[pos] == data[pos..pos + |text|][0] == text[0] && text[0] in text;
      assert data[pos + 1..pos + 1 + |text[1..]|] == data[pos..pos + |text|][1..] == text[1..];
      LineEnds(data, pos + 1, text[1..]);
    }
  }

  lemma SkipPiece(data: seq<byte>, pos: nat, p: Piece)
    requires PieceOk(p) && pos + |PieceBytes(p)| <= |data| && data[pos..pos + |PieceBytes(p)|] == PieceBytes(p)
    ensures TokenAt(data, pos) == TokenAt(data, pos + |PieceBytes(p)|)
  {
    match p
    case Blank(b) =>
      assert data[pos] == data[pos..pos + 1][0] == b;
    case Comment(text) =>
      CommentParts(data, pos, text);
      LineEnds(data, pos + 1, text);
  }

  lemma CommentParts(data: seq<byte>, pos: nat, text: seq<byte>)
    requires pos + |text| + 2 <= |data| && data[pos..pos + |text| + 2] == [35] + text + [10]
    ensures data[pos] == 35 && data[pos + 1..pos + 1 + |text|] == text && data[pos + 1 + |text|] == 10
  {
    var s, t := data[pos..pos + |text| + 2], [35] + text + [10];
    assert s[0] == 35 && s[|text| + 1] == 10;
    forall i | 0 <= i < |text|
      ensures data[pos + 1 + i] == text[i]
    {
      assert s[1 + i] == t[1 + i];
    }
  }

  lemma {:induction false} SkipGap(data: seq<byte>, pos: nat, ps: seq<Piece>)
    requires GapOk(ps) && pos + |GapBytes(ps)| <= |data| && data[pos..pos + |GapBytes(ps)|] == GapBytes(ps)
    ensures TokenAt(data, pos) == TokenAt(data, pos + |GapBytes(ps)|)
    decreases |ps|
  {
    hide TokenAt, PieceBytes, PieceOk;
    if ps != [] {
      var a, b := PieceBytes(ps[0]), GapBytes(ps[1..]);
      var s := data[pos..pos + |GapBytes(ps)|];
      assert ps[0] in ps && forall p :: p in ps[1..] ==> p in ps;
      assert data[pos..pos + |a|] == s[..|a|] == a;
      assert data[pos + |a|..pos + |a| + |b|] == s[|a|..] == b;
      SkipPiece(data, pos, ps[0]);
      SkipGap(data, pos + |a|, ps[1..]);
    }
  }

  /** The word stands at pos, and the data or a delimiter ends it. */
  ghost predicate RestHere(data: seq<byte>, pos: nat, word: seq<byte>, next: nat)
  {
    var end := pos + |word|;
    && end <= |data| && data[pos..end] == word && (forall b :: b in word ==> !Delimiter(b))
    && ((end == |data| && next == end) || (end < |data| && Delimiter(data[end]) && next == end + 1))
  }

  lemma {:induction false} CollectGives(data: seq<byte>, pos: nat, x: seq<byte>, word: seq<byte>, next: nat)
    requires pos <= |data| && |x| + |word| <= 32 && RestHere(data, pos, word, next)
    ensures Collect(data, pos, x) == Ok((x + word, next))
    decreases |word|
  {
    if word == [] {
      assert x + [] == x;
    } else {
      assert data[pos] == data[pos..pos + |word|][0] == word[0] && word[0] in word;
      assert data[pos + 1..pos + 1 + |word[1..]|] == data[pos..pos + |word|][1..] == word[1..];
      assert forall b :: b in word[1..] ==> b in word;
      CollectGives(data, pos + 1, x + [word[0]], word[1..], next);
      assert x + [word[0]] + word[1..] == x + word;
    }
  }

  lemma {:induction false} CollectTakes(data: seq<byte>, pos: nat, x: seq<byte>) returns (word: seq<byte>)
    requires pos <= |data| && |x| <= 32 && Collect(data, pos, x).Ok?
    ensures Collect(data, pos, x).value.0 == x + word && |x| + |word| <= 32
    ensures RestHere(data, pos, word, Collect(data, pos, x).value.1)
    decreases |data| - pos
  {
    if pos == |data| || IsSpace(data[pos]) {
      word := [];
      assert x + [] == x;
    } else {
      var rest := CollectTakes(data, pos + 1, x + [data[pos]]);
      word := [data[pos]] + rest;
      assert x + [data[pos]] + rest == x + word;
      assert data[pos..pos + |word|] == [data[pos]] + data[pos + 1..pos + 1 + |rest|];
    }
  }

  lemma TokenGives(data: seq<byte>, pos: nat, ps: seq<Piece>, word: seq<byte>, next: nat)
    requires TokenHere(data, pos, ps, word, next)
    ensures TokenAt(data, pos) == Ok((word, next))
  {
    hide TokenAt, GapBytes, GapOk, WordOk;
    var g := |GapBytes(ps)|;
    TwoSlices(data, pos, GapBytes(ps), word);
    SkipGap(data, pos, ps);
    WordGives(data, pos + g, word, next);
  }

  lemma TwoSlices(data: seq<byte>, pos: nat, a: seq<byte>, b: seq<byte>)
    requires pos + |a| + |b| <= |data| && data[pos..pos + |a| + |b|] == a + b
    ensures data[pos..pos + |a|] == a && data[pos + |a|..pos + |a| + |b|] == b
  {
    var s := data[pos..pos + |a| + |b|];
    assert data[pos..pos + |a|] == s[..|a|] && data[pos + |a|..pos + |a| + |b|] == s[|a|..];
  }

  lemma WordGives(data: seq<byte>, pos: nat, word: seq<byte>, next: nat)
    requires WordOk(word) && pos + |word| <= |data| && data[pos..pos + |word|] == word
    requires (pos + |word| == |data| && next == |data|)
             || (pos + |word| < |data| && Delimiter(data[pos + |word|]) && next == pos + |word| + 1)
    ensures TokenAt(data, pos) == Ok((word, next))
  {
    assert data[pos] == data[pos..pos + |word|][0] == word[0] && word[0] in word;
    assert data[pos + 1..pos + |word|] == data[pos..pos + |word|][1..] == word[1..];
    assert forall b :: b in word[1..] ==> b in word;
    assert TokenAt(data, pos) == Collect(data, pos + 1, [word[0]]);
    hide TokenAt, Collect;
    CollectGives(data, pos + 1, [word[0]], word[1..], next);
    assert [word[0]] + word[1..] == word;
  }

  lemma {:induction false} LineTakes(data: seq<byte>, pos: nat) returns (text: seq<byte>)
    requires pos <= |data| && AfterLine(data, pos).Ok?
    ensures 10 !in text && AfterLine(data, pos).value == pos + |text| + 1 <= |data|
    ensures data[pos..pos + |text| + 1] == text + [10]
    decreases |data| - pos
  {
    if data[pos] == 10 {
      text := [];
    } else {
      var rest := LineTakes(data, pos + 1);
      text := [data[pos]] + rest;
      assert data[pos..pos + |text| + 1] == [data[pos]] + data[pos + 1..pos + 1 + |rest| + 1];
    }
  }

  lemma {:induction false} TokenTakes(data: seq<byte>, pos: nat) returns (ps: seq<Piece>)
    requires pos <= |data| && TokenAt(data, pos).Ok?
    ensures TokenHere(data, pos, ps, TokenAt(data, pos).value.0, TokenAt(data, pos).value.1)
    decreases |data| - pos
  {
    var (word, next) := TokenAt(data, pos).value;
    if data[pos] == 35 {
      var text := LineTakes(data, pos + 1);
      var rest := TokenTakes(data, pos + |text| + 2);
      ps := [Comment(text)] + rest;
      hide TokenAt, TokenHere, AfterLine;
      assert data[pos..pos + |text| + 2] == [35] + data[pos + 1..pos + 1 + |text| + 1] == [35] + text + [10];
      MorePieces(data, pos, Comment(text), rest, word, next);
    } else if IsSpace(data[pos]) {
      var rest := TokenTakes(data, pos + 1);
      ps := [Blank(data[pos])] + rest;
      hide TokenAt, TokenHere;
      assert data[pos..pos + 1] == PieceBytes(Blank(data[pos]));
      MorePieces(data, pos, Blank(data[pos]), rest, word, next);
    } else {
      ps := [];
      WordTakes(data, pos);
    }
  }

  lemma WordTakes(data: seq<byte>, pos: nat)
    requires pos < |data| && data[pos] != 35 && !IsSpace(data[pos]) && TokenAt(data, pos).Ok?
    ensures TokenHere(data, pos, [], TokenAt(data, pos).value.0, TokenAt(data, pos).value.1)
  {
    assert TokenAt(data, pos) == Collect(data, pos + 1, [data[pos]]);
    hide TokenAt, Collect, RestHere, TokenHere;
    var rest := CollectTakes(data, pos + 1, [data[pos]]);
    WordHere(data, pos, rest, TokenAt(data, pos).value.1);
  }

  lemma WordHere(data: seq<byte>, pos: nat, rest: seq<byte>, next: nat)
    requires pos < |data| && data[pos] != 35 && !Delimiter(data[pos]) && |rest| < 32 && RestHere(data, pos + 1, rest, next)
    ensures TokenHere(data, pos, [], [data[pos]] + rest, next)
  {
    var word := [data[pos]] + rest;
    assert data[pos..pos + |word|] == [data[pos]] + data[pos + 1..pos + 1 + |rest|] == word;
    assert GapBytes([]) + word == word;
  }

  lemma MorePieces(data: seq<byte>, pos: nat, p: Piece, ps: seq<Piece>, word: seq<byte>, next: nat)
    requires PieceOk(p) && pos + |PieceBytes(p)| <= |data| && data[pos..pos + |PieceBytes(p)|] == PieceBytes(p)
    requires TokenHere(data, pos + |PieceBytes(p)|, ps, word, next)
    ensures TokenHere(data, pos, [p] + ps, word, next)
  {
    hide PieceBytes, PieceOk;
    var a, mid, end := PieceBytes(p), pos + |PieceBytes(p)|, pos + |PieceBytes(p)| + |GapBytes(ps)| + |word|;
    assert ([p] + ps)[1..] == ps;
    assert GapBytes([p] + ps) == a + GapBytes(ps);
    assert data[pos..end] == data[pos..mid] + data[mid..end];
    assert a + (GapBytes(ps) + word) == a + GapBytes(ps) + word;
  }

  /** A token is read exactly where one stands: any white space and any whole comment lines, then the
      word, then one delimiter unless the data end. */
  lemma TokenExact(data: seq<byte>, pos: nat, word: seq<byte>, next: nat)
    requires pos <= |data|
    ensures TokenAt(data, pos) == Ok((word, next)) <==> exists ps :: TokenHere(data, pos, ps, word, next)
  {
    if TokenAt(data, pos) == Ok((word, next)) {
      var ps := TokenTakes(data, pos);
    }
    if ps :| TokenHere(data, pos, ps, word, next) {
      TokenGives(data, pos, ps, word, next);
    }
  }

  // ----- numbers

  /** The digits' places added up. */
  function PlaceValue(s: seq<byte>): int
  {
    if s == [] then 0 else (s[0] as int - 48) * Pow10(|s| - 1) + PlaceValue(s[1..])
  }

  /** An optional sign and decimal digits, for a 64-bit number. */
  ghost predicate Numeral(s: seq<byte>, n: int)
  {
    var digits := if s != [] && (s[0] == 43 || s[0] == 45) then s[1..] else s;
    && digits != [] && (forall b :: b in digits ==> 48 <= b <= 57)
    && n == (if s[0] == 45 then -PlaceValue(digits) else PlaceValue(digits))
    && -0x8000_0000_0000_0000 <= n <= 0x7fff_ffff_ffff_ffff
  }

  lemma {:induction false} PlaceLast(s: seq<byte>, b: byte)
    ensures PlaceValue(s + [b]) == 10 * PlaceValue(s) + (b as int - 48)
  {
    if s == [] {
      assert ([b])[1..] == [];
    } else {
      assert (s + [b])[1..] == s[1..] + [b];
      PlaceLast(s[1..], b);
      TenTimes(s[0] as int - 48, Pow10(|s| - 1));
    }
  }

  lemma TenTimes(d: int, p: int)
    ensures d * (10 * p) == 10 * (d * p)
  {
  }

  lemma {:induction false} DigitsExact(s: seq<byte>)
    ensures DigitsValue(s).Ok? <==> forall b :: b in s ==> 48 <= b <= 57
    ensures DigitsValue(s).Ok? ==> DigitsValue(s).value == PlaceValue(s)
  {
    if s != [] {
      var k := |s| - 1;
      assert s == s[..k] + [s[k]] && s[k] in s && forall b :: b in s[..k] ==> b in s;
      DigitsExact(s[..k]);
      PlaceLast(s[..k], s[k]);
      if DigitsValue(s).Ok? {
        forall b | b in s
          ensures 48 <= b <= 57
        {
          assert b in s[..k] || b == s[k];
        }
      }
    }
  }

  lemma AtoiExact(s: seq<byte>, n: int)
    ensures Atoi(s) == Ok(n) <==> Numeral(s, n)
  {
    var digits := if s != [] && (s[0] == 43 || s[0] == 45) then s[1..] else s;
    DigitsExact(digits);
    hide DigitsValue, PlaceValue;
    if Atoi(s) == Ok(n) {
      assert Numeral(s, n);
    }
    if Numeral(s, n) {
      assert Atoi(s) == Ok(n);
    }
  }

  // ----- the whole file

  /** A header as it may be spelled: gaps, words, and the delimiter behind each word. */
  datatype Spelling = Spelling(p0: seq<Piece>, d0: byte, p1: seq<Piece>, ws: seq<byte>, d1: byte,
                               p2: seq<Piece>, hs: seq<byte>, d2: byte, p3: seq<Piece>, ms: seq<byte>, d3: byte)

  predicate SpellingOk(sp: Spelling)
  {
    && GapOk(sp.p0) && GapOk(sp.p1) && GapOk(sp.p2) && GapOk(sp.p3)
    && Delimiter(sp.d0) && Delimiter(sp.d1) && Delimiter(sp.d2) && Delimiter(sp.d3)
    && WordOk(sp.ws) && WordOk(sp.hs) && WordOk(sp.ms)
  }

  function Unit(ps: seq<Piece>, word: seq<byte>, d: byte): seq<byte>
  {
    GapBytes(ps) + word + [d]
  }

  /** The magic word, width, height and greatest value, each behind a gap. */
  function Spelled(sp: Spelling): seq<byte>
  {
    Unit(sp.p0, [80, 53], sp.d0) + Unit(sp.p1, sp.ws, sp.d1) + Unit(sp.p2, sp.hs, sp.d2) + Unit(sp.p3, sp.ms, sp.d3)
  }

  lemma UnitGives(before: seq<byte>, ps: seq<Piece>, word: seq<byte>, d: byte, after: seq<byte>)
    requires GapOk(ps) && WordOk(word) && Delimiter(d)
    ensures TokenAt(before + Unit(ps, word, d) + after, |before|) == Ok((word, |before| + |Unit(ps, word, d)|))
  {
    hide GapBytes, TokenAt, GapOk, WordOk;
    var data, gap := before + Unit(ps, word, d) + after, GapBytes(ps);
    var end := |before| + |gap| + |word|;
    assert data == before + (gap + word) + ([d] + after);
    assert data[|before|..end] == gap + word && data[end] == d;
    TokenGives(data, |before|, ps, word, end + 1);
  }

  /** What the parser makes of any header that spells two numbers and 255, with any white space and
      any comments in it, and of whatever follows it. */
  lemma ParseSpelled(sp: Spelling, body: seq<byte>, w: int, h: int, minW: int, maxW: int, minH: int, maxH: int)
    requires SpellingOk(sp) && Numeral(sp.ws, w) && Numeral(sp.hs, h) && Numeral(sp.ms, 255)
    ensures Parsed(Spelled(sp) + body, minW, maxW, minH, maxH)
            == if !(0 < minW <= w <= maxW && 0 < minH <= h <= maxH) then Err(BadGeometry)
               else if |body| < w * h then Err(RasterSize)
               else if |body| > w * h then Err(TrailingData)
               else Ok(Image(w, h, body))
  {
    hide TokenAt, Atoi, Unit, GapOk, WordOk, Numeral;
    var a, b := Unit(sp.p0, [80, 53], sp.d0), Unit(sp.p1, sp.ws, sp.d1);
    var c, d := Unit(sp.p2, sp.hs, sp.d2), Unit(sp.p3, sp.ms, sp.d3);
    var data := Spelled(sp) + body;
    AtoiExact(sp.ws, w);
    AtoiExact(sp.hs, h);
    AtoiExact(sp.ms, 255);
    MagicWord();
    UnitGives([], sp.p0, [80, 53], sp.d0, b + c + d + body);
    UnitGives(a, sp.p1, sp.ws, sp.d1, c + d + body);
    UnitGives(a + b, sp.p2, sp.hs, sp.d2, d + body);
    UnitGives(a + b + c, sp.p3, sp.ms, sp.d3, body);
    FourUnits(a, b, c, d, body);
  }

  lemma MagicWord()
    ensures WordOk([80, 53])
  {
  }

  lemma FourUnits(a: seq<byte>, b: seq<byte>, c: seq<byte>, d: seq<byte>, body: seq<byte>)
    ensures var data := a + b + c + d + body;
            && data == [] + a + (b + c + d + body)
            && data == a + b + (c + d + body)
            && data == a + b + c + (d + body)
            && data[|a| + |b| + |c| + |d|..] == body
  {
  }

  lemma UnitTaken(data: seq<byte>, pos: nat, ps: seq<Piece>, word: seq<byte>, next: nat)
    requires TokenHere(data, pos, ps, word, next) && next < |data|
    ensures pos < next && Delimiter(data[next - 1]) && data[pos..next] == Unit(ps, word, data[next - 1])
  {
    hide GapBytes, GapOk, WordOk;
    assert data[pos..next] == data[pos..next - 1] + [data[next - 1]];
  }

  /** Every file that is read spells its raster in this way. */
  lemma ParsedIsSpelled(data: seq<byte>, minW: int, maxW: int, minH: int, maxH: int) returns (sp: Spelling)
    requires Parsed(data, minW, maxW, minH, maxH).Ok?
    ensures var img := Parsed(data, minW, maxW, minH, maxH).value;
            && SpellingOk(sp) && Numeral(sp.ws, img.width) && Numeral(sp.hs, img.height) && Numeral(sp.ms, 255)
            && data == Spelled(sp) + img.gray && |img.gray| == img.width * img.height
            && 0 < minW <= img.width <= maxW && 0 < minH <= img.height <= maxH
  {
    hide TokenAt, TokenHere, Atoi, Numeral, Unit, GapOk, WordOk;
    var img := Parsed(data, minW, maxW, minH, maxH).value;
    var (magic, n1) := TokenAt(data, 0).value;
    var (ws, n2) := TokenAt(data, n1).value;
    var (hs, n3) := TokenAt(data, n2).value;
    var (ms, n4) := TokenAt(data, n3).value;
    ProductPositive(img.width, img.height);
    var p0 := TokenTakes(data, 0);
    var p1 := TokenTakes(data, n1);
    var p2 := TokenTakes(data, n2);
    var p3 := TokenTakes(data, n3);
    UnitTaken(data, 0, p0, magic, n1);
    UnitTaken(data, n1, p1, ws, n2);
    UnitTaken(data, n2, p2, hs, n3);
    UnitTaken(data, n3, p3, ms, n4);
    TokenParts(data, 0, p0, magic, n1);
    TokenParts(data, n1, p1, ws, n2);
    TokenParts(data, n2, p2, hs, n3);
    TokenParts(data, n3, p3, ms, n4);
    AtoiExact(ws, img.width);
    AtoiExact(hs, img.height);
    AtoiExact(ms, 255);
    sp := Spelling(p0, data[n1 - 1], p1, ws, data[n2 - 1], p2, hs, data[n3 - 1], p3, ms, data[n4 - 1]);
    FiveSlices(data, n1, n2, n3, n4);
  }

  lemma TokenParts(data: seq<byte>, pos: nat, ps: seq<Piece>, word: seq<byte>, next: nat)
    requires TokenHere(data, pos, ps, word, next)
    ensures GapOk(ps) && WordOk(word)
  {
  }

  lemma FiveSlices(data: seq<byte>, a: nat, b: nat, c: nat, d: nat)
    requires a <= b <= c <= d <= |data|
    ensures data == data[0..a] + data[a..b] + data[b..c] + data[c..d] + data[d..]
  {
  }

  /** Exactly which files are read as which raster. */
  lemma ParsedExactly(data: seq<byte>, img: Image, minW: int, maxW: int, minH: int, maxH: int)
    ensures Parsed(data, minW, maxW, minH, maxH) == Ok(img) <==> exists sp :: IsPgm(data, img, sp, minW, maxW, minH, maxH)
  {
    hide Parsed, SpellingOk, Spelled, Numeral;
    if Parsed(data, minW, maxW, minH, maxH) == Ok(img) {
      var sp := ParsedIsSpelled(data, minW, maxW, minH, maxH);
      assert IsPgm(data, img, sp, minW, maxW, minH, maxH);
    }
    if sp :| IsPgm(data, img, sp, minW, maxW, minH, maxH) {
      ParseSpelled(sp, img.gray, img.width, img.height, minW, maxW, minH, maxH);
    }
  }

  /** A header spelling the raster's sizes and 255, and then its pixels and nothing else. */
  ghost predicate IsPgm(data: seq<byte>, img: Image, sp: Spelling, minW: int, maxW: int, minH: int, maxH: int)
  {
    && SpellingOk(sp) && Numeral(sp.ws, img.width) && Numeral(sp.hs, img.height) && Numeral(sp.ms, 255)
    && data == Spelled(sp) + img.gray && |img.gray| == img.width * img.height
    && 0 < minW <= img.width <= maxW && 0 < minH <= img.height <= maxH
  }

  /** A comment line in the header changes nothing: any text without a newline between '#' and the
      newline, behind the magic line. */
  lemma CommentIsSkipped(text: seq<byte>, w: nat, h: nat, body: seq<byte>, minW: int, maxW: int, minH: int, maxH: int)
    requires 10 !in text && 0 < w <= INT_MAX && 0 < h <= INT_MAX
    ensures Parsed([80, 53, 10] + ([35] + text + [10]) + Decimal(w) + [32] + Decimal(h) + [10] + [50, 53, 53, 10] + body,
                   minW, maxW, minH, maxH)
            == Parsed(Header(w, h) + body, minW, maxW, minH, maxH)
  {
    hide Parsed, Decimal, Numeral, WordOk, Spelled, GapBytes;
    var sp := Spelling([], 10, [Comment(text)], Decimal(w), 32, [], Decimal(h), 10, [], [50, 53, 53], 10);
    DecimalIsNumeral(w);
    DecimalIsNumeral(h);
    Maximum();
    SpelledOut(text, Decimal(w), Decimal(h));
    ParseSpelled(sp, body, w, h, minW, maxW, minH, maxH);
    ParseWritten(w, h, body, minW, maxW, minH, maxH);
  }

  lemma SpelledOut(text: seq<byte>, ws: seq<byte>, hs: seq<byte>)
    ensures Spelled(Spelling([], 10, [Comment(text)], ws, 32, [], hs, 10, [], [50, 53, 53], 10))
            == [80, 53, 10] + ([35] + text + [10]) + ws + [32] + hs + [10] + [50, 53, 53, 10]
  {
    hide GapBytes;
    OnePiece(text);
    var c := [35] + text + [10];
    assert Unit([], [80, 53], 10) == [80, 53, 10] && Unit([Comment(text)], ws, 32) == c + ws + [32];
    assert Unit([], hs, 10) == hs + [10] && Unit([], [50, 53, 53], 10) == [50, 53, 53, 10];
    FiveParts([80, 53, 10], c, ws, hs, [50, 53, 53, 10]);
  }

  lemma FiveParts(a: seq<byte>, c: seq<byte>, ws: seq<byte>, hs: seq<byte>, d: seq<byte>)
    ensures a + (c + ws + [32]) + (hs + [10]) + d == a + c + ws + [32] + hs + [10] + d
  {
  }

  lemma OnePiece(text: seq<byte>)
    ensures GapBytes([Comment(text)]) == [35] + text + [10] && GapBytes([]) == []
  {
    assert [Comment(text)][1..] == [];
  }

  lemma DecimalIsNumeral(n: nat)
    requires n <= INT_MAX
    ensures Numeral(Decimal(n), n) && WordOk(Decimal(n))
  {
    hide Decimal;
    AtoiDecimal(n);
    AtoiExact(Decimal(n), n);
    DecimalDigits(n);
    assert Decimal(n)[0] in Decimal(n);
  }

  lemma Maximum()
    ensures Numeral([50, 53, 53], 255) && WordOk([50, 53, 53])
  {
    assert Decimal(25) == [50, 53];
    DecimalIsNumeral(255);
  }
}
