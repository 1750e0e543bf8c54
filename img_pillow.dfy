/** The image helpers the ICON stage calls: `_hex_to_rgb` for the
    background colour, and the tail of `process_image`, which checks the
    mode and the size of the Pillow result and packs its pixels as BGRA
    bytes, row by row. The Pillow work itself (opening, converting,
    fitting, thumbnailing, pasting onto the background) is taken as input. */
module ImgPillow {
  import opened Errors
  import opened Bytes
  import opened PyStr
  import opened PyJson

  // ---- _hex_to_rgb ----

  /** Python's `s[i:j]`, which clamps both ends to the string. */
  function Slice(s: string, i: nat, j: nat): (t: string)
    requires i <= j
    ensures j <= |s| ==> t == s[i..j]
    ensures |t| <= j - i
  {
    if j <= |s| then s[i..j] else if i <= |s| then s[i..] else []
  }

  /** `''.join([c*2 for c in s])`. */
  function Doubled(s: string): (t: string)
    ensures |t| == 2 * |s|
  {
    if s == [] then [] else [s[0], s[0]] + Doubled(s[1..])
  }

  /** Every character of `s` twice in a row: `abc` becomes `aabbcc`. */
  lemma {:induction false} DoubledAt(s: string, k: nat)
    requires k < |s|
    ensures Doubled(s)[2 * k] == s[k] && Doubled(s)[2 * k + 1] == s[k]
  {
    if k > 0 {
      DoubledAt(s[1..], k - 1);
    }
  }

  /** `int(pair, 16)`; a pair Python cannot parse is `ValueError`. */
  function Channel(pair: string): (r: Result<int>)
    ensures r.Failure? <==> ParseHex(pair).None?
    ensures r.Failure? ==> r.error == InvalidLiteral
    ensures r.Success? ==> r.value == ParseHex(pair).value
  {
    match ParseHex(pair)
    case None => Failure(InvalidLiteral)
    case Some(v) => Success(v)
  }

  /** Where the red, green and blue digit pairs start. */
  const RED_AT: nat := 0
  const GREEN_AT: nat := 2
  const BLUE_AT: nat := 4

  /** The colour string `_hex_to_rgb` parses: every leading `#` dropped, and a
      three-digit colour spelled out with each digit twice. */
  function Spelled(hexColor: string): (h: string)
  {
    var stripped := LStripChar(hexColor, '#');
    if |stripped| == 3 then Doubled(stripped) else stripped
  }

  /** The digit pair `h[i:i+2]`. */
  function PairAt(h: string, i: nat): (pair: string)
    ensures i + 2 <= |h| ==> pair == h[i..i + 2]
  {
    Slice(h, i, i + 2)
  }

  /** `_hex_to_rgb`: the values of the digit pairs at 0, 2 and 4, the first
      pair that does not parse raising `ValueError`. */
  function HexToRgb(hexColor: string): (r: Result<(int, int, int)>)
    ensures var h := Spelled(hexColor);
      r.Success? <==> Channel(PairAt(h, RED_AT)).Success? && Channel(PairAt(h, GREEN_AT)).Success? && Channel(PairAt(h, BLUE_AT)).Success?
    ensures r.Success? ==> var h := Spelled(hexColor);
      r.value == (Channel(PairAt(h, RED_AT)).value, Channel(PairAt(h, GREEN_AT)).value, Channel(PairAt(h, BLUE_AT)).value)
    ensures r.Failure? ==> r.error == InvalidLiteral
  {
    var h := Spelled(hexColor);
    var red :- Channel(PairAt(h, RED_AT));
    var green :- Channel(PairAt(h, GREEN_AT));
    var blue :- Channel(PairAt(h, BLUE_AT));
    Success((red, green, blue))
  }

  /** All leading `#` characters are stripped, however many there are. */
  lemma HashesStripped(s: string)
    ensures HexToRgb("#" + s) == HexToRgb(s)
  {
    var t := "#" + s;
    assert t[0] == '#' && t[1..] == s;
    assert LStripChar(t, '#') == LStripChar(s, '#');
  }

  /** A three-digit colour is read as the six-digit colour with each digit
      doubled. */
  lemma ShortForm(s: string)
    requires |LStripChar(s, '#')| == 3
    ensures Spelled(s) == Doubled(LStripChar(s, '#'))
    ensures HexToRgb(s) == HexToRgb(Doubled(LStripChar(s, '#')))
  {
    var t := LStripChar(s, '#');
    var d := Doubled(t);
    DoubledAt(t, 0);
    assert d[0] != '#';
    assert LStripChar(d, '#') == d;
  }

  predicate IsHexDigit(c: char) {
    DigitValue(c) < 16
  }

  /** Two hexadecimal digits. */
  predicate IsHexPair(pair: string) {
    |pair| == 2 && IsHexDigit(pair[0]) && IsHexDigit(pair[1])
  }

  /** The number two hexadecimal digits spell. */
  function PairValue(pair: string): int
    requires |pair| == 2
  {
    16 * DigitValue(pair[0]) + DigitValue(pair[1])
  }

  /** Two hexadecimal digits are read by the plain digit loop. */
  lemma PairUnsigned(s: string)
    requires IsHexPair(s)
    ensures ParseHex(s) == ParseUnsigned(s, 16)
  {
    assert ParseHex(s) == HexNumeral(s) by {
      assert IsAscii(s) && !IsSpace(s[0]) && !IsSpace(s[1]);
      PlainNumeral(s);
    }
    PairNoPrefix(s);
    HexNumeralPlain(s);
  }

  /** Two hexadecimal digits do not start with a `0x` prefix. */
  lemma PairNoPrefix(s: string)
    requires IsHexPair(s)
    ensures !StartsWith(s, "0x") && !StartsWith(s, "0X")
  {
    assert s[1] != 'x' && s[1] != 'X';
    assert s[..2] == s;
  }

  /** The digit loop reads two hexadecimal digits as their value. */
  lemma PairDigits(s: string)
    requires IsHexPair(s)
    ensures ParseUnsigned(s, 16) == Some(PairValue(s))
  {
    assert ValidDigits(s, 16);
    assert s[..1][..0] == [];
    assert DigitsValue(s[..1], 16) == DigitValue(s[0]);
    assert DigitsValue(s, 16) == DigitsValue(s[..1], 16) * 16 + DigitValue(s[1]);
  }

  /** Two hexadecimal digits parse to their value, which is a byte. */
  lemma HexPair(s: string)
    requires IsHexPair(s)
    ensures ParseHex(s) == Some(PairValue(s)) && 0 <= PairValue(s) < 256
  {
    PairUnsigned(s);
    PairDigits(s);
  }

  /** A pair of hexadecimal digits is a channel of that value. */
  lemma PairChannel(pair: string)
    requires IsHexPair(pair)
    ensures Channel(pair) == Success(PairValue(pair)) && 0 <= PairValue(pair) < 256
  {
    HexPair(pair);
    ParsedChannel(pair, PairValue(pair));
  }

  lemma ParsedChannel(pair: string, v: int)
    requires ParseHex(pair) == Some(v)
    ensures Channel(pair) == Success(v)
  {
  }

  /** The pairs at 0, 2 and 4 of a string whose first six characters are
      `red`, `green` and `blue`. */
  lemma PairsAt(h: string, red: string, green: string, blue: string)
    requires |red| == 2 && |green| == 2 && |blue| == 2
    requires |h| >= 6 && h[..6] == red + green + blue
    ensures PairAt(h, RED_AT) == red && PairAt(h, GREEN_AT) == green && PairAt(h, BLUE_AT) == blue
  {
    assert h[..6][0..2] == red;
    assert h[..6][2..4] == green;
    assert h[..6][4..6] == blue;
  }

  /** Three channels that parse make the colour of their values. */
  lemma RgbOf(hexColor: string, red: int, green: int, blue: int)
    requires var h := Spelled(hexColor);
      && Channel(PairAt(h, RED_AT)) == Success(red)
      && Channel(PairAt(h, GREEN_AT)) == Success(green)
      && Channel(PairAt(h, BLUE_AT)) == Success(blue)
    ensures HexToRgb(hexColor) == Success((red, green, blue))
  {
  }

  /** A colour string spelled out to the pairs `red`, `green` and `blue`
      (and perhaps more characters) is read as their values. */
  lemma SpelledPairs(hexColor: string, red: string, green: string, blue: string)
    requires IsHexPair(red) && IsHexPair(green) && IsHexPair(blue)
    requires var h := Spelled(hexColor); |h| >= 6 && h[..6] == red + green + blue
    ensures HexToRgb(hexColor) == Success((PairValue(red), PairValue(green), PairValue(blue)))
    ensures 0 <= PairValue(red) < 256 && 0 <= PairValue(green) < 256 && 0 <= PairValue(blue) < 256
  {
    PairsAt(Spelled(hexColor), red, green, blue);
    PairChannel(red);
    PairChannel(green);
    PairChannel(blue);
    RgbOf(hexColor, PairValue(red), PairValue(green), PairValue(blue));
  }

  /** A colour of six hexadecimal digits after the `#` characters yields the
      value of each digit pair, each in 0..255; the `#` prefix is optional
      and any digits after the sixth are ignored. */
  lemma SixDigits(hexColor: string, red: string, green: string, blue: string)
    requires IsHexPair(red) && IsHexPair(green) && IsHexPair(blue)
    requires var h := LStripChar(hexColor, '#'); |h| >= 6 && h[..6] == red + green + blue
    ensures HexToRgb(hexColor) == Success((PairValue(red), PairValue(green), PairValue(blue)))
    ensures 0 <= PairValue(red) < 256 && 0 <= PairValue(green) < 256 && 0 <= PairValue(blue) < 256
  {
    assert Spelled(hexColor) == LStripChar(hexColor, '#');
    SpelledPairs(hexColor, red, green, blue);
  }

  /** A colour of three hexadecimal digits counts each digit twice: `abc`
      is read as `aabbcc`, so each channel is 17 times its digit. */
  lemma ThreeDigits(hexColor: string)
    requires var h := LStripChar(hexColor, '#');
      |h| == 3 && IsHexDigit(h[0]) && IsHexDigit(h[1]) && IsHexDigit(h[2])
    ensures var h := LStripChar(hexColor, '#');
      HexToRgb(hexColor) == Success((17 * DigitValue(h[0]), 17 * DigitValue(h[1]), 17 * DigitValue(h[2])))
  {
    var h := LStripChar(hexColor, '#');
    assert Spelled(hexColor) == Doubled(h);
    DoubledPairs(h);
    DoubledDigit(h[0]);
    DoubledDigit(h[1]);
    DoubledDigit(h[2]);
    SpelledPairs(hexColor, [h[0], h[0]], [h[1], h[1]], [h[2], h[2]]);
  }

  /** `abc` doubled starts with the pairs `aa`, `bb` and `cc`. */
  lemma DoubledPairs(h: string)
    requires |h| == 3
    ensures Doubled(h)[..6] == [h[0], h[0]] + [h[1], h[1]] + [h[2], h[2]]
  {
    DoubledAt(h, 0);
    DoubledAt(h, 1);
    DoubledAt(h, 2);
  }

  /** A digit written twice is a pair worth 17 times the digit. */
  lemma DoubledDigit(c: char)
    requires IsHexDigit(c)
    ensures IsHexPair([c, c]) && PairValue([c, c]) == 17 * DigitValue(c)
  {
  }

  // ---- process_image ----

  /** One pixel as `pixels[x, y]` gives it in RGBA mode. */
  datatype Rgba = Rgba(r: byte, g: byte, b: byte, a: byte)

  /** The image Pillow hands back, as its size and its pixel access. */
  datatype Picture = Picture(width: nat, height: nat, pixel: (nat, nat) -> Rgba)

  /** What the Pillow calls produce: `ImageOps.fit` for `cover`, and for
      `contain` the canvas of the target size filled with the background
      colour and the thumbnail pasted in its centre. */
  datatype Resizer = Resizer(fitted: Picture, composed: (int, int, int) -> Picture)

  /** The four bytes of one pixel, blue first. */
  function Bgra(p: Rgba): (b: Bytes)
    ensures b == [p.b, p.g, p.r, p.a]
  {
    [p.b, p.g, p.r, p.a]
  }

  /** The bytes of the first `x` pixels of row `y`. */
  function RowBytes(pixel: (nat, nat) -> Rgba, y: nat, x: nat): (s: Bytes)
    ensures |s| == 4 * x
  {
    if x == 0 then [] else RowBytes(pixel, y, x - 1) + Bgra(pixel(x - 1, y))
  }

  /** The bytes of the first `y` rows, each `width` pixels wide. */
  function RawBytes(pixel: (nat, nat) -> Rgba, width: nat, y: nat): (s: Bytes)
    ensures |s| == 4 * (y * width)
  {
    if y == 0 then [] else RawBytes(pixel, width, y - 1) + RowBytes(pixel, y - 1, width)
  }

  /** Pixel `x` of a row sits at bytes `4*x..4*x+3` of it. */
  lemma {:induction false} RowPixel(pixel: (nat, nat) -> Rgba, y: nat, n: nat, x: nat)
    requires x < n
    ensures RowBytes(pixel, y, n)[4 * x..4 * x + 4] == Bgra(pixel(x, y))
  {
    if x < n - 1 {
      RowPixel(pixel, y, n - 1, x);
      assert RowBytes(pixel, y, n)[..4 * (n - 1)] == RowBytes(pixel, y, n - 1);
      assert RowBytes(pixel, y, n)[4 * x..4 * x + 4] == RowBytes(pixel, y, n)[..4 * (n - 1)][4 * x..4 * x + 4];
    }
  }

  /** The packing of the first `m` rows begins every longer packing. */
  lemma {:induction false} RawPrefix(pixel: (nat, nat) -> Rgba, width: nat, m: nat, n: nat)
    requires m <= n
    ensures |RawBytes(pixel, width, m)| <= |RawBytes(pixel, width, n)|
    ensures RawBytes(pixel, width, n)[..|RawBytes(pixel, width, m)|] == RawBytes(pixel, width, m)
    decreases n
  {
    if m < n {
      RawPrefix(pixel, width, m, n - 1);
      var pre, row := RawBytes(pixel, width, n - 1), RowBytes(pixel, n - 1, width);
      assert RawBytes(pixel, width, n) == pre + row;
      assert (pre + row)[..|RawBytes(pixel, width, m)|] == pre[..|RawBytes(pixel, width, m)|];
    }
  }

  /** Row `y` sits at bytes `4*(y*width)..` of every longer packing. */
  lemma RawRow(pixel: (nat, nat) -> Rgba, width: nat, n: nat, y: nat)
    requires y < n
    ensures 4 * (y * width) + 4 * width <= |RawBytes(pixel, width, n)|
    ensures RawBytes(pixel, width, n)[4 * (y * width)..4 * (y * width) + 4 * width] == RowBytes(pixel, y, width)
  {
    var lo, hi := 4 * (y * width), 4 * (y * width) + 4 * width;
    var pre, row, upto := RawBytes(pixel, width, y), RowBytes(pixel, y, width), RawBytes(pixel, width, y + 1);
    assert upto == pre + row;
    assert |upto| == hi;
    RawPrefix(pixel, width, y + 1, n);
    assert RawBytes(pixel, width, n)[lo..hi] == upto[lo..hi];
    assert (pre + row)[lo..hi] == row;
  }

  /** Pixel `(x, y)` occupies bytes `4*(y*width + x)..+3`, in the order B, G,
      R, A. */
  predicate Packed(raw: Bytes, pixel: (nat, nat) -> Rgba, width: nat, height: nat) {
    && |raw| == 4 * (height * width)
    && forall x: nat, y: nat :: x < width && y < height ==> PixelPacked(raw, pixel, width, x, y)
  }

  predicate PixelPacked(raw: Bytes, pixel: (nat, nat) -> Rgba, width: nat, x: nat, y: nat) {
    4 * (y * width + x) + 4 <= |raw| && raw[4 * (y * width + x)..4 * (y * width + x) + 4] == Bgra(pixel(x, y))
  }

  lemma PixelAt(pixel: (nat, nat) -> Rgba, width: nat, height: nat, x: nat, y: nat)
    requires x < width && y < height
    ensures PixelPacked(RawBytes(pixel, width, height), pixel, width, x, y)
  {
    var raw, row, quad := RawBytes(pixel, width, height), RowBytes(pixel, y, width), Bgra(pixel(x, y));
    var at, k := |RawBytes(pixel, width, y)|, |RowBytes(pixel, y, x)|;
    RawRow(pixel, width, height, y);
    RowPixel(pixel, y, width, x);
    assert at == 4 * (y * width) && k == 4 * x;
    Within(raw, row, at, k, quad);
  }

  /** A piece of a piece of a sequence is a piece of the sequence. */
  lemma Within(s: Bytes, part: Bytes, at: nat, k: nat, piece: Bytes)
    requires at + |part| <= |s| && s[at..at + |part|] == part
    requires k + |piece| <= |part| && part[k..k + |piece|] == piece
    ensures s[at + k..at + k + |piece|] == piece
  {
    forall j | 0 <= j < |piece|
      ensures s[at + k..at + k + |piece|][j] == piece[j]
    {
      assert part[k..k + |piece|][j] == piece[j];
      assert s[at..at + |part|][k + j] == part[k + j];
    }
  }

  /** The packing has one BGRA quadruple per pixel, rows top to bottom and
      pixels left to right. */
  lemma RawPacked(pixel: (nat, nat) -> Rgba, width: nat, height: nat)
    ensures Packed(RawBytes(pixel, width, height), pixel, width, height)
  {
    forall x: nat, y: nat | x < width && y < height
      ensures PixelPacked(RawBytes(pixel, width, height), pixel, width, x, y)
    {
      PixelAt(pixel, width, height, x, y);
    }
  }

  /** The nested loops of `process_image` that extend `raw_data`. */
  method PackPixels(pixel: (nat, nat) -> Rgba, width: nat, height: nat) returns (raw: Bytes)
    ensures raw == RawBytes(pixel, width, height)
  {
    raw := [];
    var y := 0;
    while y < height
      invariant 0 <= y <= height
      invariant raw == RawBytes(pixel, width, y)
    {
      raw := PackRow(pixel, y, width, raw);
      y := y + 1;
    }
  }

  /** The inner loop over one row: each pixel adds its BGRA quadruple. */
  method PackRow(pixel: (nat, nat) -> Rgba, y: nat, width: nat, before: Bytes) returns (raw: Bytes)
    ensures raw == before + RowBytes(pixel, y, width)
  {
    raw := before;
    var x := 0;
    while x < width
      invariant 0 <= x <= width
      invariant raw == before + RowBytes(pixel, y, x)
    {
      var p := pixel(x, y);
      raw := raw + [p.b, p.g, p.r, p.a];
      x := x + 1;
    }
  }

  /** The picture the mode selects, or the error it raises: `Invalid mode`
      for anything but `cover` and `contain`, and the background parse
      error for `contain`. */
  function Resized(resizer: Resizer, mode: Json, background: Json): (r: Result<Picture>)
    ensures mode != JStr("cover") && mode != JStr("contain") ==> r == Failure(InvalidMode)
    ensures mode == JStr("cover") ==> r == Success(resizer.fitted)
    ensures mode == JStr("contain") && background.JStr? && HexToRgb(background.s).Success? ==>
              r == Success(resizer.composed(HexToRgb(background.s).value.0, HexToRgb(background.s).value.1, HexToRgb(background.s).value.2))
    ensures mode == JStr("contain") && r.Failure? ==>
              r.error == (if background.JStr? then InvalidLiteral else AttributeError)
  {
    if mode == JStr("cover") then Success(resizer.fitted)
    else if mode == JStr("contain") then
      if !background.JStr? then Failure(AttributeError)
      else
        var rgb :- HexToRgb(background.s);
        Success(resizer.composed(rgb.0, rgb.1, rgb.2))
    else Failure(InvalidMode)
  }

  /** `process_image` after the Pillow work: a picture of any other size
      than the target is `Image resizing failed`; otherwise the packed
      bytes. The closing length check can never fire. */
  method ProcessImage(resizer: Resizer, width: nat, height: nat, mode: Json, background: Json)
    returns (r: Result<Bytes>)
    ensures Resized(resizer, mode, background).Failure? ==> r == Failure(Resized(resizer, mode, background).error)
    ensures Resized(resizer, mode, background).Success? ==>
      var img := Resized(resizer, mode, background).value;
      (r.Success? <==> img.width == width && img.height == height)
      && (r.Failure? ==> r == Failure(ResizeFailed(img.width, img.height)))
      && (r.Success? ==> Packed(r.value, img.pixel, width, height))
  {
    var resized := Resized(resizer, mode, background);
    if resized.Failure? {
      return Failure(resized.error);
    }
    var img := resized.value;
    if img.width != width || img.height != height {
      return Failure(ResizeFailed(img.width, img.height));
    }
    var raw := PackPixels(img.pixel, width, height);
    RawPacked(img.pixel, width, height);
    var expected := width * height * 4;
    assert |raw| == expected;
    if |raw| != expected {
      // "Raw data length mismatch": the packing always has this length
      assert false;
    }
    return Success(raw);
  }
}
