/**
  Textures: a row-major grid of colours sampled by two parameters in [0, 1],
  and the row flip that turns the decoder's byte buffer into that grid.
 */
module Textures {

  import opened RealArith
  import opened Primitives

  newtype byte = b: int | 0 <= b < 256

  /** `Texture`: `pixels` holds `width * height` colours, row by row. */
  datatype Texture = Texture(pixels: seq<Color>, width: int, height: int)

  /** A texture that can be sampled: at least one texel and as many pixels as its size says. */
  type Image = t: Texture | 1 <= t.width && 1 <= t.height && |t.pixels| == t.width * t.height
    witness Texture([Black], 1, 1)

  /** The C conversion `(int) f`, which truncates toward zero. */
  function Trunc(f: real): (n: int)
    ensures 0.0 <= f ==> n == f.Floor
    ensures f < 0.0 ==> n == -((-f).Floor)
    ensures -1.0 < f < 1.0 ==> n == 0
  {
    if 0.0 <= f then f.Floor else -((-f).Floor)
  }

  /**
    One texel coordinate of `Texture::operator()`: the truncated product,
    first lowered to `size - 1` when it reaches `size`, then raised to 0 when
    negative.
   */
  function TexelCoord(f: real, size: int): (k: int)
    requires 1 <= size
    ensures 0 <= k < size
    ensures 0 <= Trunc(f) < size ==> k == Trunc(f)
    ensures size <= Trunc(f) ==> k == size - 1
    ensures Trunc(f) < 0 ==> k == 0
  {
    var k := Trunc(f);
    var k := if k >= size then size - 1 else k;
    if k < 0 then 0 else k
  }

  /** Offset of the first pixel of row `row` in an image `width` wide: `row` rows of `width` pixels. */
  function RowStart(width: nat, row: nat): nat
  {
    if row == 0 then 0 else RowStart(width, row - 1) + width
  }

  /** The repeated sum is the product the source computes. */
  lemma {:induction false} RowStartProduct(width: nat, row: nat)
    ensures RowStart(width, row) == row * width
  {
    if row > 0 {
      RowStartProduct(width, row - 1);
    }
  }

  /** Each earlier row ends no later than a later row starts. */
  lemma {:induction false} RowStartMono(width: nat, r: nat, row: nat)
    requires r < row
    ensures RowStart(width, r) + width <= RowStart(width, row)
  {
    if r < row - 1 {
      RowStartMono(width, r, row - 1);
    }
  }

  /** Row-major position `row * width + col` of column `col` of row `row`. */
  function ImageIndex(width: nat, row: nat, col: int): int
  {
    RowStart(width, row) + col
  }

  /** Every in-range row and column lands inside its own row block of the `width * height` pixels. */
  lemma ImageIndexInRange(width: nat, height: nat, row: nat, col: int)
    requires row < height && 0 <= col < width
    ensures RowStart(width, row) <= ImageIndex(width, row, col) < RowStart(width, row) + width
    ensures 0 <= ImageIndex(width, row, col) < width * height
  {
    RowStartMono(width, row, height);
    RowStartProduct(width, height);
  }

  /** The index into `pixels` that `Texture::operator()` reads for parameters `s` and `t`. */
  function TexelIndex(tex: Image, s: real, t: real): (i: int)
    ensures 0 <= i < |tex.pixels|
    ensures i == ImageIndex(tex.width, TexelCoord(t * tex.height as real, tex.height),
                                       TexelCoord(s * tex.width as real, tex.width))
  {
    var x := TexelCoord(s * tex.width as real, tex.width);
    var y := TexelCoord(t * tex.height as real, tex.height);
    ImageIndexInRange(tex.width, tex.height, y, x);
    ImageIndex(tex.width, y, x)
  }

  /** `Texture::operator()`: the texel at parameters `(s, t)`; out-of-range parameters clamp to the border. */
  function Sample(tex: Image, s: real, t: real): (c: Color)
    ensures c in tex.pixels
    ensures c == tex.pixels[TexelIndex(tex, s, t)]
  {
    tex.pixels[TexelIndex(tex, s, t)]
  }

  /** A parameter in [0, 1) selects the texel `floor(s * size)`, which is in range without clamping. */
  lemma TexelCoordInside(s: real, size: int)
    requires 0.0 <= s < 1.0
    requires 1 <= size
    ensures TexelCoord(s * size as real, size) == (s * size as real).Floor
    ensures 0 <= (s * size as real).Floor < size
  {
    ScaleBelow(s, size as real);
  }

  /** The parameter 1 would index one past the last texel; the clamp maps it to the last one. */
  lemma TexelCoordAtOne(size: int)
    requires 1 <= size
    ensures Trunc(1.0 * size as real) == size
    ensures TexelCoord(1.0 * size as real, size) == size - 1
  {
  }

  /** The corners of the parameter square sample the first and the last pixel. */
  lemma SampleCorners(tex: Image)
    ensures Sample(tex, 0.0, 0.0) == tex.pixels[0]
    ensures Sample(tex, 1.0, 1.0) == tex.pixels[|tex.pixels| - 1]
  {
    TexelCoordAtOne(tex.width);
    TexelCoordAtOne(tex.height);
    RowStartProduct(tex.width, tex.height);
    assert ImageIndex(tex.width, tex.height - 1, tex.width - 1) == tex.width * tex.height - 1;
  }

  /* ---------------- loading ---------------- */

  /** The row of the decoder's buffer that holds image row `row`: the buffer is upside down. */
  function FlipRow(height: int, row: int): (r: int)
    ensures 0 <= row < height ==> 0 <= r < height
  {
    height - row - 1
  }

  /** Flipping twice gives the row back, so the flip is a bijection of [0, height). */
  lemma FlipRowInvolution(height: int, row: int)
    ensures FlipRow(height, FlipRow(height, row)) == row
  {
  }

  /** Position of the red byte of image row `row`, column `col` in the decoder's RGB buffer. */
  function BufferIndex(width: nat, height: nat, row: int, col: int): (i: int)
    requires 0 <= row < height && 0 <= col < width
    ensures 0 <= i && i + 2 < width * height * 3
    ensures i % 3 == 0
  {
    var flipped: nat := FlipRow(height, row);
    ImageIndexInRange(width, height, flipped, col);
    ImageIndex(width, flipped, col) * 3
  }

  /** One channel: a byte divided by 255. */
  function Channel(b: byte): (f: real)
    ensures 0.0 <= f <= 1.0
    ensures b == 0 <==> f == 0.0
    ensures b == 255 <==> f == 1.0
  {
    b as real / 255.0
  }

  /** The colour of the three bytes starting at `i`. */
  function BufferColor(buffer: seq<byte>, i: int): (c: Color)
    requires 0 <= i && i + 2 < |buffer|
    ensures InUnit(c)
  {
    Color(Channel(buffer[i]), Channel(buffer[i + 1]), Channel(buffer[i + 2]))
  }

  /** The colour the loader stores for image row `row`, column `col`. */
  function LoadedTexel(buffer: seq<byte>, width: nat, height: nat, row: int, col: int): Color
    requires |buffer| == width * height * 3
    requires 0 <= row < height && 0 <= col < width
  {
    BufferColor(buffer, BufferIndex(width, height, row, col))
  }

  /**
    The pixel loop of `loadTexture`: for every row and column, read the three
    bytes of the mirrored buffer row and store their colour at the row-major
    image position. The pixels are produced in that same row-major order.
   */
  method LoadPixels(buffer: seq<byte>, width: nat, height: nat) returns (pixels: seq<Color>)
    requires |buffer| == width * height * 3
    ensures |pixels| == width * height
    ensures forall row: nat, col :: row < height && 0 <= col < width ==>
      ImageIndex(width, row, col) < |pixels| && pixels[ImageIndex(width, row, col)] == LoadedTexel(buffer, width, height, row, col)
    ensures forall k :: 0 <= k < |pixels| ==> InUnit(pixels[k])
  {
    pixels := [];
    var row: nat := 0;
    while row < height
      invariant row <= height
      invariant |pixels| == RowStart(width, row)
      invariant forall r: nat, c :: r < row && 0 <= c < width ==>
        ImageIndex(width, r, c) < |pixels| && pixels[ImageIndex(width, r, c)] == LoadedTexel(buffer, width, height, r, c)
      invariant forall k :: 0 <= k < |pixels| ==> InUnit(pixels[k])
    {
      var line := LoadRow(buffer, width, height, row);
      AppendRow(pixels, line, buffer, width, height, row);
      pixels := pixels + line;
      row := row + 1;
    }
    RowStartProduct(width, height);
  }

  /** The inner loop of `loadTexture`: the colours of image row `row`, column by column. */
  method LoadRow(buffer: seq<byte>, width: nat, height: nat, row: nat) returns (line: seq<Color>)
    requires |buffer| == width * height * 3
    requires row < height
    ensures |line| == width
    ensures forall c :: 0 <= c < width ==> line[c] == LoadedTexel(buffer, width, height, row, c)
  {
    line := [];
    var col := 0;
    while col < width
      invariant 0 <= col <= width
      invariant |line| == col
      invariant forall c :: 0 <= c < col ==> line[c] == LoadedTexel(buffer, width, height, row, c)
    {
      line := line + [LoadedTexel(buffer, width, height, row, col)];
      col := col + 1;
    }
  }

  /**
    Appending row `row` to the first `row` rows keeps the earlier rows, places
    the new one at its row-major position, and keeps every colour in [0, 1].
   */
  lemma AppendRow(pixels: seq<Color>, line: seq<Color>, buffer: seq<byte>, width: nat, height: nat, row: nat)
    requires |buffer| == width * height * 3
    requires row < height
    requires |pixels| == RowStart(width, row) && |line| == width
    requires forall r: nat, c :: r < row && 0 <= c < width ==>
      ImageIndex(width, r, c) < |pixels| && pixels[ImageIndex(width, r, c)] == LoadedTexel(buffer, width, height, r, c)
    requires forall c :: 0 <= c < width ==> line[c] == LoadedTexel(buffer, width, height, row, c)
    requires forall k :: 0 <= k < |pixels| ==> InUnit(pixels[k])
    ensures |pixels + line| == RowStart(width, row + 1)
    ensures forall r: nat, c :: r < row + 1 && 0 <= c < width ==>
      ImageIndex(width, r, c) < |pixels + line| && (pixels + line)[ImageIndex(width, r, c)] == LoadedTexel(buffer, width, height, r, c)
    ensures forall k :: 0 <= k < |pixels + line| ==> InUnit((pixels + line)[k])
  {
    forall k | 0 <= k < |pixels + line|
      ensures InUnit((pixels + line)[k])
    {
      if k >= |pixels| {
        assert (pixels + line)[k] == line[k - |pixels|];
      }
    }
    forall r: nat, c | r < row + 1 && 0 <= c < width
      ensures ImageIndex(width, r, c) < |pixels + line|
      ensures (pixels + line)[ImageIndex(width, r, c)] == LoadedTexel(buffer, width, height, r, c)
    {
      if r < row {
        RowStartMono(width, r, row);
      } else {
        assert ImageIndex(width, r, c) == |pixels| + c;
      }
    }
  }
}
