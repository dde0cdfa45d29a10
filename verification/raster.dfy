/** Decoding a whole image: the blocks are stored row of blocks after row
    of blocks, left to right, and each block's 4x4 tile is copied into a
    row-major RGBA output of `width * height * 4` bytes, clipped at the
    right and bottom edges. */
module Raster {
  import opened Bits
  import opened Color
  import opened Block
  import Dxt1
  import Dxt3
  import Dxt5

  /** The three block formats. */
  datatype Format = DXT1 | DXT3 | DXT5

  /** Bytes per 4x4 block. */
  function BlockBytes(format: Format): (size: nat)
    ensures size == 8 || size == 16
  {
    match format
    case DXT1 => 8
    case DXT3 => 16
    case DXT5 => 16
  }

  /** `(n + 3) / 4`: the number of blocks that cover `n` pixels. */
  function BlockCount(n: nat): (count: nat)
    ensures 4 * count >= n && 4 * count < n + 4
    ensures count == 0 <==> n == 0
  {
    (n + 3) / 4
  }

  /** The input bytes a `width` by `height` image needs: one block for
      every started 4x4 tile. */
  function RequiredLength(format: Format, width: nat, height: nat): nat
  {
    BlockCount(width) * BlockCount(height) * BlockBytes(format)
  }

  /** An empty image needs no input and any other at least one block; the
      length is always a whole number of blocks. */
  lemma RequiredLengthShape(format: Format, width: nat, height: nat)
    ensures RequiredLength(format, width, height) == 0 <==> width == 0 || height == 0
    ensures RequiredLength(format, width, height) >= BlockBytes(format) <==> width > 0 && height > 0
    ensures RequiredLength(format, width, height) % BlockBytes(format) == 0
  {
    var blocks := BlockCount(width) * BlockCount(height);
    assert blocks == 0 <==> width == 0 || height == 0;
    assert RequiredLength(format, width, height) == blocks * BlockBytes(format);
  }

  /** The 64-byte tile of one block. */
  function Tile(format: Format, block: seq<Byte>): (tile: seq<Byte>)
    requires |block| == BlockBytes(format)
    ensures |tile| == 64
  {
    match format
    case DXT1 => Dxt1.Tile1(block)
    case DXT3 => Dxt3.Tile3(block)
    case DXT5 => Dxt5.Tile5(block)
  }

  /** The sixteen pixels of one block. */
  function Pixels(format: Format, block: seq<Byte>): (pixels: seq<Rgba>)
    requires |block| == BlockBytes(format)
    ensures |pixels| == 16 && Tile(format, block) == TileOf(pixels)
  {
    match format
    case DXT1 => Dxt1.Pixels1(block)
    case DXT3 => Dxt3.Pixels3(block)
    case DXT5 => Dxt5.Pixels5(block)
  }

  /** `FillTile1`, `FillTile3` or `FillTile5`: decodes one block into the
      tile buffer. */
  method FillTile(format: Format, block: seq<Byte>, buffer: array<Byte>)
    requires |block| == BlockBytes(format) && buffer.Length == 64
    modifies buffer
    ensures buffer[..] == Tile(format, block)
  {
    match format
    case DXT1 => Dxt1.FillTile1(block, buffer);
    case DXT3 => Dxt3.FillTile3(block, buffer);
    case DXT5 => Dxt5.FillTile5(block, buffer);
  }

  // ---------------------------------------------------------------------
  // Output coordinates

  /** The image row of output byte `n`. */
  function Row(n: nat, width: nat): nat
  {
    if width == 0 then 0 else (n / 4) / width
  }

  /** The image column of output byte `n`. */
  function Col(n: nat, width: nat): nat
  {
    if width == 0 then 0 else (n / 4) % width
  }

  /** Where output byte `n` sits in the tile of the block that covers it. */
  function TileIndex(n: nat, width: nat): (t: nat)
    ensures t < 64
  {
    ((Row(n, width) % 4) * 4 + Col(n, width) % 4) * 4 + n % 4
  }

  /** Channel `c` of the pixel at row `j`, column `i` is output byte
      `(j * width + i) * 4 + c`, and that byte's coordinates give back `j`,
      `i` and `c`. */
  lemma Coordinates(width: nat, j: nat, i: nat, c: nat)
    requires i < width && c < 4
    ensures var n := (j * width + i) * 4 + c;
      Row(n, width) == j && Col(n, width) == i && n % 4 == c
  {
    var n := (j * width + i) * 4 + c;
    DivModUnique(n, 4, j * width + i, c);
    DivModUnique(j * width + i, width, j, i);
  }

  /** Every output byte is channel `n % 4` of the pixel at its row and
      column. */
  lemma Compose(n: nat, width: nat)
    requires width > 0
    ensures n == (Row(n, width) * width + Col(n, width)) * 4 + n % 4
  {
  }

  /** Every byte of a `width * height * 4` output lies inside the image. */
  lemma InImage(n: nat, width: nat, height: nat)
    requires n < width * height * 4
    ensures width > 0 && Row(n, width) < height && Col(n, width) < width
  {
    if Row(n, width) >= height {
      Compose(n, width);
      MulLe(height, Row(n, width), width);
    }
  }

  /** Multiplying both sides of `a <= b` by `c`. */
  lemma MulLe(a: nat, b: nat, c: nat)
    requires a <= b
    ensures a * c <= b * c
  {
  }

  // ---------------------------------------------------------------------
  // The image

  /** Block `blockY * BlockCount(width) + blockX` of the input, the one
      covering columns `4*blockX ..` and rows `4*blockY ..`. */
  function BlockAt(format: Format, input: seq<Byte>, width: nat, height: nat, blockX: nat, blockY: nat): (block: seq<Byte>)
    requires |input| >= RequiredLength(format, width, height)
    requires blockX < BlockCount(width) && blockY < BlockCount(height)
    ensures |block| == BlockBytes(format)
  {
    var offset := (blockY * BlockCount(width) + blockX) * BlockBytes(format);
    BlockFits(BlockCount(width), BlockCount(height), BlockBytes(format), blockX, blockY);
    input[offset .. offset + BlockBytes(format)]
  }

  /** Block `blockY * across + blockX` ends within `across * down` blocks. */
  lemma BlockFits(across: nat, down: nat, size: nat, blockX: nat, blockY: nat)
    requires blockX < across && blockY < down
    ensures (blockY * across + blockX + 1) * size <= across * down * size
  {
    MulLe(blockY + 1, down, across);
    assert blockY * across + blockX + 1 <= across * down;
    MulLe(blockY * across + blockX + 1, across * down, size);
  }

  /** Output byte `n`: the byte of the covering block's tile at the pixel's
      place in that tile. */
  function ImageByte(format: Format, input: seq<Byte>, width: nat, height: nat, n: nat): Byte
    requires |input| >= RequiredLength(format, width, height) && n < width * height * 4
  {
    InImage(n, width, height);
    var row, col := Row(n, width), Col(n, width);
    Tile(format, BlockAt(format, input, width, height, col / 4, row / 4))[TileIndex(n, width)]
  }

  /** The decoded image, row-major, four bytes per pixel. */
  function Image(format: Format, input: seq<Byte>, width: nat, height: nat): (image: seq<Byte>)
    requires |input| >= RequiredLength(format, width, height)
    ensures |image| == width * height * 4
  {
    seq(width * height * 4, n requires 0 <= n < width * height * 4 => ImageByte(format, input, width, height, n))
  }

  /** Output byte `n` is the byte at `TileIndex(n, width)` of the tile of
      the block covering it. */
  lemma ImageAt(format: Format, input: seq<Byte>, width: nat, height: nat, n: nat)
    requires |input| >= RequiredLength(format, width, height) && n < width * height * 4
    ensures Col(n, width) / 4 < BlockCount(width) && Row(n, width) / 4 < BlockCount(height)
    ensures Image(format, input, width, height)[n]
      == Tile(format, BlockAt(format, input, width, height, Col(n, width) / 4, Row(n, width) / 4))[TileIndex(n, width)]
  {
    InImage(n, width, height);
    assert Image(format, input, width, height)[n] == ImageByte(format, input, width, height, n);
  }

  /** Output byte `n` is channel `n % 4` of the pixel at its row and
      column within the block covering that pixel. */
  lemma ImageByteOfPixel(format: Format, input: seq<Byte>, width: nat, height: nat, n: nat)
    requires |input| >= RequiredLength(format, width, height) && n < width * height * 4
    ensures Col(n, width) / 4 < BlockCount(width) && Row(n, width) / 4 < BlockCount(height)
    ensures var row, col := Row(n, width), Col(n, width);
      Image(format, input, width, height)[n]
      == RgbaBytes(Pixels(format, BlockAt(format, input, width, height, col / 4, row / 4))[(row % 4) * 4 + col % 4])[n % 4]
  {
    ImageAt(format, input, width, height, n);
    var row, col := Row(n, width), Col(n, width);
    var q := (row % 4) * 4 + col % 4;
    assert TileIndex(n, width) == 4 * q + n % 4;
    TileByte(Pixels(format, BlockAt(format, input, width, height, col / 4, row / 4)), q, n % 4);
  }

  /** Output byte `(j * width + i) * 4 + c`: channel `c` of the pixel at
      row `j`, column `i`. */
  function ByteOffset(width: nat, j: nat, i: nat, c: nat): nat
  {
    (j * width + i) * 4 + c
  }

  /** Pixel `(i, j)` of the image is pixel `(i % 4, j % 4)` of the block
      covering it, in R, G, B, A order. */
  lemma ImagePixel(format: Format, input: seq<Byte>, width: nat, height: nat, j: nat, i: nat, c: nat)
    requires |input| >= RequiredLength(format, width, height)
    requires j < height && i < width && c < 4
    ensures ByteOffset(width, j, i, c) < width * height * 4 == |Image(format, input, width, height)|
    ensures i / 4 < BlockCount(width) && j / 4 < BlockCount(height)
    ensures Image(format, input, width, height)[ByteOffset(width, j, i, c)]
      == RgbaBytes(Pixels(format, BlockAt(format, input, width, height, i / 4, j / 4))[(j % 4) * 4 + i % 4])[c]
  {
    var n := ByteOffset(width, j, i, c);
    PixelInImage(width, height, j, i);
    assert n < width * height * 4;
    Coordinates(width, j, i, c);
    assert Row(n, width) == j && Col(n, width) == i && n % 4 == c;
    ImageByteOfPixel(format, input, width, height, n);
  }

  // ---------------------------------------------------------------------
  // Placement

  /** `(j * width + x * 4) * 4 + k`: where the blit loop puts byte `k` of
      tile row `i` of block `(x, y)`, with `j = y * 4 + i`. */
  function Target(width: nat, x: nat, y: nat, i: nat, k: nat): nat
  {
    ((4 * y + i) * width + 4 * x) * 4 + k
  }

  /** Columns of block column `x` inside an image `width` wide. */
  function Columns(width: nat, x: nat): nat
    requires 4 * x < width
  {
    if 4 * x + 4 <= width then 4 else width - 4 * x
  }

  /** A byte the blit loop copies: a tile row inside the image and a byte
      inside the clipped row. */
  predicate Visible(width: nat, height: nat, x: nat, y: nat, i: nat, k: nat)
  {
    4 * x < width && i < 4 && 4 * y + i < height && k < 4 * Columns(width, x)
  }

  /** Every copied byte lands inside the output, at the pixel and channel
      its tile position names. */
  lemma TargetInImage(width: nat, height: nat, x: nat, y: nat, i: nat, k: nat)
    requires Visible(width, height, x, y, i, k)
    ensures Target(width, x, y, i, k) < width * height * 4
    ensures var n := Target(width, x, y, i, k);
      Row(n, width) == 4 * y + i && Col(n, width) == 4 * x + k / 4 && n % 4 == k % 4
  {
    var j, col := 4 * y + i, 4 * x + k / 4;
    assert Target(width, x, y, i, k) == (j * width + col) * 4 + k % 4;
    Coordinates(width, j, col, k % 4);
    PixelInImage(width, height, j, col);
  }

  /** The pixel at row `j`, column `i` of the image comes before pixel
      `width * height`. */
  lemma PixelInImage(width: nat, height: nat, j: nat, i: nat)
    requires j < height && i < width
    ensures j * width + i < width * height
  {
    MulLe(j + 1, height, width);
    assert (j + 1) * width == j * width + width;
  }

  /** No output byte is written twice: two copied bytes with the same
      target are the same byte of the same block. */
  lemma TargetsDistinct(width: nat, height: nat, x: nat, y: nat, i: nat, k: nat,
                        x': nat, y': nat, i': nat, k': nat)
    requires Visible(width, height, x, y, i, k) && Visible(width, height, x', y', i', k')
    requires Target(width, x, y, i, k) == Target(width, x', y', i', k')
    ensures x == x' && y == y' && i == i' && k == k'
  {
    TargetInImage(width, height, x, y, i, k);
    TargetInImage(width, height, x', y', i', k');
  }

  /** Every output byte is written: each is the target of one copied
      byte. */
  lemma TargetsCover(width: nat, height: nat, n: nat)
    requires n < width * height * 4
    ensures var row, col := Row(n, width), Col(n, width);
      && Visible(width, height, col / 4, row / 4, row % 4, (col % 4) * 4 + n % 4)
      && n == Target(width, col / 4, row / 4, row % 4, (col % 4) * 4 + n % 4)
  {
    InImage(n, width, height);
    Compose(n, width);
  }

  // ---------------------------------------------------------------------
  // The decoding loops

  /** Output byte `n` lies in block `(x, y)`, whose columns are
      `4*x .. 4*x + cols - 1`. */
  predicate InBlock(n: nat, width: nat, x: nat, y: nat, cols: nat)
  {
    4 * y <= Row(n, width) < 4 * y + 4 && 4 * x <= Col(n, width) < 4 * x + cols
  }

  /** The blit has reached output byte `n` of block `(x, y)`: a tile row
      above `row`, or row `row` before byte `k` of the clipped tile row. */
  predicate Copied(n: nat, width: nat, x: nat, y: nat, cols: nat, row: nat, k: nat)
  {
    && InBlock(n, width, x, y, cols)
    && (Row(n, width) < row || (Row(n, width) == row && (Col(n, width) - 4 * x) * 4 + n % 4 < k))
  }

  /** The output once the blit of block `(x, y)` has copied the bytes
      `Copied` names from the tile. */
  function Copy(before: seq<Byte>, tile: seq<Byte>, width: nat, x: nat, y: nat, cols: nat, row: nat, k: nat): (after: seq<Byte>)
    requires |tile| == 64
    ensures |after| == |before|
  {
    seq(|before|, n requires 0 <= n < |before| =>
      if Copied(n, width, x, y, cols, row, k) then tile[TileIndex(n, width)] else before[n])
  }

  /** The output with the part of block `(x, y)` inside the image replaced
      by the block's tile. */
  function Place(before: seq<Byte>, tile: seq<Byte>, width: nat, x: nat, y: nat, cols: nat): (after: seq<Byte>)
    requires |tile| == 64
    ensures |after| == |before|
  {
    seq(|before|, n requires 0 <= n < |before| =>
      if InBlock(n, width, x, y, cols) then tile[TileIndex(n, width)] else before[n])
  }

  /** The copy loop for one block: `length` bytes of each tile row, for
      the tile rows inside the image. */
  method Blit(output: array<Byte>, buffer: array<Byte>, width: nat, height: nat, x: nat, y: nat, length: nat)
    requires output.Length == width * height * 4 && buffer.Length == 64 && output != buffer
    requires 4 * x < width && 4 * y < height && length == 4 * Columns(width, x)
    modifies output
    ensures output[..] == Place(old(output[..]), buffer[..], width, x, y, Columns(width, x))
  {
    ghost var before, tile, cols := output[..], buffer[..], Columns(width, x);
    var i := 0;
    var j := y * 4;
    CopyNone(before, tile, width, x, y, cols);
    while i < 4 && j < height
      invariant i <= 4 && j == y * 4 + i && j <= height
      invariant output[..] == Copy(before, tile, width, x, y, cols, j, 0)
    {
      var bidx := i * 16;
      var oidx := (j * width + x * 4) * 4;
      var k := 0;
      while k < length
        invariant k <= length
        invariant output[..] == Copy(before, tile, width, x, y, cols, j, k)
      {
        CopyStep(before, tile, width, height, x, y, i, k);
        output[oidx + k] := buffer[bidx + k];
        k := k + 1;
      }
      NextTileRow(before, tile, width, x, y, cols, j);
      i := i + 1;
      j := j + 1;
    }
    BlitDone(before, tile, width, height, x, y, cols, j);
  }

  /** Before the first tile row nothing of the block is copied. */
  lemma CopyNone(before: seq<Byte>, tile: seq<Byte>, width: nat, x: nat, y: nat, cols: nat)
    requires |tile| == 64
    ensures Copy(before, tile, width, x, y, cols, 4 * y, 0) == before
  {
  }

  /** `output[oidx + k] = buffer[bidx + k]`: byte `k` of tile row `i` goes
      to `Target`, the one byte `Copied` adds when `k` moves on. */
  lemma CopyStep(before: seq<Byte>, tile: seq<Byte>, width: nat, height: nat, x: nat, y: nat, i: nat, k: nat)
    requires |before| == width * height * 4 && |tile| == 64
    requires 4 * x < width && i < 4 && 4 * y + i < height && k < 4 * Columns(width, x)
    ensures Target(width, x, y, i, k) == ((y * 4 + i) * width + x * 4) * 4 + k < |before|
    ensures var cols := Columns(width, x);
      Copy(before, tile, width, x, y, cols, 4 * y + i, k)[Target(width, x, y, i, k) := tile[i * 16 + k]]
      == Copy(before, tile, width, x, y, cols, 4 * y + i, k + 1)
  {
    var m, cols := Target(width, x, y, i, k), Columns(width, x);
    TargetInImage(width, height, x, y, i, k);
    TileSlot(x, y, i, k);
    assert TileIndex(m, width) == i * 16 + k;
    var a, b := Copy(before, tile, width, x, y, cols, 4 * y + i, k), Copy(before, tile, width, x, y, cols, 4 * y + i, k + 1);
    forall n | 0 <= n < |before|
      ensures a[m := tile[i * 16 + k]][n] == b[n]
    {
      if n != m && Copied(n, width, x, y, cols, 4 * y + i, k + 1) {
        Compose(n, width);
      }
    }
  }

  /** Byte `k` of tile row `i` is byte `i * 16 + k` of the tile. */
  lemma TileSlot(x: nat, y: nat, i: nat, k: nat)
    requires i < 4 && k < 16
    ensures (((4 * y + i) % 4) * 4 + (4 * x + k / 4) % 4) * 4 + k % 4 == i * 16 + k
  {
  }

  /** A finished tile row: the whole clipped row is copied. */
  lemma NextTileRow(before: seq<Byte>, tile: seq<Byte>, width: nat, x: nat, y: nat, cols: nat, row: nat)
    requires |tile| == 64
    ensures Copy(before, tile, width, x, y, cols, row, 4 * cols) == Copy(before, tile, width, x, y, cols, row + 1, 0)
  {
  }

  /** Once the tile rows run out or reach the bottom edge, every byte of
      the block inside the image is copied. */
  lemma BlitDone(before: seq<Byte>, tile: seq<Byte>, width: nat, height: nat, x: nat, y: nat, cols: nat, row: nat)
    requires |before| == width * height * 4 && |tile| == 64
    requires row == 4 * y + 4 || row == height
    ensures Copy(before, tile, width, x, y, cols, row, 0) == Place(before, tile, width, x, y, cols)
  {
    forall n | 0 <= n < |before|
      ensures Copied(n, width, x, y, cols, row, 0) == InBlock(n, width, x, y, cols)
    {
      InImage(n, width, height);
    }
  }

  /** The output bytes before block `(x, y)`: all rows above the band of
      block row `y`, and in that band the columns left of block column
      `x`. */
  predicate Before(n: nat, width: nat, x: nat, y: nat)
  {
    Row(n, width) < 4 * y || (Row(n, width) < 4 * y + 4 && Col(n, width) < 4 * x)
  }

  /** Every output byte before block `(x, y)` holds its image byte. */
  ghost predicate Filled(output: seq<Byte>, image: seq<Byte>, width: nat, x: nat, y: nat)
  {
    |output| == |image| && forall n {:trigger output[n]} :: 0 <= n < |output| && Before(n, width, x, y) ==> output[n] == image[n]
  }

  /** Blitting the tile of block `(x, y)` extends the filled part by that
      block. */
  lemma FilledStep(format: Format, input: seq<Byte>, width: nat, height: nat, x: nat, y: nat,
                   before: seq<Byte>, after: seq<Byte>, tile: seq<Byte>, cols: nat)
    requires |input| >= RequiredLength(format, width, height)
    requires x < BlockCount(width) && y < BlockCount(height)
    requires tile == Tile(format, BlockAt(format, input, width, height, x, y))
    requires cols == Columns(width, x)
    requires Filled(before, Image(format, input, width, height), width, x, y)
    requires after == Place(before, tile, width, x, y, cols)
    ensures Filled(after, Image(format, input, width, height), width, x + 1, y)
  {
    var image := Image(format, input, width, height);
    forall n | 0 <= n < |after| && Before(n, width, x + 1, y)
      ensures after[n] == image[n]
    {
      if InBlock(n, width, x, y, cols) {
        FilledAt(format, input, width, height, x, y, tile, cols, n);
      } else {
        BeforeStep(n, width, height, x, y, cols);
      }
    }
  }

  /** A byte of block `(x, y)` inside the image gets its image byte from
      the block's tile. */
  lemma FilledAt(format: Format, input: seq<Byte>, width: nat, height: nat, x: nat, y: nat,
                 tile: seq<Byte>, cols: nat, n: nat)
    requires |input| >= RequiredLength(format, width, height)
    requires x < BlockCount(width) && y < BlockCount(height)
    requires tile == Tile(format, BlockAt(format, input, width, height, x, y))
    requires cols <= 4 && n < width * height * 4 && InBlock(n, width, x, y, cols)
    ensures tile[TileIndex(n, width)] == Image(format, input, width, height)[n]
  {
    BlockOfByte(n, width, x, y, cols);
    ImageAt(format, input, width, height, n);
  }

  /** A byte of block `(x, y)` lies in block column `x` and block row `y`. */
  lemma BlockOfByte(n: nat, width: nat, x: nat, y: nat, cols: nat)
    requires cols <= 4 && InBlock(n, width, x, y, cols)
    ensures Col(n, width) / 4 == x && Row(n, width) / 4 == y
  {
  }

  /** A byte before block `(x + 1, y)` that block `(x, y)` does not cover
      comes before block `(x, y)`. */
  lemma BeforeStep(n: nat, width: nat, height: nat, x: nat, y: nat, cols: nat)
    requires n < width * height * 4 && 4 * x < width && cols == Columns(width, x)
    requires Before(n, width, x + 1, y) && !InBlock(n, width, x, y, cols)
    ensures Before(n, width, x, y)
  {
    InImage(n, width, height);
  }

  /** `(width + 3) % 4 + 1` columns in the last block column, 4 in the
      others. */
  lemma ColumnsOf(width: nat, x: nat)
    requires x < BlockCount(width)
    ensures x < BlockCount(width) - 1 ==> Columns(width, x) == 4
    ensures x == BlockCount(width) - 1 ==> Columns(width, x) == (width + 3) % 4 + 1
  {
  }

  /** One pass of the inner loop: decodes block `(x, y)`, the block at
      `offset`, into the tile buffer and copies its tile into the output. */
  method DecodeBlock(format: Format, input: seq<Byte>, width: nat, height: nat, x: nat, y: nat, offset: nat,
                     buffer: array<Byte>, out: array<Byte>)
    requires |input| >= RequiredLength(format, width, height)
    requires x < BlockCount(width) && y < BlockCount(height)
    requires offset == (y * BlockCount(width) + x) * BlockBytes(format)
    requires buffer.Length == 64 && out.Length == width * height * 4 && buffer != out
    requires Filled(out[..], Image(format, input, width, height), width, x, y)
    modifies buffer, out
    ensures Filled(out[..], Image(format, input, width, height), width, x + 1, y)
    ensures forall n :: 0 <= n < out.Length && !InBlock(n, width, x, y, Columns(width, x)) ==> out[n] == old(out[n])
  {
    var blockBytes := BlockBytes(format);
    BlockFits(BlockCount(width), BlockCount(height), blockBytes, x, y);
    assert input[offset .. offset + blockBytes] == BlockAt(format, input, width, height, x, y);
    FillTile(format, input[offset .. offset + blockBytes], buffer);
    var length := ((width + 3) % 4 + 1) * 4;
    if x < (width + 3) / 4 - 1 {
      length := 16;
    }
    ColumnsOf(width, x);
    ghost var before := out[..];
    Blit(out, buffer, width, height, x, y, length);
    FilledStep(format, input, width, height, x, y, before, out[..], buffer[..], Columns(width, x));
    forall n | 0 <= n < out.Length && !InBlock(n, width, x, y, Columns(width, x))
      ensures out[n] == before[n]
    {
      assert out[n] == out[..][n];
    }
  }

  /** Decodes a `width` by `height` image of `format` blocks: fails, with no
      output, exactly when the input is shorter than the blocks the image
      needs; otherwise returns the image. */
  method Decode(format: Format, input: seq<Byte>, width: nat, height: nat) returns (output: seq<Byte>, failed: bool)
    ensures failed <==> |input| < RequiredLength(format, width, height)
    ensures failed ==> output == []
    ensures !failed ==> output == Image(format, input, width, height)
  {
    if |input| < RequiredLength(format, width, height) {
      return [], true;
    }
    var buffer := new Byte[64];
    var out := new Byte[width * height * 4];
    DecodeBands(format, input, width, height, buffer, out);
    output := out[..];
    failed := false;
    AllFilled(output, Image(format, input, width, height), width, height, BlockCount(height));
  }

  /** The outer loop: decodes the block rows top to bottom into `out`,
      the offset advancing by one block row each. */
  method DecodeBands(format: Format, input: seq<Byte>, width: nat, height: nat, buffer: array<Byte>, out: array<Byte>)
    requires |input| >= RequiredLength(format, width, height)
    requires buffer.Length == 64 && out.Length == width * height * 4 && buffer != out
    modifies buffer, out
    ensures Filled(out[..], Image(format, input, width, height), width, 0, BlockCount(height))
  {
    var blockBytes := BlockBytes(format);
    var blockCountX := (width + 3) / 4;
    var blockCountY := (height + 3) / 4;
    ghost var image := Image(format, input, width, height);
    var offset := 0;
    var y := 0;
    while y < blockCountY
      invariant y <= blockCountY
      invariant offset == y * blockCountX * blockBytes
      invariant Filled(out[..], image, width, 0, y)
    {
      offset := DecodeRow(format, input, width, height, y, offset, buffer, out);
      NextBand(y, blockCountX, blockBytes);
      RowDone(out[..], image, width, height, y);
      y := y + 1;
    }
  }

  /** One more band of `across` blocks of `size` bytes. */
  lemma NextBand(y: nat, across: nat, size: nat)
    ensures y * across * size + across * size == (y + 1) * across * size
  {
  }

  /** The inner loop: decodes the blocks of block row `y`, left to right,
      advancing `offset` by one block each. */
  method DecodeRow(format: Format, input: seq<Byte>, width: nat, height: nat, y: nat, offset: nat,
                   buffer: array<Byte>, out: array<Byte>) returns (next: nat)
    requires |input| >= RequiredLength(format, width, height)
    requires y < BlockCount(height) && offset == y * BlockCount(width) * BlockBytes(format)
    requires buffer.Length == 64 && out.Length == width * height * 4 && buffer != out
    requires Filled(out[..], Image(format, input, width, height), width, 0, y)
    modifies buffer, out
    ensures next == offset + BlockCount(width) * BlockBytes(format)
    ensures Filled(out[..], Image(format, input, width, height), width, BlockCount(width), y)
    ensures forall n :: 0 <= n < out.Length && Row(n, width) >= 4 * y + 4 ==> out[n] == old(out[n])
  {
    var blockBytes := BlockBytes(format);
    var blockCountX := (width + 3) / 4;
    next := offset;
    var x := 0;
    while x < blockCountX
      invariant x <= blockCountX
      invariant next == (y * blockCountX + x) * blockBytes
      invariant Filled(out[..], Image(format, input, width, height), width, x, y)
      invariant forall n :: 0 <= n < out.Length && Row(n, width) >= 4 * y + 4 ==> out[n] == old(out[n])
    {
      DecodeBlock(format, input, width, height, x, y, next, buffer, out);
      next := next + blockBytes;
      x := x + 1;
    }
  }

  /** A band of block rows whose every block column is filled. */
  lemma RowDone(output: seq<Byte>, image: seq<Byte>, width: nat, height: nat, y: nat)
    requires |output| == width * height * 4
    requires Filled(output, image, width, BlockCount(width), y)
    ensures Filled(output, image, width, 0, y + 1)
  {
    forall n | 0 <= n < |output| && Before(n, width, 0, y + 1)
      ensures Before(n, width, BlockCount(width), y)
    {
      InImage(n, width, height);
    }
  }

  /** Once every band is filled the output is the image. */
  lemma AllFilled(output: seq<Byte>, image: seq<Byte>, width: nat, height: nat, y: nat)
    requires |output| == width * height * 4 && y == BlockCount(height)
    requires Filled(output, image, width, 0, y)
    ensures output == image
  {
    forall n | 0 <= n < |output|
      ensures output[n] == image[n]
    {
      InImage(n, width, height);
    }
  }

  /** `DecodeDXT1`. */
  method DecodeDXT1(input: seq<Byte>, width: nat, height: nat) returns (output: seq<Byte>, failed: bool)
    ensures failed <==> |input| < BlockCount(width) * BlockCount(height) * 8
    ensures failed ==> output == []
    ensures !failed ==> output == Image(DXT1, input, width, height)
  {
    output, failed := Decode(DXT1, input, width, height);
  }

  /** `DecodeDXT3`. */
  method DecodeDXT3(input: seq<Byte>, width: nat, height: nat) returns (output: seq<Byte>, failed: bool)
    ensures failed <==> |input| < BlockCount(width) * BlockCount(height) * 16
    ensures failed ==> output == []
    ensures !failed ==> output == Image(DXT3, input, width, height)
  {
    output, failed := Decode(DXT3, input, width, height);
  }

  /** `DecodeDXT5`. */
  method DecodeDXT5(input: seq<Byte>, width: nat, height: nat) returns (output: seq<Byte>, failed: bool)
    ensures failed <==> |input| < BlockCount(width) * BlockCount(height) * 16
    ensures failed ==> output == []
    ensures !failed ==> output == Image(DXT5, input, width, height)
  {
    output, failed := Decode(DXT5, input, width, height);
  }

  /** An image with no rows or no columns needs no input and decodes to no
      bytes. */
  lemma EmptyImage(format: Format, input: seq<Byte>, width: nat, height: nat)
    requires width == 0 || height == 0
    ensures RequiredLength(format, width, height) == 0
    ensures Image(format, input, width, height) == []
  {
  }
}
