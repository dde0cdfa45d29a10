/** What the three block formats share: little-endian words, packed
    indices and the layout of a decoded tile.

    A DXT1 block is 8 bytes: two 5:6:5 endpoint words and sixteen 2-bit
    colour indices.  DXT3 and DXT5 blocks are 16 bytes: 8 bytes of alpha
    data followed by a colour part laid out like a DXT1 block.  A tile is 64
    bytes, pixel `i` (row `i / 4`, column `i % 4`) at bytes `4*i .. 4*i + 3`
    in R, G, B, A order. */
module Block {
  import opened Bits
  import opened Color

  // ---------------------------------------------------------------------
  // Little-endian words and packed indices

  /** `uint32(lo) | uint32(hi) << 8`. */
  function Word16(lo: Byte, hi: Byte): (w: Uint32)
    ensures w == lo + 0x100 * hi
  {
    Pow2Values();
    AppendByte(lo, hi, 8, 32);
    Or32(lo, Shl(hi, 8, 32))
  }

  /** `uint32(b0) | uint32(b1) << 8 | uint32(b2) << 16 | uint32(b3) << 24`. */
  function Word32(b0: Byte, b1: Byte, b2: Byte, b3: Byte): (w: Uint32)
    ensures w == b0 + 0x100 * b1 + 0x1_0000 * b2 + 0x100_0000 * b3
  {
    Pow2Values();
    Word32Sum(b0, b1, b2, b3, 32);
    Or32(Or32(Or32(b0, Shl(b1, 8, 32)), Shl(b2, 16, 32)), Shl(b3, 24, 32))
  }

  /** Four bytes ORed in at bits 0, 8, 16 and 24 of a word `width` bits wide. */
  lemma Word32Sum(b0: Byte, b1: Byte, b2: Byte, b3: Byte, width: nat)
    requires 32 <= width
    ensures BitOr(BitOr(BitOr(b0, Shl(b1, 8, width)), Shl(b2, 16, width)), Shl(b3, 24, width))
      == b0 + 0x100 * b1 + 0x1_0000 * b2 + 0x100_0000 * b3
  {
    assert Pow2(8) == 0x100 && Pow2(16) == 0x1_0000 && Pow2(24) == 0x100_0000 by {
      Pow2Values();
    }
    OrByteAt(b0, b1, 8, width, 0x100);
    OrByteAt(b0 + 0x100 * b1, b2, 16, width, 0x1_0000);
    OrByteAt(b0 + 0x100 * b1 + 0x1_0000 * b2, b3, 24, width, 0x100_0000);
  }

  /** `acc | b << k` with `acc` below `p = 2^k` adds `p * b`. */
  lemma OrByteAt(acc: nat, b: Byte, k: nat, width: nat, p: nat)
    requires p == Pow2(k) && acc < p && k + 8 <= width
    ensures BitOr(acc, Shl(b, k, width)) == acc + p * b
    ensures acc + p * b < 0x100 * p
  {
    AppendByte(acc, b, k, width);
    Pow2Add(k, 8);
    assert Pow2(8) == 0x100 by {
      Pow2Values();
    }
  }

  /** The six alpha index bytes of a DXT5 block as one uint64, least
      significant byte first. */
  function Word48(b0: Byte, b1: Byte, b2: Byte, b3: Byte, b4: Byte, b5: Byte): (w: Uint64)
    ensures w == b0 + 0x100 * b1 + 0x1_0000 * b2 + 0x100_0000 * b3 + 0x1_0000_0000 * b4 + 0x100_0000_0000 * b5
  {
    Pow2Values();
    Word48Sum(b0, b1, b2, b3, b4, b5);
    Or64(Or64(Or64(Or64(Or64(b0, Shl(b1, 8, 64)), Shl(b2, 16, 64)), Shl(b3, 24, 64)), Shl(b4, 32, 64)), Shl(b5, 40, 64))
  }

  lemma Word48Sum(b0: Byte, b1: Byte, b2: Byte, b3: Byte, b4: Byte, b5: Byte)
    ensures BitOr(BitOr(BitOr(BitOr(BitOr(b0, Shl(b1, 8, 64)), Shl(b2, 16, 64)), Shl(b3, 24, 64)), Shl(b4, 32, 64)), Shl(b5, 40, 64))
      == b0 + 0x100 * b1 + 0x1_0000 * b2 + 0x100_0000 * b3 + 0x1_0000_0000 * b4 + 0x100_0000_0000 * b5
  {
    var low := BitOr(BitOr(BitOr(b0, Shl(b1, 8, 64)), Shl(b2, 16, 64)), Shl(b3, 24, 64));
    var w3 := b0 + 0x100 * b1 + 0x1_0000 * b2 + 0x100_0000 * b3;
    assert low == w3 by {
      Word32Sum(b0, b1, b2, b3, 64);
    }
    var w4 := w3 + 0x1_0000_0000 * b4;
    assert BitOr(low, Shl(b4, 32, 64)) == w4 < 0x100_0000_0000 by {
      assert Pow2(32) == 0x1_0000_0000 by {
        Pow2Values();
      }
      OrByteAt(w3, b4, 32, 64, 0x1_0000_0000);
    }
    assert BitOr(w4, Shl(b5, 40, 64)) == w4 + 0x100_0000_0000 * b5 by {
      assert Pow2(40) == 0x100_0000_0000 by {
        Pow2Values();
      }
      OrByteAt(w4, b5, 40, 64, 0x100_0000_0000);
    }
  }

  /** The index code with the indices of its first `i` pixels shifted out,
      each index `bits` wide. */
  function Drop(code: nat, bits: nat, i: nat): nat
  {
    if i == 0 then code
    else
      var rest := Drop(code, bits, i - 1);
      DivBounds(rest, Pow2(bits));
      rest / Pow2(bits)
  }

  /** The 2-bit colour index of pixel `i`: the low two bits once the
      indices of the pixels before it are shifted out. */
  function ColorIndex(code: nat, i: nat): (k: nat)
    ensures k < 4
  {
    Drop(code, 2, i) % 4
  }

  /** The 3-bit alpha index of pixel `i`. */
  function AlphaIndex(code: nat, i: nat): (k: nat)
    ensures k < 8
  {
    Drop(code, 3, i) % 8
  }

  /** Shifting out `i` indices is one shift right by `bits * i`. */
  lemma {:induction false} DropShr(code: nat, bits: nat, i: nat)
    ensures Drop(code, bits, i) == Shr(code, bits * i)
  {
    if i == 0 {
      assert Pow2(0) == 1;
    } else {
      DropShr(code, bits, i - 1);
      ShrShr(code, bits * (i - 1), bits);
    }
  }

  /** The colour index of pixel `i` is bits `2i` and `2i + 1` of the code. */
  lemma ColorIndexBits(code: nat, i: nat)
    ensures ColorIndex(code, i) == Field(code, 2 * i, 2)
  {
    DropShr(code, 2, i);
    assert Pow2(2) == 4 by {
      Pow2Values();
    }
  }

  /** The alpha index of pixel `i` is bits `3i` to `3i + 2` of the code. */
  lemma AlphaIndexBits(code: nat, i: nat)
    ensures AlphaIndex(code, i) == Field(code, 3 * i, 3)
  {
    DropShr(code, 3, i);
    assert Pow2(3) == 8 by {
      Pow2Values();
    }
  }

  /** `bitcode & 3` reads the index of pixel `i` once `i` indices are
      shifted out, and `bitcode >>= 2` moves on to the next one. */
  lemma NextColorIndex(code: nat, i: nat)
    ensures BitAnd(Drop(code, 2, i), 0x3) == ColorIndex(code, i)
    ensures Shr(Drop(code, 2, i), 2) == Drop(code, 2, i + 1)
  {
    assert Pow2(2) == 4 by {
      Pow2Values();
    }
    AndLowMask(Drop(code, 2, i), 2);
  }

  /** `bitcode_a & 7` and `bitcode_a >>= 3` for the 3-bit alpha indices. */
  lemma NextAlphaIndex(code: nat, i: nat)
    ensures BitAnd(Drop(code, 3, i), 0x7) == AlphaIndex(code, i)
    ensures Shr(Drop(code, 3, i), 3) == Drop(code, 3, i + 1)
  {
    assert Pow2(3) == 8 by {
      Pow2Values();
    }
    AndLowMask(Drop(code, 3, i), 3);
  }

  // ---------------------------------------------------------------------
  // Block fields as numbers

  /** The little-endian 16-bit word at `block[k]`, `block[k + 1]`. */
  function Endpoint(block: seq<Byte>, k: nat): nat
    requires k + 2 <= |block|
  {
    var lo, hi: nat := block[k], block[k + 1];
    lo + 0x100 * hi
  }

  /** The little-endian 32-bit word at `block[k .. k + 4]`. */
  function Code32(block: seq<Byte>, k: nat): nat
    requires k + 4 <= |block|
  {
    var b0, b1, b2, b3: nat := block[k], block[k + 1], block[k + 2], block[k + 3];
    b0 + 0x100 * b1 + 0x1_0000 * b2 + 0x100_0000 * b3
  }

  /** The little-endian 48-bit word at `block[k .. k + 6]`. */
  function Code48(block: seq<Byte>, k: nat): nat
    requires k + 6 <= |block|
  {
    Code32(block, k) + 0x1_0000_0000 * (block[k + 4] as int) + 0x100_0000_0000 * (block[k + 5] as int)
  }

  // ---------------------------------------------------------------------
  // Tiles

  /** The output bytes of one pixel: R, G, B, A. */
  function RgbaBytes(c: Rgba): seq<Byte>
  {
    [c.r, c.g, c.b, c.a]
  }

  /** Sixteen pixels laid out as a 64-byte tile, row by row. */
  function TileOf(pixels: seq<Rgba>): (tile: seq<Byte>)
    requires |pixels| == 16
    ensures |tile| == 64
  {
    seq(64, n requires 0 <= n < 64 => RgbaBytes(pixels[n / 4])[n % 4])
  }

  /** Pixel `i` of a tile occupies bytes `4*i .. 4*i + 3`. */
  lemma TileLayout(pixels: seq<Rgba>, i: nat)
    requires |pixels| == 16 && i < 16
    ensures TileOf(pixels)[4 * i .. 4 * i + 4] == RgbaBytes(pixels[i])
  {
    var t := TileOf(pixels);
    forall k | 0 <= k < 4
      ensures t[4 * i + k] == RgbaBytes(pixels[i])[k]
    {
      DivModUnique(4 * i + k, 4, i, k);
    }
  }

  /** Byte `4*i + k` of a tile is channel `k` of pixel `i`. */
  lemma TileByte(pixels: seq<Rgba>, i: nat, k: nat)
    requires |pixels| == 16 && i < 16 && k < 4
    ensures TileOf(pixels)[4 * i + k] == RgbaBytes(pixels[i])[k]
  {
    TileLayout(pixels, i);
    assert TileOf(pixels)[4 * i + k] == TileOf(pixels)[4 * i .. 4 * i + 4][k];
  }

  /** The first `4*(i + 1)` bytes of a tile are its first `4*i` bytes
      followed by pixel `i`. */
  lemma TileExtend(pixels: seq<Rgba>, i: nat)
    requires |pixels| == 16 && i < 16
    ensures TileOf(pixels)[..4 * i + 4] == TileOf(pixels)[..4 * i] + RgbaBytes(pixels[i])
  {
    var t := TileOf(pixels);
    TileLayout(pixels, i);
    assert t[..4 * i + 4] == t[..4 * i] + t[4 * i .. 4 * i + 4];
  }

  /** A prefix of four more bytes is the shorter prefix and those bytes. */
  lemma PrefixStep(s: seq<Byte>, i: nat)
    requires 4 * i + 4 <= |s|
    ensures s[..4 * i + 4] == s[..4 * i] + s[4 * i .. 4 * i + 4]
  {
  }

  /** A buffer that holds the first `i` pixels of a tile and then pixel `i`
      holds the first `i + 1`. */
  lemma TileGrows(s: seq<Byte>, pixels: seq<Rgba>, i: nat)
    requires |pixels| == 16 && i < 16 && |s| == 64
    requires s[..4 * i] == TileOf(pixels)[..4 * i] && s[4 * i .. 4 * i + 4] == RgbaBytes(pixels[i])
    ensures s[..4 * i + 4] == TileOf(pixels)[..4 * i + 4]
  {
    PrefixStep(s, i);
    TileExtend(pixels, i);
  }

  /** `buffer[idx+0] = byte(r)` .. `buffer[idx+3] = byte(a)`: writes one
      pixel's four bytes and leaves every other byte alone. */
  method PutPixel(buffer: array<Byte>, idx: nat, c: Rgba)
    requires idx + 4 <= buffer.Length
    modifies buffer
    ensures buffer[..idx] == old(buffer[..idx])
    ensures buffer[idx .. idx + 4] == RgbaBytes(c)
    ensures buffer[idx + 4..] == old(buffer[idx + 4..])
  {
    buffer[idx + 0] := c.r;
    buffer[idx + 1] := c.g;
    buffer[idx + 2] := c.b;
    buffer[idx + 3] := c.a;
  }

  /** `r, g, b, a := unpack_rgba(w)`: the pixel whose packed word is `w`. */
  method UnpackPixel(w: Uint32) returns (c: Rgba)
    ensures Packed(c) == w
  {
    c := UnpackRgba(w);
  }

  /** The palette entry each pixel selects with its 2-bit colour index. */
  function Lookup(palette: seq<Rgba>, code: nat): (pixels: seq<Rgba>)
    requires |palette| == 4
    ensures |pixels| == 16
  {
    seq(16, i requires 0 <= i < 16 => palette[ColorIndex(code, i)])
  }

  /** Pixels with their alpha channels replaced, pixel by pixel. */
  function WithAlphas(pixels: seq<Rgba>, levels: seq<Byte>): (merged: seq<Rgba>)
    requires |pixels| == 16 && |levels| == 16
    ensures |merged| == 16
  {
    seq(16, i requires 0 <= i < 16 => pixels[i].(a := levels[i]))
  }

  /** `colors[k] = pack_rgba(r, g, b, a)`: the stored word holds the four
      channels (see `Color.PackUnpack` for reading them back), and the other
      entries are unchanged. */
  method StoreColor(colors: array<Uint32>, k: nat, r: Byte, g: Byte, b: Byte, a: Byte)
    requires k < colors.Length
    modifies colors
    ensures colors[k] == Packed(Rgba(r, g, b, a))
    ensures forall j :: 0 <= j < colors.Length && j != k ==> colors[j] == old(colors[j])
  {
    colors[k] := PackRgba(r, g, b, a);
  }

  /** The four palette words hold the four palette colours. */
  predicate HoldsPalette(colors: array<Uint32>, palette: seq<Rgba>)
    reads colors
  {
    && colors.Length == 4 && |palette| == 4
    && forall k :: 0 <= k < 4 ==> colors[k] == Packed(palette[k])
  }

  /** The four palette words, entry by entry. */
  lemma HoldsFour(colors: array<Uint32>, palette: seq<Rgba>)
    requires colors.Length == 4 && |palette| == 4
    requires colors[0] == Packed(palette[0]) && colors[1] == Packed(palette[1])
    requires colors[2] == Packed(palette[2]) && colors[3] == Packed(palette[3])
    ensures HoldsPalette(colors, palette)
  {
  }

  /** Each alpha word holds its level in the top byte and zero below. */
  predicate HoldsAlphas(alphas: array<Uint32>, levels: seq<Byte>)
    reads alphas
  {
    && alphas.Length == |levels|
    && forall j :: 0 <= j < |levels| ==> alphas[j] == 0x100_0000 * (levels[j] as int)
  }

  /** `uint32(v) << 24`: the byte `v` in the top byte of a word. */
  method AlphaWord(v: Byte) returns (w: Uint32)
    ensures w == 0x100_0000 * (v as int)
  {
    assert Pow2(24) == 0x100_0000 by {
      Pow2Values();
    }
    ShlByte(v, 24, 32);
    w := Shl(v, 24, 32);
  }

  /** Every channel of `c` lies between the matching channels of `e0` and `e1`. */
  predicate ChannelsBetween(c: Rgba, e0: Rgb, e1: Rgb)
  {
    Between(c.r, e0.r, e1.r) && Between(c.g, e0.g, e1.g) && Between(c.b, e0.b, e1.b)
  }

  /** The integer blends every format uses lie between their endpoints and
      collapse to the endpoint when both endpoints are equal. */
  lemma BlendsBetween(a: nat, b: nat)
    ensures Between((2 * a + b) / 3, a, b) && Between((a + 2 * b) / 3, a, b) && Between((a + b) / 2, a, b)
    ensures a == b ==> (2 * a + b) / 3 == a && (a + 2 * b) / 3 == a && (a + b) / 2 == a
  {
  }
}
