/** DXT3 (BC2) blocks: 16 bytes, sixteen explicit 4-bit alpha values
    followed by a colour part laid out like a DXT1 block.  The colour
    palette carries alpha 0 and each pixel's alpha is ORed into the top byte
    of its palette word. */
module Dxt3 {
  import opened Bits
  import opened Color
  import opened Block
  import Dxt1

  // ---------------------------------------------------------------------
  // Explicit alpha

  /** The 4-bit alpha of pixel `n`: nibble `n` of the first 8 bytes, the
      low nibble of each byte first. */
  function Nibble(block: seq<Byte>, n: nat): (v: nat)
    requires |block| >= 8 && n < 16
    ensures v < 16
  {
    if n % 2 == 0 then block[n / 2] % 16 else block[n / 2] / 16
  }

  /** The sixteen 8-bit alpha values: each nibble times 17, so the levels
      are spread evenly, 0 stays fully transparent and 15 becomes fully
      opaque. */
  function Alphas3(block: seq<Byte>): (levels: seq<Byte>)
    requires |block| == 16
    ensures |levels| == 16
    ensures forall n :: 0 <= n < 16 ==> levels[n] % 17 == 0
    ensures forall n :: 0 <= n < 16 ==> (levels[n] == 0 <==> Nibble(block, n) == 0)
    ensures forall n :: 0 <= n < 16 ==> (levels[n] == 255 <==> Nibble(block, n) == 15)
  {
    seq(16, n requires 0 <= n < 16 => 17 * Nibble(block, n))
  }

  /** The four nibbles of the little-endian alpha word made of two bytes,
      as the shifts by 0, 4, 8 and 12 read them. */
  lemma NibbleFields(lo: Byte, hi: Byte)
    ensures Field(lo + 0x100 * hi, 0, 4) == lo % 16
    ensures Field(lo + 0x100 * hi, 4, 4) == lo / 16
    ensures Field(lo + 0x100 * hi, 8, 4) == hi % 16
    ensures Field(lo + 0x100 * hi, 12, 4) == hi / 16
  {
    var w := lo + 0x100 * hi;
    assert Pow2(0) == 1 && Pow2(4) == 16 && Pow2(8) == 0x100 by {
      Pow2Values();
    }
    assert Pow2(12) == 0x1000;
    assert w % 16 == lo % 16 by {
      DivModUnique(w, 16, lo / 16 + 16 * hi, lo % 16);
    }
    assert w / 16 == lo / 16 + 16 * hi by {
      DivModUnique(w, 16, lo / 16 + 16 * hi, lo % 16);
    }
    assert (lo / 16 + 16 * hi) % 16 == lo / 16 by {
      DivModUnique(lo / 16 + 16 * hi, 16, hi, lo / 16);
    }
    assert w / 0x100 == hi by {
      DivModUnique(w, 0x100, hi, lo);
    }
    assert w / 0x1000 == hi / 16 by {
      DivModUnique(w, 0x1000, hi / 16, lo + 0x100 * (hi % 16));
    }
  }

  /** Alpha word `i` holds the nibbles of pixels `4*i` to `4*i + 3`. */
  lemma WordLevels(block: seq<Byte>, i: nat)
    requires |block| == 16 && i < 4
    ensures Alphas3(block)[4 * i] == 17 * (block[2 * i] % 16)
    ensures Alphas3(block)[4 * i + 1] == 17 * (block[2 * i] / 16)
    ensures Alphas3(block)[4 * i + 2] == 17 * (block[2 * i + 1] % 16)
    ensures Alphas3(block)[4 * i + 3] == 17 * (block[2 * i + 1] / 16)
  {
    DivModUnique(4 * i, 2, 2 * i, 0);
    DivModUnique(4 * i + 1, 2, 2 * i, 1);
    DivModUnique(4 * i + 2, 2, 2 * i + 1, 0);
    DivModUnique(4 * i + 3, 2, 2 * i + 1, 1);
  }

  /** `(alpha >> shift) & 0xF` is the nibble at `shift`. */
  lemma NibbleAnd(alpha: nat, shift: nat)
    ensures BitAnd(Shr(alpha, shift), 0xF) == Field(alpha, shift, 4) < 16
  {
    assert Pow2(4) == 16 by {
      Pow2Values();
    }
    AndLowMask(Shr(alpha, shift), 4);
  }

  /** `(v * 0x11) << 24` puts `17 * v` in the top byte. */
  lemma ScaleAlpha(v: nat)
    requires v < 16
    ensures Shl(v * 0x11, 24, 32) == 0x100_0000 * (17 * v)
  {
    assert Pow2(24) == 0x100_0000 by {
      Pow2Values();
    }
    ShlByte(v * 0x11, 24, 32);
  }

  /** `(((alpha >> shift) & 0xF) * 0x11) << 24`: the nibble at `shift`,
      scaled to 8 bits, in the top byte of a word. */
  method ScaledNibble(alpha: Uint32, shift: nat) returns (w: Uint32)
    ensures w == 0x100_0000 * (17 * Field(alpha, shift, 4))
  {
    NibbleAnd(alpha, shift);
    ScaleAlpha(Field(alpha, shift, 4));
    w := Shl(BitAnd(Shr(alpha, shift), 0xF) * 0x11, 24, 32);
  }

  /** The four alpha words of one little-endian 16-bit alpha word, lowest
      nibble first. */
  method NibbleWords(lo: Byte, hi: Byte) returns (a0: Uint32, a1: Uint32, a2: Uint32, a3: Uint32)
    ensures a0 == 0x100_0000 * (17 * (lo % 16)) && a1 == 0x100_0000 * (17 * (lo / 16))
    ensures a2 == 0x100_0000 * (17 * (hi % 16)) && a3 == 0x100_0000 * (17 * (hi / 16))
  {
    var alpha := Word16(lo, hi);
    NibbleFields(lo, hi);
    a0 := ScaledNibble(alpha, 0);
    a1 := ScaledNibble(alpha, 4);
    a2 := ScaledNibble(alpha, 8);
    a3 := ScaledNibble(alpha, 12);
  }

  /** The explicit-alpha loop: four little-endian 16-bit words, four
      nibbles each, every alpha value stored in the top byte of its word. */
  method ExplicitAlphas(block: seq<Byte>, alphas: array<Uint32>)
    requires |block| == 16 && alphas.Length == 16
    modifies alphas
    ensures forall n :: 0 <= n < 16 ==> alphas[n] == 0x100_0000 * (Alphas3(block)[n] as int)
  {
    var i := 0;
    while i < 4
      invariant 0 <= i <= 4
      invariant forall n :: 0 <= n < 4 * i ==> alphas[n] == 0x100_0000 * (Alphas3(block)[n] as int)
    {
      var a0, a1, a2, a3 := NibbleWords(block[i * 2], block[i * 2 + 1]);
      WordLevels(block, i);
      alphas[i * 4 + 0] := a0;
      alphas[i * 4 + 1] := a1;
      alphas[i * 4 + 2] := a2;
      alphas[i * 4 + 3] := a3;
      i := i + 1;
    }
  }

  // ---------------------------------------------------------------------
  // Colour

  /** The DXT3 palette, all with alpha 0: the endpoints, entry 2 chosen by
      comparing the endpoint words (`c2`), and entry 3 always the 2/3 blend
      (`c3`), even when entry 2 is the midpoint. */
  function Colors3(e0: Rgb, e1: Rgb, greater: bool): (palette: seq<Rgba>)
    ensures |palette| == 4
    ensures forall k :: 0 <= k < 4 ==> palette[k].a == 0
    ensures palette[0] == Rgba(e0.r, e0.g, e0.b, 0) && palette[1] == Rgba(e1.r, e1.g, e1.b, 0)
    ensures palette[3] == Rgba(C3(e0.r, e1.r), C3(e0.g, e1.g), C3(e0.b, e1.b), 0)
  {
    ThirdBlend(e0, e1);
    [ Rgba(e0.r, e0.g, e0.b, 0),
      Rgba(e1.r, e1.g, e1.b, 0),
      if greater then Rgba((2 * e0.r + e1.r) / 3, (2 * e0.g + e1.g) / 3, (2 * e0.b + e1.b) / 3, 0)
      else Rgba((e0.r + e1.r) / 2, (e0.g + e1.g) / 2, (e0.b + e1.b) / 2, 0),
      Rgba((e0.r + 2 * e1.r) / 3, (e0.g + 2 * e1.g) / 3, (e0.b + 2 * e1.b) / 3, 0) ]
  }

  /** On 8-bit channels `c3` is the plain 2/3 blend. */
  lemma ThirdBlend(e0: Rgb, e1: Rgb)
    ensures Rgba(C3(e0.r, e1.r), C3(e0.g, e1.g), C3(e0.b, e1.b), 0)
      == Rgba((e0.r + 2 * e1.r) / 3, (e0.g + 2 * e1.g) / 3, (e0.b + 2 * e1.b) / 3, 0)
  {
    ByteBlends(e0.r, e1.r);
    ByteBlends(e0.g, e1.g);
    ByteBlends(e0.b, e1.b);
  }

  /** The sixteen pixels of a DXT3 block. */
  function Pixels3(block: seq<Byte>): (pixels: seq<Rgba>)
    requires |block| == 16
    ensures |pixels| == 16
    ensures var c0, c1 := Endpoint(block, 8), Endpoint(block, 10);
      forall i :: 0 <= i < 16 ==>
        pixels[i] == Colors3(Rgb565(c0), Rgb565(c1), c0 > c1)[ColorIndex(Code32(block, 12), i)].(a := Alphas3(block)[i])
  {
    var c0, c1 := Endpoint(block, 8), Endpoint(block, 10);
    WithAlphas(Lookup(Colors3(Rgb565(c0), Rgb565(c1), c0 > c1), Code32(block, 12)), Alphas3(block))
  }

  /** The 64-byte tile of a DXT3 block. */
  function Tile3(block: seq<Byte>): (tile: seq<Byte>)
    requires |block| == 16
    ensures |tile| == 64
  {
    TileOf(Pixels3(block))
  }

  /** Fills the four palette words: the endpoints, then `c2` and `c3` on
      each channel, all with alpha 0. */
  method Palette3(r0: Rgb, r1: Rgb, c0: Uint32, c1: Uint32, colors: array<Uint32>)
    requires colors.Length == 4
    modifies colors
    ensures HoldsPalette(colors, Colors3(r0, r1, c0 > c1))
  {
    ghost var palette := Colors3(r0, r1, c0 > c1);
    assert palette[0] == Rgba(r0.r, r0.g, r0.b, 0) && palette[1] == Rgba(r1.r, r1.g, r1.b, 0);
    StoreColor(colors, 0, r0.r, r0.g, r0.b, 0);
    StoreColor(colors, 1, r1.r, r1.g, r1.b, 0);
    Blends3(r0, r1, c0, c1, colors);
    HoldsFour(colors, palette);
  }

  /** `colors[2] = pack_rgba(c2(..), c2(..), c2(..), 0)` and
      `colors[3] = pack_rgba(c3(..), c3(..), c3(..), 0)`. */
  method Blends3(r0: Rgb, r1: Rgb, c0: Uint32, c1: Uint32, colors: array<Uint32>)
    requires colors.Length == 4
    modifies colors
    ensures colors[0] == old(colors[0]) && colors[1] == old(colors[1])
    ensures colors[2] == Packed(Colors3(r0, r1, c0 > c1)[2])
    ensures colors[3] == Packed(Colors3(r0, r1, c0 > c1)[3])
  {
    ByteBlends(r0.r, r1.r);
    ByteBlends(r0.g, r1.g);
    ByteBlends(r0.b, r1.b);
    ghost var palette := Colors3(r0, r1, c0 > c1);
    assert palette[2] == Rgba(C2(r0.r, r1.r, c0, c1), C2(r0.g, r1.g, c0, c1), C2(r0.b, r1.b, c0, c1), 0);
    assert palette[3] == Rgba(C3(r0.r, r1.r), C3(r0.g, r1.g), C3(r0.b, r1.b), 0);
    StoreColor(colors, 2, C2(r0.r, r1.r, c0, c1), C2(r0.g, r1.g, c0, c1), C2(r0.b, r1.b, c0, c1), 0);
    StoreColor(colors, 3, C3(r0.r, r1.r), C3(r0.g, r1.g), C3(r0.b, r1.b), 0);
  }

  /** `colors[k] | alphas[i]`: ORing an alpha word into a palette word with
      alpha 0 gives the palette colour with that alpha. */
  method MergeAlphaWord(w: Uint32, aw: Uint32, ghost p: Rgba, ghost x: Byte) returns (r: Uint32)
    requires w == Packed(p) && p.a == 0 && aw == 0x100_0000 * (x as int)
    ensures r == Packed(p.(a := x))
  {
    MergeWord(p, x);
    r := Or32(w, aw);
  }

  /** The per-pixel loop: ORs each pixel's alpha word into the palette word
      its 2-bit index selects and unpacks the result into the tile buffer. */
  method DecodePixels3(colors: array<Uint32>, ghost palette: seq<Rgba>, alphas: array<Uint32>,
                       ghost levels: seq<Byte>, code: Uint32, buffer: array<Byte>)
    requires HoldsPalette(colors, palette) && forall k :: 0 <= k < 4 ==> palette[k].a == 0
    requires alphas.Length == 16 && |levels| == 16
    requires forall n :: 0 <= n < 16 ==> alphas[n] == 0x100_0000 * (levels[n] as int)
    requires buffer.Length == 64
    modifies buffer
    ensures buffer[..] == TileOf(WithAlphas(Lookup(palette, code), levels))
  {
    ghost var pixels := WithAlphas(Lookup(palette, code), levels);
    var bitcode: nat := code;
    var i := 0;
    while i < 16
      invariant 0 <= i <= 16
      invariant bitcode == Drop(code, 2, i)
      invariant buffer[..4 * i] == TileOf(pixels)[..4 * i]
    {
      bitcode := PixelStep3(colors, palette, alphas, levels, code, buffer, i, bitcode);
      TileGrows(buffer[..], pixels, i);
      i := i + 1;
    }
    assert buffer[..] == buffer[..64];
  }

  /** One pass of the per-pixel loop: writes pixel `i` and shifts the index
      word past its index. */
  method PixelStep3(colors: array<Uint32>, ghost palette: seq<Rgba>, alphas: array<Uint32>,
                    ghost levels: seq<Byte>, code: Uint32, buffer: array<Byte>,
                    i: nat, bitcode: nat) returns (next: nat)
    requires HoldsPalette(colors, palette) && forall k :: 0 <= k < 4 ==> palette[k].a == 0
    requires alphas.Length == 16 && |levels| == 16
    requires forall n :: 0 <= n < 16 ==> alphas[n] == 0x100_0000 * (levels[n] as int)
    requires buffer.Length == 64 && i < 16
    requires bitcode == Drop(code, 2, i)
    modifies buffer
    ensures next == Drop(code, 2, i + 1)
    ensures buffer[..4 * i] == old(buffer[..4 * i])
    ensures buffer[4 * i .. 4 * i + 4] == RgbaBytes(WithAlphas(Lookup(palette, code), levels)[i])
    ensures buffer[4 * i + 4..] == old(buffer[4 * i + 4..])
  {
    NextColorIndex(code, i);
    ghost var p := palette[ColorIndex(code, i)];
    var w := MergeAlphaWord(colors[BitAnd(bitcode, 0x3)], alphas[i], p, levels[i]);
    var c := UnpackPixel(w);
    PackedInjective(c, WithAlphas(Lookup(palette, code), levels)[i]);
    var idx := i * 4;
    PutPixel(buffer, idx, c);
    next := Shr(bitcode, 2);
  }

  /** Decodes one DXT3 block into the 64-byte tile buffer. */
  method FillTile3(block: seq<Byte>, buffer: array<Byte>)
    requires |block| == 16 && buffer.Length == 64
    modifies buffer
    ensures buffer[..] == Tile3(block)
  {
    var alphas := new Uint32[16];
    ExplicitAlphas(block, alphas);
    var colors := new Uint32[4];
    var c0 := Word16(block[8], block[9]);
    var c1 := Word16(block[10], block[11]);
    var r0 := Unpack565(c0);
    var r1 := Unpack565(c1);
    Palette3(r0, r1, c0, c1, colors);
    var bitcode := Word32(block[12], block[13], block[14], block[15]);
    DecodePixels3(colors, Colors3(r0, r1, c0 > c1), alphas, Alphas3(block), bitcode, buffer);
    assert c0 == Endpoint(block, 8) && c1 == Endpoint(block, 10) && bitcode == Code32(block, 12);
    TileParts3(block);
  }

  /** `Tile3` spelled out over the block's fields. */
  lemma TileParts3(block: seq<Byte>)
    requires |block| == 16
    ensures var c0, c1 := Endpoint(block, 8), Endpoint(block, 10);
      Tile3(block) == TileOf(WithAlphas(Lookup(Colors3(Rgb565(c0), Rgb565(c1), c0 > c1), Code32(block, 12)), Alphas3(block)))
  {
  }

  // ---------------------------------------------------------------------
  // Properties of DXT3 pixels

  /** A pixel's alpha is its explicit alpha value, whatever its colour
      index selects. */
  lemma Dxt3Alpha(block: seq<Byte>, i: nat)
    requires |block| == 16 && i < 16
    ensures Pixels3(block)[i].a == Alphas3(block)[i]
  {
  }

  /** The DXT3 palette is the DXT1 palette made transparent except for
      entry 3, which is always the four-colour 2/3 blend: in three-colour
      mode DXT3 shows that blend where DXT1 shows transparent black. */
  lemma Colors3AgainstColors1(e0: Rgb, e1: Rgb, greater: bool, k: nat)
    requires k < 4
    ensures k < 3 || greater ==> Colors3(e0, e1, greater)[k] == Dxt1.Colors1(e0, e1, greater)[k].(a := 0)
    ensures k == 3 ==> Colors3(e0, e1, greater)[k] == Dxt1.Colors1(e0, e1, true)[3].(a := 0)
    ensures k == 3 && !greater ==> Dxt1.Colors1(e0, e1, greater)[k] == Rgba(0, 0, 0, 0)
  {
  }

  /** Every DXT3 pixel's colour channels lie between the two endpoint
      colours' channels. */
  lemma Dxt3Between(block: seq<Byte>, i: nat)
    requires |block| == 16 && i < 16
    ensures ChannelsBetween(Pixels3(block)[i], Rgb565(Endpoint(block, 8)), Rgb565(Endpoint(block, 10)))
  {
    var c0, c1 := Endpoint(block, 8), Endpoint(block, 10);
    Colors3Between(Rgb565(c0), Rgb565(c1), c0 > c1, ColorIndex(Code32(block, 12), i));
  }

  /** Every entry of the DXT3 palette lies between the endpoints. */
  lemma Colors3Between(e0: Rgb, e1: Rgb, greater: bool, k: nat)
    requires k < 4
    ensures ChannelsBetween(Colors3(e0, e1, greater)[k], e0, e1)
  {
    BlendsBetween(e0.r, e1.r);
    BlendsBetween(e0.g, e1.g);
    BlendsBetween(e0.b, e1.b);
  }
}
