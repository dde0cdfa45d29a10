/** DXT5 (BC3) blocks: 16 bytes, two 8-bit alpha endpoints and sixteen
    3-bit indices into an interpolated alpha table, followed by a colour
    part laid out like a DXT1 block but always decoded in four-colour mode.
    Each pixel's alpha word is ORed with the palette word its colour index
    selects. */
module Dxt5 {
  import opened Bits
  import opened Color
  import opened Block
  import Dxt1
  import Dxt3

  // ---------------------------------------------------------------------
  // Interpolated alpha

  /** The eight alpha levels of endpoints `a0` and `a1`: with `a0 > a1` the
      endpoints and six blends in sevenths; otherwise the endpoints, four
      blends in fifths, fully transparent and fully opaque. */
  function AlphaLevels5(a0: Byte, a1: Byte): (levels: seq<Byte>)
    ensures |levels| == 8
    ensures levels[0] == a0 && levels[1] == a1
    ensures a0 <= a1 <==> levels[6] == 0 && levels[7] == 255
  {
    if a0 > a1 then
      [ a0, a1,
        (a0 * 6 + a1) / 7, (a0 * 5 + a1 * 2) / 7, (a0 * 4 + a1 * 3) / 7,
        (a0 * 3 + a1 * 4) / 7, (a0 * 2 + a1 * 5) / 7, (a0 + a1 * 6) / 7 ]
    else
      [ a0, a1,
        (a0 * 4 + a1) / 5, (a0 * 3 + a1 * 2) / 5, (a0 * 2 + a1 * 3) / 5,
        (a0 + a1 * 4) / 5, 0, 255 ]
  }

  /** Step `j` of `n` on the way from `a0` to `a1`, rounded down. */
  function Blend(a0: int, a1: int, j: nat, n: nat): int
    requires 0 < n && j <= n
  {
    ((n - j) * a0 + j * a1) / n
  }

  /** The table read as a ramp: entry 0 is step 0 and entry 1 the last step;
      in between, entry `k` is step `k - 1` of seven (`a0 > a1`) or of five
      (otherwise, entries 2 to 5). */
  lemma AlphaLevelsRamp(a0: Byte, a1: Byte, k: nat)
    requires k < 8
    ensures var levels, n := AlphaLevels5(a0, a1), if a0 > a1 then 7 else 5;
      && levels[0] == Blend(a0, a1, 0, n) && levels[1] == Blend(a0, a1, n, n)
      && (2 <= k < n + 1 ==> levels[k] == Blend(a0, a1, k - 1, n))
  {
    var levels := AlphaLevels5(a0, a1);
    if a0 > a1 {
      assert Blend(a0, a1, 0, 7) == a0 && Blend(a0, a1, 7, 7) == a1;
      if k == 2 {
        assert Blend(a0, a1, 1, 7) == (a0 * 6 + a1) / 7;
      } else if k == 3 {
        assert Blend(a0, a1, 2, 7) == (a0 * 5 + a1 * 2) / 7;
      } else if k == 4 {
        assert Blend(a0, a1, 3, 7) == (a0 * 4 + a1 * 3) / 7;
      } else if k == 5 {
        assert Blend(a0, a1, 4, 7) == (a0 * 3 + a1 * 4) / 7;
      } else if k == 6 {
        assert Blend(a0, a1, 5, 7) == (a0 * 2 + a1 * 5) / 7;
      } else if k == 7 {
        assert Blend(a0, a1, 6, 7) == (a0 + a1 * 6) / 7;
      }
    } else {
      assert Blend(a0, a1, 0, 5) == a0 && Blend(a0, a1, 5, 5) == a1;
      if k == 2 {
        assert Blend(a0, a1, 1, 5) == (a0 * 4 + a1) / 5;
      } else if k == 3 {
        assert Blend(a0, a1, 2, 5) == (a0 * 3 + a1 * 2) / 5;
      } else if k == 4 {
        assert Blend(a0, a1, 3, 5) == (a0 * 2 + a1 * 3) / 5;
      } else if k == 5 {
        assert Blend(a0, a1, 4, 5) == (a0 + a1 * 4) / 5;
      }
    }
  }

  /** The levels run in order from `a0` to `a1`; with `a0 > a1` the first
      blend is always strictly below `a0`.  With equal endpoints the
      six-level table is `a0` six times, then 0 and 255. */
  lemma AlphaLevelsOrdered(a0: Byte, a1: Byte)
    ensures var l := AlphaLevels5(a0, a1);
      a0 > a1 ==> l[0] > l[2] >= l[3] >= l[4] >= l[5] >= l[6] >= l[7] >= l[1]
    ensures var l := AlphaLevels5(a0, a1);
      a0 < a1 ==> l[0] <= l[2] <= l[3] <= l[4] <= l[5] <= l[1]
    ensures var l := AlphaLevels5(a0, a1);
      a0 <= a1 ==> l[6] == 0 && l[7] == 255
    ensures a0 == a1 ==> AlphaLevels5(a0, a1) == [a0, a0, a0, a0, a0, a0, 0, 255]
  {
  }

  /** Two tables worked out by hand. */
  lemma AlphaLevelsExamples()
    ensures AlphaLevels5(255, 0) == [255, 0, 218, 182, 145, 109, 72, 36]
    ensures AlphaLevels5(100, 200) == [100, 200, 120, 140, 160, 180, 0, 255]
  {
  }

  /** The alpha table: `alphas[k] = level << 24` for the eight levels,
      the endpoints first and then the blends of the mode `a0 > a1` picks. */
  method AlphaTable5(a0: Byte, a1: Byte, alphas: array<Uint32>)
    requires alphas.Length == 8
    modifies alphas
    ensures HoldsAlphas(alphas, AlphaLevels5(a0, a1))
  {
    alphas[0] := AlphaWord(a0);
    alphas[1] := AlphaWord(a1);
    if a0 > a1 {
      Sevenths(a0, a1, alphas);
    } else {
      Fifths(a0, a1, alphas);
    }
    HoldsEight(alphas, AlphaLevels5(a0, a1));
  }

  /** `alphas[2..7]` in the eight-level mode: six blends in sevenths. */
  method Sevenths(a0: Byte, a1: Byte, alphas: array<Uint32>)
    requires alphas.Length == 8 && a0 > a1
    modifies alphas
    ensures alphas[0] == old(alphas[0]) && alphas[1] == old(alphas[1])
    ensures forall k :: 2 <= k < 8 ==> alphas[k] == 0x100_0000 * (AlphaLevels5(a0, a1)[k] as int)
  {
    alphas[2] := AlphaWord((a0 * 6 + a1) / 7);
    alphas[3] := AlphaWord((a0 * 5 + a1 * 2) / 7);
    alphas[4] := AlphaWord((a0 * 4 + a1 * 3) / 7);
    alphas[5] := AlphaWord((a0 * 3 + a1 * 4) / 7);
    alphas[6] := AlphaWord((a0 * 2 + a1 * 5) / 7);
    alphas[7] := AlphaWord((a0 + a1 * 6) / 7);
  }

  /** `alphas[2..7]` in the six-level mode: four blends in fifths, then
      fully transparent and fully opaque. */
  method Fifths(a0: Byte, a1: Byte, alphas: array<Uint32>)
    requires alphas.Length == 8 && a0 <= a1
    modifies alphas
    ensures alphas[0] == old(alphas[0]) && alphas[1] == old(alphas[1])
    ensures forall k :: 2 <= k < 8 ==> alphas[k] == 0x100_0000 * (AlphaLevels5(a0, a1)[k] as int)
  {
    alphas[2] := AlphaWord((a0 * 4 + a1) / 5);
    alphas[3] := AlphaWord((a0 * 3 + a1 * 2) / 5);
    alphas[4] := AlphaWord((a0 * 2 + a1 * 3) / 5);
    alphas[5] := AlphaWord((a0 + a1 * 4) / 5);
    alphas[6] := 0;
    alphas[7] := AlphaWord(255);
  }

  /** The eight alpha words, entry by entry. */
  lemma HoldsEight(alphas: array<Uint32>, levels: seq<Byte>)
    requires alphas.Length == 8 && |levels| == 8
    requires alphas[0] == 0x100_0000 * (levels[0] as int) && alphas[1] == 0x100_0000 * (levels[1] as int)
    requires alphas[2] == 0x100_0000 * (levels[2] as int) && alphas[3] == 0x100_0000 * (levels[3] as int)
    requires alphas[4] == 0x100_0000 * (levels[4] as int) && alphas[5] == 0x100_0000 * (levels[5] as int)
    requires alphas[6] == 0x100_0000 * (levels[6] as int) && alphas[7] == 0x100_0000 * (levels[7] as int)
    ensures HoldsAlphas(alphas, levels)
  {
  }

  /** The alpha level each pixel selects with its 3-bit index. */
  function AlphaLookup(levels: seq<Byte>, code: nat): (alphas: seq<Byte>)
    requires |levels| == 8
    ensures |alphas| == 16
  {
    seq(16, i requires 0 <= i < 16 => levels[AlphaIndex(code, i)])
  }

  // ---------------------------------------------------------------------
  // Colour

  /** The DXT5 palette, all with alpha 0: the endpoints and their 1/3 and
      2/3 blends, whatever the order of the endpoint words. On 8-bit
      channels neither blend wraps, so they are the exact integer thirds. */
  function Colors5(e0: Rgb, e1: Rgb): (palette: seq<Rgba>)
    ensures |palette| == 4
    ensures forall k :: 0 <= k < 4 ==> palette[k].a == 0
    ensures palette[0] == Rgba(e0.r, e0.g, e0.b, 0) && palette[1] == Rgba(e1.r, e1.g, e1.b, 0)
    ensures palette[2].r == (2 * e0.r + e1.r) / 3 && palette[2].g == (2 * e0.g + e1.g) / 3
         && palette[2].b == (2 * e0.b + e1.b) / 3
    ensures palette[3].r == (e0.r + 2 * e1.r) / 3 && palette[3].g == (e0.g + 2 * e1.g) / 3
         && palette[3].b == (e0.b + 2 * e1.b) / 3
  {
    FirstBlend(e0, e1);
    Dxt3.ThirdBlend(e0, e1);
    [ Rgba(e0.r, e0.g, e0.b, 0),
      Rgba(e1.r, e1.g, e1.b, 0),
      Rgba(Lerp13(e0.r, e1.r), Lerp13(e0.g, e1.g), Lerp13(e0.b, e1.b), 0),
      Rgba(Lerp23(e0.r, e1.r), Lerp23(e0.g, e1.g), Lerp23(e0.b, e1.b), 0) ]
  }

  /** On 8-bit channels `lerp_13` is the plain 1/3 blend. */
  lemma FirstBlend(e0: Rgb, e1: Rgb)
    ensures Rgba(Lerp13(e0.r, e1.r), Lerp13(e0.g, e1.g), Lerp13(e0.b, e1.b), 0)
      == Rgba((2 * e0.r + e1.r) / 3, (2 * e0.g + e1.g) / 3, (2 * e0.b + e1.b) / 3, 0)
  {
    ByteBlends(e0.r, e1.r);
    ByteBlends(e0.g, e1.g);
    ByteBlends(e0.b, e1.b);
  }

  /** The sixteen pixels of a DXT5 block. */
  function Pixels5(block: seq<Byte>): (pixels: seq<Rgba>)
    requires |block| == 16
    ensures |pixels| == 16
    ensures var colors, levels := Colors5(Rgb565(Endpoint(block, 8)), Rgb565(Endpoint(block, 10))), AlphaLevels5(block[0], block[1]);
      forall i :: 0 <= i < 16 ==>
        pixels[i] == colors[ColorIndex(Code32(block, 12), i)].(a := levels[AlphaIndex(Code48(block, 2), i)])
  {
    var colors := Colors5(Rgb565(Endpoint(block, 8)), Rgb565(Endpoint(block, 10)));
    WithAlphas(Lookup(colors, Code32(block, 12)), AlphaLookup(AlphaLevels5(block[0], block[1]), Code48(block, 2)))
  }

  /** The 64-byte tile of a DXT5 block. */
  function Tile5(block: seq<Byte>): (tile: seq<Byte>)
    requires |block| == 16
    ensures |tile| == 64
  {
    TileOf(Pixels5(block))
  }

  /** Fills the four palette words: the endpoints, then `lerp_13` and
      `lerp_23` on each channel, all with alpha 0. */
  method Palette5(r0: Rgb, r1: Rgb, colors: array<Uint32>)
    requires colors.Length == 4
    modifies colors
    ensures HoldsPalette(colors, Colors5(r0, r1))
  {
    ghost var palette := Colors5(r0, r1);
    assert palette[0] == Rgba(r0.r, r0.g, r0.b, 0) && palette[1] == Rgba(r1.r, r1.g, r1.b, 0);
    StoreColor(colors, 0, r0.r, r0.g, r0.b, 0);
    StoreColor(colors, 1, r1.r, r1.g, r1.b, 0);
    Blends5(r0, r1, colors);
    HoldsFour(colors, palette);
  }

  /** `colors[2] = pack_rgba(lerp_13(..), .., 0)` and
      `colors[3] = pack_rgba(lerp_23(..), .., 0)`. */
  method Blends5(r0: Rgb, r1: Rgb, colors: array<Uint32>)
    requires colors.Length == 4
    modifies colors
    ensures colors[0] == old(colors[0]) && colors[1] == old(colors[1])
    ensures colors[2] == Packed(Colors5(r0, r1)[2]) && colors[3] == Packed(Colors5(r0, r1)[3])
  {
    ByteBlends(r0.r, r1.r);
    ByteBlends(r0.g, r1.g);
    ByteBlends(r0.b, r1.b);
    ghost var palette := Colors5(r0, r1);
    assert palette[2] == Rgba(Lerp13(r0.r, r1.r), Lerp13(r0.g, r1.g), Lerp13(r0.b, r1.b), 0);
    assert palette[3] == Rgba(Lerp23(r0.r, r1.r), Lerp23(r0.g, r1.g), Lerp23(r0.b, r1.b), 0);
    StoreColor(colors, 2, Lerp13(r0.r, r1.r), Lerp13(r0.g, r1.g), Lerp13(r0.b, r1.b), 0);
    StoreColor(colors, 3, Lerp23(r0.r, r1.r), Lerp23(r0.g, r1.g), Lerp23(r0.b, r1.b), 0);
  }

  /** `alphas[alpha_idx] | colors[color_idx]`: the alpha word first, ORed
      into a palette word with alpha 0, gives the palette colour with that
      alpha. */
  method MergeAlphaWord(aw: Uint32, w: Uint32, ghost p: Rgba, ghost x: Byte) returns (r: Uint32)
    requires w == Packed(p) && p.a == 0 && aw == 0x100_0000 * (x as int)
    ensures r == Packed(p.(a := x))
  {
    MergeWord(p, x);
    r := Or32(aw, w);
  }

  /** `unpack_rgba(colors[colorIdx] | alphas[alphaIdx])`: the palette
      entry with the alpha level in its alpha channel. */
  method MergedPixel(colors: array<Uint32>, ghost palette: seq<Rgba>, alphas: array<Uint32>,
                     ghost levels: seq<Byte>, alphaIdx: nat, colorIdx: nat) returns (c: Rgba)
    requires HoldsPalette(colors, palette) && forall k :: 0 <= k < 4 ==> palette[k].a == 0
    requires HoldsAlphas(alphas, levels) && |levels| == 8
    requires alphaIdx < 8 && colorIdx < 4
    ensures c == palette[colorIdx].(a := levels[alphaIdx])
  {
    ghost var p := palette[colorIdx];
    var w := MergeAlphaWord(alphas[alphaIdx], colors[colorIdx], p, levels[alphaIdx]);
    c := UnpackPixel(w);
    PackedInjective(c, p.(a := levels[alphaIdx]));
  }

  /** The per-pixel loop: reads a 3-bit alpha index and a 2-bit colour
      index per pixel, ORs the selected words and unpacks the result into
      the tile buffer. */
  method DecodePixels5(colors: array<Uint32>, ghost palette: seq<Rgba>, alphas: array<Uint32>,
                       ghost levels: seq<Byte>, alphaCode: Uint64, colorCode: Uint32, buffer: array<Byte>)
    requires HoldsPalette(colors, palette) && forall k :: 0 <= k < 4 ==> palette[k].a == 0
    requires HoldsAlphas(alphas, levels) && |levels| == 8
    requires buffer.Length == 64
    modifies buffer
    ensures buffer[..] == TileOf(WithAlphas(Lookup(palette, colorCode), AlphaLookup(levels, alphaCode)))
  {
    ghost var pixels := WithAlphas(Lookup(palette, colorCode), AlphaLookup(levels, alphaCode));
    var bitcodeA: nat := alphaCode;
    var bitcodeC: nat := colorCode;
    var i := 0;
    while i < 16
      invariant 0 <= i <= 16
      invariant bitcodeA == Drop(alphaCode, 3, i) && bitcodeC == Drop(colorCode, 2, i)
      invariant buffer[..4 * i] == TileOf(pixels)[..4 * i]
    {
      bitcodeA, bitcodeC := PixelStep5(colors, palette, alphas, levels, alphaCode, colorCode, buffer, i, bitcodeA, bitcodeC);
      TileGrows(buffer[..], pixels, i);
      i := i + 1;
    }
    assert buffer[..] == buffer[..64];
  }

  /** One pass of the per-pixel loop: writes pixel `i` and shifts both
      index words past its indices. */
  method PixelStep5(colors: array<Uint32>, ghost palette: seq<Rgba>, alphas: array<Uint32>,
                    ghost levels: seq<Byte>, alphaCode: Uint64, colorCode: Uint32, buffer: array<Byte>,
                    i: nat, bitcodeA: nat, bitcodeC: nat) returns (nextA: nat, nextC: nat)
    requires HoldsPalette(colors, palette) && forall k :: 0 <= k < 4 ==> palette[k].a == 0
    requires HoldsAlphas(alphas, levels) && |levels| == 8
    requires buffer.Length == 64 && i < 16
    requires bitcodeA == Drop(alphaCode, 3, i) && bitcodeC == Drop(colorCode, 2, i)
    modifies buffer
    ensures nextA == Drop(alphaCode, 3, i + 1) && nextC == Drop(colorCode, 2, i + 1)
    ensures buffer[..4 * i] == old(buffer[..4 * i])
    ensures buffer[4 * i .. 4 * i + 4]
      == RgbaBytes(WithAlphas(Lookup(palette, colorCode), AlphaLookup(levels, alphaCode))[i])
    ensures buffer[4 * i + 4..] == old(buffer[4 * i + 4..])
  {
    NextAlphaIndex(alphaCode, i);
    var alphaIdx := BitAnd(bitcodeA, 0x7);
    nextA := Shr(bitcodeA, 3);
    NextColorIndex(colorCode, i);
    var colorIdx := BitAnd(bitcodeC, 0x3);
    nextC := Shr(bitcodeC, 2);
    var c := MergedPixel(colors, palette, alphas, levels, alphaIdx, colorIdx);
    var idx := i * 4;
    PutPixel(buffer, idx, c);
  }

  /** Decodes one DXT5 block into the 64-byte tile buffer. */
  method FillTile5(block: seq<Byte>, buffer: array<Byte>)
    requires |block| == 16 && buffer.Length == 64
    modifies buffer
    ensures buffer[..] == Tile5(block)
  {
    var colors, alphas, bitcodeA, bitcodeC := BlockTables5(block);
    DecodePixels5(colors, Colors5(Rgb565(Endpoint(block, 8)), Rgb565(Endpoint(block, 10))), alphas,
                  AlphaLevels5(block[0], block[1]), bitcodeA, bitcodeC, buffer);
    TileParts5(block);
  }

  /** The tables and index words of one DXT5 block: the eight alpha
      words, the four palette words and the two index words. */
  method BlockTables5(block: seq<Byte>) returns (colors: array<Uint32>, alphas: array<Uint32>, bitcodeA: Uint64, bitcodeC: Uint32)
    requires |block| == 16
    ensures fresh(colors) && fresh(alphas)
    ensures HoldsPalette(colors, Colors5(Rgb565(Endpoint(block, 8)), Rgb565(Endpoint(block, 10))))
    ensures HoldsAlphas(alphas, AlphaLevels5(block[0], block[1]))
    ensures bitcodeA == Code48(block, 2) && bitcodeC == Code32(block, 12)
  {
    alphas, bitcodeA := AlphaTables5(block);
    colors, bitcodeC := ColorTables5(block);
  }

  /** The alpha half of `BlockTables5`. */
  method AlphaTables5(block: seq<Byte>) returns (alphas: array<Uint32>, bitcodeA: Uint64)
    requires |block| == 16
    ensures fresh(alphas)
    ensures HoldsAlphas(alphas, AlphaLevels5(block[0], block[1]))
    ensures bitcodeA == Code48(block, 2)
  {
    alphas := new Uint32[8];
    AlphaTable5(block[0], block[1], alphas);
    bitcodeA := Word48(block[2], block[3], block[4], block[5], block[6], block[7]);
    assert bitcodeA == Code48(block, 2);
  }

  /** The colour half of `BlockTables5`. */
  method ColorTables5(block: seq<Byte>) returns (colors: array<Uint32>, bitcodeC: Uint32)
    requires |block| == 16
    ensures fresh(colors)
    ensures HoldsPalette(colors, Colors5(Rgb565(Endpoint(block, 8)), Rgb565(Endpoint(block, 10))))
    ensures bitcodeC == Code32(block, 12)
  {
    colors := new Uint32[4];
    var c0 := Word16(block[8], block[9]);
    var c1 := Word16(block[10], block[11]);
    var r0 := Unpack565(c0);
    var r1 := Unpack565(c1);
    assert c0 == Endpoint(block, 8) && c1 == Endpoint(block, 10);
    Palette5(r0, r1, colors);
    bitcodeC := Word32(block[12], block[13], block[14], block[15]);
    assert bitcodeC == Code32(block, 12);
  }

  /** `Tile5` spelled out over the block's fields. */
  lemma TileParts5(block: seq<Byte>)
    requires |block| == 16
    ensures Tile5(block) == TileOf(WithAlphas(Lookup(Colors5(Rgb565(Endpoint(block, 8)), Rgb565(Endpoint(block, 10))), Code32(block, 12)),
                                              AlphaLookup(AlphaLevels5(block[0], block[1]), Code48(block, 2))))
  {
  }

  // ---------------------------------------------------------------------
  // Properties of DXT5 pixels

  /** A pixel's alpha is the table level its 3-bit index selects, whatever
      its colour index selects. */
  lemma Dxt5Alpha(block: seq<Byte>, i: nat)
    requires |block| == 16 && i < 16
    ensures Pixels5(block)[i].a == AlphaLevels5(block[0], block[1])[AlphaIndex(Code48(block, 2), i)]
  {
  }

  /** The DXT5 palette is the DXT3 palette of a block whose endpoint words
      compare greater, and the DXT1 four-colour palette made transparent:
      the order of the endpoint words never matters. */
  lemma Colors5FourColour(e0: Rgb, e1: Rgb, k: nat)
    requires k < 4
    ensures Colors5(e0, e1) == Dxt3.Colors3(e0, e1, true)
    ensures Colors5(e0, e1)[k] == Dxt1.Colors1(e0, e1, true)[k].(a := 0)
  {
  }

  /** Every entry of the DXT5 palette lies between the endpoints. */
  lemma Colors5Between(e0: Rgb, e1: Rgb, k: nat)
    requires k < 4
    ensures ChannelsBetween(Colors5(e0, e1)[k], e0, e1)
  {
    BlendsBetween(e0.r, e1.r);
    BlendsBetween(e0.g, e1.g);
    BlendsBetween(e0.b, e1.b);
  }

  /** Every DXT5 pixel's colour channels lie between the two endpoint
      colours' channels. */
  lemma Dxt5Between(block: seq<Byte>, i: nat)
    requires |block| == 16 && i < 16
    ensures ChannelsBetween(Pixels5(block)[i], Rgb565(Endpoint(block, 8)), Rgb565(Endpoint(block, 10)))
  {
    Colors5Between(Rgb565(Endpoint(block, 8)), Rgb565(Endpoint(block, 10)), ColorIndex(Code32(block, 12), i));
  }

  /** Every level of the table lies between the alpha endpoints, except the
      0 and 255 of the six-level table. */
  lemma AlphaLevelsBetween(a0: Byte, a1: Byte, k: nat)
    requires k < 8
    ensures a0 > a1 || k < 6 ==> Between(AlphaLevels5(a0, a1)[k], a0, a1)
  {
    AlphaLevelsOrdered(a0, a1);
  }

  /** A pixel's alpha lies between the alpha endpoints unless its index
      picks the six-level table's 0 or 255. */
  lemma Dxt5AlphaBetween(block: seq<Byte>, i: nat)
    requires |block| == 16 && i < 16
    ensures block[0] > block[1] || AlphaIndex(Code48(block, 2), i) < 6
      ==> Between(Pixels5(block)[i].a, block[0], block[1])
  {
    AlphaLevelsBetween(block[0], block[1], AlphaIndex(Code48(block, 2), i));
  }
}
