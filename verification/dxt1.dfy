/** DXT1 (BC1) blocks: 8 bytes, two 5:6:5 endpoint words followed by a
    32-bit word of sixteen 2-bit colour indices.  Comparing the two packed
    endpoint words chooses between four opaque colours and three opaque
    colours plus transparent black. */
module Dxt1 {
  import opened Bits
  import opened Color
  import opened Block

  /** The DXT1 palette: the endpoints and their 1/3 and 2/3 blends, all
      opaque, in four-colour mode; otherwise the endpoints and their
      average, opaque, and transparent black. */
  function Colors1(e0: Rgb, e1: Rgb, fourColour: bool): (palette: seq<Rgba>)
    ensures |palette| == 4
    ensures palette[0] == Rgba(e0.r, e0.g, e0.b, 255) && palette[1] == Rgba(e1.r, e1.g, e1.b, 255)
    ensures palette[2].a == 255 && (palette[3].a == 0 <==> !fourColour)
    ensures !fourColour ==> palette[3] == Rgba(0, 0, 0, 0)
  {
    [ Rgba(e0.r, e0.g, e0.b, 255),
      Rgba(e1.r, e1.g, e1.b, 255),
      if fourColour then Rgba((2 * e0.r + e1.r) / 3, (2 * e0.g + e1.g) / 3, (2 * e0.b + e1.b) / 3, 255)
      else Rgba((e0.r + e1.r) / 2, (e0.g + e1.g) / 2, (e0.b + e1.b) / 2, 255),
      if fourColour then Rgba((e0.r + 2 * e1.r) / 3, (e0.g + 2 * e1.g) / 3, (e0.b + 2 * e1.b) / 3, 255)
      else Rgba(0, 0, 0, 0) ]
  }

  /** The sixteen pixels of a DXT1 block. */
  function Pixels1(block: seq<Byte>): (pixels: seq<Rgba>)
    requires |block| == 8
    ensures |pixels| == 16
    ensures var c0, c1 := Endpoint(block, 0), Endpoint(block, 2);
      forall i :: 0 <= i < 16 ==> pixels[i] == Colors1(Rgb565(c0), Rgb565(c1), c0 > c1)[ColorIndex(Code32(block, 4), i)]
  {
    var c0, c1 := Endpoint(block, 0), Endpoint(block, 2);
    Lookup(Colors1(Rgb565(c0), Rgb565(c1), c0 > c1), Code32(block, 4))
  }

  /** The 64-byte tile of a DXT1 block. */
  function Tile1(block: seq<Byte>): (tile: seq<Byte>)
    requires |block| == 8
    ensures |tile| == 64
  {
    TileOf(Pixels1(block))
  }

  /** Fills the four palette words from the unpacked endpoints. */
  method Palette1(r0: Rgb, r1: Rgb, fourColour: bool, colors: array<Uint32>)
    requires colors.Length == 4
    modifies colors
    ensures HoldsPalette(colors, Colors1(r0, r1, fourColour))
  {
    ghost var palette := Colors1(r0, r1, fourColour);
    assert palette[0] == Rgba(r0.r, r0.g, r0.b, 255) && palette[1] == Rgba(r1.r, r1.g, r1.b, 255);
    StoreColor(colors, 0, r0.r, r0.g, r0.b, 255);
    StoreColor(colors, 1, r1.r, r1.g, r1.b, 255);
    if fourColour {
      StoreColor(colors, 2, (2 * r0.r + r1.r) / 3, (2 * r0.g + r1.g) / 3, (2 * r0.b + r1.b) / 3, 255);
      StoreColor(colors, 3, (r0.r + 2 * r1.r) / 3, (r0.g + 2 * r1.g) / 3, (r0.b + 2 * r1.b) / 3, 255);
      assert palette[2] == Rgba((2 * r0.r + r1.r) / 3, (2 * r0.g + r1.g) / 3, (2 * r0.b + r1.b) / 3, 255);
      assert palette[3] == Rgba((r0.r + 2 * r1.r) / 3, (r0.g + 2 * r1.g) / 3, (r0.b + 2 * r1.b) / 3, 255);
    } else {
      StoreColor(colors, 2, (r0.r + r1.r) / 2, (r0.g + r1.g) / 2, (r0.b + r1.b) / 2, 255);
      StoreColor(colors, 3, 0, 0, 0, 0);
      assert palette[2] == Rgba((r0.r + r1.r) / 2, (r0.g + r1.g) / 2, (r0.b + r1.b) / 2, 255);
      assert palette[3] == Rgba(0, 0, 0, 0);
    }
    HoldsFour(colors, palette);
  }

  /** The per-pixel loop: unpacks the palette word each 2-bit index selects
      into the tile buffer, shifting the index word two bits per pixel. */
  method DecodePixels1(colors: array<Uint32>, ghost palette: seq<Rgba>, code: Uint32, buffer: array<Byte>)
    requires HoldsPalette(colors, palette) && buffer.Length == 64
    modifies buffer
    ensures buffer[..] == TileOf(Lookup(palette, code))
  {
    ghost var pixels := Lookup(palette, code);
    var bitcode: nat := code;
    var i := 0;
    while i < 16
      invariant 0 <= i <= 16
      invariant bitcode == Drop(code, 2, i)
      invariant buffer[..4 * i] == TileOf(pixels)[..4 * i]
    {
      var idx := i * 4;
      NextColorIndex(code, i);
      ghost var p := palette[ColorIndex(code, i)];
      var c := UnpackPixel(colors[BitAnd(bitcode, 0x3)]);
      PackedInjective(c, p);
      PutPixel(buffer, idx, c);
      TileGrows(buffer[..], pixels, i);
      bitcode := Shr(bitcode, 2);
      i := i + 1;
    }
    assert buffer[..] == buffer[..64];
  }

  /** Decodes one DXT1 block into the 64-byte tile buffer. */
  method FillTile1(block: seq<Byte>, buffer: array<Byte>)
    requires |block| == 8 && buffer.Length == 64
    modifies buffer
    ensures buffer[..] == Tile1(block)
  {
    var colors := new Uint32[4];
    var c0 := Word16(block[0], block[1]);
    var c1 := Word16(block[2], block[3]);
    var r0 := Unpack565(c0);
    var r1 := Unpack565(c1);
    Palette1(r0, r1, c0 > c1, colors);
    var bitcode := Word32(block[4], block[5], block[6], block[7]);
    DecodePixels1(colors, Colors1(r0, r1, c0 > c1), bitcode, buffer);
    assert c0 == Endpoint(block, 0) && c1 == Endpoint(block, 2) && bitcode == Code32(block, 4);
    assert Pixels1(block) == Lookup(Colors1(r0, r1, c0 > c1), bitcode);
  }

  // ---------------------------------------------------------------------
  // Properties of DXT1 pixels

  /** One-bit alpha: a pixel is transparent exactly when the block is in
      three-colour mode (`c0 <= c1`) and its index is 3; every other pixel is
      fully opaque. */
  lemma Dxt1Alpha(block: seq<Byte>, i: nat)
    requires |block| == 8 && i < 16
    ensures Pixels1(block)[i].a
      == if Endpoint(block, 0) <= Endpoint(block, 2) && ColorIndex(Code32(block, 4), i) == 3 then 0 else 255
  {
  }

  /** Every opaque palette entry has each channel between the endpoints'
      channels; the only other entry is transparent black. */
  lemma Colors1Between(e0: Rgb, e1: Rgb, fourColour: bool, k: nat)
    requires k < 4
    ensures var px := Colors1(e0, e1, fourColour)[k];
      px.a == 255 ==> ChannelsBetween(px, e0, e1)
    ensures var px := Colors1(e0, e1, fourColour)[k];
      px.a != 255 ==> px == Rgba(0, 0, 0, 0)
  {
    BlendsBetween(e0.r, e1.r);
    BlendsBetween(e0.g, e1.g);
    BlendsBetween(e0.b, e1.b);
  }

  /** Every opaque pixel has each channel between the two endpoint colours'
      channels; every other pixel is transparent black. */
  lemma Dxt1Between(block: seq<Byte>, i: nat)
    requires |block| == 8 && i < 16
    ensures var px := Pixels1(block)[i];
      px.a == 255 ==> ChannelsBetween(px, Rgb565(Endpoint(block, 0)), Rgb565(Endpoint(block, 2)))
    ensures var px := Pixels1(block)[i];
      px.a != 255 ==> px == Rgba(0, 0, 0, 0)
  {
    var c0, c1 := Endpoint(block, 0), Endpoint(block, 2);
    Colors1Between(Rgb565(c0), Rgb565(c1), c0 > c1, ColorIndex(Code32(block, 4), i));
  }

  /** When both endpoint words are equal the block is in three-colour mode:
      pixels with index 0, 1 or 2 are the opaque endpoint colour and pixels
      with index 3 are transparent black. */
  lemma Dxt1Uniform(block: seq<Byte>, i: nat)
    requires |block| == 8 && i < 16 && Endpoint(block, 0) == Endpoint(block, 2)
    ensures var px, e := Pixels1(block)[i], Rgb565(Endpoint(block, 0));
      px == if ColorIndex(Code32(block, 4), i) == 3 then Rgba(0, 0, 0, 0) else Rgba(e.r, e.g, e.b, 255)
  {
    var e := Rgb565(Endpoint(block, 0));
    BlendsBetween(e.r, e.r);
    BlendsBetween(e.g, e.g);
    BlendsBetween(e.b, e.b);
  }
}
