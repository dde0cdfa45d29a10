/** The colour codec shared by the three block formats: unpacking a 5:6:5
    endpoint word into 8-bit channels, packing four channels into one 32-bit
    word and back, and the integer blends between two channel values. */
module Color {
  import opened Bits

  /** An endpoint colour unpacked from a 5:6:5 word. */
  datatype Rgb = Rgb(r: Byte, g: Byte, b: Byte)

  /** One pixel, 8 bits per channel. */
  datatype Rgba = Rgba(r: Byte, g: Byte, b: Byte, a: Byte)

  /** A 5-bit field widened to 8 bits by repeating its top 3 bits below it,
      `(f << 3) | (f >> 2)`. */
  function Widen5(f: nat): nat
  {
    f * 8 + f / 4
  }

  /** A 6-bit field widened to 8 bits by repeating its top 2 bits below it,
      `(f << 2) | (f >> 4)`. */
  function Widen6(f: nat): nat
  {
    f * 4 + f / 16
  }

  /** Red is bits 11-15, green bits 5-10 and blue bits 0-4 of the word; each
      field is widened to 8 bits by bit replication. */
  function Unpack565(color: Uint32): (c: Rgb)
    ensures c == Rgb565(color)
  {
    UnpackFields(color);
    var r := Shr(BitAnd(color, 0xF800), 8);
    var g := Shr(BitAnd(color, 0x07E0), 3);
    var b := Shl(BitAnd(color, 0x001F), 3, 32);
    Rgb(BitOr(r, Shr(r, 5)), BitOr(g, Shr(g, 6)), BitOr(b, Shr(b, 5)))
  }

  /** `(r << 16) | (g << 8) | b | (a << 24)` on uint32 values: for 8-bit
      channels, the word with blue in the low byte, then green, red and
      alpha. */
  function PackRgba(r: Uint32, g: Uint32, b: Uint32, a: Uint32): (w: Uint32)
    ensures r < 0x100 && g < 0x100 && b < 0x100 && a < 0x100 ==> w == Packed(Rgba(r, g, b, a))
  {
    PackRgbaSum(r, g, b, a);
    Or32(Or32(Or32(Shl32(r, 16), Shl32(g, 8)), b), Shl32(a, 24))
  }

  /** The four bytes of a packed word: blue is the low byte, then green, red
      and alpha; together they make up the whole word. */
  function UnpackRgba(c: Uint32): (p: Rgba)
    ensures p == Rgba(Field(c, 16, 8), Field(c, 8, 8), Field(c, 0, 8), Field(c, 24, 8))
    ensures Packed(p) == c
  {
    ByteOf(c, 0);
    ByteOf(c, 8);
    ByteOf(c, 16);
    ByteOf(c, 24);
    assert Pow2(0) == 1;
    Bytes32(c);
    Rgba(BitAnd(Shr(c, 16), 0xFF), BitAnd(Shr(c, 8), 0xFF), BitAnd(c, 0xFF), BitAnd(Shr(c, 24), 0xFF))
  }

  /** The 32-bit word holding a pixel: blue in the low byte, then green, red
      and alpha.  This is the arithmetic meaning of a packed palette word. */
  function Packed(c: Rgba): (w: nat)
    ensures w < 0x1_0000_0000
  {
    c.b + 0x100 * (c.g + 0x100 * (c.r + 0x100 * c.a))
  }

  /** The colour a 5:6:5 word stands for: each field of the low 16 bits
      widened to 8 bits. */
  function Rgb565(color: nat): (c: Rgb)
    ensures c.r / 8 == Field(color, 11, 5) && c.g / 4 == Field(color, 5, 6) && c.b / 8 == Field(color, 0, 5)
  {
    var fr, fg, fb := Field(color, 11, 5), Field(color, 5, 6), Field(color, 0, 5);
    FieldsBelow(color);
    Widen5Top(fr);
    Widen6Top(fg);
    Widen5Top(fb);
    Rgb(Widen5(fr), Widen6(fg), Widen5(fb))
  }

  /** `v` lies between `lo` and `hi`, in either order. */
  predicate Between(v: int, lo: int, hi: int)
  {
    (lo <= v <= hi) || (hi <= v <= lo)
  }

  /** The 1/3 blend `(2*c0 + c1) / 3`, in wrapping uint32 arithmetic. */
  function Lerp13(c0: Uint32, c1: Uint32): (r: Uint32)
    ensures 2 * c0 + c1 < 0x1_0000_0000 ==> Between(r, c0, c1)
    ensures c0 == c1 && 3 * c0 < 0x1_0000_0000 ==> r == c0
  {
    ((2 * c0 + c1) % 0x1_0000_0000) / 3
  }

  /** The 2/3 blend `(c0 + 2*c1) / 3`: the 1/3 blend seen from the other end. */
  function Lerp23(c0: Uint32, c1: Uint32): (r: Uint32)
    ensures r == Lerp13(c1, c0)
    ensures c0 + 2 * c1 < 0x1_0000_0000 ==> Between(r, c0, c1)
    ensures c0 == c1 && 3 * c0 < 0x1_0000_0000 ==> r == c0
  {
    ((c0 + 2 * c1) % 0x1_0000_0000) / 3
  }

  /** The midpoint `(c0 + c1) / 2`, used by the three-colour mode. */
  function Average(c0: Uint32, c1: Uint32): (r: Uint32)
    ensures c0 + c1 < 0x1_0000_0000 ==> Between(r, c0, c1)
    ensures c0 == c1 && 2 * c0 < 0x1_0000_0000 ==> r == c0
  {
    ((c0 + c1) % 0x1_0000_0000) / 2
  }

  /** Palette entry 2 of a DXT3 block: the 1/3 blend when the packed endpoint
      words compare `color0 > color1`, the midpoint otherwise. */
  function C2(c0: Uint32, c1: Uint32, color0: Uint32, color1: Uint32): (r: Uint32)
    ensures 2 * c0 + c1 < 0x1_0000_0000 && c0 + c1 < 0x1_0000_0000 ==> Between(r, c0, c1)
    ensures c0 == c1 && 3 * c0 < 0x1_0000_0000 ==> r == c0
    ensures color0 > color1 ==> r == Lerp13(c0, c1)
    ensures color0 <= color1 ==> r == Average(c0, c1)
  {
    if color0 > color1 then Lerp13(c0, c1) else Average(c0, c1)
  }

  /** Palette entry 3 of a DXT3 block: always the 2/3 blend. */
  function C3(c0: Uint32, c1: Uint32): (r: Uint32)
    ensures c0 + 2 * c1 < 0x1_0000_0000 ==> Between(r, c0, c1)
    ensures c0 == c1 && 3 * c0 < 0x1_0000_0000 ==> r == c0
  {
    Lerp23(c0, c1)
  }

  /** On 8-bit channels no blend wraps, so each is the plain integer formula. */
  lemma ByteBlends(a: Byte, b: Byte)
    ensures Lerp13(a, b) == (2 * a + b) / 3 && Lerp23(a, b) == (a + 2 * b) / 3
    ensures Average(a, b) == (a + b) / 2
  {
    DivModUnique(2 * a + b, 0x1_0000_0000, 0, 2 * a + b);
    DivModUnique(a + 2 * b, 0x1_0000_0000, 0, a + 2 * b);
    DivModUnique(a + b, 0x1_0000_0000, 0, a + b);
  }

  // ---------------------------------------------------------------------
  // 5:6:5 unpacking

  /** Bit replication of a 5-bit field placed at bit 3. */
  lemma Replicate5(f: nat)
    requires f < 32
    ensures BitOr(f * 8, Shr(f * 8, 5)) == Widen5(f)
  {
    Pow2Values();
    DivModUnique(f * 8, 32, f / 4, 8 * (f % 4));
    OrCommutes(f * 8, f / 4);
    OrDisjoint(f / 4, f, 3);
  }

  /** Bit replication of a 6-bit field placed at bit 2. */
  lemma Replicate6(f: nat)
    requires f < 64
    ensures BitOr(f * 4, Shr(f * 4, 6)) == Widen6(f)
  {
    Pow2Values();
    DivModUnique(f * 4, 64, f / 16, 4 * (f % 16));
    OrCommutes(f * 4, f / 16);
    OrDisjoint(f / 16, f, 2);
  }

  lemma UnpackFields(color: Uint32)
    ensures var r := Shr(BitAnd(color, 0xF800), 8); BitOr(r, Shr(r, 5)) == Widen5(Field(color, 11, 5))
    ensures var g := Shr(BitAnd(color, 0x07E0), 3); BitOr(g, Shr(g, 6)) == Widen6(Field(color, 5, 6))
    ensures var b := Shl(BitAnd(color, 0x001F), 3, 32); BitOr(b, Shr(b, 5)) == Widen5(Field(color, 0, 5))
  {
    UnpackRed(color);
    UnpackGreen(color);
    UnpackBlue(color);
  }

  lemma UnpackRed(color: Uint32)
    ensures var r := Shr(BitAnd(color, 0xF800), 8); BitOr(r, Shr(r, 5)) == Widen5(Field(color, 11, 5))
  {
    var f := Field(color, 11, 5);
    assert BitAnd(color, 0xF800) == f * 0x800 by {
      assert FieldMask(11, 5) == 0xF800 by { Pow2Values(); }
      AndFieldMask(color, 11, 5);
      Pow2Values();
    }
    assert Shr(f * 0x800, 8) == f * 8 by {
      Pow2Values();
      DivModUnique(f * 0x800, 0x100, f * 8, 0);
    }
    assert f < 32 by { Pow2Values(); }
    Replicate5(f);
  }

  lemma UnpackGreen(color: Uint32)
    ensures var g := Shr(BitAnd(color, 0x07E0), 3); BitOr(g, Shr(g, 6)) == Widen6(Field(color, 5, 6))
  {
    var f := Field(color, 5, 6);
    assert BitAnd(color, 0x07E0) == f * 32 by {
      assert FieldMask(5, 6) == 0x07E0 by { Pow2Values(); }
      AndFieldMask(color, 5, 6);
      Pow2Values();
    }
    assert Shr(f * 32, 3) == f * 4 by {
      Pow2Values();
      DivModUnique(f * 32, 8, f * 4, 0);
    }
    assert f < 64 by { Pow2Values(); }
    Replicate6(f);
  }

  lemma UnpackBlue(color: Uint32)
    ensures var b := Shl(BitAnd(color, 0x001F), 3, 32); BitOr(b, Shr(b, 5)) == Widen5(Field(color, 0, 5))
  {
    var f := Field(color, 0, 5);
    assert BitAnd(color, 0x001F) == f by {
      Pow2Values();
      AndLowMask(color, 5);
    }
    assert f < 32 by { Pow2Values(); }
    assert Shl(f, 3, 32) == f * 8 by {
      ShlByte(f, 3, 32);
      Pow2Values();
    }
    Replicate5(f);
  }

  /** A word whose low 16 bits are clear decodes to black. */
  lemma Unpack565Black(color: Uint32)
    requires color % 0x1_0000 == 0
    ensures Unpack565(color) == Rgb(0, 0, 0)
  {
    Low16Fields(color);
  }

  /** A word whose low 16 bits are all set decodes to white. */
  lemma Unpack565White(color: Uint32)
    requires color % 0x1_0000 == 0xFFFF
    ensures Unpack565(color) == Rgb(255, 255, 255)
  {
    Low16Fields(color);
    FieldsBelow(color);
  }

  /** The 5:6:5 fields are the top bits of the unpacked channels, so
      unpacking loses nothing: the low 16 bits of the word are recovered
      from the colour. */
  lemma Unpack565Invertible(color: Uint32)
    ensures var c := Unpack565(color);
      color % 0x1_0000 == (c.r / 8) * 0x800 + (c.g / 4) * 0x20 + c.b / 8
  {
    Low16Fields(color);
  }

  lemma Widen5Top(f: nat)
    requires f < 32
    ensures Widen5(f) / 8 == f && Widen5(f) < 0x100
  {
    DivModUnique(Widen5(f), 8, f, f / 4);
  }

  lemma Widen6Top(f: nat)
    requires f < 64
    ensures Widen6(f) / 4 == f && Widen6(f) < 0x100
  {
    DivModUnique(Widen6(f), 4, f, f / 16);
  }

  /** The three 5:6:5 fields are below 32, 64 and 32. */
  lemma FieldsBelow(color: nat)
    ensures Field(color, 11, 5) < 32 && Field(color, 5, 6) < 64 && Field(color, 0, 5) < 32
  {
    Pow2Values();
  }

  /** The low 16 bits of a word are its three 5:6:5 fields. */
  lemma Low16Fields(color: nat)
    ensures color % 0x1_0000 == Field(color, 11, 5) * 0x800 + Field(color, 5, 6) * 0x20 + Field(color, 0, 5)
  {
    SplitLow(color, 11, 5);
    SplitLow(color, 5, 6);
    assert Pow2(0) == 1;
    Pow2Values();
  }

  /** Two words unpack to the same colour exactly when their low 16 bits
      agree: the bits above 16 are ignored and no two 5:6:5 words collide. */
  lemma Unpack565Injective(c0: Uint32, c1: Uint32)
    ensures Unpack565(c0) == Unpack565(c1) <==> c0 % 0x1_0000 == c1 % 0x1_0000
  {
    if Unpack565(c0) == Unpack565(c1) {
      Unpack565Invertible(c0);
      Unpack565Invertible(c1);
    }
    if c0 % 0x1_0000 == c1 % 0x1_0000 {
      Low16Digits(c0);
      Low16Digits(c1);
    }
  }

  /** The three 5:6:5 fields are the mixed-radix digits of the low 16 bits,
      so they are determined by them. */
  lemma Low16Digits(color: nat)
    ensures var low, rest := color % 0x1_0000, Field(color, 5, 6) * 0x20 + Field(color, 0, 5);
      low / 0x800 == Field(color, 11, 5) && low % 0x800 == rest
      && rest / 0x20 == Field(color, 5, 6) && rest % 0x20 == Field(color, 0, 5)
  {
    var fr, fg, fb := Field(color, 11, 5), Field(color, 5, 6), Field(color, 0, 5);
    Low16Fields(color);
    FieldsBelow(color);
    DivModUnique(color % 0x1_0000, 0x800, fr, fg * 0x20 + fb);
    DivModUnique(fg * 0x20 + fb, 0x20, fg, fb);
  }

  // ---------------------------------------------------------------------
  // Packed RGBA words

  /** With 8-bit channels the four shifted fields do not overlap, so the OR
      of the shifts is their sum. */
  lemma PackRgbaSum(r: Uint32, g: Uint32, b: Uint32, a: Uint32)
    ensures r < 0x100 && g < 0x100 && b < 0x100 && a < 0x100 ==>
      Or32(Or32(Or32(Shl32(r, 16), Shl32(g, 8)), b), Shl32(a, 24)) == b + 0x100 * g + 0x1_0000 * r + 0x100_0000 * a
  {
    if r < 0x100 && g < 0x100 && b < 0x100 && a < 0x100 {
      OrOfBytes(r, g, b, a);
    }
  }

  lemma OrOfBytes(r: Byte, g: Byte, b: Byte, a: Byte)
    ensures Or32(Or32(Or32(Shl32(r, 16), Shl32(g, 8)), b), Shl32(a, 24)) == b + 0x100 * g + 0x1_0000 * r + 0x100_0000 * a
  {
    var rs, gs, as_ := Shl32(r, 16), Shl32(g, 8), Shl32(a, 24);
    assert Pow2(8) == 0x100 && Pow2(16) == 0x1_0000 && Pow2(24) == 0x100_0000 by {
      Pow2Narrow();
    }
    ShlByte(r, 16, 32);
    ShlByte(g, 8, 32);
    ShlByte(a, 24, 32);
    assert rs == 0x1_0000 * r && gs == 0x100 * g && as_ == 0x100_0000 * a;
    var rg := gs + 0x1_0000 * r;
    assert Or32(rs, gs) == rg by {
      OrShifted(gs, r, 16, 0x1_0000);
    }
    var rgb := b + rg;
    assert Or32(rg, b) == rgb by {
      assert rg == 0x100 * (g + 0x100 * r);
      OrShifted(b, g + 0x100 * r, 8, 0x100);
    }
    assert Or32(rgb, as_) == rgb + as_ by {
      OrShifted(rgb, a, 24, 0x100_0000);
    }
  }

  /** The four byte fields of a word, as divisions by constants. */
  lemma Fields8(c: nat)
    ensures Field(c, 0, 8) == c % 0x100
    ensures Field(c, 8, 8) == (c / 0x100) % 0x100
    ensures Field(c, 16, 8) == (c / 0x1_0000) % 0x100
    ensures Field(c, 24, 8) == (c / 0x100_0000) % 0x100
  {
    Pow2Values();
    assert Pow2(0) == 1;
  }

  /** A uint32 is the sum of its four bytes. */
  lemma Bytes32(c: Uint32)
    ensures c == Field(c, 0, 8) + 0x100 * Field(c, 8, 8) + 0x1_0000 * Field(c, 16, 8) + 0x100_0000 * Field(c, 24, 8)
  {
    Fields8(c);
    ByteDigits(c);
  }

  /** Base-256 digits of a number below 2^32. */
  lemma ByteDigits(c: nat)
    requires c < 0x1_0000_0000
    ensures c == c % 0x100 + 0x100 * ((c / 0x100) % 0x100) + 0x1_0000 * ((c / 0x1_0000) % 0x100)
      + 0x100_0000 * ((c / 0x100_0000) % 0x100)
  {
    var q1, q2, q3 := c / 0x100, c / 0x1_0000, c / 0x100_0000;
    assert q2 == q1 / 0x100 by {
      DivDiv(c, 0x100, 0x100);
    }
    assert q3 == q2 / 0x100 by {
      DivDiv(c, 0x1_0000, 0x100);
    }
    assert q3 < 0x100;
  }

  /** The bytes of `b + 256*g + 65536*r + 2^24*a` are `b`, `g`, `r` and `a`. */
  lemma FieldsOfBytes(r: Byte, g: Byte, b: Byte, a: Byte)
    ensures var c := b + 0x100 * g + 0x1_0000 * r + 0x100_0000 * a;
      Field(c, 0, 8) == b && Field(c, 8, 8) == g && Field(c, 16, 8) == r && Field(c, 24, 8) == a
  {
    Fields8(b + 0x100 * g + 0x1_0000 * r + 0x100_0000 * a);
    DigitsOfBytes(r, g, b, a);
  }

  /** Reading back the base-256 digits of a number built from four bytes. */
  lemma DigitsOfBytes(r: Byte, g: Byte, b: Byte, a: Byte)
    ensures var c := b + 0x100 * g + 0x1_0000 * r + 0x100_0000 * a;
      c % 0x100 == b && (c / 0x100) % 0x100 == g && (c / 0x1_0000) % 0x100 == r && (c / 0x100_0000) % 0x100 == a
  {
    var c := b + 0x100 * g + 0x1_0000 * r + 0x100_0000 * a;
    assert c / 0x100 == g + 0x100 * r + 0x1_0000 * a && c % 0x100 == b by {
      DivModUnique(c, 0x100, g + 0x100 * r + 0x1_0000 * a, b);
    }
    assert c / 0x1_0000 == r + 0x100 * a by {
      DivModUnique(c, 0x1_0000, r + 0x100 * a, b + 0x100 * g);
    }
    assert c / 0x100_0000 == a by {
      DivModUnique(c, 0x100_0000, a, b + 0x100 * g + 0x1_0000 * r);
    }
    assert (g + 0x100 * r + 0x1_0000 * a) % 0x100 == g by {
      DivModUnique(g + 0x100 * r + 0x1_0000 * a, 0x100, r + 0x100 * a, g);
    }
    assert (r + 0x100 * a) % 0x100 == r by {
      DivModUnique(r + 0x100 * a, 0x100, a, r);
    }
  }

  /** Unpacking a packed word gives back the four channels. */
  lemma PackUnpack(r: Byte, g: Byte, b: Byte, a: Byte)
    ensures UnpackRgba(PackRgba(r, g, b, a)) == Rgba(r, g, b, a)
  {
    UnpackPacked(Rgba(r, g, b, a));
  }

  /** Packing the unpacked channels gives back the word. */
  lemma UnpackPack(c: Uint32)
    ensures var p := UnpackRgba(c); PackRgba(p.r, p.g, p.b, p.a) == c
  {
    var p := UnpackRgba(c);
  }

  /** The bytes `unpack_rgba` reads from a word are its base-256 digits. */
  lemma UnpackPacked(c: Rgba)
    ensures UnpackRgba(Packed(c)) == c
  {
    var w := Packed(c);
    assert w == c.b + 0x100 * c.g + 0x1_0000 * c.r + 0x100_0000 * c.a;
    FieldsOfBytes(c.r, c.g, c.b, c.a);
    assert UnpackRgba(w) == Rgba(Field(w, 16, 8), Field(w, 8, 8), Field(w, 0, 8), Field(w, 24, 8));
  }

  /** Different pixels pack to different words. */
  lemma PackedInjective(x: Rgba, y: Rgba)
    requires Packed(x) == Packed(y)
    ensures x == y
  {
    UnpackPacked(x);
    UnpackPacked(y);
  }

  /** ORing an alpha value shifted to the top byte into a palette word whose
      alpha byte is 0 sets that byte, in either order of the operands. */
  lemma MergeWord(p: Rgba, x: Byte)
    requires p.a == 0
    ensures BitOr(Packed(p), 0x100_0000 * x) == Packed(p.(a := x))
    ensures BitOr(0x100_0000 * x, Packed(p)) == Packed(p.(a := x))
  {
    var w := Packed(p);
    assert w < 0x100_0000;
    assert Packed(p.(a := x)) == w + 0x100_0000 * x;
    assert Pow2(24) == 0x100_0000 by {
      Pow2Narrow();
    }
    OrShifted(w, x, 24, 0x100_0000);
  }

  /** A word whose alpha byte is 0, ORed with an alpha value shifted to the
      top byte, unpacks to the same colour with that alpha, in either order
      of the operands. */
  lemma MergeAlpha(w: Uint32, x: Byte)
    requires UnpackRgba(w).a == 0
    ensures UnpackRgba(Or32(w, Shl(x, 24, 32))) == UnpackRgba(w).(a := x)
    ensures UnpackRgba(Or32(Shl(x, 24, 32), w)) == UnpackRgba(w).(a := x)
  {
    MergedWord(w, x);
    UnpackPacked(UnpackRgba(w).(a := x));
  }

  /** The word form of `MergeAlpha`. */
  lemma MergedWord(w: Uint32, x: Byte)
    requires UnpackRgba(w).a == 0
    ensures Or32(w, Shl(x, 24, 32)) == Packed(UnpackRgba(w).(a := x))
    ensures Or32(Shl(x, 24, 32), w) == Packed(UnpackRgba(w).(a := x))
  {
    var p := UnpackRgba(w);
    assert w == Packed(p);
    assert Shl(x, 24, 32) == 0x100_0000 * x by {
      ShlByte(x, 24, 32);
      Pow2Values();
    }
    MergeWord(p, x);
  }
}
