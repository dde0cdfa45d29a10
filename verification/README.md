# dxt — S3 texture block decoding, modelled in Dafny

This project models the Go package `dxt`. The package decodes S3 block-compressed
textures into a row-major RGBA8 raster: DXT1 (BC1), DXT3 (BC2) and DXT5 (BC3).
Every block encodes a 4×4 pixel tile. The decoder:

- unpacks the block's two 5:6:5 endpoint colours;
- builds a four-entry palette, and for DXT3/DXT5 an alpha table;
- reads the 2-bit (and for DXT5 the 3-bit alpha) pixel indices, least-significant bits first;
- writes the 64-byte tile into a scratch buffer;
- copies the visible rows and columns of that buffer into the output image.

The project has seven modules:

- `Bits` models Go's unsigned `&`, `|`, `<<` and `>>` on naturals. The width of a `<<` is explicit, and the module relates these operations to arithmetic.
- `Color` models `unpack_565`, `pack_rgba`, `unpack_rgba`, `c2`, `c3`, `lerp_13` and `lerp_23`, including uint32 wrap-around.
- `Block` holds what the three block decoders share:
  - little-endian word assembly;
  - the index streams;
  - the tile layout;
  - the palette and alpha arrays.
- `Dxt1`, `Dxt3` and `Dxt5` are three modules, one per format. Each holds:
  - the block's pixels as a specification function;
  - the imperative per-block decode (arrays `colors`, `alphas` and `buffer`, with their loops), proved against that function;
  - the properties of the format.
- `Raster` holds the decode driver and the blit loop, both over arrays.
  - The decoded image is specified byte by byte: output byte `n` is byte `TileIndex(n)` of the tile of the block covering pixel `n / 4`.
  - `Decode` is proved to produce exactly that image, or to fail on short input with no output.

The Go types `uint32` and `uint64` are subset types of `int`. Every arithmetic step that can exceed 32 bits wraps explicitly.

## Model

| member | source | states |
|---|---|---|
| Color.Unpack565 | dxt.go:8-17 | each 8-bit channel holds its 5-bit (or 6-bit) field of the colour word as its top bits, with the field's top bits replicated below |
| Color.Unpack565Black | dxt.go:8-17 | a word whose low 16 bits are zero unpacks to black (0, 0, 0) |
| Color.Unpack565White | dxt.go:8-17 | a word whose low 16 bits are 0xFFFF unpacks to white (255, 255, 255) |
| Color.Unpack565Invertible | dxt.go:8-17 | the low 16 bits of the word can be rebuilt from the unpacked channels, so unpacking loses nothing |
| Color.Unpack565Injective | dxt.go:8-17 | two words unpack to the same colour if and only if their low 16 bits agree: the bits above 16 are ignored and no two 5:6:5 words collide |
| Color.PackRgba | dxt.go:20-22 | for byte channels, `(r << 16) \| (g << 8) \| b \| (a << 24)` is the packed word with blue in byte 0, green in 1, red in 2 and alpha in 3 |
| Color.PackRgbaSum | dxt.go:20-22 | for byte channels the OR of the shifted channels is the sum `b + 256 g + 65536 r + 16777216 a`, since the shifted fields are disjoint |
| Color.UnpackRgba | dxt.go:25-32 | the four channels are bytes 2, 1, 0 and 3 of the word, and packing them gives back the word |
| Color.PackUnpack | dxt.go:20-32 | unpacking a packed colour gives back its four channels |
| Color.UnpackPack | dxt.go:20-32 | packing the four unpacked channels of any 32-bit word gives back the word |
| Color.UnpackPacked | dxt.go:25-32 | `unpack_rgba` reads back every colour the packed layout stores |
| Color.PackedInjective | dxt.go:20-22 | two colours with the same packed word are equal |
| Color.MergeWord | dxt.go:173 | ORing `x << 24` into the packed word of an alpha-0 colour, in either order, sets the colour's alpha to x and leaves r, g and b unchanged |
| Color.MergedWord | dxt.go:173 | on 32-bit words: ORing `x << 24` into a word whose alpha byte is 0, in either order, gives the packed word of the same colour with alpha x |
| Color.MergeAlpha | dxt.go:173 | on 32-bit words: ORing a shifted alpha into a word whose alpha byte is 0, in either order, unpacks to the same colour with that alpha |
| Color.Lerp13 | dxt.go:49-51 | the 1/3 blend lies between its endpoints whenever `2*c0 + c1` does not wrap, and equals the endpoint when both are equal and `3*c0` does not wrap |
| Color.Lerp23 | dxt.go:54-56 | the 2/3 blend is the 1/3 blend with the endpoints swapped; it lies between them when `c0 + 2*c1` does not wrap, and keeps equal endpoints when `3*c0` does not wrap |
| Color.Average | dxt.go:39 | the midpoint lies between its endpoints when `c0 + c1` does not wrap, and keeps equal endpoints when `2*c0` does not wrap |
| Color.C2 | dxt.go:35-41 | the 1/3 blend when `color0 > color1`, else the average of the channels; it lies between the endpoints when neither sum wraps, and keeps equal endpoints when `3*c0` does not wrap |
| Color.C3 | dxt.go:44-46 | the 2/3 blend, whatever the endpoint words; it lies between the endpoints when `c0 + 2*c1` does not wrap, and keeps equal endpoints when `3*c0` does not wrap |
| Color.ByteBlends | dxt.go:35-56 | on byte channels nothing wraps: the blends are exactly `(2a+b)/3`, `(a+2b)/3` and `(a+b)/2` |
| Block.Word16 | dxt.go:77-78 | `lo \| hi << 8` is the two bytes read little-endian |
| Block.Word32 | dxt.go:93 | the OR of the four shifted bytes is the bytes read little-endian |
| Block.Word32Sum | dxt.go:93 | the OR of the shifted bytes is the little-endian sum of the bytes |
| Block.Word48 | dxt.go:249-250 | the six alpha-index bytes, little-endian |
| Block.Word48Sum | dxt.go:249-250 | the OR of the six shifted bytes in a 64-bit word is the little-endian sum of the bytes |
| Block.ColorIndexBits | dxt.go:94-103 | pixel i's colour index is bits 2i and 2i+1 of the index word |
| Block.AlphaIndexBits | dxt.go:266-281 | pixel i's alpha index is bits 3i to 3i+2 of the 48-bit word |
| Block.NextColorIndex | dxt.go:96-102 | after i shifts by 2, `bitcode & 3` is pixel i's colour index, and one more shift leaves the indices of the pixels after i |
| Block.NextAlphaIndex | dxt.go:267-268 | after i shifts by 3, `bitcode_a & 7` is pixel i's alpha index, and one more shift leaves the indices of the pixels after i |
| Block.DropShr | dxt.go:102 | i shifts by `bits` equal one shift by `bits*i` |
| Block.TileLayout | dxt.go:95-100 | bytes 4i to 4i+3 of the tile are pixel i's R, G, B, A |
| Block.PutPixel | dxt.go:96-100 | writes the four channels of a colour at `idx` to `idx+3` and leaves every byte before and after them unchanged |
| Block.UnpackPixel | dxt.go:25-32 | returns the colour whose packed word is the argument |
| Block.StoreColor | dxt.go:20-22 | sets one palette word to the packed colour and leaves the other words unchanged |
| Block.AlphaWord | dxt.go:273 | `uint32(alpha) << 24` puts the alpha byte in the top byte of an otherwise zero word |
| Block.BlendsBetween | dxt.go:86-89 | every channel blend lies between the channels it blends, and blending equal channels gives that channel |
| Dxt1.Colors1 | dxt.go:83-91 | entries 0 and 1 are the opaque endpoint colours and entry 2 is opaque; entry 3 is transparent exactly when `c0 <= c1`, and then it is transparent black |
| Dxt1.Pixels1 | dxt.go:77-103 | pixel i is the palette entry, for the block's endpoints and its `c0 > c1` test, that pixel i's 2-bit index selects |
| Dxt1.Palette1 | dxt.go:83-91 | the four words are opaque endpoint 0 and endpoint 1, then the 1/3 and 2/3 blends when `c0 > c1`, else the average and transparent black |
| Dxt1.DecodePixels1 | dxt.go:93-103 | the tile buffer holds, pixel by pixel, the palette entry that pixel's 2-bit index selects |
| Dxt1.FillTile1 | dxt.go:77-103 | the tile buffer equals the tile of the block's specified pixels |
| Dxt1.Dxt1Alpha | dxt.go:83-91 | one-bit alpha: a pixel is transparent exactly when `c0 <= c1` and its index is 3; otherwise alpha is 255 |
| Dxt1.Colors1Between | dxt.go:83-91 | every opaque palette entry lies between the endpoint colours; the only other entry is transparent black |
| Dxt1.Dxt1Between | dxt.go:77-103 | every opaque pixel lies between the endpoint colours; every other pixel is transparent black |
| Dxt1.Dxt1Uniform | dxt.go:83-91 | with equal endpoint words, a pixel with index 3 is transparent black and a pixel with index 0, 1 or 2 is the opaque endpoint colour |
| Dxt3.Alphas3 | dxt.go:151-157 | sixteen alphas, each a multiple of 17, that are 0 exactly for nibble 0 and 255 exactly for nibble 15 |
| Dxt3.NibbleFields | dxt.go:151-156 | the shifts by 0, 4, 8 and 12 of a little-endian alpha word read the low then high nibble of byte 0, then of byte 1 |
| Dxt3.WordLevels | dxt.go:151-156 | alpha word i carries the nibbles of pixels 4i to 4i+3 |
| Dxt3.ScaledNibble | dxt.go:153-156 | `((alpha >> shift) & 0xF) * 0x11 << 24` is the nibble at `shift` times 17, in the top byte |
| Dxt3.NibbleWords | dxt.go:151-156 | the four alpha words of one 16-bit word, lowest nibble first |
| Dxt3.ExplicitAlphas | dxt.go:151-157 | after the loop, alpha word n holds 17 times pixel n's nibble in its top byte, for all 16 pixels |
| Dxt3.Colors3 | dxt.go:165-168 | all four entries have alpha 0; entries 0 and 1 are the endpoint colours and entry 3 is `c3` of each channel |
| Dxt3.ThirdBlend | dxt.go:168 | on byte channels `c3` is exactly `(c0 + 2*c1)/3` on each channel |
| Dxt3.Pixels3 | dxt.go:151-180 | pixel i is the palette entry that its 2-bit index selects, with pixel i's explicit alpha in place of alpha 0 |
| Dxt3.Palette3 | dxt.go:162-168 | the four words are the alpha-0 endpoints, then `c2` and `c3` of each channel, also with alpha 0 |
| Dxt3.Blends3 | dxt.go:165-168 | entry 2 is `c2` of each channel and entry 3 is `c3`; entries 0 and 1 are untouched |
| Dxt3.Colors3AgainstColors1 | dxt.go:165-168 | the DXT3 palette is the DXT1 palette with alpha 0, except entry 3: it is always the 2/3 blend, even where DXT1 has transparent black |
| Dxt3.MergeAlphaWord | dxt.go:173 | `colors[k] \| alphas[i]` is the palette colour with pixel i's alpha |
| Dxt3.PixelStep3 | dxt.go:171-180 | one loop step writes pixel i's four channels, shifts the index word past pixel i and leaves every other byte of the buffer unchanged |
| Dxt3.DecodePixels3 | dxt.go:170-180 | the tile buffer holds, pixel by pixel, the palette entry its index selects, with that pixel's explicit alpha |
| Dxt3.FillTile3 | dxt.go:151-180 | the tile buffer equals the tile of the block's specified pixels |
| Dxt3.Dxt3Alpha | dxt.go:151-180 | a pixel's alpha is its explicit alpha, whatever colour it selects |
| Dxt3.Colors3Between | dxt.go:165-168 | every entry of the palette lies between the endpoint colours |
| Dxt3.Dxt3Between | dxt.go:159-180 | every pixel's colour lies between the endpoint colours |
| Dxt5.AlphaLevels5 | dxt.go:228-247 | eight levels, starting with a0 and a1; the table ends with 0 and 255 exactly when `a0 <= a1` |
| Dxt5.AlphaLevelsRamp | dxt.go:230-247 | the table is a ramp from a0 to a1: entry k is step k-1 of 7 when `a0 > a1`, and of 5 otherwise |
| Dxt5.AlphaLevelsOrdered | dxt.go:230-247 | the levels run monotonically from a0 to a1; the 5-level table ends with 0 and 255; equal endpoints give a0 six times, then 0 and 255 |
| Dxt5.AlphaLevelsExamples | dxt.go:230-247 | the tables for (255, 0) and (100, 200) |
| Dxt5.AlphaLevelsBetween | dxt.go:230-247 | every level except the 5-level table's 0 and 255 lies between a0 and a1 |
| Dxt5.AlphaTable5 | dxt.go:228-247 | the eight alpha words hold the eight levels in their top bytes |
| Dxt5.Sevenths | dxt.go:233-239 | when `a0 > a1`, entries 2 to 7 hold the six blends in sevenths; entries 0 and 1 are untouched |
| Dxt5.Fifths | dxt.go:240-246 | otherwise, entries 2 to 5 hold the four blends in fifths, then 0 and 255; entries 0 and 1 are untouched |
| Dxt5.Palette5 | dxt.go:258-262 | the four words are the alpha-0 endpoints and their 1/3 and 2/3 blends, whatever the endpoint words |
| Dxt5.Blends5 | dxt.go:261-262 | entries 2 and 3 are the 1/3 and 2/3 blends; entries 0 and 1 are untouched |
| Dxt5.Colors5 | dxt.go:255-262 | all four entries have alpha 0; entries 0 and 1 are the endpoint colours; the `lerp_13` and `lerp_23` blends are exactly `(2*c0 + c1)/3` and `(c0 + 2*c1)/3` on each channel, with no wrap-around |
| Dxt5.FirstBlend | dxt.go:261 | on byte channels `lerp_13` is exactly `(2*c0 + c1)/3` on each channel |
| Dxt5.Colors5FourColour | dxt.go:258-262 | the palette is the DXT3 palette in four-colour mode, and DXT1's four-colour palette with alpha 0 |
| Dxt5.MergeAlphaWord | dxt.go:273 | `alphas[a] \| colors[c]` is the palette colour with alpha level a |
| Dxt5.MergedPixel | dxt.go:267-276 | one pixel is the palette entry its colour index selects, with the level its alpha index selects |
| Dxt5.PixelStep5 | dxt.go:266-281 | one loop step writes pixel i's four channels, shifts both index words past pixel i and leaves every other byte of the buffer unchanged |
| Dxt5.DecodePixels5 | dxt.go:264-281 | the tile buffer holds, pixel by pixel, the palette entry of its colour index with the level of its alpha index |
| Dxt5.BlockTables5 | dxt.go:228-264 | fresh alpha and palette arrays that hold the block's alpha levels and palette, and the two index words read little-endian |
| Dxt5.AlphaTables5 | dxt.go:228-250 | a fresh alpha array holding the block's alpha levels, and the 48-bit alpha index word |
| Dxt5.ColorTables5 | dxt.go:252-264 | a fresh palette array holding the block's palette, and the 32-bit colour index word |
| Dxt5.Pixels5 | dxt.go:228-281 | pixel i is the palette entry its 2-bit index selects, with the alpha level its 3-bit index selects |
| Dxt5.FillTile5 | dxt.go:228-281 | the tile buffer equals the tile of the block's specified pixels |
| Dxt5.Dxt5Alpha | dxt.go:249-281 | a pixel's alpha is the table level its 3-bit index selects |
| Dxt5.Colors5Between | dxt.go:258-262 | every palette entry lies between the endpoint colours |
| Dxt5.Dxt5Between | dxt.go:252-281 | every pixel's colour lies between the endpoint colours |
| Dxt5.Dxt5AlphaBetween | dxt.go:228-281 | a pixel's alpha lies between a0 and a1 unless it selects the 0 or 255 of the 5-level table |
| Raster.BlockBytes | dxt.go:124 | a block is 8 or 16 bytes |
| Raster.RequiredLengthShape | dxt.go:61-124 | the input length the loops read is 0 exactly for an empty image, at least one block otherwise, and always a whole number of blocks |
| Raster.BlockCount | dxt.go:61-62 | `(n+3)/4` is the least number of 4-pixel blocks that covers n pixels; it is 0 exactly when n is |
| Raster.ColumnsOf | dxt.go:63 | a block copies 4 columns, except the last, which copies `(width+3)%4 + 1` |
| Raster.FillTile | dxt.go:76-103 | decodes one block of the given format into the tile buffer |
| Raster.Pixels | dxt.go:94-103 | a block's tile is the tile of its sixteen pixels |
| Raster.Blit | dxt.go:105-122 | after the copy loops the output is the old output with the block's visible pixels written from the tile, and nothing else changed |
| Raster.TargetInImage | dxt.go:110-122 | every byte the copy loops write is inside the output, and it is the byte of the pixel at column `4x+k/4`, row `4y+i` |
| Raster.TargetsDistinct | dxt.go:110-122 | no two (block, row, byte) copies write the same output byte, so no output byte is written twice |
| Raster.TargetsCover | dxt.go:110-122 | every output byte is written by the copy of exactly the block, row and column that cover it |
| Raster.Image | dxt.go:66 | the image has `width*height*4` bytes |
| Raster.ImageAt | dxt.go:94-122 | output byte n is byte `TileIndex(n)` of the tile of the block covering pixel n / 4, and that block exists |
| Raster.ImagePixel | dxt.go:94-122 | output byte c of pixel (i, j) is channel c of pixel `(j%4)*4 + i%4` of the block at (i/4, j/4) |
| Raster.ImageByteOfPixel | dxt.go:94-122 | each image byte is a channel of the pixel of the block that covers it |
| Raster.DecodeBlock | dxt.go:76-124 | decoding and copying block (x, y) extends the correctly filled part of the output by that block, and leaves every byte outside the block unchanged |
| Raster.DecodeRow | dxt.go:76-125 | one band of blocks advances the input offset by a band's bytes, fills the band, and leaves every row below the band unchanged |
| Raster.DecodeBands | dxt.go:75-126 | after the block loops every output byte is the image byte |
| Raster.Decode | dxt.go:59-129 | fails exactly when the input is shorter than blocks across × blocks down × block size; on failure returns no output, otherwise the whole image |
| Raster.DecodeDXT1 | dxt.go:59-129 | fails exactly when the input has fewer than 8 bytes per block; otherwise returns the DXT1 image of `width*height*4` bytes |
| Raster.DecodeDXT3 | dxt.go:131-206 | fails exactly when the input has fewer than 16 bytes per block; otherwise returns the DXT3 image |
| Raster.DecodeDXT5 | dxt.go:208-306 | fails exactly when the input has fewer than 16 bytes per block; otherwise returns the DXT5 image |
| Raster.EmptyImage | dxt.go:61-66 | a zero width or height needs no input and gives an empty image, so decoding it never fails |

## Left out

- The deferred `recover` (dxt.go:68-73) is modelled as a length check before decoding. The only fault the loops can hit is reading past the input; output writes are proved in range. So the check fails on exactly the inputs where Go would panic, and in that case no output is returned, as in Go.
- The text of the error, and Go's `nil` versus empty slice. A `failed` flag stands for the error, and the output is empty on failure.
- `width*height*4` and `uint` overflow: width and height are unbounded naturals, so an image too large for a machine word is not modelled.
- DecodeDXT1, DecodeDXT3 and DecodeDXT5 share one driver, `Raster.Decode`, over a format tag. The three Go functions differ only in the block size and in which block decoder they call.
- The scratch arrays (`buffer`, `colors`, `alphas`) are allocated once per call in Go and reused. In the model, `colors` and `alphas` are allocated per block. Go never reads them before overwriting them, so this changes no output.
- Color.Lerp13, Color.Lerp23, Color.Average, Color.C2, Color.C3: the between-the-endpoints bound is stated only when the blend's sum does not wrap, and the equal-endpoints clause only when `3*c0` (for `Average`, `2*c0`) does not wrap. On larger words the sum wraps around 2^32 and the result can fall outside the endpoints. The decoder only ever blends byte channels, where `Color.ByteBlends` shows nothing wraps.
- I/O and any container format: the package does none.

The endpoint comparison `c0 > c1` on the raw 16-bit words is kept in DXT1 and DXT3, as the code does. DXT5 blends unconditionally (dxt.go:261-262).
