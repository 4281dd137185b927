# ETC1 decoding in ETCImagePlugin

A model of the Pillow plugin `ETCImagePlugin.py`, which reads PKM files of
Ericsson Texture Compression (ETC1) images. It covers the four parts of
the file that do the work:

- **PkmHeader**: `read_etc_header`. It checks the 16-byte PKM header (the
  magic number, version "10" and texture type 0) and reads the four
  big-endian signed 16-bit dimensions. Each way parsing can fail is a
  distinct error value.
- **EtcBlock**: `ETCBlock`. It turns the 8 bytes of one block into a 4x4
  tile of RGB colours.
  - Byte 3 holds the diff bit, the flip bit and the two modifier-table
    selectors.
  - The two base colours come either from nibbles (individual mode) or
    from 5-bit values with 3-bit signed deltas (differential mode).
  - The pixel index bits come from bytes 4-7.
  - The modifier is chosen from `INTENSITY_MODIFIERS`, and the
    bit-field helpers (`clamp_bits`, `mask_bits`, `expand_to_byte`,
    `get_signed_val`, `get_bit`) live in the **Bits** module.
  - A block never changes after it is built, so it is a datatype value.
    `__init__`'s two fill loops are the method `NewBlock`, which is proved
    equal to the function `BlockOf`.
- **EtcDecoder**: `ETCDecoder`, a class.
  - Its fields are the grid of blocks (an `array2` of cells that hold a
    placeholder or a decoded block), the block and active dimensions,
    and the cursor `curr_ind`.
  - `decode_block` stores the next block at `ind_to_coord(curr_ind)`.
  - `decode` runs in one of two ways:
    - after `init`, it feeds the buffer's 8-byte pieces and assembles
      the image once the grid is full;
    - without `init`, it sets the grid up from the image size and
      decodes every cell in row-major order.
  - `Valid()` states that the grid holds exactly the blocks fed so far,
    in `ind_to_coord` order.
- **Assembly**: `write_blocks_to_image`. It builds the RGB bytes of the
  active area in raster order. `Raster` is the reference definition, and
  the four nested loops of the source are the methods
  `CopyActivePixels`, `CopyPixelRow` and `CopyBlockRow`, proved equal to it.

Python integers are unbounded, as Dafny's are, and the model computes
`>>`, `<<`, `&` and `|` bit by bit on naturals. Python's `int(a / 4)`
truncates toward zero, and that is written out (`TruncDiv4`).

In differential mode the source builds the first base colour as
`(r1, g1, b2)`, with the second blue where the ETC1 format has the first.
The model keeps this as written (`BaseColors`, `DifferentialBase`). It
also keeps the saturation of the second differential value to 5 bits,
which `clamp_bits` does.

## Model

| member | source | states |
|---|---|---|
| `PkmHeader.ReadEtcHeader` | ETCImagePlugin.py:21-45 | Accepts exactly the data that starts with "PKM ", version "10" and an implemented texture type, with 16 bytes present. Each failure (bad magic, other version, unimplemented type carrying the type byte, too short) happens exactly when its condition holds. On success the header holds the type byte and the four big-endian signed 16-bit fields of bytes 8-15. |
| `PkmHeader.Slice` | ETCImagePlugin.py:31-34 | Python's slice: the exact range when the data is long enough, and something shorter otherwise, so the comparison with the magic or the version fails. |
| `PkmHeader.SignedBE16` | ETCImagePlugin.py:41-44 | `struct.unpack(">h")` gives a value in [-32768, 32768) that is congruent modulo 65536 to the unsigned big-endian word. |
| `PkmHeader.EncodeBE16` | ETCImagePlugin.py:41-44 | The 16-bit big-endian encoding of a value in range is two bytes. |
| `PkmHeader.BE16RoundTrip` | ETCImagePlugin.py:41-44 | Decoding the encoding of any value in range gives the value back. |
| `PkmHeader.BE16RoundTripBytes` | ETCImagePlugin.py:41-44 | Encoding the decoded value of any two bytes gives the bytes back. |
| `PkmHeader.FormatHeader` | ETCImagePlugin.py:24-30 | The PKM header layout that a writer produces for a header is 16 bytes. |
| `PkmHeader.ReadFormattedHeader` | ETCImagePlugin.py:21-45 | Round trip: the header of any formatted ETC1 file reads back exactly. For any other texture type, the parser refuses with that type. |
| `PkmHeader.ParsedHeaderDeterminesBytes` | ETCImagePlugin.py:21-45 | Converse round trip: when parsing succeeds, the first 16 bytes are the formatted result, except for the ignored byte 6. |
| `Bits.Pow2` | ETCImagePlugin.py:118-119 | `1 << n` is positive. |
| `Bits.DivModUnique` | ETCImagePlugin.py:215-216 | Quotient and remainder are the only pair that meets the defining equation. This makes `ind_to_coord` the inverse of the row-major index (`CoordToIndInRange`). |
| `Bits.HalveDivMod` | ETCImagePlugin.py:143 | Division and remainder by 2p go through halving, as the bitwise operators do. |
| `Bits.ShrIsDiv` | ETCImagePlugin.py:87 | `Shr`, the model of `>>`, is `x // 2^k`. |
| `Bits.ShrShr` | ETCImagePlugin.py:107-113 | Shifting right by a + b is shifting by a and then by b, as when a pixel bit of the high byte is read from the 16-bit word. |
| `Bits.ShlIsMul` | ETCImagePlugin.py:127 | `Shl`, the model of `<<`, is `x * 2^k`. |
| `Bits.ShlTwice` | ETCImagePlugin.py:127 | Doubling commutes with a left shift. |
| `Bits.ShrSplit` | ETCImagePlugin.py:127 | Shifting `(hi << k) + lo` right by at most k bits shifts both parts. |
| `Bits.ShrSmall` | ETCImagePlugin.py:143 | A value below `2^k` shifts right by k to zero. |
| `Bits.AndLowBits` | ETCImagePlugin.py:124 | `BitAnd`, the model of `&`, gives the low n bits of x for the mask `2^n - 1`. |
| `Bits.LowBitsMod` | ETCImagePlugin.py:124 | The low n bits of x are `x mod 2^n`. |
| `Bits.AndSingleBit` | ETCImagePlugin.py:84-85 | `x & 2^k` is non-zero exactly when bit k of x is set. |
| `Bits.OrDisjoint` | ETCImagePlugin.py:127 | `BitOr`, the model of bitwise or, applied to lo and `m << k` equals their sum when lo fits below bit k. |
| `Bits.MaskBits` | ETCImagePlugin.py:123-124 | `mask_bits(x, n)` fits in n bits. |
| `Bits.MaskBitsMod` | ETCImagePlugin.py:123-124 | `mask_bits(x, n)` is `x mod 2^n`. |
| `Bits.MaskBy` | ETCImagePlugin.py:103 | `mask_bits(x, n)` is `x mod d` when d is `2^n`. |
| `Bits.MaskSmall` | ETCImagePlugin.py:127 | Masking a value that already fits in n bits leaves it unchanged. |
| `Bits.ClampBits` | ETCImagePlugin.py:115-121 | `clamp_bits(x, n)` lies in [0, 2^n). It is x when x already fits, 0 below the range and `2^n - 1` above it. |
| `Bits.GetBit` | ETCImagePlugin.py:142-143 | `get_bit` is 0 or 1: the parity of `data >> index`. |
| `Bits.GetBitIsDiv` | ETCImagePlugin.py:142-143 | `get_bit(data, i)` is `(data // 2^i) mod 2`. |
| `Bits.GetSignedVal` | ETCImagePlugin.py:129-133 | `get_signed_val(b, n)` lies in the n-bit two's-complement range [-2^(n-1), 2^(n-1)). |
| `Bits.GetSignedValTwos` | ETCImagePlugin.py:129-133 | `get_signed_val(b, n)` is the low n bits of b read as a two's-complement number. |
| `Bits.SignBitFacts` | ETCImagePlugin.py:130-131 | Bit k of b is set exactly when `b mod 2^(k+1)` reaches `2^k`. Removing that bit leaves `b mod 2^k`. |
| `Bits.ModSplit` | ETCImagePlugin.py:130-131 | `x mod 2^(k+1)` is `x mod 2^k` plus `2^k` when bit k is set. |
| `Bits.LowBitsBound` | ETCImagePlugin.py:124 | The low k bits are below `2^k`. |
| `Bits.LowBitsTop` | ETCImagePlugin.py:124 | The low k+1 bits are the low k bits plus bit k in its place. |
| `Bits.ExpandToByte` | ETCImagePlugin.py:126-127 | `expand_to_byte(v, n)` is a byte for the widths 4 to 8. |
| `Bits.ExpandToByteSum` | ETCImagePlugin.py:126-127 | The or of the two shifted copies in `expand_to_byte` is their sum: `(m << (8 - n)) + (m >> (2n - 8))` for m the low n bits of v. |
| `Bits.ExpandFacts` | ETCImagePlugin.py:127 | The two halves being or-ed do not overlap, so the outer mask keeps their sum. |
| `Bits.ExpandBound` | ETCImagePlugin.py:127 | The top bits of m fit below m shifted up, and their sum is a byte. |
| `Bits.ShrBy` | ETCImagePlugin.py:87 | `x >> k` is `x // d` when d is `2^k`. |
| `Bits.ShlBy` | ETCImagePlugin.py:127 | `x << k` is `x * d` when d is `2^k`. |
| `Bits.ExpandFour` | ETCImagePlugin.py:95-100 | `expand_to_byte(v, 4)` writes the low nibble of v twice: `(v mod 16) * 17`. |
| `Bits.ExpandFive` | ETCImagePlugin.py:87-92 | `expand_to_byte(v, 5)` is the low 5 bits of v followed by their top 3 bits. |
| `EtcBlock.DiffBitSpec` | ETCImagePlugin.py:84 | `DiffBit`, the model of `bytedata[3] & 0b10 > 0`, holds exactly when bit 1 of byte 3 is set. |
| `EtcBlock.FlipBitSpec` | ETCImagePlugin.py:85 | `FlipBit`, the model of `bytedata[3] & 0b01 > 0`, holds exactly when bit 0 of byte 3 is set. |
| `EtcBlock.TableSelectors` | ETCImagePlugin.py:103 | Both table selectors index one of the 8 rows of `INTENSITY_MODIFIERS`. |
| `EtcBlock.TableSelectorsSpec` | ETCImagePlugin.py:103 | The selectors are bits 7-5 and bits 4-2 of byte 3. |
| `EtcBlock.DiffChannelSpec` | ETCImagePlugin.py:87-92 | `DiffChannel` computes one channel of both bases in differential mode. The first value is the top 5 bits widened to a byte. The second is the top 5 bits plus the 3-bit signed delta, saturated to [0, 31] and widened. |
| `EtcBlock.IndividualChannelSpec` | ETCImagePlugin.py:95-100 | `IndividualChannel` computes one channel of both bases in individual mode: the high nibble and the low nibble, each written twice. |
| `EtcBlock.TopBits` | ETCImagePlugin.py:87-99 | `b >> 3` and `b >> 4` of a byte are `b // 8 < 32` and `b // 16 < 16`. |
| `EtcBlock.SignedDelta` | ETCImagePlugin.py:88 | `get_signed_val(b, 3)` is the 3-bit two's-complement delta of ETC1. |
| `EtcBlock.ClampFive` | ETCImagePlugin.py:88 | `clamp_bits(v, 5)` saturates v at 0 and 31. |
| `EtcBlock.ExpandFiveBits` | ETCImagePlugin.py:87-92 | For a 5-bit value, `expand_to_byte(v, 5)` is the ETC1 5-to-8-bit widening. |
| `EtcBlock.ExpandFourBits` | ETCImagePlugin.py:95-100 | `expand_to_byte(v, 4)` is the ETC1 4-to-8-bit widening of the low nibble. |
| `EtcBlock.BaseColors` | ETCImagePlugin.py:86-101 | Both base colours are byte colours. |
| `EtcBlock.Params` | ETCImagePlugin.py:84-103 | The flags, bases and selectors `__init__` derives are well formed: byte colours and selectors below 8. |
| `EtcBlock.DifferentialBase` | ETCImagePlugin.py:86-93 | With bit 1 of byte 3 set, each second base channel is the top 5 bits plus the signed delta, saturated and widened. The first base has the widened top 5 bits for red and green but the second blue (the `(r1, g1, b2)` of the source). |
| `EtcBlock.IndividualBase` | ETCImagePlugin.py:94-101 | With bit 1 of byte 3 clear, the bases are the high and the low nibbles of bytes 0-2, each written twice. |
| `EtcBlock.PixelCoordsBijection` | ETCImagePlugin.py:136-140 | `PixelToCoords` and `CoordsToPixel`, the models of `pixel_to_coords` and `coords_to_pixel`, are inverse bijections between the pixel indices 0-15 and the 4x4 coordinates. |
| `EtcBlock.GetSubblockAtCoords` | ETCImagePlugin.py:145-155 | The subblock is 0 or 1. It is 0 exactly in columns 0-1, or, with the flip bit, rows 0-1. |
| `EtcBlock.ModifierColumn` | ETCImagePlugin.py:161-168 | The index the branches choose is a valid column of the modifier table. |
| `EtcBlock.ModifierSignMagnitude` | ETCImagePlugin.py:68-77 | The branches agree with the ETC1 meaning of the pixel index: its MSB is the sign (set means negative), and its LSB chooses the larger of each row's two positive magnitudes. |
| `EtcBlock.GetFinalColorAtCoords` | ETCImagePlugin.py:157-173 | Every final colour is a byte colour. |
| `EtcBlock.FinalColorSpec` | ETCImagePlugin.py:157-173 | The final colour is the subblock's base plus its table's modifier, with sign from the MSB and magnitude from the LSB, each channel clamped to a byte. The second subblock is the right half of the tile, or the bottom half with the flip bit. |
| `EtcBlock.PixelBits` | ETCImagePlugin.py:107-113 | The two index bits the fill loops read for a pixel are bits. |
| `EtcBlock.WordBit` | ETCImagePlugin.py:107-113 | Bit p of the big-endian word [hi, lo] is bit p of lo below 8 and bit p - 8 of hi above. |
| `EtcBlock.WordShr` | ETCImagePlugin.py:107-113 | The same fact, for the shift operator. |
| `EtcBlock.PixelBitsFromWords` | ETCImagePlugin.py:107-113 | Pixel p takes its MSB from bit p of the word of bytes 4-5 and its LSB from bit p of the word of bytes 6-7, as ETC1 lays them out. |
| `EtcBlock.PixelColor` | ETCImagePlugin.py:107-113 | The colour `__init__` stores for a pixel is a byte colour. |
| `EtcBlock.PixelColorSpec` | ETCImagePlugin.py:107-113 | The colour of pixel (x, y) is the final colour at (x, y), with the index bits at 4x + y of the two words. |
| `EtcBlock.BlockOf` | ETCImagePlugin.py:83-113 | The block built from 8 bytes has the derived parameters and is a 4x4 tile of byte colours in which `colors[x][y]` is the colour of pixel index 4x + y. |
| `EtcBlock.PixelSlot` | ETCImagePlugin.py:108-112 | Fill-loop pixel i lands at (x, y) exactly when 4x + y = i. |
| `EtcBlock.SetPixel` | ETCImagePlugin.py:109 | `colors[x][y] = color` changes that one entry of the 4x4 tile and no other. |
| `EtcBlock.FillStep` | ETCImagePlugin.py:107-113 | Storing the colour of pixel i extends the filled part of the tile from the pixels below i to those below i + 1. |
| `EtcBlock.LowPixel` | ETCImagePlugin.py:107-109 | The first loop stores the colour of pixel i, with bits from bytes 5 and 7. |
| `EtcBlock.HighPixel` | ETCImagePlugin.py:111-113 | The second loop stores the colour of pixel i + 8, with bits from bytes 4 and 6. |
| `EtcBlock.FillTile` | ETCImagePlugin.py:105-113 | After both fill loops, the tile is exactly the reference tile: every pixel is filled once, at its coordinates. |
| `EtcBlock.NewBlock` | ETCImagePlugin.py:83-113 | `ETCBlock(bytedata)` builds exactly `BlockOf(bytedata)`. |
| `Assembly.ClipDim` | ETCImagePlugin.py:222-228 | The number of pixels the `break`s let through along an axis is the active size, cut at 0 and at the 4 pixels per block of the grid. |
| `Assembly.CoveredIsVisible` | ETCImagePlugin.py:229 | Every pixel inside the active area lies in a decoded block. |
| `Assembly.Row` | ETCImagePlugin.py:225-229 | The first n pixels of a row are 3n bytes. |
| `Assembly.RowPixel` | ETCImagePlugin.py:225-229 | Channel c of pixel X of a row sits at offset 3X + c. |
| `Assembly.RowStartIsProduct` | ETCImagePlugin.py:220-229 | Image row Y starts at byte 3YW. |
| `Assembly.RowStartBelow` | ETCImagePlugin.py:220-229 | Every byte of row Y lies before the start of any later row. |
| `Assembly.BlockPixel` | ETCImagePlugin.py:229 | Image pixel (4u + x, 4v + y) is entry [x][y] of block (u, v). |
| `Assembly.RowAppend` | ETCImagePlugin.py:229 | Appending pixel X's three bytes to a row of X pixels gives the row of X + 1 pixels. |
| `Assembly.Rows` | ETCImagePlugin.py:220-229 | The first n rows are as long as n rows of W pixels. |
| `Assembly.RowsNext` | ETCImagePlugin.py:220-229 | The rows up to n + 1 are the rows up to n followed by row n. |
| `Assembly.RowsPixel` | ETCImagePlugin.py:220-229 | Channel c of pixel (X, Y) sits at offset `RowStart(W, Y) + 3X + c` of the rows. |
| `Assembly.Raster` | ETCImagePlugin.py:218-231 | The assembled image has 3 bytes for each pixel of the clipped active area. |
| `Assembly.RasterPixel` | ETCImagePlugin.py:218-231 | Every active pixel (X, Y) sits at offset `3(YW + X) + c`. Its colour is `PixelAt`, the entry `[X mod 4][Y mod 4]` of block `[X div 4][Y div 4]`, as read at line 229. |
| `Assembly.DecomposeOffset` | ETCImagePlugin.py:218-231 | Every offset below 3HW is some channel of some pixel of the W by H area. |
| `Assembly.RasterOnlyVisiblePixels` | ETCImagePlugin.py:218-231 | Every byte of the image is a channel of an active pixel, so no pixel of a block outside the active area is ever written. |
| `EtcDecoder.TruncDiv4` | ETCImagePlugin.py:210 | `int(a / 4)` truncates toward zero for either sign of a. |
| `EtcDecoder.CoordToIndIsProduct` | ETCImagePlugin.py:196-198 | The row-major index of (u, v) is `v * bw + u`. |
| `EtcDecoder.IndToCoordInGrid` | ETCImagePlugin.py:215-216 | `IndToCoord`, the model of `ind_to_coord`, maps every index of a bw by bh grid into the grid, and the row-major index recovers the index. |
| `EtcDecoder.SplitInGrid` | ETCImagePlugin.py:215-216 | An index below bw * bh split as `v * bw + u` has v below bh. |
| `EtcDecoder.CoordToIndInRange` | ETCImagePlugin.py:196-216 | Every cell of the grid is `ind_to_coord` of exactly its row-major index, which lies below bw * bh. |
| `EtcDecoder.BlocksOf` | ETCImagePlugin.py:185-186 | The blocks of the first n 8-byte pieces of a buffer are n blocks. |
| `EtcDecoder.GridOf` | ETCImagePlugin.py:204-207 | The grid after storing a sequence of blocks keeps the shape bw by bh. |
| `EtcDecoder.StoredGrid` | ETCImagePlugin.py:204-207 | Storing the next block replaces cell `ind_to_coord(curr_ind)` and no other. |
| `EtcDecoder.GridOfCell` | ETCImagePlugin.py:204-207 | Cell (u, v) holds the block with row-major index `v * bw + u` once that many blocks have been stored, and the placeholder before. |
| `EtcDecoder.FullGridCovers` | ETCImagePlugin.py:188-190 | Once a block has been stored for every cell, every cell the active area touches holds a decoded block. |
| `EtcDecoder.PastEndIsFull` | ETCImagePlugin.py:188 | With no more blocks than cells, `curr_ind >= block_dim[0] * block_dim[1]` implies that every cell was decoded. The converse holds unless both dimensions are negative. |
| `EtcDecoder.BlocksOfNext` | ETCImagePlugin.py:185-186 | The blocks of n + 1 pieces are the blocks of n pieces followed by the block of piece n. |
| `EtcDecoder.RowMajorStep` | ETCImagePlugin.py:196-198 | Within row v, block (u, v) comes u places after block (0, v). |
| `EtcDecoder.ETCDecoder.constructor` | ETCImagePlugin.py:175-176 | Before `init` the decoder is valid and has stored nothing; its 0 by 0 grid stands in for the attributes Python does not yet have. |
| `EtcDecoder.ETCDecoder.InitFromHeader` | ETCImagePlugin.py:209-213 | The grid is `int(w / 4)` by `int(h / 4)` placeholders, the active size is `args[2:4]`, and the cursor is at 0. |
| `EtcDecoder.ETCDecoder.DecodeBlock` | ETCImagePlugin.py:204-207 | The cell at `ind_to_coord(curr_ind)` now holds the block of the 8 bytes, the cursor advances by one, and no other cell or field changes. |
| `EtcDecoder.ETCDecoder.StoreBlock` | ETCImagePlugin.py:205-207 | The same, for a block already built. |
| `EtcDecoder.ETCDecoder.Decode` | ETCImagePlugin.py:183-192 | After `init`, the buffer's pieces are stored in order and the cursor advances by their number. Until the grid is full, the result is `len(buffer)` and no image. Afterwards it is -1, with every cell decoded and the image the raster of the active area. |
| `EtcDecoder.ETCDecoder.DecodeImage` | ETCImagePlugin.py:193-202 | Without `init`, the grid is set up for the image size rounded up to whole blocks, and one piece is stored per cell in row-major order. The result is -1 and the raster of the image, `3 * width * height` bytes long. |
| `EtcDecoder.ETCDecoder.FeedPiece` | ETCImagePlugin.py:185-186 | One iteration of `decode`'s loops: the stored blocks gain the block of piece n. |
| `EtcDecoder.ETCDecoder.DecodeRows` | ETCImagePlugin.py:195-199 | The outer loop over block rows stores the blocks of the first `Cols * Rows` pieces of the buffer, in order. |
| `EtcDecoder.ETCDecoder.DecodeRow` | ETCImagePlugin.py:197-199 | The inner loop stores the blocks of row v: the cursor and `ptr` move to the start of row v + 1. |
| `EtcDecoder.ETCDecoder.WriteBlocksToImage` | ETCImagePlugin.py:218-231 | The bytes passed to `set_as_raw` are the raster of the active area of the grid. |
| `EtcDecoder.ETCDecoder.CopyActivePixels` | ETCImagePlugin.py:220-229 | The four loops produce the active rows, top to bottom, stopping at the active height. |
| `EtcDecoder.ETCDecoder.CopyPixelRow` | ETCImagePlugin.py:225-229 | The loop over the blocks of a row appends one active row of pixels, left to right, as wide as the active width. |
| `EtcDecoder.ETCDecoder.CopyBlockRow` | ETCImagePlugin.py:226-229 | The loop over x appends the pixels of row y of block (u, v) up to the active width, so the row grows from the first 4u pixels to the first 4u + 4, or to the active width if smaller. |

## Left out

- The Pillow glue is not modelled: `ETCImageFile._open`, the `self.tile` descriptor, `set_as_raw`, and the registration calls. `_open` only passes the header fields on; `WriteBlocksToImage` returns the bytes it would hand to `set_as_raw`.
- The `load_mode` flag is not a field. `Decode` models the path after `init`, and `DecodeImage` the path without it.
- The second element of `decode`'s returned tuple is not modelled. It is always 0.
- DecodeImage takes the image size as parameters rather than reading `self.im.size` from Pillow.
- Texture types other than ETC1_RGB_NO_MIPMAPS are not modelled: the source refuses them too. The exception that `read_etc_header` raises becomes an error value. Building its message by adding an int to a str would itself raise a TypeError; the model keeps the refusal and the type byte.
- Truncated headers (an IndexError or `struct.error` in Python) become the single error `Truncated`.
- Decode: requires the buffer length to be a multiple of 8. The source would pass a short final piece to `ETCBlock` and crash with an IndexError, so the model leaves that path out.
- Decode, DecodeBlock: require the cursor to stay inside the grid. The source then indexes past the grid and crashes.
- DecodeImage: requires the buffer to hold a piece for every cell. A short buffer crashes the source in the same way.
- InitFromHeader: grid dimensions, where negative, give an empty grid (`range` over a negative count is empty). This is the same as Python's list construction. With both dimensions negative, the product `block_dim[0] * block_dim[1]` is positive, so the load path never assembles an image (`PastEndIsFull`).
- EtcDecoder.IndToCoord, EtcDecoder.TruncDiv4, EtcDecoder.ETCDecoder.Decode and EtcDecoder.ETCDecoder.DecodeImage use integer division where the source writes `int(a / b)`: in `ind_to_coord`, in `init_from_header`, in `int((len(buffer) + 7) / 8)` of the path after `init`, and in `int((w + 3) / 4)` of the one-shot path. Python computes these through a float, which differs only for values beyond 2^53.
- EtcDecoder.ETCDecoder.constructor: before `init_from_header` the Python decoder has no `block_dim`, `blocks` or `curr_ind` attributes at all. The constructor's 0 by 0 grid and zero cursor stand in for those missing attributes, and are not behaviour of the source.
- Bits.ExpandToByte is defined for the widths 4 to 8 only. The source calls it with 4 and 5.
- Assembly.Shown gives black for pixels outside the decoded blocks, only so the raster functions are total. `RasterOnlyVisiblePixels` shows that no such pixel reaches the image.
- The model passes every piece of the buffer by value. The source's slices also copy, so nothing about aliasing is lost.
