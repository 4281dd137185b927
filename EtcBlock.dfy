/** One ETC1 block: 8 bytes that decode to a 4x4 tile of RGB colours.

    Byte 3 holds the table selectors (bits 7-5 and 4-2), the diff bit
    (bit 1) and the flip bit (bit 0). Bytes 0-2 hold the two base colours,
    as two nibbles per channel (individual mode) or as a 5-bit value and a
    3-bit signed delta per channel (differential mode). Bytes 4-5 hold the
    most significant bit and bytes 6-7 the least significant bit of each
    pixel's 2-bit modifier index. Pixel p lies at `colors[p / 4][p % 4]`,
    that is, column x = p / 4 and row y = p % 4. */
module EtcBlock {
  import opened Bits

  datatype Color = Color(r: int, g: int, b: int)

  /** The intensity modifier table of ETC1, indexed [table][column]. */
  const INTENSITY_MODIFIERS: seq<seq<int>> := [
    [-8, -2, 2, 8],
    [-17, -5, 5, 17],
    [-29, -9, 9, 29],
    [-42, -13, 13, 42],
    [-60, -18, 18, 60],
    [-80, -24, 24, 80],
    [-106, -33, 33, 106],
    [-183, -47, 47, 183]
  ]

  /** What `ETCBlock.__init__` derives from the bytes before it fills the
      tile: the two flags, a base colour and a table selector per subblock. */
  datatype BlockParams = BlockParams(diffbit: bool, flipbit: bool, base: (Color, Color), table: (nat, nat))

  /** A decoded block; `colors[x][y]` is the pixel in column x and row y. */
  datatype ETCBlock = ETCBlock(params: BlockParams, colors: seq<seq<Color>>)

  predicate IsByteColor(c: Color)
  {
    0 <= c.r < 256 && 0 <= c.g < 256 && 0 <= c.b < 256
  }

  predicate WellFormedParams(p: BlockParams)
  {
    p.table.0 < 8 && p.table.1 < 8 && IsByteColor(p.base.0) && IsByteColor(p.base.1)
  }

  /** A 4x4 tile of byte colours. */
  predicate WellFormedBlock(b: ETCBlock)
  {
    |b.colors| == 4 &&
    (forall x :: 0 <= x < 4 ==> |b.colors[x]| == 4) &&
    forall x, y :: 0 <= x < 4 && 0 <= y < 4 ==> IsByteColor(b.colors[x][y])
  }

  // ---------------------------------------------------------------------
  // Fields of byte 3

  /** `bytedata[3] & 0b10 > 0` */
  function DiffBit(data: seq<Byte>): bool
    requires |data| == 8
  {
    BitAnd(data[3], 2) > 0
  }

  /** The diff bit is bit 1 of byte 3. */
  lemma DiffBitSpec(data: seq<Byte>)
    requires |data| == 8
    ensures DiffBit(data) <==> (data[3] / 2) % 2 == 1
  {
    AndSingleBit(data[3], 1);
  }

  /** `bytedata[3] & 0b01 > 0` */
  function FlipBit(data: seq<Byte>): bool
    requires |data| == 8
  {
    BitAnd(data[3], 1) > 0
  }

  /** The flip bit is bit 0 of byte 3. */
  lemma FlipBitSpec(data: seq<Byte>)
    requires |data| == 8
    ensures FlipBit(data) <==> data[3] % 2 == 1
  {
    AndSingleBit(data[3], 0);
  }

  /** `(bytedata[3] >> 5, mask_bits(bytedata[3] >> 2, 3))` */
  function TableSelectors(data: seq<Byte>): (t: (nat, nat))
    requires |data| == 8
    ensures t.0 < 8 && t.1 < 8
  {
    TopThreeBits(data[3]);
    (Shr(data[3], 5), MaskBits(Shr(data[3], 2), 3))
  }

  lemma TopThreeBits(b: Byte)
    ensures Shr(b, 5) < 8 && Pow2(3) == 8
  {
    ShrBy(b, 5, 32);
  }

  /** The table selectors are bits 7-5 and bits 4-2 of byte 3. */
  lemma TableSelectorsSpec(data: seq<Byte>)
    requires |data| == 8
    ensures TableSelectors(data) == (data[3] / 32, (data[3] / 4) % 8)
  {
    ShrBy(data[3], 5, 32);
    ShrBy(data[3], 2, 4);
    MaskBy(data[3] / 4, 3, 8);
  }

  // ---------------------------------------------------------------------
  // Base colours

  // Reference arithmetic of the ETC1 format, used to state what the base
  // colours are.

  /** A 4-bit value widened to 8 bits: the nibble written twice. */
  function Replicate4(v: nat): nat
  {
    v * 17
  }

  /** A 5-bit value widened to 8 bits: the value followed by its top 3 bits. */
  function Replicate5(v: nat): nat
  {
    v * 8 + v / 4
  }

  /** The low 3 bits of b as a two's-complement number. */
  function Delta3(b: Byte): int
  {
    if b % 8 >= 4 then b % 8 - 8 else b % 8
  }

  /** The 5-bit sum of a base value and its delta, saturated at 0 and 31. */
  function Saturate5(v: int): nat
  {
    if v < 0 then 0 else if v > 31 then 31 else v
  }

  /** One channel of the two base colours in differential mode: the top 5
      bits of the byte, and that value plus the signed delta of the low 3
      bits saturated to 5 bits (`clamp_bits`), each widened to 8 bits. */
  function DiffChannel(b: Byte): (nat, nat)
  {
    var top := Shr(b, 3);
    var second := ClampBits(top + GetSignedVal(b, 3), 5);
    (ExpandToByte(top, 5), ExpandToByte(second, 5))
  }

  lemma DiffChannelSpec(b: Byte)
    ensures DiffChannel(b) == (Replicate5(b / 8), Replicate5(Saturate5(b / 8 + Delta3(b))))
  {
    var top := Shr(b, 3);
    var delta := GetSignedVal(b, 3);
    TopBits(b);
    SignedDelta(b);
    ClampFive(top + delta);
    ExpandFiveBits(top);
    ExpandFiveBits(ClampBits(top + delta, 5));
  }

  /** One channel of the two base colours in individual mode: the high and
      the low nibble of the byte, each widened to 8 bits. */
  function IndividualChannel(b: Byte): (nat, nat)
  {
    (ExpandToByte(Shr(b, 4), 4), ExpandToByte(b, 4))
  }

  lemma IndividualChannelSpec(b: Byte)
    ensures IndividualChannel(b) == (Replicate4(b / 16), Replicate4(b % 16))
  {
    TopBits(b);
    ExpandFourBits(b / 16);
    ExpandFourBits(b);
    ModSmall(b / 16, 16);
  }

  /** The shifts of a byte that `__init__` takes. */
  lemma TopBits(b: Byte)
    ensures Shr(b, 3) == b / 8 && b / 8 < 32
    ensures Shr(b, 4) == b / 16 && b / 16 < 16
  {
    ShrBy(b, 3, 8);
    ShrBy(b, 4, 16);
  }

  /** `get_signed_val(b, 3)` is the 3-bit delta of ETC1. */
  lemma SignedDelta(b: Byte)
    ensures GetSignedVal(b, 3) == Delta3(b)
  {
    GetSignedValTwos(b, 3);
    assert Pow2(3) == 8 && Pow2(2) == 4;
  }

  /** `clamp_bits(v, 5)` saturates at 0 and 31. */
  lemma ClampFive(v: int)
    ensures ClampBits(v, 5) == Saturate5(v) && Saturate5(v) < 32
  {
    assert Pow2(5) == 32;
  }

  lemma ExpandFiveBits(v: nat)
    requires v < 32
    ensures ExpandToByte(v, 5) == Replicate5(v)
  {
    ExpandFive(v);
    ModSmall(v, 32);
  }

  lemma ExpandFourBits(v: nat)
    ensures ExpandToByte(v, 4) == Replicate4(v % 16)
  {
    ExpandFour(v);
  }

  /** `self.base` as `__init__` computes it. In differential mode the first
      base takes its blue from the second one, as the source writes it. */
  function BaseColors(data: seq<Byte>): (base: (Color, Color))
    requires |data| == 8
    ensures IsByteColor(base.0) && IsByteColor(base.1)
  {
    if DiffBit(data) then
      var r, g, b := DiffChannel(data[0]), DiffChannel(data[1]), DiffChannel(data[2]);
      (Color(r.0, g.0, b.1), Color(r.1, g.1, b.1))
    else
      var r, g, b := IndividualChannel(data[0]), IndividualChannel(data[1]), IndividualChannel(data[2]);
      (Color(r.0, g.0, b.0), Color(r.1, g.1, b.1))
  }

  function Params(data: seq<Byte>): (p: BlockParams)
    requires |data| == 8
    ensures WellFormedParams(p)
  {
    BlockParams(DiffBit(data), FlipBit(data), BaseColors(data), TableSelectors(data))
  }

  /** Differential mode (diff bit set): each channel's first base value is
      the top 5 bits of its byte and the second is that plus the 3-bit
      delta, saturated; both bases carry the second blue value. */
  lemma DifferentialBase(data: seq<Byte>)
    requires |data| == 8 && (data[3] / 2) % 2 == 1
    ensures BaseColors(data).0 == Color(Replicate5(data[0] / 8), Replicate5(data[1] / 8),
                                        Replicate5(Saturate5(data[2] / 8 + Delta3(data[2]))))
    ensures BaseColors(data).1 == Color(Replicate5(Saturate5(data[0] / 8 + Delta3(data[0]))),
                                        Replicate5(Saturate5(data[1] / 8 + Delta3(data[1]))),
                                        Replicate5(Saturate5(data[2] / 8 + Delta3(data[2]))))
  {
    DiffBitSpec(data);
    DiffChannelSpec(data[0]);
    DiffChannelSpec(data[1]);
    DiffChannelSpec(data[2]);
  }

  /** Individual mode (diff bit clear): the first base colour is the high
      nibble of bytes 0-2 and the second the low nibble, each written twice. */
  lemma IndividualBase(data: seq<Byte>)
    requires |data| == 8 && (data[3] / 2) % 2 == 0
    ensures BaseColors(data).0 == Color(Replicate4(data[0] / 16), Replicate4(data[1] / 16), Replicate4(data[2] / 16))
    ensures BaseColors(data).1 == Color(Replicate4(data[0] % 16), Replicate4(data[1] % 16), Replicate4(data[2] % 16))
  {
    DiffBitSpec(data);
    IndividualChannelSpec(data[0]);
    IndividualChannelSpec(data[1]);
    IndividualChannelSpec(data[2]);
  }

  // ---------------------------------------------------------------------
  // Pixels

  /** `pixel_to_coords` */
  function PixelToCoords(p: nat): (c: (nat, nat))
  {
    (p / 4, p % 4)
  }

  /** `coords_to_pixel` */
  function CoordsToPixel(c: (nat, nat)): nat
  {
    c.0 * 4 + c.1
  }

  /** `coords_to_pixel` and `pixel_to_coords` are inverse bijections between
      the pixel indices 0..15 and the 4x4 coordinates. */
  lemma PixelCoordsBijection(p: nat, x: nat, y: nat)
    ensures p < 16 ==> PixelToCoords(p).0 < 4 && PixelToCoords(p).1 < 4 && CoordsToPixel(PixelToCoords(p)) == p
    ensures x < 4 && y < 4 ==> CoordsToPixel((x, y)) < 16 && PixelToCoords(CoordsToPixel((x, y))) == (x, y)
  {
  }

  /** `get_subblock_at_coords`: subblock 0 is the left half (columns 0-1)
      of the tile, or with the flip bit the top half (rows 0-1). */
  function GetSubblockAtCoords(flipbit: bool, c: (nat, nat)): (s: nat)
    ensures s == 0 || s == 1
    ensures s == 0 <==> (if flipbit then c.1 < 2 else c.0 < 2)
  {
    if flipbit then (if c.1 > 1 then 1 else 0)
    else (if c.0 > 1 then 1 else 0)
  }

  /** The column of the modifier table that the 2-bit index (msb, lsb)
      selects, as the branches of `get_final_color_at_coords` choose it. */
  function ModifierColumn(msb: nat, lsb: nat): (col: nat)
    ensures col < 4
  {
    if msb == 0 || lsb == 0 then
      if msb > 0 then 1
      else if lsb > 0 then 3
      else 2
    else 0
  }

  /** The modifier column follows the ETC1 definition of the pixel index:
      its MSB is the sign of the modifier (set means negative) and its LSB
      chooses the larger of the table's two magnitudes. */
  lemma ModifierSignMagnitude(t: nat, msb: nat, lsb: nat)
    requires t < 8 && msb < 2 && lsb < 2
    ensures INTENSITY_MODIFIERS[t][ModifierColumn(msb, lsb)] ==
      if msb == 1 then -INTENSITY_MODIFIERS[t][2 + lsb] else INTENSITY_MODIFIERS[t][2 + lsb]
    ensures 0 < INTENSITY_MODIFIERS[t][2] < INTENSITY_MODIFIERS[t][3]
  {
  }

  /** `get_final_color_at_coords`: the subblock's base colour plus the
      selected modifier, each channel clamped to a byte. */
  function GetFinalColorAtCoords(params: BlockParams, c: (nat, nat), msb: nat, lsb: nat): (color: Color)
    requires WellFormedParams(params)
    ensures IsByteColor(color)
  {
    var subblock := GetSubblockAtCoords(params.flipbit, c);
    var base := if subblock == 0 then params.base.0 else params.base.1;
    var table := if subblock == 0 then params.table.0 else params.table.1;
    var modifier := INTENSITY_MODIFIERS[table][ModifierColumn(msb, lsb)];
    Color(ClampBits(base.r + modifier, 8), ClampBits(base.g + modifier, 8), ClampBits(base.b + modifier, 8))
  }

  /** The index bits of pixel p as the two fill loops of `__init__` read
      them: pixels 0-7 from bytes 5 and 7, pixels 8-15 from bytes 4 and 6. */
  function PixelBits(data: seq<Byte>, p: nat): (bits: (nat, nat))
    requires |data| == 8 && p < 16
    ensures bits.0 < 2 && bits.1 < 2
  {
    if p < 8 then (GetBit(data[5], p), GetBit(data[7], p))
    else (GetBit(data[4], p - 8), GetBit(data[6], p - 8))
  }

  /** The big-endian 16-bit word [hi, lo]. */
  function Word(hi: Byte, lo: Byte): nat
  {
    hi * 256 + lo
  }

  /** Bit p of the big-endian 16-bit word [hi, lo] is bit p of lo for the
      low eight bits and bit p - 8 of hi above them. */
  lemma WordBit(hi: Byte, lo: Byte, p: nat)
    requires p < 16
    ensures (Word(hi, lo) / Pow2(p)) % 2 == if p < 8 then (lo / Pow2(p)) % 2 else (hi / Pow2(p - 8)) % 2
  {
    WordShr(hi, lo, p);
    ShrIsDiv(Word(hi, lo), p);
    if p < 8 {
      ShrIsDiv(lo, p);
    } else {
      ShrIsDiv(hi, p - 8);
    }
  }

  /** `WordBit` for the shift operator. */
  lemma WordShr(hi: Byte, lo: Byte, p: nat)
    requires p < 16
    ensures Shr(Word(hi, lo), p) % 2 == if p < 8 then Shr(lo, p) % 2 else Shr(hi, p - 8) % 2
  {
    ShlBy(hi, 8, 256);
    assert Word(hi, lo) == Shl(hi, 8) + lo;
    if p < 8 {
      ShrSplit(hi, 8, lo, p);
      var k := 7 - p;
      ShlTwice(hi, k);
      assert Shl(hi, 8 - p) == Shl(2 * hi, k);
      ParityOfEvenPlus(Shl(hi, k), Shr(lo, p));
    } else {
      ShrShr(Word(hi, lo), 8, p - 8);
      ShrSplit(hi, 8, lo, 8);
      ShrSmall(lo, 8);
      assert Shr(Word(hi, lo), 8) == hi;
    }
  }

  lemma ParityOfEvenPlus(a: nat, b: nat)
    ensures (2 * a + b) % 2 == b % 2
  {
  }

  /** Pixel p's modifier index takes its MSB from bit p of the word formed
      by bytes 4-5 and its LSB from bit p of the word formed by bytes 6-7. */
  lemma PixelBitsFromWords(data: seq<Byte>, p: nat)
    requires |data| == 8 && p < 16
    ensures PixelBits(data, p) == (Shr(Word(data[4], data[5]), p) % 2, Shr(Word(data[6], data[7]), p) % 2)
  {
    WordShr(data[4], data[5], p);
    WordShr(data[6], data[7], p);
  }

  /** The colour `__init__` stores for pixel p of a block whose flags,
      base colours and tables are `params`: `get_final_color_at_coords` at
      `pixel_to_coords(p)` with the two index bits of p. */
  function PixelColor(params: BlockParams, data: seq<Byte>, p: nat): (c: Color)
    requires WellFormedParams(params) && |data| == 8 && p < 16
    ensures IsByteColor(c)
  {
    var bits := PixelBits(data, p);
    GetFinalColorAtCoords(params, PixelToCoords(p), bits.0, bits.1)
  }

  /** Column x of the tile. */
  function Column(params: BlockParams, data: seq<Byte>, x: nat): (col: seq<Color>)
    requires WellFormedParams(params) && |data| == 8 && x < 4
  {
    seq(4, y requires 0 <= y < 4 => PixelColor(params, data, 4 * x + y))
  }

  /** The 4x4 tile, column by column. */
  function Tile(params: BlockParams, data: seq<Byte>): (colors: seq<seq<Color>>)
    requires WellFormedParams(params) && |data| == 8
  {
    seq(4, x requires 0 <= x < 4 => Column(params, data, x))
  }

  /** The tile is 4 by 4, and entry `[x][y]` is the colour of pixel 4x + y. */
  lemma TileEntries(params: BlockParams, data: seq<Byte>)
    requires WellFormedParams(params) && |data| == 8
    ensures var t := Tile(params, data);
      |t| == 4 && (forall x :: 0 <= x < 4 ==> |t[x]| == 4) &&
      forall x, y :: 0 <= x < 4 && 0 <= y < 4 ==> t[x][y] == PixelColor(params, data, 4 * x + y)
  {
  }

  /** The block `ETCBlock(bytedata)` builds: a 4x4 tile of byte colours in
      which pixel (x, y) holds the colour of pixel index 4x + y. */
  function BlockOf(data: seq<Byte>): (b: ETCBlock)
    requires |data| == 8
    ensures b.params == Params(data) && WellFormedBlock(b)
    ensures forall x, y :: 0 <= x < 4 && 0 <= y < 4 ==> b.colors[x][y] == PixelColor(b.params, data, 4 * x + y)
  {
    var params := Params(data);
    TileEntries(params, data);
    ETCBlock(params, Tile(params, data))
  }

  /** `get_final_color_at_coords` in the ETC1 format's own terms: the
      subblock is the right half of the tile (columns 2-3), or with the flip
      bit the bottom half (rows 2-3); each channel of its base colour gets
      the modifier of its table whose sign is the MSB and whose magnitude
      the LSB chooses, clamped to a byte. */
  lemma FinalColorSpec(params: BlockParams, c: (nat, nat), msb: nat, lsb: nat)
    requires WellFormedParams(params) && msb < 2 && lsb < 2
    ensures var second := if params.flipbit then c.1 >= 2 else c.0 >= 2;
      var base := if second then params.base.1 else params.base.0;
      var table := if second then params.table.1 else params.table.0;
      var modifier := if msb == 1 then -INTENSITY_MODIFIERS[table][2 + lsb] else INTENSITY_MODIFIERS[table][2 + lsb];
      GetFinalColorAtCoords(params, c, msb, lsb) ==
        Color(ClampBits(base.r + modifier, 8), ClampBits(base.g + modifier, 8), ClampBits(base.b + modifier, 8))
  {
    var second := if params.flipbit then c.1 >= 2 else c.0 >= 2;
    var table := if second then params.table.1 else params.table.0;
    assert GetSubblockAtCoords(params.flipbit, c) == if second then 1 else 0;
    ModifierSignMagnitude(table, msb, lsb);
  }

  /** The colour of pixel (x, y) of a block: `FinalColorSpec` at (x, y),
      with the MSB and the LSB of the modifier index read as bit 4x + y of
      the 16-bit words formed by bytes 4-5 and by bytes 6-7. */
  lemma PixelColorSpec(params: BlockParams, data: seq<Byte>, x: nat, y: nat)
    requires WellFormedParams(params) && |data| == 8 && x < 4 && y < 4
    ensures var p := 4 * x + y;
      var msb := Shr(Word(data[4], data[5]), p) % 2;
      var lsb := Shr(Word(data[6], data[7]), p) % 2;
      msb < 2 && lsb < 2 &&
      PixelColor(params, data, p) == GetFinalColorAtCoords(params, (x, y), msb, lsb)
  {
    var p := 4 * x + y;
    PixelCoordsBijection(p, x, y);
    PixelBitsFromWords(data, p);
  }

  /** Pixel i of the fill loops lands at (x, y) exactly when 4x + y = i. */
  lemma PixelSlot(i: nat, x: nat, y: nat)
    requires i < 16 && x < 4 && y < 4
    ensures PixelToCoords(i).0 < 4 && PixelToCoords(i).1 < 4
    ensures 4 * x + y == i <==> PixelToCoords(i) == (x, y)
  {
  }

  /** `colors[x][y] = color` on a 4x4 tile. */
  function SetPixel(colors: seq<seq<Color>>, c: (nat, nat), color: Color): (r: seq<seq<Color>>)
    requires |colors| == 4 && (forall x :: 0 <= x < 4 ==> |colors[x]| == 4) && c.0 < 4 && c.1 < 4
    ensures |r| == 4 && forall x :: 0 <= x < 4 ==> |r[x]| == 4
    ensures forall x, y :: 0 <= x < 4 && 0 <= y < 4 ==> r[x][y] == if (x, y) == c then color else colors[x][y]
  {
    colors[c.0 := colors[c.0][c.1 := color]]
  }

  /** The tile holds the colours of the pixels with index below n. */
  predicate FilledBelow(colors: seq<seq<Color>>, params: BlockParams, data: seq<Byte>, n: nat)
    requires WellFormedParams(params) && |data| == 8
  {
    |colors| == 4 && (forall x :: 0 <= x < 4 ==> |colors[x]| == 4) &&
    forall x, y :: 0 <= x < 4 && 0 <= y < 4 && 4 * x + y < n ==> colors[x][y] == PixelColor(params, data, 4 * x + y)
  }

  /** Storing the colour of pixel i extends the filled part by one pixel. */
  lemma FillStep(colors: seq<seq<Color>>, params: BlockParams, data: seq<Byte>, i: nat)
    requires WellFormedParams(params) && |data| == 8 && i < 16
    requires FilledBelow(colors, params, data, i)
    ensures PixelToCoords(i).0 < 4 && PixelToCoords(i).1 < 4
    ensures FilledBelow(SetPixel(colors, PixelToCoords(i), PixelColor(params, data, i)), params, data, i + 1)
  {
    PixelSlot(i, 0, 0);
    var r := SetPixel(colors, PixelToCoords(i), PixelColor(params, data, i));
    forall x, y | 0 <= x < 4 && 0 <= y < 4 && 4 * x + y < i + 1
      ensures r[x][y] == PixelColor(params, data, 4 * x + y)
    {
      PixelSlot(i, x, y);
    }
  }

  /** What the first fill loop stores for pixel i < 8. */
  lemma LowPixel(params: BlockParams, data: seq<Byte>, i: nat)
    requires WellFormedParams(params) && |data| == 8 && i < 8
    ensures GetFinalColorAtCoords(params, PixelToCoords(i), GetBit(data[5], i), GetBit(data[7], i)) == PixelColor(params, data, i)
  {
  }

  /** What the second fill loop stores for pixel i + 8. */
  lemma HighPixel(params: BlockParams, data: seq<Byte>, i: nat)
    requires WellFormedParams(params) && |data| == 8 && i < 8
    ensures GetFinalColorAtCoords(params, PixelToCoords(i + 8), GetBit(data[4], i), GetBit(data[6], i)) == PixelColor(params, data, i + 8)
  {
    assert PixelBits(data, i + 8) == (GetBit(data[4], i), GetBit(data[6], i));
  }

  /** The two fill loops of `ETCBlock.__init__`: pixels 0-7 take their
      index bits from bytes 5 and 7, pixels 8-15 from bytes 4 and 6. */
  method FillTile(params: BlockParams, data: seq<Byte>) returns (colors: seq<seq<Color>>)
    requires WellFormedParams(params) && |data| == 8
    ensures colors == Tile(params, data)
  {
    colors := seq(4, _ => seq(4, _ => Color(0, 0, 0)));
    for i := 0 to 8
      invariant FilledBelow(colors, params, data, i)
    {
      var coords := PixelToCoords(i);
      var color := GetFinalColorAtCoords(params, coords, GetBit(data[5], i), GetBit(data[7], i));
      LowPixel(params, data, i);
      FillStep(colors, params, data, i);
      colors := SetPixel(colors, coords, color);
    }
    for i := 0 to 8
      invariant FilledBelow(colors, params, data, 8 + i)
    {
      var coords := PixelToCoords(i + 8);
      var color := GetFinalColorAtCoords(params, coords, GetBit(data[4], i), GetBit(data[6], i));
      HighPixel(params, data, i);
      FillStep(colors, params, data, i + 8);
      colors := SetPixel(colors, coords, color);
    }
    TileEntries(params, data);
    assert forall x | 0 <= x < 4 :: colors[x] == Tile(params, data)[x];
  }

  /** `ETCBlock.__init__`: the flags, base colours and tables derived from
      the bytes, then the tile filled pixel by pixel. */
  method NewBlock(data: seq<Byte>) returns (block: ETCBlock)
    requires |data| == 8
    ensures block == BlockOf(data)
  {
    var params := BlockParams(DiffBit(data), FlipBit(data), BaseColors(data), TableSelectors(data));
    var colors := FillTile(params, data);
    block := ETCBlock(params, colors);
  }
}
