/** The image `write_blocks_to_image` assembles from a grid of decoded
    blocks: RGB bytes in raster order, clipped to the active size. The grid
    is indexed `grid[u][v]`, u the block column and v the block row, as the
    decoder's `blocks` list is. */
module Assembly {
  import opened Bits
  import opened EtcBlock

  /** A grid cell: the placeholder `object()` put there by
      `init_from_header`, or a decoded block. */
  datatype Cell = Placeholder | Decoded(block: ETCBlock)

  type Grid = seq<seq<Cell>>

  /** The number of pixels shown along one axis: the active size, cut at
      zero and at the 4 pixels per block that the grid holds. This is where
      the `break`s of `write_blocks_to_image` stop. */
  function ClipDim(active: int, blocks: nat): (d: nat)
    ensures d <= 4 * blocks
    ensures 0 <= active <= 4 * blocks ==> d == active
    ensures active < 0 ==> d == 0
    ensures active > 4 * blocks ==> d == 4 * blocks
  {
    if active < 0 then 0 else if active > 4 * blocks then 4 * blocks else active
  }

  /** The grid has `|grid|` columns of bh blocks, spans W by H pixels, and
      every block a pixel in that span falls into has been decoded. */
  predicate Covers(grid: Grid, bh: nat, W: nat, H: nat)
  {
    W <= 4 * |grid| && H <= 4 * bh &&
    (forall u :: 0 <= u < |grid| ==> |grid[u]| == bh) &&
    forall u, v :: 0 <= u < |grid| && 0 <= v < bh && 4 * u < W && 4 * v < H ==>
      grid[u][v].Decoded? && WellFormedBlock(grid[u][v].block)
  }

  /** Pixel (X, Y) of the image lies in a decoded block. */
  predicate Visible(grid: Grid, X: nat, Y: nat)
  {
    X / 4 < |grid| && Y / 4 < |grid[X / 4]| &&
    grid[X / 4][Y / 4].Decoded? && WellFormedBlock(grid[X / 4][Y / 4].block)
  }

  lemma CoveredIsVisible(grid: Grid, bh: nat, W: nat, H: nat, X: nat, Y: nat)
    requires Covers(grid, bh, W, H) && X < W && Y < H
    ensures Visible(grid, X, Y)
  {
    var u, v := X / 4, Y / 4;
    assert 4 * u <= X && 4 * v <= Y;
    assert grid[u][v].Decoded? && WellFormedBlock(grid[u][v].block);
  }

  /** A pixel as the three bytes `data.extend(colors[x][y])` appends. */
  datatype RGB = RGB(r: Byte, g: Byte, b: Byte)

  function Bytes(p: RGB): seq<Byte>
  {
    [p.r, p.g, p.b]
  }

  /** The colour of image pixel (X, Y): entry `[X mod 4][Y mod 4]` of the
      block at `[X div 4][Y div 4]`. */
  function PixelAt(grid: Grid, X: nat, Y: nat): (p: RGB)
    requires Visible(grid, X, Y)
  {
    var c := grid[X / 4][Y / 4].block.colors[X % 4][Y % 4];
    RGB(c.r, c.g, c.b)
  }

  /** The pixels of the grid as a total function: only visible pixels are
      ever written, and black elsewhere keeps the raster functions total. */
  function Shown(grid: Grid): (nat, nat) -> RGB
  {
    (X: nat, Y: nat) => if Visible(grid, X, Y) then PixelAt(grid, X, Y) else RGB(0, 0, 0)
  }

  /** The first n pixels of image row Y, left to right. */
  function Row(pixels: (nat, nat) -> RGB, Y: nat, n: nat): (r: seq<Byte>)
    ensures |r| == 3 * n
  {
    if n == 0 then [] else Row(pixels, Y, n - 1) + Bytes(pixels(n - 1, Y))
  }

  /** Channel c of pixel X sits at offset `3 X + c` of the row. */
  lemma {:induction false} RowPixel(pixels: (nat, nat) -> RGB, Y: nat, n: nat, X: nat, c: nat)
    requires X < n && c < 3
    ensures Row(pixels, Y, n)[3 * X + c] == Bytes(pixels(X, Y))[c]
  {
    if X < n - 1 {
      RowPixel(pixels, Y, n - 1, X, c);
    }
  }

  /** The offset at which image row Y starts when rows are W pixels wide. */
  function RowStart(W: nat, Y: nat): nat
  {
    if Y == 0 then 0 else RowStart(W, Y - 1) + 3 * W
  }

  lemma {:induction false} RowStartIsProduct(W: nat, Y: nat)
    ensures RowStart(W, Y) == 3 * (Y * W)
  {
    if Y > 0 {
      RowStartIsProduct(W, Y - 1);
      assert (Y - 1) * W + W == Y * W;
    }
  }

  /** A channel of row Y lies before the start of any later row. */
  lemma {:induction false} RowStartBelow(W: nat, X: nat, Y: nat, c: nat, n: nat)
    requires X < W && c < 3 && Y < n
    ensures RowStart(W, Y) + 3 * X + c < RowStart(W, n)
  {
    if Y < n - 1 {
      RowStartBelow(W, X, Y, c, n - 1);
    }
  }

  /** Image pixel `(4 u + x, 4 v + y)` is entry `[x][y]` of block (u, v). */
  lemma BlockPixel(grid: Grid, bh: nat, W: nat, H: nat, u: nat, v: nat, x: nat, y: nat)
    requires Covers(grid, bh, W, H) && x < 4 && y < 4 && 4 * u + x < W && 4 * v + y < H
    ensures u < |grid| && v < |grid[u]| && grid[u][v].Decoded? && WellFormedBlock(grid[u][v].block)
    ensures var c := grid[u][v].block.colors[x][y];
      Shown(grid)(4 * u + x, 4 * v + y) == RGB(c.r, c.g, c.b)
  {
    var X, Y := 4 * u + x, 4 * v + y;
    assert X / 4 == u && X % 4 == x && Y / 4 == v && Y % 4 == y;
    CoveredIsVisible(grid, bh, W, H, X, Y);
  }

  /** Appending the bytes of pixel X of row Y to the X pixels before it. */
  lemma RowAppend(pixels: (nat, nat) -> RGB, Y: nat, X: nat, data0: seq<Byte>, data: seq<Byte>, p: RGB)
    requires data == data0 + Row(pixels, Y, X) && pixels(X, Y) == p
    ensures data + Bytes(p) == data0 + Row(pixels, Y, X + 1)
  {
    assert Row(pixels, Y, X + 1) == Row(pixels, Y, X) + Bytes(p);
  }

  /** The first n image rows, top to bottom, each W pixels wide. */
  function Rows(pixels: (nat, nat) -> RGB, W: nat, n: nat): (r: seq<Byte>)
    ensures |r| == RowStart(W, n)
  {
    if n == 0 then [] else Rows(pixels, W, n - 1) + Row(pixels, n - 1, W)
  }

  lemma RowsNext(pixels: (nat, nat) -> RGB, W: nat, n: nat)
    ensures Rows(pixels, W, n + 1) == Rows(pixels, W, n) + Row(pixels, n, W)
  {
  }

  /** Channel c of pixel (X, Y) sits at offset `RowStart(W, Y) + 3 X + c`
      of the rows. */
  lemma {:induction false} RowsPixel(pixels: (nat, nat) -> RGB, W: nat, n: nat, X: nat, Y: nat, c: nat)
    requires X < W && Y < n && c < 3
    ensures RowStart(W, Y) + 3 * X + c < |Rows(pixels, W, n)|
    ensures Rows(pixels, W, n)[RowStart(W, Y) + 3 * X + c] == Bytes(pixels(X, Y))[c]
  {
    RowStartBelow(W, X, Y, c, n);
    if Y == n - 1 {
      RowPixel(pixels, Y, W, X, c);
    } else {
      RowsPixel(pixels, W, n - 1, X, Y, c);
    }
  }

  /** The image `write_blocks_to_image` builds for a grid of bh block rows
      and active size (aw, ah): its visible rows, each as wide as the
      visible part of a row. */
  function Raster(grid: Grid, bh: nat, aw: int, ah: int): (image: seq<Byte>)
    requires Covers(grid, bh, ClipDim(aw, |grid|), ClipDim(ah, bh))
    ensures |image| == 3 * (ClipDim(ah, bh) * ClipDim(aw, |grid|))
  {
    RowStartIsProduct(ClipDim(aw, |grid|), ClipDim(ah, bh));
    Rows(Shown(grid), ClipDim(aw, |grid|), ClipDim(ah, bh))
  }

  /** The byte offset of channel c of pixel (X, Y) in a raster W pixels wide. */
  function Offset(W: nat, X: nat, Y: nat, c: nat): nat
  {
    3 * (Y * W + X) + c
  }

  /** Every visible pixel appears in the raster, at its raster-order offset,
      with the colour its block holds for it. */
  lemma RasterPixel(grid: Grid, bh: nat, aw: int, ah: int, X: nat, Y: nat, c: nat)
    requires Covers(grid, bh, ClipDim(aw, |grid|), ClipDim(ah, bh))
    requires X < ClipDim(aw, |grid|) && Y < ClipDim(ah, bh) && c < 3
    ensures Visible(grid, X, Y)
    ensures Offset(ClipDim(aw, |grid|), X, Y, c) < |Raster(grid, bh, aw, ah)|
    ensures Raster(grid, bh, aw, ah)[Offset(ClipDim(aw, |grid|), X, Y, c)] == Bytes(PixelAt(grid, X, Y))[c]
  {
    var W, H := ClipDim(aw, |grid|), ClipDim(ah, bh);
    RowStartIsProduct(W, Y);
    CoveredIsVisible(grid, bh, W, H, X, Y);
    RowsPixel(Shown(grid), W, H, X, Y, c);
  }

  /** Every offset below `3 H W` is the offset of exactly one channel of a
      pixel in the W by H rectangle; here, of at least one. */
  lemma DecomposeOffset(i: nat, W: nat, H: nat) returns (X: nat, Y: nat, c: nat)
    requires i < 3 * (H * W)
    ensures X < W && Y < H && c < 3 && i == Offset(W, X, Y, c)
  {
    var q := i / 3;
    c := i % 3;
    assert i == 3 * q + c;
    assert q < H * W;
    PositiveFactor(H, W);
    DivMod(q, W);
    X, Y := q % W, q / W;
    assert q == Y * W + X;
    MulCancelLess(Y, H, W);
  }

  /** Every byte of the raster is a channel of a pixel inside the active
      area: block pixels right of or below it never appear. */
  lemma RasterOnlyVisiblePixels(grid: Grid, bh: nat, aw: int, ah: int, i: nat)
    requires Covers(grid, bh, ClipDim(aw, |grid|), ClipDim(ah, bh))
    requires i < |Raster(grid, bh, aw, ah)|
    ensures exists X: nat, Y: nat, c: nat {:trigger Offset(ClipDim(aw, |grid|), X, Y, c)} ::
      X < ClipDim(aw, |grid|) && Y < ClipDim(ah, bh) && c < 3 &&
      i == Offset(ClipDim(aw, |grid|), X, Y, c) &&
      Visible(grid, X, Y) && Raster(grid, bh, aw, ah)[i] == Bytes(PixelAt(grid, X, Y))[c]
  {
    var W, H := ClipDim(aw, |grid|), ClipDim(ah, bh);
    var X, Y, c := DecomposeOffset(i, W, H);
    RasterPixel(grid, bh, aw, ah, X, Y, c);
  }
}
