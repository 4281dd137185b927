/** `ETCDecoder`: a cursor over a grid of blocks filled in row-major order,
    fed 8 bytes per block, and the image assembled once the grid is full. */
module EtcDecoder {
  import opened Bits
  import opened EtcBlock
  import opened Assembly

  datatype Option<T> = None | Some(value: T)

  /** Python's `int(a / 4)`: true division truncated toward zero. */
  function TruncDiv4(a: int): (q: int)
    ensures a >= 0 ==> 0 <= 4 * q <= a < 4 * q + 4
    ensures a < 0 ==> 4 * q - 4 < a <= 4 * q <= 0
  {
    if a >= 0 then a / 4 else -((-a) / 4)
  }

  /** `ind_to_coord`: block index to (column, row) in a grid bw blocks wide. */
  function IndToCoord(index: nat, bw: nat): (coord: (nat, nat))
    requires bw > 0
  {
    (index % bw, index / bw)
  }

  /** The row-major index of the block at (u, v): v full rows of bw blocks
      come before it. */
  function CoordToInd(coord: (nat, nat), bw: nat): nat
    decreases coord.1
  {
    if coord.1 == 0 then coord.0 else CoordToInd((coord.0, coord.1 - 1), bw) + bw
  }

  lemma {:induction false} CoordToIndIsProduct(u: nat, v: nat, bw: nat)
    decreases v
    ensures CoordToInd((u, v), bw) == v * bw + u
  {
    if v > 0 {
      CoordToIndIsProduct(u, v - 1, bw);
      assert (v - 1) * bw + bw == v * bw;
    }
  }

  /** `ind_to_coord` maps the indices of a bw by bh grid into the grid, and
      the row-major index recovers the index. */
  lemma IndToCoordInGrid(index: nat, bw: nat, bh: nat)
    requires bw > 0 && index < bw * bh
    ensures IndToCoord(index, bw).0 < bw && IndToCoord(index, bw).1 < bh
    ensures CoordToInd(IndToCoord(index, bw), bw) == index
  {
    DivMod(index, bw);
    SplitInGrid(index, bw, bh, index % bw, index / bw);
  }

  lemma SplitInGrid(index: nat, bw: nat, bh: nat, u: nat, v: nat)
    requires index == v * bw + u && u < bw && index < bw * bh
    ensures v < bh && CoordToInd((u, v), bw) == index
  {
    CoordToIndIsProduct(u, v, bw);
    if v >= bh {
      MulMonotone(v, bh, bw);
    }
  }

  /** Every cell of the grid is `ind_to_coord` of exactly its row-major
      index, which lies below `bw * bh`. */
  lemma CoordToIndInRange(u: nat, v: nat, bw: nat, bh: nat)
    requires u < bw && v < bh
    ensures CoordToInd((u, v), bw) < bw * bh
    ensures IndToCoord(CoordToInd((u, v), bw), bw) == (u, v)
  {
    CoordToIndIsProduct(u, v, bw);
    DivModUnique(v * bw + u, bw, v, u);
    MulMonotone(bh, v + 1, bw);
  }

  /** The blocks of the first n 8-byte pieces `buffer[i*8 : i*8+8]` of
      the buffer, decoded one after the other. */
  function BlocksOf(buffer: seq<Byte>, n: nat): (blocks: seq<ETCBlock>)
    requires 8 * n <= |buffer|
    ensures |blocks| == n
  {
    seq(n, i requires 0 <= i < n => BlockOf(buffer[8 * i .. 8 * i + 8]))
  }

  predicate AllWellFormed(decoded: seq<ETCBlock>)
  {
    forall i :: 0 <= i < |decoded| ==> WellFormedBlock(decoded[i])
  }

  /** The grid `init_from_header` builds: bw columns of bh placeholders. */
  function Blank(bw: nat, bh: nat): Grid
  {
    seq(bw, u => seq(bh, v => Placeholder))
  }

  /** The grid after the blocks `decoded` were stored in turn, each at
      `ind_to_coord` of its position, as `decode_block` stores them. */
  function GridOf(decoded: seq<ETCBlock>, bw: nat, bh: nat): (grid: Grid)
    requires |decoded| <= bw * bh
    ensures |grid| == bw && forall u :: 0 <= u < bw ==> |grid[u]| == bh
    decreases |decoded|
  {
    if decoded == [] then Blank(bw, bh)
    else
      var n := |decoded| - 1;
      PositiveFactor(bh, bw);
      IndToCoordInGrid(n, bw, bh);
      var coord := IndToCoord(n, bw);
      var grid := GridOf(decoded[..n], bw, bh);
      grid[coord.0 := grid[coord.0][coord.1 := Decoded(decoded[n])]]
  }

  /** Storing block number `|decoded|` replaces the cell
      `ind_to_coord(|decoded|)` of the grid and nothing else. */
  lemma StoredGrid(decoded: seq<ETCBlock>, b: ETCBlock, bw: nat, bh: nat)
    requires bw > 0 && |decoded| < bw * bh
    ensures IndToCoord(|decoded|, bw).0 < bw && IndToCoord(|decoded|, bw).1 < bh
    ensures var coord := IndToCoord(|decoded|, bw);
      var grid := GridOf(decoded, bw, bh);
      GridOf(decoded + [b], bw, bh) == grid[coord.0 := grid[coord.0][coord.1 := Decoded(b)]]
  {
    IndToCoordInGrid(|decoded|, bw, bh);
    assert (decoded + [b])[..|decoded|] == decoded;
  }

  /** Cell (u, v) of the grid holds the block whose row-major index is
      `v * bw + u` once that many blocks have been stored, and the
      placeholder before. */
  lemma {:induction false} GridOfCell(decoded: seq<ETCBlock>, bw: nat, bh: nat, u: nat, v: nat)
    requires |decoded| <= bw * bh && u < bw && v < bh
    ensures CoordToInd((u, v), bw) < bw * bh
    ensures GridOf(decoded, bw, bh)[u][v] ==
      if CoordToInd((u, v), bw) < |decoded| then Decoded(decoded[CoordToInd((u, v), bw)]) else Placeholder
    decreases |decoded|
  {
    CoordToIndInRange(u, v, bw, bh);
    if decoded != [] {
      var n := |decoded| - 1;
      GridOfCell(decoded[..n], bw, bh, u, v);
      IndToCoordInGrid(n, bw, bh);
      if (u, v) == IndToCoord(n, bw) {
        assert CoordToInd((u, v), bw) == n;
      } else {
        assert CoordToInd((u, v), bw) != n;
      }
    }
  }

  /** Once a block has been stored for every cell, every cell holds a
      decoded block, whatever part of the grid is active. */
  lemma FullGridCovers(decoded: seq<ETCBlock>, bw: nat, bh: nat, aw: int, ah: int)
    requires AllWellFormed(decoded) && |decoded| == bw * bh
    ensures Covers(GridOf(decoded, bw, bh), bh, ClipDim(aw, bw), ClipDim(ah, bh))
  {
    var grid: Grid := GridOf(decoded, bw, bh);
    forall u: nat, v: nat | u < bw && v < bh
      ensures grid[u][v].Decoded? && WellFormedBlock(grid[u][v].block)
    {
      GridOfCell(decoded, bw, bh, u, v);
    }
  }

  /** The number of iterations of `range(0, d)`. */
  function Extent(d: int): nat
  {
    if d > 0 then d else 0
  }

  /** `decode`'s completion test `curr_ind >= block_dim[0] * block_dim[1]`
      compares with the product of the dimensions as stored, possibly
      negative; with at most as many blocks as cells, it holds exactly when
      every cell has been decoded. */
  lemma {:induction false} PastEndIsFull(d0: int, d1: int, n: nat)
    requires n <= Extent(d0) * Extent(d1)
    ensures n >= d0 * d1 ==> n == Extent(d0) * Extent(d1)
    ensures (d0 >= 0 || d1 >= 0) && n == Extent(d0) * Extent(d1) ==> n >= d0 * d1
  {
    if d0 < 0 && d1 < 0 {
      assert d0 * d1 > 0;
    } else if d0 <= 0 || d1 <= 0 {
      assert d0 * d1 <= 0;
    }
  }

  /** The blocks of n + 1 pieces are those of n pieces and the block of
      the piece at `ptr = 8 n`. */
  lemma BlocksOfNext(buffer: seq<Byte>, n: nat, ptr: nat, piece: seq<Byte>)
    requires ptr == 8 * n && ptr + 8 <= |buffer| && piece == buffer[ptr .. ptr + 8]
    ensures BlocksOf(buffer, n + 1) == BlocksOf(buffer, n) + [BlockOf(piece)]
  {
    var blocks := BlocksOf(buffer, n) + [BlockOf(piece)];
    forall i | 0 <= i < n + 1
      ensures BlocksOf(buffer, n + 1)[i] == blocks[i]
    {
      if i == n {
        assert 8 * i == ptr && 8 * i + 8 == ptr + 8;
      }
    }
  }

  /** The block after (u, v) in row-major order is `(u + 1, v)`. */
  lemma RowMajorStep(u: nat, v: nat, bw: nat)
    ensures CoordToInd((u, v), bw) == CoordToInd((0, v), bw) + u
  {
    CoordToIndIsProduct(u, v, bw);
    CoordToIndIsProduct(0, v, bw);
  }

  function Min(a: nat, b: nat): nat
  {
    if a < b then a else b
  }

  class ETCDecoder {
    /** `block_dim`: the grid's size in blocks, as `init_from_header` computed it. */
    var blockDim: (int, int)
    /** `active_dim`: the image size in pixels. */
    var activeDim: (int, int)
    /** `curr_ind`: the row-major index of the next block to decode. */
    var currInd: nat
    /** `blocks`, indexed `[u, v]`: column u, row v. */
    var blocks: array2<Cell>
    /** The blocks decoded so far, in order. */
    ghost var decoded: seq<ETCBlock>
    /** The contents of `blocks` as a value. */
    ghost var cells: Grid

    /** The number of block columns and rows the grid holds; Python's
        `range` over a negative count is empty. */
    function Cols(): nat
      reads this`blockDim
    {
      Extent(blockDim.0)
    }

    function RowCount(): nat
      reads this`blockDim
    {
      Extent(blockDim.1)
    }

    /** The grid holds exactly the blocks of the pieces fed so far, each at
        `ind_to_coord` of its position, and nothing else. */
    ghost predicate Valid()
      reads this, blocks
    {
      blocks.Length0 == Cols() && blocks.Length1 == RowCount() &&
      AllWellFormed(decoded) && currInd == |decoded| && currInd <= Cols() * RowCount() &&
      cells == GridOf(decoded, Cols(), RowCount()) &&
      forall u, v :: 0 <= u < Cols() && 0 <= v < RowCount() ==> blocks[u, v] == cells[u][v]
    }

    /** The decoder before `init`. The Python object has no `block_dim`,
        `blocks` or `curr_ind` until `init_from_header` sets them; a 0 by 0
        grid with the cursor at 0 stands in for those missing attributes. */
    constructor ()
      ensures Valid() && blockDim == (0, 0) && activeDim == (0, 0) && decoded == []
    {
      blockDim := (0, 0);
      activeDim := (0, 0);
      currInd := 0;
      blocks := new Cell[0, 0];
      decoded := [];
      cells := [];
    }

    /** `init_from_header(args)`: a grid of `args[0] / 4` by `args[1] / 4`
        placeholders (truncated, as `int` does), the active size
        `args[2:4]`, and the cursor at the first block. */
    method InitFromHeader(args: (int, int, int, int))
      modifies this
      ensures Valid() && fresh(blocks)
      ensures blockDim == (TruncDiv4(args.0), TruncDiv4(args.1))
      ensures activeDim == (args.2, args.3)
      ensures currInd == 0 && decoded == []
      ensures forall u, v :: 0 <= u < blocks.Length0 && 0 <= v < blocks.Length1 ==> blocks[u, v] == Placeholder
    {
      blockDim := (TruncDiv4(args.0), TruncDiv4(args.1));
      activeDim := (args.2, args.3);
      currInd := 0;
      decoded := [];
      var bw, bh := Cols(), RowCount();
      cells := Blank(bw, bh);
      blocks := new Cell[bw, bh]((u, v) => Placeholder);
      assert cells == GridOf(decoded, bw, bh);
    }

    /** `decode_block(data)`: decode one block into the cell at
        `ind_to_coord(curr_ind)` and advance the cursor; no other cell and
        no other field changes. */
    method DecodeBlock(data: seq<Byte>)
      requires Valid() && |data| == 8
      requires blockDim.0 > 0 && currInd < blockDim.0 * blockDim.1
      modifies this, blocks
      ensures Valid()
      ensures blocks == old(blocks) && blockDim == old(blockDim) && activeDim == old(activeDim)
      ensures currInd == old(currInd) + 1 && decoded == old(decoded) + [BlockOf(data)]
      ensures IndToCoord(old(currInd), Cols()).0 < Cols() && IndToCoord(old(currInd), Cols()).1 < RowCount()
      ensures blocks[IndToCoord(old(currInd), Cols()).0, IndToCoord(old(currInd), Cols()).1] == Decoded(BlockOf(data))
      ensures forall u, v :: 0 <= u < Cols() && 0 <= v < RowCount() && (u, v) != IndToCoord(old(currInd), Cols()) ==>
        blocks[u, v] == old(blocks[u, v])
    {
      var block := NewBlock(data);
      StoreBlock(block);
    }

    /** The assignment and increment of `decode_block`, for a block already
        decoded. */
    method StoreBlock(block: ETCBlock)
      requires Valid() && WellFormedBlock(block)
      requires blockDim.0 > 0 && currInd < blockDim.0 * blockDim.1
      modifies this, blocks
      ensures Valid()
      ensures blocks == old(blocks) && blockDim == old(blockDim) && activeDim == old(activeDim)
      ensures currInd == old(currInd) + 1 && decoded == old(decoded) + [block]
      ensures IndToCoord(old(currInd), Cols()).0 < Cols() && IndToCoord(old(currInd), Cols()).1 < RowCount()
      ensures blocks[IndToCoord(old(currInd), Cols()).0, IndToCoord(old(currInd), Cols()).1] == Decoded(block)
      ensures forall u, v :: 0 <= u < Cols() && 0 <= v < RowCount() && (u, v) != IndToCoord(old(currInd), Cols()) ==>
        blocks[u, v] == old(blocks[u, v])
    {
      PositiveFactor(blockDim.0, blockDim.1);
      assert Cols() == blockDim.0 && RowCount() == blockDim.1;
      StoredGrid(decoded, block, Cols(), RowCount());
      var coord := IndToCoord(currInd, blockDim.0);
      blocks[coord.0, coord.1] := Decoded(block);
      currInd := currInd + 1;
      decoded := decoded + [block];
      cells := cells[coord.0 := cells[coord.0][coord.1 := Decoded(block)]];
    }

    /** `decode(buffer)` after `init`: decode the buffer's 8-byte pieces
        into the next cells, then report `len(buffer)` bytes consumed, or
        `-1` and the assembled image once the cursor has passed the last
        cell. */
    method Decode(buffer: seq<Byte>) returns (consumed: int, image: Option<seq<Byte>>)
      requires Valid() && |buffer| % 8 == 0
      requires |buffer| > 0 ==> blockDim.0 > 0 && currInd + |buffer| / 8 <= blockDim.0 * blockDim.1
      modifies this, blocks
      ensures Valid()
      ensures blocks == old(blocks) && blockDim == old(blockDim) && activeDim == old(activeDim)
      ensures currInd == old(currInd) + |buffer| / 8
      ensures decoded == old(decoded) + BlocksOf(buffer, |buffer| / 8)
      ensures currInd < blockDim.0 * blockDim.1 ==> consumed == |buffer| && image == None
      ensures currInd >= blockDim.0 * blockDim.1 ==>
        consumed == -1 && currInd == Cols() * RowCount() &&
        Covers(GridOf(decoded, Cols(), RowCount()), RowCount(),
               ClipDim(activeDim.0, Cols()), ClipDim(activeDim.1, RowCount())) &&
        image == Some(Raster(GridOf(decoded, Cols(), RowCount()), RowCount(), activeDim.0, activeDim.1))
    {
      var count := (|buffer| + 7) / 8;
      assert count == |buffer| / 8;
      for i := 0 to count
        invariant Valid()
        invariant blocks == old(blocks) && blockDim == old(blockDim) && activeDim == old(activeDim)
        invariant currInd == old(currInd) + i
        invariant decoded == old(decoded) + BlocksOf(buffer, i)
      {
        FeedPiece(buffer, 8 * i, old(decoded), i);
      }
      consumed := |buffer|;
      image := None;
      if currInd >= blockDim.0 * blockDim.1 {
        consumed := -1;
        PastEndIsFull(blockDim.0, blockDim.1, currInd);
        FullGridCovers(decoded, Cols(), RowCount(), activeDim.0, activeDim.1);
        var data := WriteBlocksToImage();
        image := Some(data);
      }
    }

    /** `decode(buffer)` without `init`: set the grid up for the image size
        rounded up to whole blocks, decode one 8-byte piece per cell in
        row-major order, and assemble the image. */
    method DecodeImage(buffer: seq<Byte>, width: nat, height: nat) returns (consumed: int, image: seq<Byte>)
      requires |buffer| >= 8 * (((width + 3) / 4) * ((height + 3) / 4))
      modifies this
      ensures Valid() && fresh(blocks)
      ensures blockDim == ((width + 3) / 4, (height + 3) / 4) && activeDim == (width, height)
      ensures currInd == Cols() * RowCount()
      ensures decoded == BlocksOf(buffer, currInd)
      ensures consumed == -1
      ensures Covers(GridOf(decoded, Cols(), RowCount()), RowCount(), width, height)
      ensures image == Raster(GridOf(decoded, Cols(), RowCount()), RowCount(), width, height)
      ensures |image| == 3 * (height * width)
    {
      InitFromHeader(((width + 3) / 4 * 4, (height + 3) / 4 * 4, width, height));
      assert Cols() == (width + 3) / 4 && RowCount() == (height + 3) / 4;
      assert |buffer| >= 8 * (Cols() * RowCount());
      DecodeRows(buffer);
      CoordToIndIsProduct(0, RowCount(), Cols());
      FullGridCovers(decoded, Cols(), RowCount(), width, height);
      image := WriteBlocksToImage();
      consumed := -1;
    }

    /** The body of both loops of `decode`: `decode_block` on the 8 bytes
        of the buffer at `start`, piece n of the buffer. */
    method FeedPiece(buffer: seq<Byte>, start: nat, ghost before: seq<ETCBlock>, ghost n: nat)
      requires Valid() && blockDim.0 > 0 && currInd < blockDim.0 * blockDim.1
      requires start == 8 * n && start + 8 <= |buffer| && decoded == before + BlocksOf(buffer, n)
      modifies this, blocks
      ensures Valid() && blocks == old(blocks) && blockDim == old(blockDim) && activeDim == old(activeDim)
      ensures currInd == old(currInd) + 1 && decoded == before + BlocksOf(buffer, n + 1)
    {
      var piece := buffer[start .. start + 8];
      BlocksOfNext(buffer, n, start, piece);
      DecodeBlock(piece);
    }

    /** The loops of `decode` without `init`: every row of blocks, top to
        bottom, reading the buffer from its start. */
    method DecodeRows(buffer: seq<Byte>)
      requires Valid() && blockDim.0 >= 0 && blockDim.1 >= 0 && currInd == 0 && decoded == []
      requires |buffer| >= 8 * (Cols() * RowCount())
      modifies this, blocks
      ensures Valid() && blocks == old(blocks) && blockDim == old(blockDim) && activeDim == old(activeDim)
      ensures currInd == CoordToInd((0, RowCount()), Cols()) && decoded == BlocksOf(buffer, currInd)
    {
      var ptr := 0;
      for v := 0 to blockDim.1
        invariant Valid() && blocks == old(blocks) && blockDim == old(blockDim) && activeDim == old(activeDim)
        invariant currInd == CoordToInd((0, v), Cols()) && ptr == 8 * currInd
        invariant decoded == BlocksOf(buffer, currInd)
      {
        ptr := DecodeRow(buffer, v, ptr);
      }
    }

    /** The inner loop of `decode` without `init`: the blocks of row v,
        left to right, each from the next 8 bytes at `ptr`. */
    method DecodeRow(buffer: seq<Byte>, v: nat, ptr0: nat) returns (ptr: nat)
      requires Valid() && blockDim.0 >= 0 && v < RowCount()
      requires currInd == CoordToInd((0, v), Cols()) && ptr0 == 8 * currInd
      requires |buffer| >= 8 * (Cols() * RowCount()) && decoded == BlocksOf(buffer, currInd)
      modifies this, blocks
      ensures Valid() && blocks == old(blocks) && blockDim == old(blockDim) && activeDim == old(activeDim)
      ensures currInd == CoordToInd((0, v + 1), Cols()) && ptr == 8 * currInd
      ensures decoded == BlocksOf(buffer, currInd)
    {
      ptr := ptr0;
      for u := 0 to blockDim.0
        invariant Valid() && blocks == old(blocks) && blockDim == old(blockDim) && activeDim == old(activeDim)
        invariant currInd == CoordToInd((0, v), Cols()) + u && ptr == 8 * currInd
        invariant decoded == BlocksOf(buffer, currInd)
      {
        RowMajorStep(u, v, Cols());
        CoordToIndInRange(u, v, Cols(), RowCount());
        FeedPiece(buffer, ptr, [], currInd);
        ptr := ptr + 8;
      }
    }

    /** `write_blocks_to_image` up to `set_as_raw`: the bytes of the
        active part of the grid in raster order. Only the cells that hold
        active pixels are read. */
    method WriteBlocksToImage() returns (data: seq<Byte>)
      requires Valid()
      requires Covers(GridOf(decoded, Cols(), RowCount()), RowCount(),
                      ClipDim(activeDim.0, Cols()), ClipDim(activeDim.1, RowCount()))
      ensures data == Raster(GridOf(decoded, Cols(), RowCount()), RowCount(), activeDim.0, activeDim.1)
    {
      ghost var grid := cells;
      ghost var W, H := ClipDim(activeDim.0, Cols()), ClipDim(activeDim.1, RowCount());
      forall v: nat, y: nat | y < 4 && 4 * v + y < H
        ensures ShowsRow(Shown(grid), v, y, W)
      {
        forall u: nat, x: nat | x < 4 && 4 * u + x < W
          ensures ShowsBlockPixel(Shown(grid), u, v, x, y)
        {
          BlockPixel(grid, RowCount(), W, H, u, v, x, y);
        }
      }
      data := CopyActivePixels(Shown(grid), W, H);
    }

    /** Block (u, v) is decoded and entry `[x][y]` of it is pixel
        `(4 u + x, 4 v + y)` of `pixels`. */
    ghost predicate ShowsBlockPixel(pixels: (nat, nat) -> RGB, u: nat, v: nat, x: nat, y: nat)
      reads this, blocks
    {
      u < blocks.Length0 && v < blocks.Length1 && blocks[u, v].Decoded? &&
      x < |blocks[u, v].block.colors| && y < |blocks[u, v].block.colors[x]| &&
      var c := blocks[u, v].block.colors[x][y];
      IsByteColor(c) && pixels(4 * u + x, 4 * v + y) == RGB(c.r, c.g, c.b)
    }

    /** Pixel row y of block row v, up to width W, is held by the blocks. */
    ghost predicate ShowsRow(pixels: (nat, nat) -> RGB, v: nat, y: nat, W: nat)
      reads this, blocks
    {
      forall u: nat, x: nat :: x < 4 && 4 * u + x < W ==> ShowsBlockPixel(pixels, u, v, x, y)
    }

    /** The four loops of `write_blocks_to_image`: rows of blocks, and the
        pixel rows within them until the active height. */
    method CopyActivePixels(ghost pixels: (nat, nat) -> RGB, ghost W: nat, ghost H: nat) returns (data: seq<Byte>)
      requires W == ClipDim(activeDim.0, Cols()) && H == ClipDim(activeDim.1, RowCount())
      requires forall v: nat, y: nat :: y < 4 && 4 * v + y < H ==> ShowsRow(pixels, v, y, W)
      ensures data == Rows(pixels, W, H)
    {
      data := [];
      var rows, height := RowCount(), activeDim.1;
      ghost var n := 0;
      for v := 0 to rows
        invariant n == Min(4 * v, H)
        invariant data == Rows(pixels, W, n)
      {
        for y := 0 to 4
          invariant n == Min(4 * v + y, H)
          invariant data == Rows(pixels, W, n)
        {
          if y + v * 4 >= height {
            break;
          }
          assert ShowsRow(pixels, v, y, W);
          data := CopyPixelRow(pixels, v, y, W, data);
          RowsNext(pixels, W, n);
          n := n + 1;
        }
      }
    }

    /** The two inner loops of `write_blocks_to_image`: pixel row y of block
        row v, block by block, until the active width. */
    method CopyPixelRow(ghost pixels: (nat, nat) -> RGB, v: nat, y: nat, ghost W: nat, data0: seq<Byte>)
      returns (data: seq<Byte>)
      requires y < 4 && W == ClipDim(activeDim.0, Cols())
      requires ShowsRow(pixels, v, y, W)
      ensures data == data0 + Row(pixels, 4 * v + y, W)
    {
      data := data0;
      var cols := Cols();
      ghost var n := 0;
      for u := 0 to cols
        invariant n == Min(4 * u, W)
        invariant data == data0 + Row(pixels, 4 * v + y, n)
      {
        data, n := CopyBlockRow(pixels, u, v, y, W, data0, data, n);
      }
    }

    /** The innermost loop of `write_blocks_to_image`: row y of block (u, v),
        pixel by pixel, until the active width. */
    method CopyBlockRow(ghost pixels: (nat, nat) -> RGB, u: nat, v: nat, y: nat, ghost W: nat,
                        ghost data0: seq<Byte>, data1: seq<Byte>, ghost n0: nat)
      returns (data: seq<Byte>, ghost n: nat)
      requires y < 4 && W == ClipDim(activeDim.0, Cols())
      requires ShowsRow(pixels, v, y, W)
      requires u < Cols() && n0 == Min(4 * u, W) && data1 == data0 + Row(pixels, 4 * v + y, n0)
      ensures n == Min(4 * u + 4, W) && data == data0 + Row(pixels, 4 * v + y, n)
    {
      data, n := data1, n0;
      var width := activeDim.0;
      for x := 0 to 4
        invariant n == Min(4 * u + x, W)
        invariant data == data0 + Row(pixels, 4 * v + y, n)
      {
        if x + u * 4 >= width {
          break;
        }
        assert ShowsBlockPixel(pixels, u, v, x, y);
        var color := blocks[u, v].block.colors[x][y];
        var p := RGB(color.r, color.g, color.b);
        RowAppend(pixels, 4 * v + y, n, data0, data, p);
        data := data + Bytes(p);
        n := n + 1;
      }
    }
  }
}
