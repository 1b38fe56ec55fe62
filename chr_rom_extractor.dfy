/** Cutting a CHR segment into tiles and compositing tiles into bitmaps: one
    scaled tile, or a sheet of tiles in a grid over a dark background, with an
    optional checkerboard under transparent pixels
    (src/NesExtractor.Core/Services/ChrRomExtractor.cs). */
module ChrRomExtractor {
  import opened Common
  import opened NesTile
  import opened NesPalette
  import opened Canvas

  const DefaultTileScale := 2
  const DefaultTilesPerRow := 16
  const DefaultSpacing := 1
  const DefaultIndividualTileScale := 4

  const Background := Rgb(32, 32, 32)
  const BorderColor := Rgb(64, 64, 64)
  const CheckerboardLight := Rgb(128, 128, 128)
  const CheckerboardDark := Rgb(96, 96, 96)
  const MinCheckerboardSize := 2

  /** The colour a cleared transparent bitmap holds: `SKColors.Transparent`
      (white at alpha 0) stored premultiplied is the all-zero pixel, which is
      `Empty`. */
  const Transparent := Empty

  /** The palette used when none is given. */
  const DefaultPalette := Greyscale

  datatype SheetError = EmptyTileList

  /** The square outline drawn around a tile when tiles are spaced apart. */
  datatype Border = Border(left: int, top: int, size: int)

  // ---------------------------------------------------------------- tiles

  /** How many whole tiles a CHR buffer holds; null holds none. */
  function TileCount(chrRom: Option<seq<byte>>): (n: nat)
    ensures chrRom.None? ==> n == 0
    ensures chrRom.Some? ==> n * TileSizeInBytes <= |chrRom.value| < (n + 1) * TileSizeInBytes
  {
    if chrRom.None? then 0 else |chrRom.value| / TileSizeInBytes
  }

  /** The 16 bytes of tile i. */
  function TileBytes(chrRom: seq<byte>, i: nat): (bytes: seq<byte>)
    requires (i + 1) * TileSizeInBytes <= |chrRom|
    ensures |bytes| == TileSizeInBytes
  {
    chrRom[i * TileSizeInBytes..(i + 1) * TileSizeInBytes]
  }

  /** `ExtractTiles`: tile i is the decoding of bytes 16i..16i+15, with index
      i; a trailing partial tile is ignored. */
  method ExtractTiles(chrRom: Option<seq<byte>>) returns (tiles: seq<NesTile>)
    ensures |tiles| == TileCount(chrRom)
    ensures forall i :: 0 <= i < |tiles| ==>
      (i + 1) * TileSizeInBytes <= |chrRom.value| && tiles[i].DecodedFrom(TileBytes(chrRom.value, i), i)
    ensures forall i :: 0 <= i < |tiles| ==> fresh(tiles[i]) && fresh(tiles[i].pixels)
  {
    if chrRom.None? || |chrRom.value| == 0 {
      return [];
    }
    var bytes := chrRom.value;
    tiles := [];
    var tileCount := |bytes| / TileSizeInBytes;
    for i := 0 to tileCount
      invariant |tiles| == i
      invariant forall j :: 0 <= j < i ==>
        (j + 1) * TileSizeInBytes <= |bytes| && tiles[j].DecodedFrom(TileBytes(bytes, j), j)
      invariant forall j :: 0 <= j < i ==> fresh(tiles[j]) && fresh(tiles[j].pixels)
    {
      var offset := i * TileSizeInBytes;
      var tileData := bytes[offset..offset + TileSizeInBytes];
      var decoded := NesTile.Decode(Some(tileData), i);
      assert decoded.Success?;
      tiles := tiles + [decoded.value];
    }
  }

  // ---------------------------------------------------------------- pixels

  /** The tile row or column a bitmap offset falls in when each tile pixel is
      a `scale` x `scale` block: the number of whole blocks before it. */
  function BlockOf(v: nat, scale: nat): nat
    requires scale > 0
    decreases v
  {
    if v < scale then 0 else BlockOf(v - scale, scale) + 1
  }

  /** The offset of v inside its block of `size`. */
  function Within(v: nat, size: nat): nat
    requires size > 0
    decreases v
  {
    if v < size then v else Within(v - size, size)
  }

  /** A tile's 8x8 pixel values, row by row. */
  predicate IsGrid(g: seq<seq<nat>>)
  {
    |g| == TileSize && forall y :: 0 <= y < TileSize ==> |g[y]| == TileSize
  }

  /** The pixel values of `tile` as a value. */
  ghost function GridOf(tile: NesTile): (g: seq<seq<nat>>)
    reads tile, tile.pixels
    requires tile.Valid()
    ensures IsGrid(g)
    ensures forall y, x :: 0 <= y < TileSize && 0 <= x < TileSize ==> g[y][x] == tile.pixels[y, x] as nat
  {
    seq(TileSize, y requires 0 <= y < TileSize && tile.Valid() reads tile, tile.pixels =>
      seq(TileSize, x requires 0 <= x < TileSize && tile.Valid() reads tile, tile.pixels => tile.pixels[y, x] as nat))
  }

  /** The pixel value shown at offset (ly, lx) of a tile drawn at `scale`. */
  function TilePixel(g: seq<seq<nat>>, ly: nat, lx: nat, scale: nat): (v: nat)
    requires IsGrid(g) && scale > 0 && ly < TileSize * scale && lx < TileSize * scale
    ensures ly / scale < TileSize && lx / scale < TileSize && v == g[ly / scale][lx / scale]
  {
    BlockInTile(ly, scale);
    BlockInTile(lx, scale);
    BlockOfIsDivision(ly, scale);
    BlockOfIsDivision(lx, scale);
    g[BlockOf(ly, scale)][BlockOf(lx, scale)]
  }

  /** The colour left by drawing a pixel of value v over `under`: the palette
      colour when v indexes the palette and that colour is not Empty, else
      nothing is drawn. */
  function Painted(p: seq<Color>, v: nat, under: Color): (c: Color)
    ensures c == under || (v < |p| && c == p[v] && c != Empty)
    ensures v < |p| && p[v] != Empty ==> c == p[v]
    ensures !(v < |p| && p[v] != Empty) ==> c == under
  {
    if v < |p| && p[v] != Empty then p[v] else under
  }

  /** The palette to use: the given one, or greyscale. */
  function EffectivePalette(palette: Option<seq<Color>>): (p: seq<Color>)
    ensures palette.None? ==> p == Greyscale
    ensures palette.Some? ==> p == palette.value
  {
    if palette.None? then DefaultPalette else palette.value
  }

  /** Draws one tile's 64 pixels as `scale` x `scale` blocks at (left, top).
      A pixel whose value does not index the palette, or whose colour is Empty,
      is skipped; with `useTransparency` the Empty case is skipped earlier, to
      the same effect. */
  method PaintTile(bmp: array2<Color>, tile: NesTile, ghost g: seq<seq<nat>>, left: nat, top: nat, scale: nat, p: seq<Color>, useTransparency: bool)
    requires tile.Valid() && g == GridOf(tile) && tile.pixels as object != bmp
    requires top + TileSize * scale <= bmp.Length0 && left + TileSize * scale <= bmp.Length1
    modifies bmp
    ensures forall y, x :: 0 <= y < bmp.Length0 && 0 <= x < bmp.Length1 ==>
      bmp[y, x] == if InRect(y, x, top, left, TileSize * scale, TileSize * scale)
        then Painted(p, TilePixel(g, y - top, x - left, scale), old(bmp[y, x]))
        else old(bmp[y, x])
  {
    if scale == 0 {
      return;
    }
    for ty := 0 to TileSize
      invariant forall y, x :: 0 <= y < bmp.Length0 && 0 <= x < bmp.Length1 ==>
        bmp[y, x] == if InRect(y, x, top, left, TileSize * scale, TileSize * scale) && BlockOf(y - top, scale) < ty
          then Painted(p, TilePixel(g, y - top, x - left, scale), old(bmp[y, x]))
          else old(bmp[y, x])
    {
      PaintTileRow(bmp, tile, g, left, top, scale, p, useTransparency, ty);
    }
    forall y, x | InRect(y, x, top, left, TileSize * scale, TileSize * scale)
      ensures BlockOf(y - top, scale) < TileSize
    {
      BlockInTile(y - top, scale);
    }
  }

  /** The inner loop of `PaintTile`: draws tile row ty, the pixels whose
      offset from (left, top) falls in block row ty. */
  method PaintTileRow(bmp: array2<Color>, tile: NesTile, ghost g: seq<seq<nat>>, left: nat, top: nat, scale: nat, p: seq<Color>, useTransparency: bool, ty: nat)
    requires tile.Valid() && g == GridOf(tile) && tile.pixels as object != bmp && scale > 0 && ty < TileSize
    requires top + TileSize * scale <= bmp.Length0 && left + TileSize * scale <= bmp.Length1
    modifies bmp
    ensures forall y, x :: 0 <= y < bmp.Length0 && 0 <= x < bmp.Length1 ==>
      bmp[y, x] == if InRect(y, x, top, left, TileSize * scale, TileSize * scale) && BlockOf(y - top, scale) == ty
        then Painted(p, TilePixel(g, y - top, x - left, scale), old(bmp[y, x]))
        else old(bmp[y, x])
  {
    BlockInside(ty, scale);
    for tx := 0 to TileSize
      invariant forall y, x :: 0 <= y < bmp.Length0 && 0 <= x < bmp.Length1 ==>
        bmp[y, x] == if InRect(y, x, top, left, TileSize * scale, TileSize * scale) && BlockOf(y - top, scale) == ty && BlockOf(x - left, scale) < tx
          then Painted(p, TilePixel(g, y - top, x - left, scale), old(bmp[y, x]))
          else old(bmp[y, x])
    {
      BlockInside(tx, scale);
      PaintBlock(bmp, left + tx * scale, top + ty * scale, scale, p, useTransparency, tile.pixels[ty, tx] as nat);
      forall y, x | 0 <= y < bmp.Length0 && 0 <= x < bmp.Length1
        ensures bmp[y, x] == if InRect(y, x, top, left, TileSize * scale, TileSize * scale) && BlockOf(y - top, scale) == ty && BlockOf(x - left, scale) < tx + 1
          then Painted(p, TilePixel(g, y - top, x - left, scale), old(bmp[y, x]))
          else old(bmp[y, x])
      {
        if InRect(y, x, top, left, TileSize * scale, TileSize * scale) {
          BlockIff(y - top, ty, scale);
          BlockIff(x - left, tx, scale);
        }
      }
    }
    forall y, x | InRect(y, x, top, left, TileSize * scale, TileSize * scale)
      ensures BlockOf(x - left, scale) < TileSize
    {
      BlockInTile(x - left, scale);
    }
  }

  /** The colour a tile bitmap is cleared to: palette entry 0, or transparent
      when that entry is Empty. */
  function ClearColor(p: seq<Color>): (c: Color)
    requires |p| > 0
    ensures c == p[0]
  {
    if p[0] == Empty then Transparent else p[0]
  }

  /** `TileToBitmap`: an (8 * scale) x (8 * scale) bitmap in which the block
      of each tile pixel shows its palette colour, or the clear colour when the
      value does not index the palette or its colour is Empty. */
  method TileToBitmap(tile: NesTile, palette: Option<seq<Color>>, scale: nat) returns (bmp: array2<Color>)
    requires tile.Valid()
    requires palette.Some? ==> |palette.value| > 0
    ensures fresh(bmp) && bmp.Length0 == TileSize * scale && bmp.Length1 == TileSize * scale
    ensures var p, g := EffectivePalette(palette), GridOf(tile);
      forall y, x :: 0 <= y < bmp.Length0 && 0 <= x < bmp.Length1 ==>
        bmp[y, x] == Painted(p, TilePixel(g, y, x, scale), p[0])
  {
    var p := if palette.None? then DefaultPalette else palette.value;
    ghost var g := GridOf(tile);
    var scaledSize := TileSize * scale;
    bmp := new Color[scaledSize, scaledSize];
    Clear(bmp, ClearColor(p));
    label cleared:
    PaintTile(bmp, tile, g, 0, 0, scale, p, false);
    assert GridOf(tile) == g;
    forall y, x | 0 <= y < bmp.Length0 && 0 <= x < bmp.Length1
      ensures bmp[y, x] == Painted(p, TilePixel(g, y, x, scale), p[0])
    {
      assert old@cleared(bmp[y, x]) == p[0];
    }
  }

  /** The side of one checkerboard square under a tile drawn at `scale`. */
  function CheckSize(scale: nat): (cs: nat)
    ensures cs >= MinCheckerboardSize && cs >= scale
    ensures cs == scale || cs == MinCheckerboardSize
  {
    if scale > MinCheckerboardSize then scale else MinCheckerboardSize
  }

  /** The checkerboard colour at offset (ly, lx) of the board: light on the
      squares whose column and row numbers have an even sum. */
  function CheckerColor(ly: nat, lx: nat, cs: nat): Color
    requires cs > 0
  {
    if (BlockOf(lx, cs) + BlockOf(ly, cs)) % 2 == 0 then CheckerboardLight else CheckerboardDark
  }

  /** `DrawCheckerboard`: covers the size x size square at (left, top) with
      squares of side CheckSize(scale), alternating light and dark. */
  method DrawCheckerboard(bmp: array2<Color>, left: nat, top: nat, size: nat, scale: nat)
    requires size % CheckSize(scale) == 0
    requires top + size <= bmp.Length0 && left + size <= bmp.Length1
    modifies bmp
    ensures forall y, x :: 0 <= y < bmp.Length0 && 0 <= x < bmp.Length1 ==>
      bmp[y, x] == if InRect(y, x, top, left, size, size) then CheckerColor(y - top, x - left, CheckSize(scale)) else old(bmp[y, x])
  {
    var checkSize := CheckSize(scale);
    ghost var n := size / checkSize;
    assert size == n * checkSize;
    var cy := 0;
    ghost var row := 0;
    while cy < size
      invariant cy == row * checkSize && cy <= size
      invariant forall y, x :: 0 <= y < bmp.Length0 && 0 <= x < bmp.Length1 ==>
        bmp[y, x] == if InRect(y, x, top, left, cy, size) then CheckerColor(y - top, x - left, checkSize) else old(bmp[y, x])
      decreases size - cy
    {
      NextBlockFits(row, n, checkSize);
      DrawCheckerRow(bmp, left, top, size, checkSize, cy, row);
      cy, row := cy + checkSize, row + 1;
    }
  }

  /** The inner loop of `DrawCheckerboard`: the squares of row `row`, which
      starts cy = row * checkSize below the top. */
  method DrawCheckerRow(bmp: array2<Color>, left: nat, top: nat, size: nat, checkSize: nat, cy: nat, ghost row: nat)
    requires checkSize > 0 && size % checkSize == 0 && cy == row * checkSize
    requires top + cy + checkSize <= bmp.Length0 && left + size <= bmp.Length1
    modifies bmp
    ensures forall y, x :: 0 <= y < bmp.Length0 && 0 <= x < bmp.Length1 ==>
      bmp[y, x] == if InRect(y, x, top + cy, left, checkSize, size) then CheckerColor(y - top, x - left, checkSize) else old(bmp[y, x])
  {
    ghost var n := size / checkSize;
    assert size == n * checkSize;
    DivInBlock(cy, row, checkSize);
    var cx := 0;
    ghost var col := 0;
    while cx < size
      invariant cx == col * checkSize && cx <= size
      invariant forall y, x :: 0 <= y < bmp.Length0 && 0 <= x < bmp.Length1 ==>
        bmp[y, x] == if InRect(y, x, top + cy, left, checkSize, cx) then CheckerColor(y - top, x - left, checkSize) else old(bmp[y, x])
      decreases size - cx
    {
      NextBlockFits(col, n, checkSize);
      DivInBlock(cx, col, checkSize);
      var isLight := (cx / checkSize + cy / checkSize) % 2 == 0;
      var color := if isLight then CheckerboardLight else CheckerboardDark;
      FillRect(bmp, left + cx, top + cy, checkSize, checkSize, color);
      forall y, x | 0 <= y < bmp.Length0 && 0 <= x < bmp.Length1
        ensures bmp[y, x] == if InRect(y, x, top + cy, left, checkSize, cx + checkSize)
          then CheckerColor(y - top, x - left, checkSize) else old(bmp[y, x])
      {
        if InRect(y, x, top + cy, left + cx, checkSize, checkSize) {
          BlockIff(y - top, row, checkSize);
          BlockIff(x - left, col, checkSize);
        }
      }
      cx, col := cx + checkSize, col + 1;
    }
  }

  // ---------------------------------------------------------------- sheet

  /** The parameters that fix a tile sheet's geometry. */
  datatype Layout = Layout(count: nat, tilesPerRow: nat, scale: nat, spacing: nat)

  /** The side of one drawn tile. */
  function ScaledTileSize(l: Layout): nat
  {
    TileSize * l.scale
  }

  /** The distance between the origins of neighbouring tiles. */
  function CellSize(l: Layout): nat
  {
    ScaledTileSize(l) + l.spacing
  }

  /** The number of grid rows: count / tilesPerRow rounded up. */
  function RowCount(count: nat, tilesPerRow: nat): (rows: nat)
    requires tilesPerRow >= 1
    ensures rows * tilesPerRow >= count
    ensures rows == 0 || (rows - 1) * tilesPerRow < count
  {
    var rows := (count + tilesPerRow - 1) / tilesPerRow;
    DivInBlock(count + tilesPerRow - 1, rows, tilesPerRow);
    rows
  }

  /** The sheet width: tilesPerRow cells, without the spacing after the
      last one. */
  function SheetWidth(l: Layout): (w: nat)
    requires l.tilesPerRow >= 1
    ensures w >= ScaledTileSize(l)
  {
    MulMonotone(1, l.tilesPerRow, CellSize(l));
    l.tilesPerRow * CellSize(l) - l.spacing
  }

  /** The sheet height: one cell per row, without the spacing after the last
      one; a sheet has at least one tile. */
  function SheetHeight(l: Layout): (h: nat)
    requires l.tilesPerRow >= 1 && l.count >= 1
    ensures h >= ScaledTileSize(l)
  {
    var rows := RowCount(l.count, l.tilesPerRow);
    MulMonotone(1, rows, CellSize(l));
    rows * CellSize(l) - l.spacing
  }

  /** The left edge of tile i: its column times the cell size. */
  function OriginX(l: Layout, i: nat): (x: nat)
    requires l.tilesPerRow >= 1
    ensures CellSize(l) > 0 ==> BlockOf(x, CellSize(l)) == i % l.tilesPerRow && Within(x, CellSize(l)) == 0
  {
    CellStart(i % l.tilesPerRow, CellSize(l));
    (i % l.tilesPerRow) * CellSize(l)
  }

  /** The top edge of tile i: its row times the cell size. */
  function OriginY(l: Layout, i: nat): (y: nat)
    requires l.tilesPerRow >= 1
    ensures CellSize(l) > 0 ==> BlockOf(y, CellSize(l)) == i / l.tilesPerRow && Within(y, CellSize(l)) == 0
  {
    CellStart(i / l.tilesPerRow, CellSize(l));
    (i / l.tilesPerRow) * CellSize(l)
  }

  /** Pixel (y, x) of tile i's footprint. */
  predicate InFootprint(l: Layout, i: nat, y: int, x: int)
    requires l.tilesPerRow >= 1
  {
    InRect(y, x, OriginY(l, i), OriginX(l, i), ScaledTileSize(l), ScaledTileSize(l))
  }

  /** A sheet pixel that shows a tile: which tile, and the offset inside it. */
  datatype Placement = Placement(tile: nat, ly: nat, lx: nat)

  /** The tile whose footprint holds sheet pixel (y, x), if any: the pixel's
      cell is found by counting whole cells, and it shows a tile when the cell
      holds one and the pixel is not in the spacing. */
  function TileAt(l: Layout, y: nat, x: nat): (r: Option<Placement>)
    requires l.tilesPerRow >= 1
    ensures r.Some? ==> r.value.tile < l.count && r.value.ly < ScaledTileSize(l) && r.value.lx < ScaledTileSize(l)
  {
    var cell := CellSize(l);
    if cell == 0 then None
    else
      var row, col := BlockOf(y, cell), BlockOf(x, cell);
      var ly, lx := Within(y, cell), Within(x, cell);
      var i := row * l.tilesPerRow + col;
      if col < l.tilesPerRow && i < l.count && ly < ScaledTileSize(l) && lx < ScaledTileSize(l)
      then Some(Placement(i, ly, lx))
      else None
  }

  /** Whether the checkerboard goes under the tiles: transparency is on and
      palette entry 0 is Empty. */
  function Checkered(p: seq<Color>, useTransparency: bool): (b: bool)
    requires useTransparency ==> |p| > 0
    ensures b <==> useTransparency && p[0] == Empty
  {
    useTransparency && p[0] == Empty
  }

  /** What lies under a tile's pixels before they are drawn. */
  function Under(checker: bool, ly: nat, lx: nat, scale: nat): Color
  {
    if checker then CheckerColor(ly, lx, CheckSize(scale)) else Background
  }

  /** Every grid is 8x8. */
  predicate AllGrids(grids: seq<seq<seq<nat>>>)
  {
    forall i :: 0 <= i < |grids| ==> IsGrid(grids[i])
  }

  /** The pixel values of each tile, as values. */
  ghost function Grids(tiles: seq<NesTile>): (grids: seq<seq<seq<nat>>>)
    reads set i | 0 <= i < |tiles| :: tiles[i]
    reads set i | 0 <= i < |tiles| :: tiles[i].pixels
    requires forall i :: 0 <= i < |tiles| ==> tiles[i].Valid()
    ensures |grids| == |tiles| && AllGrids(grids)
    ensures forall i :: 0 <= i < |tiles| ==> grids[i] == GridOf(tiles[i])
  {
    seq(|tiles|, i requires 0 <= i < |tiles| && tiles[i].Valid()
                   reads set j | 0 <= j < |tiles| :: tiles[j]
                   reads set j | 0 <= j < |tiles| :: tiles[j].pixels
                   => GridOf(tiles[i]))
  }

  /** Sheet pixel (y, x) once the first k tiles are drawn: a drawn tile's
      pixel shows its palette colour, or what lies under it when the value does
      not index the palette or its colour is Empty; every other pixel is the
      background. */
  function SheetPixel(l: Layout, grids: seq<seq<seq<nat>>>, p: seq<Color>, checker: bool, k: nat, y: nat, x: nat): (c: Color)
    requires l.tilesPerRow >= 1 && |grids| == l.count && AllGrids(grids)
    ensures c != Background ==> TileAt(l, y, x).Some? && TileAt(l, y, x).value.tile < k
  {
    match TileAt(l, y, x)
    case Some(pl) =>
      if pl.tile < k
      then Painted(p, TilePixel(grids[pl.tile], pl.ly, pl.lx, l.scale), Under(checker, pl.ly, pl.lx, l.scale))
      else Background
    case None => Background
  }

  /** The outlines stroked around the first k tiles. */
  function Borders(l: Layout, k: nat): (bs: seq<Border>)
    requires l.tilesPerRow >= 1
    ensures |bs| == k
    ensures forall i :: 0 <= i < k ==> bs[i] == Border(OriginX(l, i), OriginY(l, i), ScaledTileSize(l))
  {
    seq(k, i requires 0 <= i => Border(OriginX(l, i), OriginY(l, i), ScaledTileSize(l)))
  }

  /** `CreateTileSheet`: fails on a missing or empty tile list; otherwise a
      SheetWidth x SheetHeight bitmap showing every tile at its origin over the
      background, with the checkerboard under each tile when transparency is
      on and palette entry 0 is Empty. When tiles are spaced, an outline is
      stroked around each tile; `borders` lists those outlines. */
  method CreateTileSheet(tiles: Option<seq<NesTile>>, tilesPerRow: nat, tileScale: nat, spacing: nat,
                         palette: Option<seq<Color>>, useTransparency: bool)
    returns (r: Result<array2<Color>, SheetError>, borders: seq<Border>)
    requires tilesPerRow >= 1
    requires tiles.Some? ==> forall i :: 0 <= i < |tiles.value| ==> tiles.value[i].Valid()
    requires useTransparency && palette.Some? ==> |palette.value| > 0
    ensures r.Failure? <==> tiles.None? || |tiles.value| == 0
    ensures r.Failure? ==> r.error == EmptyTileList && borders == []
    ensures r.Success? ==>
      var l := Layout(|tiles.value|, tilesPerRow, tileScale, spacing);
      var p := EffectivePalette(palette);
      var grids := Grids(tiles.value);
      var checker := Checkered(p, useTransparency);
      fresh(r.value) && r.value.Length0 == SheetHeight(l) && r.value.Length1 == SheetWidth(l) &&
      (forall y, x :: 0 <= y < r.value.Length0 && 0 <= x < r.value.Length1 ==>
        r.value[y, x] == SheetPixel(l, grids, p, checker, l.count, y, x)) &&
      borders == if spacing > 0 then Borders(l, l.count) else []
  {
    if tiles.None? || |tiles.value| == 0 {
      return Failure(EmptyTileList), [];
    }
    var ts := tiles.value;
    var p := if palette.None? then DefaultPalette else palette.value;
    var l := Layout(|ts|, tilesPerRow, tileScale, spacing);
    var width := SheetWidth(l);
    var height := SheetHeight(l);
    var bmp := new Color[height, width];
    Clear(bmp, Background);
    ghost var grids := Grids(ts);
    borders := DrawTiles(bmp, l, ts, grids, p, useTransparency, Checkered(p, useTransparency));
    assert Grids(ts) == grids;
    return Success(bmp), borders;
  }

  /** The loop of `CreateTileSheet`: draws the tiles one after another on the
      cleared sheet. */
  method DrawTiles(bmp: array2<Color>, l: Layout, ts: seq<NesTile>, ghost grids: seq<seq<seq<nat>>>, p: seq<Color>,
                   useTransparency: bool, ghost checker: bool)
    returns (borders: seq<Border>)
    requires l.tilesPerRow >= 1 && l.count == |ts| && l.count >= 1
    requires forall i :: 0 <= i < |ts| ==> ts[i].Valid() && ts[i].pixels as object != bmp
    requires grids == Grids(ts)
    requires useTransparency ==> |p| > 0
    requires checker == Checkered(p, useTransparency)
    requires bmp.Length0 == SheetHeight(l) && bmp.Length1 == SheetWidth(l)
    requires forall y, x :: 0 <= y < bmp.Length0 && 0 <= x < bmp.Length1 ==> bmp[y, x] == Background
    modifies bmp
    ensures forall y, x :: 0 <= y < bmp.Length0 && 0 <= x < bmp.Length1 ==>
      bmp[y, x] == SheetPixel(l, grids, p, checker, l.count, y, x)
    ensures borders == if l.spacing > 0 then Borders(l, l.count) else []
  {
    var scaledTileSize := TileSize * l.scale;
    borders := [];
    for i := 0 to |ts|
      invariant Grids(ts) == grids
      invariant forall y, x :: 0 <= y < bmp.Length0 && 0 <= x < bmp.Length1 ==>
        bmp[y, x] == SheetPixel(l, grids, p, checker, i, y, x)
      invariant borders == if l.spacing > 0 then Borders(l, i) else []
    {
      var x, y := DrawSheetTile(bmp, l, ts[i], grids, p, useTransparency, checker, i);
      if l.spacing > 0 {
        borders := borders + [Border(x, y, scaledTileSize)];
        assert borders == Borders(l, i + 1);
      }
    }
  }

  /** One pass of `CreateTileSheet`'s loop: tile i goes to its origin
      (x, y), over the checkerboard when `checker` holds, so that the sheet
      shows the first i + 1 tiles. */
  method DrawSheetTile(bmp: array2<Color>, l: Layout, tile: NesTile, ghost grids: seq<seq<seq<nat>>>, p: seq<Color>,
                       useTransparency: bool, ghost checker: bool, i: nat)
    returns (x: nat, y: nat)
    requires l.tilesPerRow >= 1 && i < l.count && |grids| == l.count && AllGrids(grids)
    requires tile.Valid() && grids[i] == GridOf(tile) && tile.pixels as object != bmp
    requires useTransparency ==> |p| > 0
    requires checker == Checkered(p, useTransparency)
    requires bmp.Length0 == SheetHeight(l) && bmp.Length1 == SheetWidth(l)
    requires forall py, px :: 0 <= py < bmp.Length0 && 0 <= px < bmp.Length1 ==>
      bmp[py, px] == SheetPixel(l, grids, p, checker, i, py, px)
    modifies bmp
    ensures x == OriginX(l, i) && y == OriginY(l, i)
    ensures forall py, px :: 0 <= py < bmp.Length0 && 0 <= px < bmp.Length1 ==>
      bmp[py, px] == SheetPixel(l, grids, p, checker, i + 1, py, px)
  {
    var scaledTileSize := TileSize * l.scale;
    x, y := OriginX(l, i), OriginY(l, i);
    FootprintInside(l, i);
    if useTransparency && p[0] == Empty {
      CheckSizeDivides(l.scale);
      DrawCheckerboard(bmp, x, y, scaledTileSize, l.scale);
    }
    label checkered:
    PaintTile(bmp, tile, grids[i], x, y, l.scale, p, useTransparency);
    forall py, px | 0 <= py < bmp.Length0 && 0 <= px < bmp.Length1
      ensures bmp[py, px] == SheetPixel(l, grids, p, checker, i + 1, py, px)
    {
      TileAtIff(l, i, py, px);
      if InFootprint(l, i, py, px) {
        assert old@checkered(bmp[py, px]) == Under(checker, py - y, px - x, l.scale);
      }
    }
  }

  /** A pixel lies in tile i's footprint iff TileAt names tile i for it, with
      the pixel's offset from the tile's origin. */
  lemma TileAtIff(l: Layout, i: nat, y: nat, x: nat)
    requires l.tilesPerRow >= 1 && i < l.count
    ensures (TileAt(l, y, x).Some? && TileAt(l, y, x).value.tile == i) <==> InFootprint(l, i, y, x)
    ensures InFootprint(l, i, y, x) ==> TileAt(l, y, x) == Some(Placement(i, y - OriginY(l, i), x - OriginX(l, i)))
  {
    var cell, s := CellSize(l), ScaledTileSize(l);
    if cell > 0 {
      var tpr := l.tilesPerRow;
      CellSpan(y, i / tpr, cell, s);
      CellSpan(x, i % tpr, cell, s);
      GridIndex(i, BlockOf(y, cell), BlockOf(x, cell), tpr);
    }
  }

  /** v lies in the first s offsets of cell k iff it counts k whole cells and
      its offset in the cell is below s; the offset is then v - k * cell. */
  lemma CellSpan(v: nat, k: nat, cell: nat, s: nat)
    requires s <= cell && cell > 0
    ensures k * cell <= v < k * cell + s <==> BlockOf(v, cell) == k && Within(v, cell) < s
    ensures BlockOf(v, cell) == k ==> Within(v, cell) == v - k * cell
  {
    BlockSplit(v, cell);
    BlockIff(v, k, cell);
  }

  /** The first offset of cell k counts k whole cells and lies at the cell's
      start. */
  lemma CellStart(k: nat, cell: nat)
    ensures cell > 0 ==> BlockOf(k * cell, cell) == k && Within(k * cell, cell) == 0
  {
    if cell > 0 {
      CellSpan(k * cell, k, cell, 1);
    }
  }

  /** Row r, column c < n of a grid n wide holds item i iff r and c are i's
      quotient and remainder by n. */
  lemma GridIndex(i: nat, r: nat, c: nat, n: nat)
    requires n >= 1
    ensures c < n && r * n + c == i <==> r == i / n && c == i % n
  {
    if c < n && r * n + c == i {
      DivInBlock(i, r, n);
    }
  }

  /** A pixel of tile i's footprint shows tile i: its palette colour, or what
      lies under it when the value does not index the palette or its colour is
      Empty, whatever `useTransparency` is. */
  lemma SheetShowsTile(l: Layout, grids: seq<seq<seq<nat>>>, p: seq<Color>, checker: bool, i: nat, y: nat, x: nat)
    requires l.tilesPerRow >= 1 && |grids| == l.count && AllGrids(grids) && i < l.count
    requires InFootprint(l, i, y, x)
    ensures var ly, lx := y - OriginY(l, i), x - OriginX(l, i);
      var v := TilePixel(grids[i], ly, lx, l.scale);
      SheetPixel(l, grids, p, checker, l.count, y, x) ==
        if v < |p| && p[v] != Empty then p[v] else Under(checker, ly, lx, l.scale)
  {
    TileAtIff(l, i, y, x);
  }

  /** A pixel in no tile's footprint keeps the background colour. */
  lemma SheetBackground(l: Layout, grids: seq<seq<seq<nat>>>, p: seq<Color>, checker: bool, y: nat, x: nat)
    requires l.tilesPerRow >= 1 && |grids| == l.count && AllGrids(grids)
    requires forall i :: 0 <= i < l.count ==> !InFootprint(l, i, y, x)
    ensures SheetPixel(l, grids, p, checker, l.count, y, x) == Background
  {
    var at := TileAt(l, y, x);
    if at.Some? {
      TileAtIff(l, at.value.tile, y, x);
    }
  }

  /** Counting whole blocks is integer division. */
  lemma BlockOfIsDivision(v: nat, size: nat)
    requires size > 0
    ensures BlockOf(v, size) == v / size && Within(v, size) == v % size
  {
    BlockSplit(v, size);
    DivInBlock(v, BlockOf(v, size), size);
  }

  /** The sizes of the sheet with four tiles, two per row, at scale 2: 34
      pixels square with a spacing of 2, 32 without; and the tile counts of a
      56-byte buffer and of one 8 KiB CHR bank. */
  lemma SheetExamples(chr56: seq<byte>, bank: seq<byte>)
    requires |chr56| == 56 && |bank| == 8192
    ensures SheetWidth(Layout(4, 2, 2, 2)) == 34 && SheetHeight(Layout(4, 2, 2, 2)) == 34
    ensures SheetWidth(Layout(4, 2, 2, 0)) == 32 && SheetHeight(Layout(4, 2, 2, 0)) == 32
    ensures TileCount(Some(chr56)) == 3 && TileCount(Some(bank)) == 512
  {
    assert RowCount(4, 2) == 2;
  }

  /** v is a whole number of blocks plus its offset inside the last one. */
  lemma {:induction false} BlockSplit(v: nat, size: nat)
    requires size > 0
    ensures v == BlockOf(v, size) * size + Within(v, size) && Within(v, size) < size
    decreases v
  {
    if v >= size {
      BlockSplit(v - size, size);
      assert (BlockOf(v - size, size) + 1) * size == BlockOf(v - size, size) * size + size;
    }
  }

  /** Every tile's footprint lies inside the sheet. */
  lemma FootprintInside(l: Layout, i: nat)
    requires l.tilesPerRow >= 1 && i < l.count
    ensures OriginX(l, i) + ScaledTileSize(l) <= SheetWidth(l)
    ensures OriginY(l, i) + ScaledTileSize(l) <= SheetHeight(l)
  {
    var tpr, cell := l.tilesPerRow, CellSize(l);
    var row, col := i / tpr, i % tpr;
    var rows := RowCount(l.count, tpr);
    MulMonotone(col + 1, tpr, cell);
    assert (col + 1) * cell == col * cell + cell;
    if row >= rows {
      MulMonotone(rows, row, tpr);
    }
    MulMonotone(row + 1, rows, cell);
    assert (row + 1) * cell == row * cell + cell;
  }

  /** The footprints of two different tiles share no pixel. */
  lemma FootprintsDisjoint(l: Layout, i: nat, j: nat, y: nat, x: nat)
    requires l.tilesPerRow >= 1 && i < l.count && j < l.count && i != j
    ensures !(InFootprint(l, i, y, x) && InFootprint(l, j, y, x))
  {
    TileAtIff(l, i, y, x);
    TileAtIff(l, j, y, x);
  }

  /** Widening the spacing never narrows the sheet. */
  lemma WidthMonotoneInSpacing(l: Layout, spacing: nat)
    requires l.tilesPerRow >= 1 && l.spacing <= spacing
    ensures SheetWidth(l) <= SheetWidth(l.(spacing := spacing))
  {
    var tpr := l.tilesPerRow;
    assert tpr * CellSize(l.(spacing := spacing)) == tpr * CellSize(l) + tpr * (spacing - l.spacing);
    MulMonotone(1, tpr, spacing - l.spacing);
  }

  /** The checkerboard squares tile a footprint exactly. */
  lemma CheckSizeDivides(scale: nat)
    ensures (TileSize * scale) % CheckSize(scale) == 0
  {
    if scale > MinCheckerboardSize {
      DivInBlock(TileSize * scale, TileSize, scale);
    }
  }

  /** Square k + 1 of a row of n squares of side `size` still fits when
      square k starts before the end. */
  lemma NextBlockFits(k: nat, n: nat, size: nat)
    requires k * size < n * size
    ensures k * size + size <= n * size
  {
    if k + 1 > n {
      MulMonotone(n, k, size);
    } else {
      MulMonotone(k + 1, n, size);
    }
  }

  /** The body of the per-pixel loop: the `scale` x `scale` block at
      (left, top) is filled with the colour of value `colorIndex`, unless the
      value does not index the palette or its colour is Empty. */
  method PaintBlock(bmp: array2<Color>, left: nat, top: nat, scale: nat, p: seq<Color>, useTransparency: bool, colorIndex: nat)
    requires top + scale <= bmp.Length0 && left + scale <= bmp.Length1
    modifies bmp
    ensures forall y, x :: 0 <= y < bmp.Length0 && 0 <= x < bmp.Length1 ==>
      bmp[y, x] == if InRect(y, x, top, left, scale, scale) then Painted(p, colorIndex, old(bmp[y, x])) else old(bmp[y, x])
  {
    if colorIndex < |p| {
      var color := p[colorIndex];
      if useTransparency && color == Empty {
        return;
      }
      if color != Empty {
        FillRect(bmp, left, top, scale, scale, color);
      }
    }
  }

  /** Block k of a tile drawn at `scale` lies inside the tile. */
  lemma BlockInside(k: nat, scale: nat)
    requires k < TileSize
    ensures k * scale + scale <= TileSize * scale
  {
    MulMonotone(k + 1, TileSize, scale);
  }

  /** Offset v of a tile drawn at `scale` lies in block k iff it is one of
      the `scale` offsets starting at k * scale. */
  lemma {:induction false} BlockIff(v: nat, k: nat, scale: nat)
    requires scale > 0
    ensures k * scale <= v < k * scale + scale <==> BlockOf(v, scale) == k
    decreases v
  {
    if v < scale {
      if k > 0 {
        MulMonotone(1, k, scale);
      }
    } else if k == 0 {
      assert BlockOf(v, scale) == BlockOf(v - scale, scale) + 1;
    } else {
      assert (k - 1) * scale == k * scale - scale;
      BlockIff(v - scale, k - 1, scale);
    }
  }

  /** Every offset of a tile drawn at `scale` lies in one of its 8 blocks. */
  lemma BlockInTile(v: nat, scale: nat)
    requires scale > 0 && v < TileSize * scale
    ensures BlockOf(v, scale) < TileSize
  {
    var b := BlockOf(v, scale);
    BlockIff(v, b, scale);
    if b >= TileSize {
      MulMonotone(TileSize, b, scale);
    }
  }
}
