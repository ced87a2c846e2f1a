/**
 * Tileset indexing: where a frame lives in the packed tileset raster, and
 * how large the raster must be to hold every frame in use.
 */
module Tileset {
  import opened Wrappers
  import opened JsMath
  import opened BipsiData

  /** Top-left pixel of a frame's cell, and the cell's side. */
  datatype Coords = Coords(x: int, y: int, size: int)

  /** Pixel dimensions of the tileset raster. */
  datatype Dims = Dims(width: int, height: int)

  /**
   * `getTileCoords`: frames are packed row-major, `width / 8` to a row.
   * The column uses JavaScript's truncating `%`, the row `Math.floor`.
   */
  function TileCoords(width: int, index: int): (c: Coords)
    requires width > 0 && width % TileSize == 0
    ensures c.size == TileSize
    ensures c.x % TileSize == 0 && c.y % TileSize == 0
    ensures index >= 0 ==> 0 <= c.x < width && 0 <= c.y
  {
    var columns := width / TileSize;
    Coords(TileSize * JsRem(index, columns), TileSize * (index / columns), TileSize)
  }

  /** Reading a non-negative frame's cell back gives the frame: row times columns plus column. */
  lemma CellIndex(width: int, index: int)
    requires width > 0 && width % TileSize == 0 && index >= 0
    ensures var c := TileCoords(width, index);
      (c.y / TileSize) * (width / TileSize) + c.x / TileSize == index
  {
    var columns := width / TileSize;
    var c := TileCoords(width, index);
    assert c.x / TileSize == index % columns;
    assert c.y / TileSize == index / columns;
  }

  /** Distinct non-negative frames occupy distinct cells. */
  lemma DistinctCells(width: int, i: int, j: int)
    requires width > 0 && width % TileSize == 0 && i >= 0 && j >= 0 && i != j
    ensures TileCoords(width, i).x != TileCoords(width, j).x || TileCoords(width, i).y != TileCoords(width, j).y
  {
    CellIndex(width, i);
    CellIndex(width, j);
  }

  /**
   * `resizeTileset`, the dimensions only: 16 columns of 8-pixel cells and
   * `Math.ceil((maxFrame + 1) / 16)` rows. With no frame at all the source
   * computes from `-Infinity`; that case gives None here.
   */
  function TilesetDims(tiles: seq<Tile>): (d: Option<Dims>)
    ensures d.None? <==> AllFrames(tiles) == []
    ensures d.Some? ==> d.value.width == 16 * TileSize
    ensures d.Some? ==> d.value.height % TileSize == 0
    ensures d.Some? && MaxOf(AllFrames(tiles)) >= 0 ==> d.value.height == TileSize * (MaxOf(AllFrames(tiles)) / 16 + 1)
    ensures d.Some? && MaxOf(AllFrames(tiles)) < 0 ==> d.value.height <= 0
  {
    var frames := AllFrames(tiles);
    if frames == [] then None
    else
      var maxFrame := MaxOf(frames);
      var cols := 16;
      var rows := CeilDiv(maxFrame + 1, cols);
      assert maxFrame >= 0 ==> rows == maxFrame / cols + 1 by {
        if maxFrame >= 0 {
          var q := maxFrame / cols;
          assert cols * q <= maxFrame < cols * q + cols;
          assert cols * (rows - 1) < maxFrame + 1 <= cols * rows;
        }
      }
      Some(Dims(cols * TileSize, rows * TileSize))
  }

  /** After the resize, the cell of every non-negative frame of every tile lies inside the raster. */
  lemma ResizeFits(tiles: seq<Tile>, t: Tile, f: int)
    requires t in tiles && f in t.frames && f >= 0
    ensures TilesetDims(tiles).Some?
    ensures var d := TilesetDims(tiles).value; var c := TileCoords(d.width, f);
      0 <= c.x && c.x + c.size <= d.width && 0 <= c.y && c.y + c.size <= d.height
  {
    var frames := AllFrames(tiles);
    assert f in frames;
    var maxFrame := MaxOf(frames);
    var rows := CeilDiv(maxFrame + 1, 16);
    var d := TilesetDims(tiles).value;
    assert d.height == rows * TileSize;
    var c := TileCoords(d.width, f);
    assert c.y == TileSize * (f / 16);
    assert f / 16 < rows by {
      assert f <= maxFrame;
      assert 16 * (f / 16) <= f;
      assert 16 * (rows - 1) < maxFrame + 1 <= 16 * rows;
    }
  }

  /**
   * The resized raster is no taller than it must be: the cell of the
   * largest frame ends exactly at its bottom edge.
   */
  lemma ResizeTight(tiles: seq<Tile>)
    requires AllFrames(tiles) != [] && MaxOf(AllFrames(tiles)) >= 0
    ensures TilesetDims(tiles).Some?
    ensures var d := TilesetDims(tiles).value; var c := TileCoords(d.width, MaxOf(AllFrames(tiles)));
      c.y + c.size == d.height
  {
    var m := MaxOf(AllFrames(tiles));
    var d := TilesetDims(tiles).value;
    var c := TileCoords(d.width, m);
    assert c.y == TileSize * (m / 16);
  }
}
