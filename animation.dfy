/**
 * Animation frame resolution: which tileset frame each tile shows at a
 * given step of the animation clock.
 */
module Animation {
  import opened Wrappers
  import opened BipsiData

  /**
   * `tile.frames[frame] ?? tile.frames[0]`: the frame for this step if the
   * tile has one, otherwise its first frame (no wrap-around). A tile with
   * no frames at all yields `undefined`, here None.
   */
  function FrameAt(tile: Tile, step: int): (f: Option<int>)
    ensures 0 <= step < |tile.frames| ==> f == Some(tile.frames[step])
    ensures !(0 <= step < |tile.frames|) && |tile.frames| > 0 ==> f == Some(tile.frames[0])
    ensures f.None? <==> tile.frames == []
  {
    if 0 <= step < |tile.frames| then Some(tile.frames[step])
    else if |tile.frames| > 0 then Some(tile.frames[0])
    else None
  }

  /** Frames `[3, 7]`: step 0 gives 3, step 1 gives 7, and step 2 falls back to 3 rather than wrapping. */
  lemma NoWrapExample()
    ensures FrameAt(Tile(1, [3, 7]), 0) == Some(3)
    ensures FrameAt(Tile(1, [3, 7]), 1) == Some(7)
    ensures FrameAt(Tile(1, [3, 7]), 2) == Some(3)
    ensures FrameAt(Tile(1, [3, 7]), 3) == Some(3)
  {
  }

  /**
   * `makeTileToFrameMap`: `new Map(tiles.map(...))`, so a later tile with
   * the same id replaces an earlier one. The keys are exactly the tile
   * ids, and each id maps to the frame of the last tile carrying it.
   */
  function MakeTileToFrameMap(tiles: seq<Tile>, step: int): (m: map<int, Option<int>>)
    ensures m.Keys == set t | t in tiles :: t.id
    ensures forall i :: 0 <= i < |tiles| && LastWithId(tiles, i) ==> m[tiles[i].id] == FrameAt(tiles[i], step)
  {
    if tiles == [] then map[]
    else
      var init := tiles[..|tiles| - 1];
      var last := tiles[|tiles| - 1];
      var m := MakeTileToFrameMap(init, step)[last.id := FrameAt(last, step)];
      assert forall t :: t in tiles <==> t in init || t == last;
      forall i | 0 <= i < |tiles| - 1 && LastWithId(tiles, i)
        ensures LastWithId(init, i)
      {
      }
      m
  }

  /** No tile after index `i` carries the id of `tiles[i]`. */
  predicate LastWithId(tiles: seq<Tile>, i: int)
    requires 0 <= i < |tiles|
  {
    forall j :: i < j < |tiles| ==> tiles[j].id != tiles[i].id
  }

  /** With unique tile ids, every tile's id maps to that tile's own frame for the step. */
  lemma FrameMapUniqueIds(tiles: seq<Tile>, step: int, i: int)
    requires forall a, b :: 0 <= a < b < |tiles| ==> tiles[a].id != tiles[b].id
    requires 0 <= i < |tiles|
    ensures tiles[i].id in MakeTileToFrameMap(tiles, step)
    ensures MakeTileToFrameMap(tiles, step)[tiles[i].id] == FrameAt(tiles[i], step)
  {
    assert LastWithId(tiles, i);
  }
}
