/**
 * Layer composition at cell level. Each layer renders into three 16 by 16
 * outputs: a background colour, a tint colour and the tileset frame drawn
 * in the cell. Filling or blitting one 8-pixel cell is modelled as setting
 * that cell; the recolouring that combines the three outputs is not part
 * of this model.
 */
module Compositor {
  import opened Wrappers
  import opened BipsiData
  import Animation

  /** `tileToFrame.get(k)`: None when the id is absent or maps to no frame. */
  function Lookup(tileToFrame: map<int, Option<int>>, k: int): (f: Option<int>)
    ensures f.Some? ==> k in tileToFrame && tileToFrame[k] == f
    ensures k in tileToFrame ==> f == tileToFrame[k]
  {
    if k in tileToFrame then tileToFrame[k] else None
  }

  /**
   * With unique tile ids, a cell holding a tile's id draws the frame the
   * animation step selects for that tile; an id that no tile has resolves
   * to nothing.
   */
  lemma ResolvedFrame(tiles: seq<Tile>, step: int, id: int)
    requires forall a, b :: 0 <= a < b < |tiles| ==> tiles[a].id != tiles[b].id
    ensures forall t :: t in tiles && t.id == id ==> Lookup(Animation.MakeTileToFrameMap(tiles, step), id) == Animation.FrameAt(t, step)
    ensures (forall t :: t in tiles ==> t.id != id) ==> Lookup(Animation.MakeTileToFrameMap(tiles, step), id) == None
  {
    forall t | t in tiles && t.id == id
      ensures Lookup(Animation.MakeTileToFrameMap(tiles, step), id) == Animation.FrameAt(t, step)
    {
      var i :| 0 <= i < |tiles| && tiles[i] == t;
      Animation.FrameMapUniqueIds(tiles, step, i);
    }
  }

  /** An output layer covers the room, one entry per cell, indexed `[row, column]`. */
  predicate IsLayer<T>(a: array2<T>) {
    a.Length0 == RoomSize && a.Length1 == RoomSize
  }

  /** A room grid held as row arrays: 16 rows of 16 entries. */
  ghost predicate IsRoomArray(g: array<array<int>>)
    reads g
  {
    g.Length == RoomSize && forall i :: 0 <= i < RoomSize ==> g[i].Length == RoomSize
  }

  /** The frame a blit leaves in a cell: the resolved frame, or what the cell held when nothing resolved. */
  function Drawn(frame: Option<int>, before: int): int {
    match frame
    case Some(f) => f
    case None => before
  }

  /** One iteration of the inner loop of `drawTilemapLayer`: cell `(tx, ty)` of a non-empty tile. */
  method DrawTilemapCell(
      backg: array2<Colour>, color: array2<Colour>, tiles: array2<int>,
      tileToFrame: map<int, Option<int>>, palette: seq<Colour>,
      tx: int, ty: int, tileIndex: int, back: int, fore: int)
    requires IsLayer(backg) && IsLayer(color) && IsLayer(tiles) && backg != color
    requires 0 <= tx < RoomSize && 0 <= ty < RoomSize
    requires tileIndex != 0 ==> 0 <= back < |palette| && 0 <= fore < |palette|
    modifies backg, color, tiles
    ensures forall r, c :: 0 <= r < RoomSize && 0 <= c < RoomSize && (r != ty || c != tx || tileIndex == 0) ==>
      backg[r, c] == old(backg[r, c]) && color[r, c] == old(color[r, c]) && tiles[r, c] == old(tiles[r, c])
    ensures tileIndex != 0 ==>
      backg[ty, tx] == palette[back] && color[ty, tx] == palette[fore]
      && tiles[ty, tx] == Drawn(Lookup(tileToFrame, tileIndex), old(tiles[ty, tx]))
  {
    var frameIndex := Lookup(tileToFrame, tileIndex);
    if tileIndex != 0 {
      backg[ty, tx] := palette[back];
      color[ty, tx] := palette[fore];
      if frameIndex.Some? {
        tiles[ty, tx] := frameIndex.value;
      }
    }
  }

  /** The inner loop of `drawTilemapLayer`: row `ty`, from column 0 to 15. */
  method DrawTilemapRow(
      backg: array2<Colour>, color: array2<Colour>, tiles: array2<int>,
      tileToFrame: map<int, Option<int>>, palette: seq<Colour>,
      ty: int, tilerow: array<int>, backrow: array<int>, forerow: array<int>)
    requires IsLayer(backg) && IsLayer(color) && IsLayer(tiles) && backg != color
    requires 0 <= ty < RoomSize
    requires tilerow.Length == RoomSize && backrow.Length == RoomSize && forerow.Length == RoomSize
    requires forall tx :: 0 <= tx < RoomSize && tilerow[tx] != 0 ==>
      0 <= backrow[tx] < |palette| && 0 <= forerow[tx] < |palette|
    modifies backg, color, tiles
    ensures forall r, c :: 0 <= r < RoomSize && 0 <= c < RoomSize && (r != ty || tilerow[c] == 0) ==>
      backg[r, c] == old(backg[r, c]) && color[r, c] == old(color[r, c]) && tiles[r, c] == old(tiles[r, c])
    ensures forall c :: 0 <= c < RoomSize && tilerow[c] != 0 ==>
      backg[ty, c] == palette[backrow[c]] && color[ty, c] == palette[forerow[c]]
      && tiles[ty, c] == Drawn(Lookup(tileToFrame, tilerow[c]), old(tiles[ty, c]))
  {
    var tx := 0;
    while tx < RoomSize
      invariant 0 <= tx <= RoomSize
      invariant forall r, c :: 0 <= r < RoomSize && 0 <= c < RoomSize && (r != ty || c >= tx || tilerow[c] == 0) ==>
        backg[r, c] == old(backg[r, c]) && color[r, c] == old(color[r, c]) && tiles[r, c] == old(tiles[r, c])
      invariant forall c :: 0 <= c < tx && tilerow[c] != 0 ==>
        backg[ty, c] == palette[backrow[c]] && color[ty, c] == palette[forerow[c]]
        && tiles[ty, c] == Drawn(Lookup(tileToFrame, tilerow[c]), old(tiles[ty, c]))
    {
      DrawTilemapCell(backg, color, tiles, tileToFrame, palette, tx, ty, tilerow[tx], backrow[tx], forerow[tx]);
      tx := tx + 1;
    }
  }

  /**
   * `drawTilemapLayer`: every cell whose tile is 0 is skipped and keeps its
   * three outputs. Any other cell gets the palette colours of its `backmap`
   * and `foremap` entries and the frame its tile resolves to; a tile id with
   * no frame gives `NaN` source coordinates, so nothing is blitted there.
   */
  method DrawTilemapLayer(
      backg: array2<Colour>, color: array2<Colour>, tiles: array2<int>,
      tileToFrame: map<int, Option<int>>, palette: seq<Colour>,
      tilemap: array<array<int>>, backmap: array<array<int>>, foremap: array<array<int>>)
    requires IsLayer(backg) && IsLayer(color) && IsLayer(tiles) && backg != color
    requires IsRoomArray(tilemap) && IsRoomArray(backmap) && IsRoomArray(foremap)
    requires forall ty, tx :: 0 <= ty < RoomSize && 0 <= tx < RoomSize && tilemap[ty][tx] != 0 ==>
      0 <= backmap[ty][tx] < |palette| && 0 <= foremap[ty][tx] < |palette|
    modifies backg, color, tiles
    ensures forall ty, tx :: 0 <= ty < RoomSize && 0 <= tx < RoomSize && tilemap[ty][tx] == 0 ==>
      backg[ty, tx] == old(backg[ty, tx]) && color[ty, tx] == old(color[ty, tx]) && tiles[ty, tx] == old(tiles[ty, tx])
    ensures forall ty, tx :: 0 <= ty < RoomSize && 0 <= tx < RoomSize && tilemap[ty][tx] != 0 ==>
      backg[ty, tx] == palette[backmap[ty][tx]] && color[ty, tx] == palette[foremap[ty][tx]]
      && tiles[ty, tx] == (match Lookup(tileToFrame, tilemap[ty][tx]) case Some(f) => f case None => old(tiles[ty, tx]))
  {
    var ty := 0;
    while ty < RoomSize
      invariant 0 <= ty <= RoomSize
      invariant forall r, c :: 0 <= r < RoomSize && 0 <= c < RoomSize && (r >= ty || tilemap[r][c] == 0) ==>
        backg[r, c] == old(backg[r, c]) && color[r, c] == old(color[r, c]) && tiles[r, c] == old(tiles[r, c])
      invariant forall r, c :: 0 <= r < ty && 0 <= c < RoomSize && tilemap[r][c] != 0 ==>
        backg[r, c] == palette[backmap[r][c]] && color[r, c] == palette[foremap[r][c]]
        && tiles[r, c] == Drawn(Lookup(tileToFrame, tilemap[r][c]), old(tiles[r, c]))
    {
      DrawTilemapRow(backg, color, tiles, tileToFrame, palette, ty, tilemap[ty], backmap[ty], foremap[ty]);
      ty := ty + 1;
    }
  }

  /** `oneField(event, "graphic", "tile")`: the event's graphic, if it has one. */
  function Graphic(oneField: (Event, string, string) -> Option<Field>, e: Event): Option<Field> {
    oneField(e, "graphic", "tile")
  }

  /** `tileToFrame.get(graphicField.data) ?? 0`: a datum that is no known tile id gives frame 0. */
  function FrameOrZero(tileToFrame: map<int, Option<int>>, d: Datum): (f: int)
    ensures d.Number? && Lookup(tileToFrame, d.n).Some? ==> f == Lookup(tileToFrame, d.n).value
    ensures !d.Number? || Lookup(tileToFrame, d.n).None? ==> f == 0
  {
    if d.Number? && Lookup(tileToFrame, d.n).Some? then Lookup(tileToFrame, d.n).value else 0
  }

  /** The frame an event draws: that of its graphic field, 0 without one. */
  function FrameOf(tileToFrame: map<int, Option<int>>, oneField: (Event, string, string) -> Option<Field>, e: Event): int {
    match Graphic(oneField, e)
    case Some(f) => FrameOrZero(tileToFrame, f.data)
    case None => 0
  }

  /** What the tile-graphics cell shows: the frame of the surviving event, or what it showed before. */
  function TileShown(last: Option<Event>, tileToFrame: map<int, Option<int>>,
                     oneField: (Event, string, string) -> Option<Field>, before: int): int {
    if last.Some? then FrameOf(tileToFrame, oneField, last.value) else before
  }

  /** Events drawn at all: those with a graphic field. */
  function Shows(oneField: (Event, string, string) -> Option<Field>): Event -> bool {
    (e: Event) => Graphic(oneField, e).Some?
  }

  /**
   * Events that also fill the background: a non-empty (truthy) palette
   * background and no "transparent" tag.
   */
  function Backs(oneField: (Event, string, string) -> Option<Field>, eventIsTagged: (Event, string) -> bool,
                 background: Colour): Event -> bool
  {
    (e: Event) => Graphic(oneField, e).Some? && background != "" && !eventIsTagged(e, "transparent")
  }

  /** An event together with the cell it stands on when the layer is drawn. */
  datatype Placed = Placed(event: Event, x: int, y: int)

  /** The events with their positions, in drawing order. */
  function Placements(events: seq<Event>): (ps: seq<Placed>)
    reads events
    ensures |ps| == |events|
    ensures forall i :: 0 <= i < |events| ==> ps[i] == Placed(events[i], events[i].x, events[i].y)
  {
    seq(|events|, i requires 0 <= i < |events| reads events => Placed(events[i], events[i].x, events[i].y))
  }

  /** A placed event stands on cell `(x, y)` and `pick` accepts it. */
  predicate Hits(p: Placed, x: int, y: int, pick: Event -> bool) {
    p.x == x && p.y == y && pick(p.event)
  }

  /** The last placed event on cell `(x, y)` that `pick` accepts: the one whose drawing survives. */
  function LastAt(ps: seq<Placed>, x: int, y: int, pick: Event -> bool): (r: Option<Event>)
    ensures r.Some? ==> pick(r.value)
    decreases |ps|
  {
    if ps == [] then None
    else
      var p := ps[|ps| - 1];
      if Hits(p, x, y, pick) then Some(p.event) else LastAt(ps[..|ps| - 1], x, y, pick)
  }

  /**
   * A cell is drawn by some event exactly when one of the events stands on
   * it and is accepted, and the survivor is the last such event: none after
   * it in the list is on that cell and accepted.
   */
  lemma {:induction false} LastAtSpec(ps: seq<Placed>, x: int, y: int, pick: Event -> bool)
    ensures LastAt(ps, x, y, pick).None? <==> forall i :: 0 <= i < |ps| ==> !Hits(ps[i], x, y, pick)
    ensures LastAt(ps, x, y, pick).Some? ==> exists i :: (0 <= i < |ps| && ps[i].event == LastAt(ps, x, y, pick).value
      && Hits(ps[i], x, y, pick) && forall j :: i < j < |ps| ==> !Hits(ps[j], x, y, pick))
    decreases |ps|
  {
    if ps != [] {
      var n := |ps|;
      var init := ps[..n - 1];
      LastAtSpec(init, x, y, pick);
      if !Hits(ps[n - 1], x, y, pick) {
        assert forall i :: 0 <= i < n - 1 ==> init[i] == ps[i];
        if LastAt(init, x, y, pick).Some? {
          var i :| 0 <= i < n - 1 && init[i].event == LastAt(init, x, y, pick).value
            && Hits(init[i], x, y, pick) && forall j :: i < j < n - 1 ==> !Hits(init[j], x, y, pick);
          assert forall j :: i < j < n ==> !Hits(ps[j], x, y, pick);
        }
      }
    }
  }

  /** Drawing one more event changes the survivor of its own cell only. */
  lemma LastAtStep(ps: seq<Placed>, k: int, pick: Event -> bool)
    requires 0 <= k < |ps|
    ensures forall x, y :: (LastAt(ps[..k + 1], x, y, pick) ==
      if Hits(ps[k], x, y, pick) then Some(ps[k].event) else LastAt(ps[..k], x, y, pick))
  {
    assert ps[..k + 1][..k] == ps[..k];
  }

  /** When one event is the only one on its cell, it is the one drawn there. */
  lemma {:induction false} LastAtSole(ps: seq<Placed>, i: int, pick: Event -> bool)
    requires 0 <= i < |ps| && pick(ps[i].event)
    requires forall j :: 0 <= j < |ps| && j != i ==> ps[j].x != ps[i].x || ps[j].y != ps[i].y
    ensures LastAt(ps, ps[i].x, ps[i].y, pick) == Some(ps[i].event)
    decreases |ps|
  {
    var n := |ps|;
    if i < n - 1 {
      assert !Hits(ps[n - 1], ps[i].x, ps[i].y, pick);
      LastAtSole(ps[..n - 1], i, pick);
    }
  }

  /**
   * The body of the `forEach` in `drawEventLayer`: draws one event standing
   * on `(tx, ty)`, which changes only that cell, and only when it is inside
   * the room and the event has a graphic field.
   */
  method DrawEvent(
      backg: array2<Colour>, color: array2<Colour>, tiles: array2<int>,
      tileToFrame: map<int, Option<int>>, background: Colour, highlight: Colour, p: Placed,
      oneField: (Event, string, string) -> Option<Field>, eventIsTagged: (Event, string) -> bool)
    requires IsLayer(backg) && IsLayer(color) && IsLayer(tiles) && backg != color
    modifies backg, color, tiles
    ensures forall ty, tx :: 0 <= ty < RoomSize && 0 <= tx < RoomSize ==>
      color[ty, tx] == if Hits(p, tx, ty, Shows(oneField)) then highlight else old(color[ty, tx])
    ensures forall ty, tx :: 0 <= ty < RoomSize && 0 <= tx < RoomSize ==>
      tiles[ty, tx] == if Hits(p, tx, ty, Shows(oneField)) then FrameOf(tileToFrame, oneField, p.event) else old(tiles[ty, tx])
    ensures forall ty, tx :: 0 <= ty < RoomSize && 0 <= tx < RoomSize ==>
      backg[ty, tx] == if Hits(p, tx, ty, Backs(oneField, eventIsTagged, background)) then background else old(backg[ty, tx])
  {
    var tx, ty := p.x, p.y;
    var graphicField := oneField(p.event, "graphic", "tile");
    assert Shows(oneField)(p.event) == graphicField.Some?;
    assert Backs(oneField, eventIsTagged, background)(p.event) ==
      (graphicField.Some? && background != "" && !eventIsTagged(p.event, "transparent"));
    if graphicField.Some? && 0 <= ty < RoomSize && 0 <= tx < RoomSize {
      var frameIndex := FrameOrZero(tileToFrame, graphicField.value.data);
      if background != "" && !eventIsTagged(p.event, "transparent") {
        backg[ty, tx] := background;
      }
      color[ty, tx] := highlight;
      tiles[ty, tx] := frameIndex;
    }
  }

  /**
   * `drawEventLayer`: events are drawn in order at their positions, later
   * ones over earlier ones. An event without a graphic field draws nothing.
   * Otherwise its cell always gets the highlight colour `palette[2]` as tint
   * and the graphic's frame (0 when the graphic names no known tile), and
   * gets `palette[0]` as background only when that colour is non-empty and
   * the event is not tagged "transparent". A position outside the room
   * draws off the canvas, which changes nothing.
   */
  method DrawEventLayer(
      backg: array2<Colour>, color: array2<Colour>, tiles: array2<int>,
      tileToFrame: map<int, Option<int>>, palette: seq<Colour>, events: seq<Event>,
      oneField: (Event, string, string) -> Option<Field>, eventIsTagged: (Event, string) -> bool)
    requires IsLayer(backg) && IsLayer(color) && IsLayer(tiles) && backg != color
    requires |palette| >= 3
    modifies backg, color, tiles
    ensures forall ty, tx :: 0 <= ty < RoomSize && 0 <= tx < RoomSize ==>
      color[ty, tx] == (if LastAt(Placements(events), tx, ty, Shows(oneField)).Some? then palette[2] else old(color[ty, tx]))
    ensures forall ty, tx :: 0 <= ty < RoomSize && 0 <= tx < RoomSize ==>
      tiles[ty, tx] == TileShown(LastAt(Placements(events), tx, ty, Shows(oneField)), tileToFrame, oneField, old(tiles[ty, tx]))
    ensures forall ty, tx :: 0 <= ty < RoomSize && 0 <= tx < RoomSize ==>
      backg[ty, tx] == (if LastAt(Placements(events), tx, ty, Backs(oneField, eventIsTagged, palette[0])).Some?
                        then palette[0] else old(backg[ty, tx]))
  {
    ghost var ps := Placements(events);
    var background, highlight := palette[0], palette[2];
    var k := 0;
    while k < |events|
      invariant 0 <= k <= |events|
      invariant forall ty, tx :: 0 <= ty < RoomSize && 0 <= tx < RoomSize ==>
        color[ty, tx] == (if LastAt(ps[..k], tx, ty, Shows(oneField)).Some? then highlight else old(color[ty, tx]))
      invariant forall ty, tx :: 0 <= ty < RoomSize && 0 <= tx < RoomSize ==>
        tiles[ty, tx] == TileShown(LastAt(ps[..k], tx, ty, Shows(oneField)), tileToFrame, oneField, old(tiles[ty, tx]))
      invariant forall ty, tx :: 0 <= ty < RoomSize && 0 <= tx < RoomSize ==>
        backg[ty, tx] == (if LastAt(ps[..k], tx, ty, Backs(oneField, eventIsTagged, background)).Some?
                          then background else old(backg[ty, tx]))
    {
      var event := events[k];
      var p := Placed(event, event.x, event.y);
      assert ps[k] == p;
      LastAtStep(ps, k, Shows(oneField));
      LastAtStep(ps, k, Backs(oneField, eventIsTagged, background));
      DrawEvent(backg, color, tiles, tileToFrame, background, highlight, p, oneField, eventIsTagged);
      k := k + 1;
    }
    assert ps[..k] == ps;
  }
}
