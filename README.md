# bipsi engine core in Dafny

A Dafny model of the project data and the tile/grid logic of bipsi, the
engine behind a tile-based 2D scene editor and player
(`src/scripts/bipsi.js`). A project holds rooms (16 by 16 grids of tile ids,
background and foreground palette indices and walls), a shared tileset
raster of 8-pixel frames, animated tiles, palettes, and events that carry
typed fields. The model covers:

- tileset indexing: the cell of a frame in the packed raster, and the
  raster size that holds every frame in use (`tileset.dfy`);
- animation frame resolution: tile id to frame for a clock step, with the
  fall-back to the first frame instead of a wrap-around (`animation.dfy`);
- toroidal cycling of a room: the in-place rotation of the grids and the
  in-place shift of event positions (`gridcycle.dfy`);
- allocators and queries: fresh ids, lookups by id, the events on a cell,
  the first free frame and the manifest of files a project needs
  (`queries.dfy`);
- layer composition at cell level: the tile layer and the event layer,
  each drawn into three 16 by 16 outputs, background colour, tint colour
  and tile frame (`compositor.dfy`).

`bipsidata.dfy` holds the data model. Rooms, tiles and projects are values.
Events are objects, because `cycleEvents` moves them in place and
`getEventsAt` compares the ignored event by reference. Room grids are
arrays of row arrays, because `cycleMap` rotates them in place. `jsmath.dfy`
writes out the JavaScript number operations the code relies on: the
truncating `%`, `Math.ceil` of a quotient and `Math.max`.

The helpers `allEvents`, `oneField` and `eventIsTagged` are called by the
core but defined elsewhere in the repository. They are parameters of the
operations that use them (`GetEventById`, `GetManifest`, `DrawEventLayer`).

Two behaviours of the code are worth stating outright:

- `cycleEvents` is guaranteed to keep a position inside the room only for
  shifts of at least -16. A larger negative shift can give a negative
  position: from column 0, a shift of -20 gives -4
  (`GridCycle.ShiftPosLeavesRoom`).
- A zero shift in `cycleMap` moves all 16 entries of a row to its end,
  which leaves the grid unchanged (`GridCycle.CycleGridZero`).

## Model

| member | source | states |
|---|---|---|
| `JsMath.MaxOf` | src/scripts/bipsi.js:306 | `Math.max` over a non-empty list returns one of its elements, and no element is larger |
| `JsMath.JsRem` | src/scripts/bipsi.js:97 | JavaScript `%` with a positive divisor: the result takes the sign of the dividend, lies strictly within one divisor of 0, and agrees with the mathematical remainder for a non-negative dividend |
| `JsMath.CeilDiv` | src/scripts/bipsi.js:309 | `Math.ceil(a / b)` for a positive divisor: the least `r` with `a <= b * r` |
| `BipsiData.AllFrames` | src/scripts/bipsi.js:306 | the `flatMap` of the tiles' frames holds exactly the frames of the tiles |
| `BipsiData.RoomEvents` | src/scripts/bipsi.js:299 | the `flatMap` of the rooms' events holds exactly the events of the rooms |
| `Tileset.TileCoords` | src/scripts/bipsi.js:92-101 | for a raster width that is a multiple of 8, the cell is 8 pixels square, both coordinates are multiples of 8, and a non-negative frame lies in a column inside the raster |
| `Tileset.CellIndex` | src/scripts/bipsi.js:92-101 | row times columns plus column of a non-negative frame's cell gives the frame back |
| `Tileset.DistinctCells` | src/scripts/bipsi.js:92-101 | distinct non-negative frames get distinct cells |
| `Tileset.TilesetDims` | src/scripts/bipsi.js:305-311 | the resized raster is 128 pixels wide and, for a largest frame `m >= 0`, `8 * (m / 16 + 1)` pixels tall (`8 * ceil((m + 1) / 16)`); with only negative frames it has no positive height; there is no size when no tile has a frame |
| `Tileset.ResizeFits` | src/scripts/bipsi.js:305-311 | after the resize, the cell of every non-negative frame of every tile lies inside the raster |
| `Tileset.ResizeTight` | src/scripts/bipsi.js:305-311 | the cell of the largest frame ends exactly at the bottom edge of the resized raster, so no shorter raster of that width holds every frame |
| `Animation.FrameAt` | src/scripts/bipsi.js:135 | a tile shows `frames[step]` when that exists, else `frames[0]`, and nothing only when it has no frames |
| `Animation.NoWrapExample` | src/scripts/bipsi.js:135 | frames `[3, 7]` at steps 0, 1, 2, 3 give 3, 7, 3, 3: no wrap-around |
| `Animation.MakeTileToFrameMap` | src/scripts/bipsi.js:131-137 | the keys are exactly the tile ids, and each id maps to the frame of the last tile carrying it |
| `Animation.FrameMapUniqueIds` | src/scripts/bipsi.js:131-137 | with unique ids, every tile's id maps to that tile's own frame for the step |
| `Compositor.Lookup` | src/scripts/bipsi.js:147 | `Map.get` returns the stored frame for a present id and nothing for an absent one |
| `Compositor.ResolvedFrame` | src/scripts/bipsi.js:131-147 | with unique tile ids, a tile id resolves to its tile's frame for the step, and an unknown id resolves to nothing |
| `Compositor.DrawTilemapCell` | src/scripts/bipsi.js:143-162 | one cell: tile 0 changes nothing; any other tile sets that cell alone to `palette[back]`, `palette[fore]` and its resolved frame |
| `Compositor.DrawTilemapRow` | src/scripts/bipsi.js:142-163 | one row: only that row's non-empty cells change, each to its palette colours and resolved frame |
| `Compositor.DrawTilemapLayer` | src/scripts/bipsi.js:139-166 | cells with tile 0 keep all three outputs; any other cell gets `palette[backmap]`, `palette[foremap]` and its tile's frame, and keeps its tile output when the id resolves to no frame |
| `Compositor.FrameOrZero` | src/scripts/bipsi.js:176 | a graphic naming a tile with a frame draws that frame; anything else draws frame 0 |
| `Compositor.LastAtSpec` | src/scripts/bipsi.js:172-193 | a cell is drawn by an event exactly when some accepted event stands on it, and what survives is the last such event in list order |
| `Compositor.LastAtStep` | src/scripts/bipsi.js:172-193 | drawing one more event changes what survives on its own cell only |
| `Compositor.LastAtSole` | src/scripts/bipsi.js:172-193 | an accepted event alone on its cell is the one drawn there |
| `Compositor.LastAt` | src/scripts/bipsi.js:172-193 | which event's drawing survives on a cell after the `forEach`: only an event the filter accepts (characterised fully by `Compositor.LastAtSpec`) |
| `Compositor.DrawEvent` | src/scripts/bipsi.js:173-192 | one event changes only its own in-room cell: tint `palette[2]` and its frame when it has a graphic field, background `palette[0]` only when that colour is non-empty and the event is not tagged "transparent" |
| `Compositor.DrawEventLayer` | src/scripts/bipsi.js:168-195 | each cell shows the last graphic event on it: tint `palette[2]`, its frame, and `palette[0]` as background from the last such event that paints background; cells with no such event keep their outputs |
| `GridCycle.Clamp` | src/scripts/bipsi.js:206-208 | `splice(0, k)` removes `k` entries when `k` is within the list, and never more than it holds |
| `GridCycle.Amount` | src/scripts/bipsi.js:203-204 | for a shift strictly between -16 and 16, `dx > 0 ? dx : 16 + dx` moves 1 to 16 places and equals the shift modulo 16 |
| `GridCycle.RotateLeft` | src/scripts/bipsi.js:206-208 | `push(...splice(0, k))` keeps the length of the list |
| `GridCycle.RotateLeftPermutes` | src/scripts/bipsi.js:206-208 | `push(...splice(0, k))` is a permutation: no entry is lost or duplicated |
| `GridCycle.RotateLeftAt` | src/scripts/bipsi.js:206-208 | moving the first `k` entries to the end keeps the length and puts old entry `(i + c) mod n` at position `i`, with `c` = `k` clamped to `[0, n]` |
| `GridCycle.CycleGrid` | src/scripts/bipsi.js:202-210 | `cycleMap` on grid values keeps the number of rows (entries: `GridCycle.CycleGridAt`) |
| `GridCycle.CycleGridShape` | src/scripts/bipsi.js:202-210 | cycling keeps the number of rows, and keeps a 16 by 16 grid 16 by 16 |
| `GridCycle.CycleGridAt` | src/scripts/bipsi.js:202-210 | for shifts strictly between -16 and 16, new `[i][j]` is old `[(i + dy) mod 16][(j + dx) mod 16]` |
| `GridCycle.CycleGridFrom` | src/scripts/bipsi.js:202-210 | for shifts strictly between -16 and 16, old `[i][j]` lands at `[(i - dy) mod 16][(j - dx) mod 16]` |
| `GridCycle.CycleGridZero` | src/scripts/bipsi.js:202-210 | a zero shift leaves the grid unchanged |
| `GridCycle.ShiftBack` | src/scripts/bipsi.js:202-210 | shifting an index by `-d` and then by `d` modulo 16 returns it |
| `GridCycle.CycleGridRoundTripAt` | src/scripts/bipsi.js:202-210 | each entry of the grid cycled by `(dx, dy)` and back by `(-dx, -dy)` is the original entry |
| `GridCycle.CycleGridRoundTrip` | src/scripts/bipsi.js:202-210 | cycling by `(dx, dy)` and then by `(-dx, -dy)` restores the grid |
| `GridCycle.Store` | src/scripts/bipsi.js:206 | writing back a list of the array's length leaves exactly that list in the array |
| `GridCycle.RotatedRows` | src/scripts/bipsi.js:206 | rotating distinct row arrays rotates the grid's entries and keeps the rows distinct |
| `GridCycle.CycledRows` | src/scripts/bipsi.js:207-209 | once every row holds its rotated entries, the grid holds the cycled grid |
| `GridCycle.CycleRows` | src/scripts/bipsi.js:207-209 | in place: every row array holds its old entries rotated by the column amount |
| `GridCycle.CycleMap` | src/scripts/bipsi.js:202-210 | in place: the row arrays are rotated by `dy`'s amount, rows stay distinct, and the entries become the cycled grid of the old entries |
| `GridCycle.ShiftPos` | src/scripts/bipsi.js:219-220 | from a position in `[0, 16)` with a shift of at least -16 the new position is in `[0, 16)`; below 0 before the `%` it stays at or below 0 |
| `GridCycle.ShiftPosLeavesRoom` | src/scripts/bipsi.js:219-220 | a shift of -20 from column 0 gives -4, outside the room |
| `GridCycle.ShiftPosRoundTrip` | src/scripts/bipsi.js:219-220 | inside the room, with a shift between -16 and 16, shifting by `d` and then by `-d` restores the position |
| `GridCycle.CycleAnchorsNegatedShift` | src/scripts/bipsi.js:202-222 | content at an event's cell follows the event when the events are shifted by the negation of the grid's shift |
| `GridCycle.CycleEvents` | src/scripts/bipsi.js:217-222 | in place: every event's position becomes `(p + 16 + d) % 16` per axis; the list, ids and fields do not change |
| `Queries.NextId` | src/scripts/bipsi.js:287-290 | the id is at least 1, above every item's id (a missing id counts as 0), and one more than 0 or than some item's id |
| `Queries.IdOrZero` | src/scripts/bipsi.js:288 | `item.id ?? 0`: a present id is itself, a missing id counts as 0 |
| `Queries.NextRoomId` | src/scripts/bipsi.js:293 | a positive id that no room of the project has |
| `Queries.NextTileId` | src/scripts/bipsi.js:296 | a positive id that no tile of the project has |
| `Queries.NextEventId` | src/scripts/bipsi.js:299 | a positive id above the id of every event of every room |
| `Queries.GetById` | src/scripts/bipsi.js:241-243 | nothing exactly when no item has the id; otherwise the item at the first index with that id |
| `Queries.GetRoomById` | src/scripts/bipsi.js:249-251 | a room of the project with that id, or nothing exactly when there is none |
| `Queries.GetTileById` | src/scripts/bipsi.js:265-267 | a tile of the project with that id, or nothing exactly when there is none |
| `Queries.GetEventById` | src/scripts/bipsi.js:257-259 | an event among `allEvents` with that id, or nothing exactly when there is none |
| `Queries.At` | src/scripts/bipsi.js:230-232 | the `filter` test never accepts the ignored event, and with nothing ignored accepts exactly the events on `(x, y)` |
| `Queries.EventsAt` | src/scripts/bipsi.js:229-233 | exactly the events on `(x, y)` other than the ignored one, in their original order, each as often as in the input |
| `Queries.EventsAtExcludes` | src/scripts/bipsi.js:229-233 | the ignored event is never returned, and an unoccupied cell gives an empty list |
| `Queries.FreeFrameUnique` | src/scripts/bipsi.js:272-281 | at most one frame meets the free-frame specification |
| `Queries.FreeFrameExamples` | src/scripts/bipsi.js:272-281 | frames `[0, 1, 2]` give 3 and frames `[0, 2]` give 1 |
| `Queries.FreeFrameGap` | src/scripts/bipsi.js:276-278 | a frame below the largest that is unused, with every smaller frame used, is the free frame |
| `Queries.FreeFrameAfterMax` | src/scripts/bipsi.js:276-280 | with every frame below the largest in use, the free frame is one past the largest |
| `Queries.FreeFrameIn` | src/scripts/bipsi.js:273-280 | the `Set` and loop of `findFreeFrame` over a non-empty frame list return the free frame |
| `Queries.FindFreeFrame` | src/scripts/bipsi.js:272-281 | the result is used by no tile, every smaller non-negative frame is in use, it is at most one past the largest frame; nothing exactly when no tile has a frame |
| `Queries.AllFields` | src/scripts/bipsi.js:64 | the `flatMap` of the events' fields holds exactly the fields of the events |
| `Queries.FileData` | src/scripts/bipsi.js:65-66 | the result holds the data of every "file" field and nothing else |
| `Queries.FileDataCount` | src/scripts/bipsi.js:65-66 | one entry per "file" field, duplicates kept |
| `Queries.FileDataAppend` | src/scripts/bipsi.js:64-66 | order is kept: the files of `a + b` are those of `a` followed by those of `b` |
| `Queries.AllFieldsAppend` | src/scripts/bipsi.js:63-64 | event order is kept: the fields of `a + b` are those of `a`, then those of `b` |
| `Queries.AllFieldsOne` | src/scripts/bipsi.js:64 | one event contributes exactly its own fields, in order |
| `Queries.FileDataOne` | src/scripts/bipsi.js:65-66 | one field contributes its datum exactly when it is a "file" field |
| `Queries.GetManifest` | src/scripts/bipsi.js:61-70 | the tileset comes first, then the data of every "file" field of every event and nothing else (order and duplicates: `Queries.ManifestSplit`, `Queries.ManifestOneEvent`) |
| `Queries.ManifestSplit` | src/scripts/bipsi.js:61-70 | splitting the events splits the manifest's files at the same point: files come event by event, in order, duplicates kept |
| `Queries.ManifestOneEvent` | src/scripts/bipsi.js:61-70 | with one event, the manifest is the tileset followed by that event's "file" data in field order |
| `Queries.ManifestLength` | src/scripts/bipsi.js:61-70 | the manifest has one entry more than there are "file" fields |
| `Queries.ManifestExample` | src/scripts/bipsi.js:61-70 | tileset "tileset.png" and one event with a "file" field "snd.wav" and a "text" field give `["tileset.png", "snd.wav"]` |

## Left out

- `copyTile` and `drawTile` (src/scripts/bipsi.js:109-124), `drawRecolorLayer`, `resizeRendering2D` and the other raster calls: they handle pixels, which this model abstracts to cells. Only the cell and coordinate arithmetic is kept.
- `Compositor.DrawTilemapLayer`, `Compositor.DrawEventLayer`: drawing a frame sets the cell to the frame index. Alpha compositing over what the cell held is not modelled. Neither is the clipping that makes a frame outside the tileset raster draw nothing.
- `Compositor.DrawTilemapLayer`: requires every colour index of a non-empty cell to lie inside the palette. For an index outside it the canvas keeps its previous fill style, which is not modelled.
- `Compositor.DrawEventLayer`: requires a palette of at least three colours. With a shorter one the highlight is `undefined` and the canvas keeps its previous fill style, which is not modelled. The destination is taken to be 16 by 16 cells; off-room positions draw nothing.
- `GridCycle.CycleMap`: requires the row arrays to be distinct objects. A grid listing one row array twice would rotate it twice, which is not modelled. Grid entries are integers.
- `GridCycle.CycleEvents`: requires the events to be distinct objects. A position is two integer fields, so two events sharing one `position` array are not modelled.
- `Tileset.TileCoords`: requires the raster width to be a positive multiple of 8. A fractional column count is not modelled.
- `Animation.FrameAt`: `??` also replaces a `null` frame with the first frame. Frames here are integers, so `null` frames are not modelled.
- `Queries.FindFreeFrame`, `Tileset.TilesetDims`: with no frame at all the source computes from `-Infinity`; the model returns None instead.
- `allEvents`, `oneField`, `eventIsTagged`: their bodies are not part of this model; they are parameters.
- JavaScript numbers are unbounded integers here; fractional and non-numeric ids, frames and positions are not modelled.
- The browser storage (`maker.ProjectStorage`, src/scripts/bipsi.js:2), the image constants and the `TEMP_128`/`TEMP_256` canvases (src/scripts/bipsi.js:72-86): storage and opaque images.
- `build-scripts/makePlayer.js` and `build-scripts/makeEditor.js`: file reads and writes and HTML editing, with no logic of their own.
