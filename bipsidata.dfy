/**
 * The shape of a bipsi project: rooms of 16 by 16 grids, a shared tileset,
 * animated tiles, per-room palettes and events carrying typed fields.
 */
module BipsiData {
  import opened Wrappers

  /** Side of a room in cells, and of a tile in pixels. */
  const RoomSize: int := 16
  const TileSize: int := 8

  /** A CSS colour string, as stored in a palette. */
  type Colour = string

  /** The untyped `data` of a field: a resource id or text, a number (a tile id), or anything else. */
  datatype Datum = Text(s: string) | Number(n: int) | Other

  /** One field of an event; `kind` is the field's `type` tag ("file", "tile", "tag", ...). */
  datatype Field = Field(key: string, kind: string, data: Datum)

  /**
   * An event placed in a room. The engine moves events in place, so an
   * event is an object; its id and fields never change here.
   */
  class Event {
    const id: int
    const fields: seq<Field>
    var x: int
    var y: int

    constructor (id: int, fields: seq<Field>, x: int, y: int)
      ensures this.id == id && this.fields == fields && this.x == x && this.y == y
    {
      this.id := id;
      this.fields := fields;
      this.x := x;
      this.y := y;
    }
  }

  /** A tile: an id and the tileset frames of its animation. */
  datatype Tile = Tile(id: int, frames: seq<int>)

  /**
   * A room: four parallel grids (rows outer, columns inner), which the
   * engine rotates in place, a palette index and the room's events.
   */
  datatype Room = Room(
    id: int,
    palette: int,
    tilemap: array<array<int>>,
    backmap: array<array<int>>,
    foremap: array<array<int>>,
    wallmap: array<array<int>>,
    events: seq<Event>)

  /** A whole project. */
  datatype Project = Project(
    rooms: seq<Room>,
    palettes: seq<seq<Colour>>,
    tileset: string,
    tiles: seq<Tile>)

  /** The `id` accessors, as the generic id helpers see them (every item here has an id). */
  function RoomId(r: Room): Option<int> { Some(r.id) }
  function TileId(t: Tile): Option<int> { Some(t.id) }
  function EventId(e: Event): Option<int> { Some(e.id) }

  /** Every frame of every tile, tile by tile (`tiles.flatMap((tile) => tile.frames)`). */
  function AllFrames(tiles: seq<Tile>): (fs: seq<int>)
    ensures forall t, f :: t in tiles && f in t.frames ==> f in fs
    ensures forall f :: f in fs ==> exists t :: t in tiles && f in t.frames
  {
    if tiles == [] then []
    else
      var fs := tiles[0].frames + AllFrames(tiles[1..]);
      assert forall t :: t in tiles ==> t == tiles[0] || t in tiles[1..];
      fs
  }

  /** The events of every room, room by room (`rooms.flatMap((room) => room.events)`). */
  function RoomEvents(rooms: seq<Room>): (es: seq<Event>)
    ensures forall r, e :: r in rooms && e in r.events ==> e in es
    ensures forall e :: e in es ==> exists r :: r in rooms && e in r.events
  {
    if rooms == [] then []
    else
      var es := rooms[0].events + RoomEvents(rooms[1..]);
      assert forall r :: r in rooms ==> r == rooms[0] || r in rooms[1..];
      es
  }
}
