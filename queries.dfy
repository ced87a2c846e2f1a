/**
 * Project queries and allocators: fresh ids, lookups by id, the events on
 * a cell, the first free tileset frame and the project's manifest.
 */
module Queries {
  import opened Wrappers
  import opened JsMath
  import opened BipsiData

  /** `item.id ?? 0`: a missing id counts as 0. */
  function IdOrZero(id: Option<int>): (n: int)
    ensures id.Some? ==> n == id.value
    ensures id.None? ==> n == 0
  {
    if id.Some? then id.value else 0
  }

  /**
   * `nextId`: one more than the largest id, where the largest is at least 0.
   * The result is positive, above every item's id, and one more than 0 or
   * than some item's id.
   */
  function NextId<T>(items: seq<T>, idOf: T -> Option<int>): (r: int)
    ensures r >= 1
    ensures forall i :: 0 <= i < |items| ==> IdOrZero(idOf(items[i])) < r
    ensures r == 1 || exists i :: 0 <= i < |items| && IdOrZero(idOf(items[i])) == r - 1
  {
    var ids := seq(|items|, i requires 0 <= i < |items| => IdOrZero(idOf(items[i])));
    var all := [0] + ids;
    var max := MaxOf(all);
    forall i | 0 <= i < |items| ensures IdOrZero(idOf(items[i])) <= max {
      assert all[i + 1] == IdOrZero(idOf(items[i]));
      assert all[i + 1] in all;
    }
    assert max in all;
    max + 1
  }

  /** `nextRoomId`: a room id no room of the project has. */
  function NextRoomId(data: Project): (r: int)
    ensures r >= 1
    ensures forall room :: room in data.rooms ==> room.id < r
  {
    var r := NextId(data.rooms, RoomId);
    assert forall i :: 0 <= i < |data.rooms| ==> IdOrZero(RoomId(data.rooms[i])) == data.rooms[i].id;
    r
  }

  /** `nextTileId`: a tile id no tile of the project has. */
  function NextTileId(data: Project): (r: int)
    ensures r >= 1
    ensures forall tile :: tile in data.tiles ==> tile.id < r
  {
    var r := NextId(data.tiles, TileId);
    assert forall i :: 0 <= i < |data.tiles| ==> IdOrZero(TileId(data.tiles[i])) == data.tiles[i].id;
    r
  }

  /** `nextEventId`: scans the events of every room, since event ids are project-wide. */
  function NextEventId(data: Project): (r: int)
    ensures r >= 1
    ensures forall room, e :: room in data.rooms && e in room.events ==> e.id < r
  {
    var events := RoomEvents(data.rooms);
    var r := NextId(events, EventId);
    assert forall i :: 0 <= i < |events| ==> IdOrZero(EventId(events[i])) == events[i].id;
    forall room, e | room in data.rooms && e in room.events ensures e.id < r {
      assert e in events;
      var i :| 0 <= i < |events| && events[i] == e;
    }
    r
  }

  /**
   * `getById`: `items.find((item) => item.id === id)`. None when no item
   * carries the id; otherwise the item at the first index that does.
   */
  function GetById<T>(items: seq<T>, idOf: T -> Option<int>, id: int): (r: Option<T>)
    ensures r.None? <==> forall i :: 0 <= i < |items| ==> idOf(items[i]) != Some(id)
    ensures r.Some? ==> exists i :: (0 <= i < |items| && items[i] == r.value && idOf(items[i]) == Some(id)
      && forall j :: 0 <= j < i ==> idOf(items[j]) != Some(id))
  {
    if items == [] then None
    else if idOf(items[0]) == Some(id) then Some(items[0])
    else
      var r := GetById(items[1..], idOf, id);
      assert forall i :: 1 <= i < |items| ==> items[i] == items[1..][i - 1];
      r
  }

  /** `getRoomById`. */
  function GetRoomById(data: Project, id: int): (r: Option<Room>)
    ensures r.None? <==> forall room :: room in data.rooms ==> room.id != id
    ensures r.Some? ==> r.value in data.rooms && r.value.id == id
  {
    GetById(data.rooms, RoomId, id)
  }

  /** `getTileById`. */
  function GetTileById(data: Project, id: int): (r: Option<Tile>)
    ensures r.None? <==> forall tile :: tile in data.tiles ==> tile.id != id
    ensures r.Some? ==> r.value in data.tiles && r.value.id == id
  {
    GetById(data.tiles, TileId, id)
  }

  /**
   * `getEventById`, over `allEvents(data)`; how `allEvents` gathers the
   * events is not part of this model, so it is a parameter.
   */
  function GetEventById(data: Project, allEvents: Project -> seq<Event>, id: int): (r: Option<Event>)
    ensures r.None? <==> forall e :: e in allEvents(data) ==> e.id != id
    ensures r.Some? ==> r.value in allEvents(data) && r.value.id == id
  {
    GetById(allEvents(data), EventId, id)
  }

  /** An event lies on cell `(x, y)` and is not the ignored one (compared by reference). */
  predicate At(e: Event, x: int, y: int, ignore: Option<Event>)
    reads e
    ensures ignore == Some(e) ==> !At(e, x, y, ignore)
    ensures ignore.None? ==> (At(e, x, y, ignore) <==> e.x == x && e.y == y)
  {
    e.x == x && e.y == y && Some(e) != ignore
  }

  /** `r` is `s` with some entries dropped, order kept. */
  predicate IsSubsequence<T(==)>(r: seq<T>, s: seq<T>) {
    if r == [] then true
    else if s == [] then false
    else if r[0] == s[0] then IsSubsequence(r[1..], s[1..])
    else IsSubsequence(r, s[1..])
  }

  /**
   * `getEventsAt`: the events on `(x, y)` other than `ignore`, in their
   * original order, each as often as in the input.
   */
  function EventsAt(events: seq<Event>, x: int, y: int, ignore: Option<Event>): (r: seq<Event>)
    reads events
    ensures forall e :: e in r ==> e in events && At(e, x, y, ignore)
    ensures IsSubsequence(r, events)
    ensures forall e :: e in events && At(e, x, y, ignore) ==> multiset(r)[e] == multiset(events)[e]
  {
    if events == [] then []
    else
      var head := events[0];
      var rest := EventsAt(events[1..], x, y, ignore);
      assert events == [head] + events[1..];
      assert multiset(events) == multiset{head} + multiset(events[1..]);
      if At(head, x, y, ignore) then
        var r := [head] + rest;
        assert r[1..] == rest;
        assert multiset(r) == multiset{head} + multiset(rest);
        r
      else
        assert rest != [] ==> rest[0] != head;
        rest
  }

  /** Nothing is found on a cell that no event occupies, and the ignored event is never found. */
  lemma EventsAtExcludes(events: seq<Event>, x: int, y: int, ignore: Event)
    ensures ignore !in EventsAt(events, x, y, Some(ignore))
    ensures (forall e :: e in events ==> e.x != x || e.y != y) ==> EventsAt(events, x, y, Some(ignore)) == []
  {
  }

  /**
   * The specification of `findFreeFrame` over the frames in use: `r` is
   * unused, every smaller non-negative frame is used, `r` is at most one
   * past the largest frame, and `r` is negative only as that successor.
   */
  ghost predicate IsFreeFrame(frames: seq<int>, r: int)
    requires |frames| > 0
  {
    && r !in frames
    && (forall i :: 0 <= i < r ==> i in frames)
    && r <= MaxOf(frames) + 1
    && (r >= 0 || r == MaxOf(frames) + 1)
  }

  /** At most one value meets that specification. */
  lemma FreeFrameUnique(frames: seq<int>, r: int, s: int)
    requires |frames| > 0 && IsFreeFrame(frames, r) && IsFreeFrame(frames, s)
    ensures r == s
  {
  }

  /** `[0, 1, 2]` leaves 3 as the free frame; `[0, 2]` fills the gap with 1. */
  lemma FreeFrameExamples()
    ensures IsFreeFrame([0, 1, 2], 3)
    ensures IsFreeFrame([0, 2], 1)
  {
    assert MaxOf([0, 1, 2]) == 2;
    assert MaxOf([0, 2]) == 2;
  }

  /** A gap below the largest frame, with every smaller frame in use, is the free frame. */
  lemma FreeFrameGap(frames: seq<int>, i: int)
    requires |frames| > 0 && 0 <= i < MaxOf(frames) && i !in frames
    requires forall k :: 0 <= k < i ==> k in frames
    ensures IsFreeFrame(frames, i)
  {
  }

  /** With every frame below the largest in use, the free frame is one past the largest. */
  lemma FreeFrameAfterMax(frames: seq<int>)
    requires |frames| > 0
    requires forall k :: 0 <= k < MaxOf(frames) ==> k in frames
    ensures IsFreeFrame(frames, MaxOf(frames) + 1)
  {
  }

  /**
   * The search of `findFreeFrame` over the frames in use: the first frame
   * from 0 up that is not in the set, or one past the largest frame.
   */
  method FreeFrameIn(all: seq<int>) returns (r: int)
    requires |all| > 0
    ensures IsFreeFrame(all, r)
  {
    var frames := set f | f in all;
    var max := MaxOf(all);
    var i := 0;
    while i < max
      invariant 0 <= i && (i <= max || i == 0)
      invariant forall k :: 0 <= k < i ==> k in all
    {
      if i !in frames {
        FreeFrameGap(all, i);
        return i;
      }
      i := i + 1;
    }
    FreeFrameAfterMax(all);
    return max + 1;
  }

  /**
   * `findFreeFrame`: the first frame from 0 up that no tile uses, or one
   * past the largest frame. With no frame at all the source returns
   * `-Infinity`, None here.
   */
  method FindFreeFrame(tiles: seq<Tile>) returns (r: Option<int>)
    ensures r.None? <==> AllFrames(tiles) == []
    ensures r.Some? ==> IsFreeFrame(AllFrames(tiles), r.value)
  {
    var all := AllFrames(tiles);
    if all == [] {
      return None;
    }
    var f := FreeFrameIn(all);
    return Some(f);
  }

  /** `fields.filter((field) => field.type === "file").map((field) => field.data)`. */
  function FileData(fields: seq<Field>): (ds: seq<Datum>)
    ensures |ds| <= |fields|
    ensures forall d :: d in ds ==> exists f :: f in fields && f.kind == "file" && f.data == d
    ensures forall f :: f in fields && f.kind == "file" ==> f.data in ds
  {
    if fields == [] then []
    else
      var rest := FileData(fields[1..]);
      assert forall f :: f in fields ==> f == fields[0] || f in fields[1..];
      if fields[0].kind == "file" then [fields[0].data] + rest else rest
  }

  /** Every field of every event, event by event (`flatMap((event) => event.fields)`). */
  function AllFields(events: seq<Event>): (fs: seq<Field>)
    ensures forall e, f :: e in events && f in e.fields ==> f in fs
    ensures forall f :: f in fs ==> exists e :: e in events && f in e.fields
  {
    if events == [] then []
    else
      var fs := events[0].fields + AllFields(events[1..]);
      assert forall e :: e in events ==> e == events[0] || e in events[1..];
      fs
  }

  /** The `type` tag of each field, in order. */
  function Kinds(fields: seq<Field>): seq<string> {
    seq(|fields|, i requires 0 <= i < |fields| => fields[i].kind)
  }

  /** Duplicates are kept: there is one entry per field of type "file". */
  lemma {:induction false} FileDataCount(fields: seq<Field>)
    ensures |FileData(fields)| == multiset(Kinds(fields))["file"]
  {
    if fields != [] {
      assert Kinds(fields) == [fields[0].kind] + Kinds(fields[1..]);
      FileDataCount(fields[1..]);
    }
  }

  /** The filter keeps order: the files of `a + b` are those of `a`, then those of `b`. */
  lemma {:induction false} FileDataAppend(a: seq<Field>, b: seq<Field>)
    ensures FileData(a + b) == FileData(a) + FileData(b)
  {
    if a == [] {
      assert a + b == b;
    } else {
      assert (a + b)[1..] == a[1..] + b;
      FileDataAppend(a[1..], b);
    }
  }

  /**
   * `getManifest`: the tileset first, then the data of every "file" field
   * of every event, in event and field order.
   */
  function GetManifest(data: Project, allEvents: Project -> seq<Event>): (r: seq<Datum>)
    ensures |r| >= 1 && r[0] == Text(data.tileset)
    ensures forall d :: d in r[1..] ==> exists e, f :: e in allEvents(data) && f in e.fields && f.kind == "file" && f.data == d
    ensures forall e, f :: e in allEvents(data) && f in e.fields && f.kind == "file" ==> f.data in r[1..]
  {
    var files := FileData(AllFields(allEvents(data)));
    var r := [Text(data.tileset)] + files;
    assert r[1..] == files;
    r
  }

  /** Gathering fields keeps event order: the fields of `a + b` are those of `a`, then those of `b`. */
  lemma {:induction false} AllFieldsAppend(a: seq<Event>, b: seq<Event>)
    ensures AllFields(a + b) == AllFields(a) + AllFields(b)
  {
    if a == [] {
      assert a + b == b;
    } else {
      assert (a + b)[1..] == a[1..] + b;
      AllFieldsAppend(a[1..], b);
    }
  }

  /** One event contributes its own fields, in their order. */
  lemma AllFieldsOne(e: Event)
    ensures AllFields([e]) == e.fields
  {
    assert [e][1..] == [];
  }

  /** One field contributes its datum exactly when it is a "file" field. */
  lemma FileDataOne(f: Field)
    ensures FileData([f]) == if f.kind == "file" then [f.data] else []
  {
    assert [f][1..] == [];
  }

  /**
   * The files of the manifest come event by event: splitting the events
   * splits the files at the same point, so order and duplicates are kept.
   */
  lemma ManifestSplit(data: Project, allEvents: Project -> seq<Event>, a: seq<Event>, b: seq<Event>)
    requires allEvents(data) == a + b
    ensures GetManifest(data, allEvents)[1..] == FileData(AllFields(a)) + FileData(AllFields(b))
  {
    AllFieldsAppend(a, b);
    FileDataAppend(AllFields(a), AllFields(b));
  }

  /** With a single event, the files are that event's "file" data in field order. */
  lemma ManifestOneEvent(data: Project, allEvents: Project -> seq<Event>, e: Event)
    requires allEvents(data) == [e]
    ensures GetManifest(data, allEvents) == [Text(data.tileset)] + FileData(e.fields)
  {
    AllFieldsOne(e);
  }

  /** The manifest is one entry longer than the number of "file" fields, duplicates included. */
  lemma ManifestLength(data: Project, allEvents: Project -> seq<Event>)
    ensures |GetManifest(data, allEvents)| == 1 + multiset(Kinds(AllFields(allEvents(data))))["file"]
  {
    FileDataCount(AllFields(allEvents(data)));
  }

  /** A tileset "tileset.png" and one event with a "file" field and a "text" field give two entries. */
  lemma ManifestExample(data: Project, allEvents: Project -> seq<Event>, e: Event)
    requires data.tileset == "tileset.png" && allEvents(data) == [e]
    requires e.fields == [Field("sound", "file", Text("snd.wav")), Field("says", "text", Text("hi"))]
    ensures GetManifest(data, allEvents) == [Text("tileset.png"), Text("snd.wav")]
  {
    var fs := e.fields;
    assert AllFields([e]) == fs by {
      assert [e][1..] == [];
    }
    assert FileData(fs[1..]) == [] by {
      assert fs[1..][1..] == [];
    }
    assert FileData(fs) == [Text("snd.wav")];
  }
}
