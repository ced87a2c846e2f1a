/**
 * Toroidal cycling of a room: the grids rotate in place, the events move
 * by a shift modulo the room size. The two operations are independent;
 * keeping grid content and events together is up to the caller.
 */
module GridCycle {
  import opened JsMath
  import opened BipsiData

  /**
   * `dx > 0 ? dx : 16 + dx`: how many leading entries move to the back. For
   * shifts strictly between -16 and 16 it is a move of 1 to 16 places, the
   * same as `d` modulo 16.
   */
  function Amount(d: int): (a: int)
    ensures -RoomSize < d < RoomSize ==> 0 < a <= RoomSize && (a - d) % RoomSize == 0
  {
    if d > 0 then d else RoomSize + d
  }

  /** `splice(0, k)` removes `k` entries, clamped to what the list holds. */
  function Clamp(k: int, n: nat): (c: nat)
    ensures c <= n
    ensures 0 <= k <= n ==> c == k
  {
    if k < 0 then 0 else if k > n then n else k
  }

  /** `s.push(...s.splice(0, k))`: the first `k` entries move, in order, to the end. */
  function RotateLeft<T>(s: seq<T>, k: int): (r: seq<T>)
    ensures |r| == |s|
  {
    var c := Clamp(k, |s|);
    s[c..] + s[..c]
  }

  /** A rotation loses and duplicates nothing: it is a permutation. */
  lemma RotateLeftPermutes<T>(s: seq<T>, k: int)
    ensures multiset(RotateLeft(s, k)) == multiset(s)
  {
    var c := Clamp(k, |s|);
    assert s == s[..c] + s[c..];
  }

  /** The value a rotation leaves at each position, and the length it keeps. */
  lemma RotateLeftAt<T>(s: seq<T>, k: int, i: int)
    requires 0 <= i < |s|
    ensures |RotateLeft(s, k)| == |s|
    ensures RotateLeft(s, k)[i] == s[(i + Clamp(k, |s|)) % |s|]
  {
    var c := Clamp(k, |s|);
    if i < |s| - c {
      ModBelow(i + c, |s|);
    } else {
      ModWrap(i + c, |s|);
    }
  }

  /** Below the modulus, `%` changes nothing. */
  lemma ModBelow(a: int, n: int)
    requires 0 <= a < n
    ensures a % n == a
  {
  }

  /** Between one and two moduli, `%` subtracts one modulus. */
  lemma ModWrap(a: int, n: int)
    requires 0 < n <= a < 2 * n
    ensures a % n == a - n
  {
    ModBelow(a - n, n);
    assert a == (a - n) + n;
  }

  /** `cycleMap` on grid values: rotate the rows, then every row. */
  function CycleGrid<T>(g: seq<seq<T>>, dx: int, dy: int): (r: seq<seq<T>>)
    ensures |r| == |g|
  {
    var rows := RotateLeft(g, Amount(dy));
    seq(|rows|, i requires 0 <= i < |rows| => RotateLeft(rows[i], Amount(dx)))
  }

  /** A room-sized grid: 16 rows of 16 entries. */
  predicate IsRoomGrid<T>(g: seq<seq<T>>) {
    |g| == RoomSize && forall i :: 0 <= i < |g| ==> |g[i]| == RoomSize
  }

  /** Cycling keeps the number of rows, and the length of every row moves with it. */
  lemma {:induction false} CycleGridShape<T>(g: seq<seq<T>>, dx: int, dy: int)
    ensures |CycleGrid(g, dx, dy)| == |g|
    ensures IsRoomGrid(g) ==> IsRoomGrid(CycleGrid(g, dx, dy))
  {
    var rows := RotateLeft(g, Amount(dy));
    if IsRoomGrid(g) {
      forall i | 0 <= i < |rows| ensures |RotateLeft(rows[i], Amount(dx))| == RoomSize {
        RotateLeftAt(g, Amount(dy), i);
        RotateLeftAt(rows[i], Amount(dx), 0);
      }
    }
  }

  /**
   * On a room grid with shifts strictly between -16 and 16, entry `[i][j]`
   * of the result is entry `[(i + dy) mod 16][(j + dx) mod 16]` of the original.
   */
  lemma CycleGridAt<T>(g: seq<seq<T>>, dx: int, dy: int, i: int, j: int)
    requires IsRoomGrid(g)
    requires -RoomSize < dx < RoomSize && -RoomSize < dy < RoomSize
    requires 0 <= i < RoomSize && 0 <= j < RoomSize
    ensures IsRoomGrid(CycleGrid(g, dx, dy))
    ensures CycleGrid(g, dx, dy)[i][j] == g[(i + dy + RoomSize) % RoomSize][(j + dx + RoomSize) % RoomSize]
  {
    CycleGridShape(g, dx, dy);
    var rows := RotateLeft(g, Amount(dy));
    RotateLeftAt(g, Amount(dy), i);
    AmountMod(i, dy);
    assert rows[i] == g[(i + dy + RoomSize) % RoomSize];
    RotateLeftAt(rows[i], Amount(dx), j);
    AmountMod(j, dx);
  }

  /** Rotating by `Amount(d)` reads index `(i + d) mod 16`, the amount itself needing no clamping. */
  lemma AmountMod(i: int, d: int)
    requires 0 <= i < RoomSize && -RoomSize < d < RoomSize
    ensures Clamp(Amount(d), RoomSize) == Amount(d)
    ensures (i + Amount(d)) % RoomSize == (i + d + RoomSize) % RoomSize
  {
    var a := i + d + RoomSize;
    if a >= 2 * RoomSize {
      assert a % RoomSize == a - 2 * RoomSize;
      assert (a - RoomSize) % RoomSize == a - 2 * RoomSize;
    } else if a >= RoomSize {
      assert a % RoomSize == a - RoomSize;
      assert (a - RoomSize) % RoomSize == a - RoomSize;
    } else {
      assert a % RoomSize == a;
    }
  }

  /** A zero shift moves nothing. */
  lemma CycleGridZero<T>(g: seq<seq<T>>)
    requires IsRoomGrid(g)
    ensures CycleGrid(g, 0, 0) == g
  {
    var r := CycleGrid(g, 0, 0);
    CycleGridShape(g, 0, 0);
    forall i | 0 <= i < RoomSize ensures r[i] == g[i] {
      forall j | 0 <= j < RoomSize ensures r[i][j] == g[i][j] {
        CycleGridAt(g, 0, 0, i, j);
      }
    }
  }

  /** Shifting an index by `-d` and then by `d`, modulo 16, returns it. */
  lemma ShiftBack(i: int, d: int)
    requires 0 <= i < RoomSize && -RoomSize < d < RoomSize
    ensures 0 <= (i - d + RoomSize) % RoomSize < RoomSize
    ensures ((i - d + RoomSize) % RoomSize + d + RoomSize) % RoomSize == i
  {
    var a := i - d + RoomSize;
    var b := if a >= 2 * RoomSize then a - 2 * RoomSize else if a >= RoomSize then a - RoomSize else a;
    assert a % RoomSize == b;
    var c := b + d + RoomSize;
    if c >= 2 * RoomSize {
      assert c % RoomSize == c - 2 * RoomSize;
    } else if c >= RoomSize {
      assert c % RoomSize == c - RoomSize;
    } else {
      assert c % RoomSize == c;
    }
  }

  /** Where an entry lands: entry `[i][j]` moves to `[(i - dy) mod 16][(j - dx) mod 16]`. */
  lemma CycleGridFrom<T>(g: seq<seq<T>>, dx: int, dy: int, i: int, j: int)
    requires IsRoomGrid(g)
    requires -RoomSize < dx < RoomSize && -RoomSize < dy < RoomSize
    requires 0 <= i < RoomSize && 0 <= j < RoomSize
    ensures IsRoomGrid(CycleGrid(g, dx, dy))
    ensures CycleGrid(g, dx, dy)[(i - dy + RoomSize) % RoomSize][(j - dx + RoomSize) % RoomSize] == g[i][j]
  {
    ShiftBack(i, dy);
    ShiftBack(j, dx);
    CycleGridAt(g, dx, dy, (i - dy + RoomSize) % RoomSize, (j - dx + RoomSize) % RoomSize);
  }

  /** One entry of the round trip below. */
  lemma CycleGridRoundTripAt<T>(g: seq<seq<T>>, dx: int, dy: int, i: int, j: int)
    requires IsRoomGrid(g)
    requires -RoomSize < dx < RoomSize && -RoomSize < dy < RoomSize
    requires 0 <= i < RoomSize && 0 <= j < RoomSize
    ensures IsRoomGrid(CycleGrid(CycleGrid(g, dx, dy), -dx, -dy))
    ensures CycleGrid(CycleGrid(g, dx, dy), -dx, -dy)[i][j] == g[i][j]
  {
    var h := CycleGrid(g, dx, dy);
    CycleGridFrom(g, dx, dy, i, j);
    CycleGridAt(h, -dx, -dy, i, j);
    assert i + -dy + RoomSize == i - dy + RoomSize && j + -dx + RoomSize == j - dx + RoomSize;
  }

  /** Cycling by `(dx, dy)` and then by `(-dx, -dy)` gives the original grid back. */
  lemma CycleGridRoundTrip<T>(g: seq<seq<T>>, dx: int, dy: int)
    requires IsRoomGrid(g)
    requires -RoomSize < dx < RoomSize && -RoomSize < dy < RoomSize
    ensures CycleGrid(CycleGrid(g, dx, dy), -dx, -dy) == g
  {
    var r := CycleGrid(CycleGrid(g, dx, dy), -dx, -dy);
    CycleGridRoundTripAt(g, dx, dy, 0, 0);
    forall i | 0 <= i < RoomSize ensures r[i] == g[i] {
      forall j | 0 <= j < RoomSize ensures r[i][j] == g[i][j] {
        CycleGridRoundTripAt(g, dx, dy, i, j);
      }
    }
  }

  /** The entries of a room grid (cell values are numbers) held as an array of row arrays. */
  ghost function Contents(grid: array<array<int>>): seq<seq<int>>
    reads grid, grid[..]
  {
    seq(grid.Length, i requires 0 <= i < grid.Length reads grid, grid[..] => grid[i][..])
  }

  /** No row array appears twice in the grid. */
  ghost predicate DistinctRows(grid: array<array<int>>)
    reads grid
  {
    forall i, j :: 0 <= i < j < grid.Length ==> grid[i] != grid[j]
  }

  /** Overwrite an array with a list of the same length. */
  method Store<T>(a: array<T>, s: seq<T>)
    requires |s| == a.Length
    modifies a
    ensures a[..] == s
  {
    forall j | 0 <= j < a.Length {
      a[j] := s[j];
    }
  }

  /** After the row arrays are rotated, the grid's entries are the old entries rotated, and rows stay distinct. */
  lemma RotatedRows(grid: array<array<int>>, rows: seq<array<int>>, before: seq<seq<int>>, k: int)
    requires |rows| == |before| == grid.Length
    requires grid[..] == RotateLeft(rows, k)
    requires forall j :: 0 <= j < |rows| ==> rows[j][..] == before[j]
    requires forall i, j :: 0 <= i < j < |rows| ==> rows[i] != rows[j]
    ensures Contents(grid) == RotateLeft(before, k)
    ensures DistinctRows(grid)
  {
    var c := Clamp(k, |rows|);
    forall i | 0 <= i < grid.Length ensures grid[i][..] == RotateLeft(before, k)[i] {
      RotateLeftAt(rows, k, i);
      RotateLeftAt(before, k, i);
    }
    forall i, j | 0 <= i < j < grid.Length ensures grid[i] != grid[j] {
      RotateLeftAt(rows, k, i);
      RotateLeftAt(rows, k, j);
      assert (i + c) % |rows| != (j + c) % |rows|;
    }
  }

  /** Once every row holds its rotated entries, the grid holds the cycled grid. */
  lemma CycledRows(grid: array<array<int>>, mid: seq<seq<int>>, before: seq<seq<int>>, dx: int, dy: int)
    requires mid == RotateLeft(before, Amount(dy)) && |mid| == grid.Length
    requires forall j :: 0 <= j < grid.Length ==> grid[j][..] == RotateLeft(mid[j], Amount(dx))
    ensures Contents(grid) == CycleGrid(before, dx, dy)
  {
  }

  /** `row.push(...row.splice(0, x))` for every row of the grid, in place. */
  method CycleRows(grid: array<array<int>>, x: int)
    requires DistinctRows(grid)
    modifies set j | 0 <= j < grid.Length :: grid[j]
    ensures forall j :: 0 <= j < grid.Length ==> grid[j][..] == RotateLeft(old(grid[j][..]), x)
  {
    var i := 0;
    while i < grid.Length
      invariant 0 <= i <= grid.Length
      invariant forall j :: 0 <= j < i ==> grid[j][..] == RotateLeft(old(grid[j][..]), x)
      invariant forall j :: i <= j < grid.Length ==> grid[j][..] == old(grid[j][..])
    {
      var row := grid[i];
      Store(row, RotateLeft(row[..], x));
      i := i + 1;
    }
  }

  /**
   * `cycleMap`: moves the first `y` row arrays to the end of the grid, then
   * in every row moves the first `x` entries to the end, all in place.
   */
  method CycleMap(grid: array<array<int>>, dx: int, dy: int)
    requires DistinctRows(grid)
    modifies grid, grid[..]
    ensures grid[..] == RotateLeft(old(grid[..]), Amount(dy))
    ensures DistinctRows(grid)
    ensures Contents(grid) == CycleGrid(old(Contents(grid)), dx, dy)
  {
    ghost var before := Contents(grid);
    var x := Amount(dx);
    var y := Amount(dy);
    var rows := grid[..];
    assert forall j :: 0 <= j < |rows| ==> rows[j][..] == before[j];
    // map.push(...map.splice(0, y))
    Store(grid, RotateLeft(rows, y));
    RotatedRows(grid, rows, before, y);
    ghost var mid := Contents(grid);
    // map.forEach((row) => row.push(...row.splice(0, x)))
    CycleRows(grid, x);
    CycledRows(grid, mid, before, dx, dy);
  }

  /** One axis of `cycleEvents`: `(p + 16 + d) % 16`, with JavaScript's truncating `%`. */
  function ShiftPos(p: int, d: int): (q: int)
    ensures 0 <= p < RoomSize && d >= -RoomSize ==> 0 <= q < RoomSize
    ensures p + RoomSize + d < 0 ==> q <= 0
  {
    JsRem(p + RoomSize + d, RoomSize)
  }

  /** A shift below -16 can carry an event out of the room: from column 0 by -20 it lands on -4. */
  lemma ShiftPosLeavesRoom()
    ensures ShiftPos(0, -20) == -4
  {
  }

  /** Within the room, shifting by `d` and then by `-d` puts a position back. */
  lemma ShiftPosRoundTrip(p: int, d: int)
    requires 0 <= p < RoomSize && -RoomSize <= d <= RoomSize
    ensures ShiftPos(ShiftPos(p, d), -d) == p
  {
    var q := ShiftPos(p, d);
    var a := p + RoomSize + d;
    assert q == if a >= 2 * RoomSize then a - 2 * RoomSize else if a >= RoomSize then a - RoomSize else a;
    var b := q + RoomSize - d;
    assert ShiftPos(q, -d) == if b >= 2 * RoomSize then b - 2 * RoomSize else if b >= RoomSize then b - RoomSize else b;
  }

  /**
   * The grid moves content towards lower indices while `cycleEvents` moves
   * events towards higher ones: an event stays on the same content when its
   * shift is the negation of the grid's.
   */
  lemma CycleAnchorsNegatedShift<T>(g: seq<seq<T>>, dx: int, dy: int, col: int, row: int)
    requires IsRoomGrid(g)
    requires -RoomSize < dx < RoomSize && -RoomSize < dy < RoomSize
    requires 0 <= col < RoomSize && 0 <= row < RoomSize
    ensures 0 <= ShiftPos(row, -dy) < RoomSize && 0 <= ShiftPos(col, -dx) < RoomSize
    ensures CycleGrid(g, dx, dy)[ShiftPos(row, -dy)][ShiftPos(col, -dx)] == g[row][col]
  {
    var i := ShiftPos(row, -dy);
    var j := ShiftPos(col, -dx);
    assert i == (row - dy + RoomSize) % RoomSize;
    assert j == (col - dx + RoomSize) % RoomSize;
    ShiftBack(row, dy);
    ShiftBack(col, dx);
    CycleGridAt(g, dx, dy, i, j);
  }

  /**
   * `cycleEvents`: every event's position moves by `(dx, dy)` modulo the
   * room size, in place; the list, its order, ids and fields are untouched.
   */
  method CycleEvents(events: seq<Event>, dx: int, dy: int)
    requires forall i, j :: 0 <= i < j < |events| ==> events[i] != events[j]
    modifies set e | e in events
    ensures forall i :: 0 <= i < |events| ==>
      events[i].x == ShiftPos(old(events[i].x), dx) && events[i].y == ShiftPos(old(events[i].y), dy)
  {
    var k := 0;
    while k < |events|
      invariant 0 <= k <= |events|
      invariant forall i :: 0 <= i < k ==>
        events[i].x == ShiftPos(old(events[i].x), dx) && events[i].y == ShiftPos(old(events[i].y), dy)
      invariant forall i :: k <= i < |events| ==> events[i].x == old(events[i].x) && events[i].y == old(events[i].y)
    {
      var e := events[k];
      e.x := JsRem(e.x + RoomSize + dx, RoomSize);
      e.y := JsRem(e.y + RoomSize + dy, RoomSize);
      k := k + 1;
    }
  }
}
