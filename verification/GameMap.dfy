/**
 The map of the game: cells, the grid of blocks that holds the static ones, the list of the
 dynamic ones, and the events of a tick.

 Coordinates are reals.  A block is named by its place in memory, `x * NUM_BLOCKS + y`, which is
 how the code orders block pointers.
 */
module GameMap {
  import opened Lists

  const BLOCK_SIZE := 100
  const NUM_BLOCKS := 160
  const MAP_SIZE := BLOCK_SIZE * NUM_BLOCKS

  datatype Vec = Vec(x: real, y: real)

  datatype Index = Index(x: nat, y: nat)

  function MinReal(a: real, b: real): real {
    if a < b then a else b
  }

  function MaxReal(a: real, b: real): real {
    if a > b then a else b
  }

  // ---------- blocks ----------

  /** One coordinate of IndexFromCoord: what lies outside the map belongs to its outermost block. */
  function Axis(v: real): (i: nat)
    ensures i < NUM_BLOCKS
  {
    var whole := MaxReal(v, 0.0).Floor;
    (if whole < MAP_SIZE - 1 then whole else MAP_SIZE - 1) / BLOCK_SIZE
  }

  function IndexFromCoord(c: Vec): (i: Index)
    ensures i.x < NUM_BLOCKS && i.y < NUM_BLOCKS
  {
    Index(Axis(c.x), Axis(c.y))
  }

  function BlockAt(i: Index): nat {
    i.x * NUM_BLOCKS + i.y
  }

  /** BlockFromCoord */
  function BlockOf(c: Vec): (b: nat)
    ensures b < NUM_BLOCKS * NUM_BLOCKS
  {
    BlockAt(IndexFromCoord(c))
  }

  predicate InRect(i: Index, start: Index, end: Index) {
    start.x <= i.x <= end.x && start.y <= i.y <= end.y
  }

  /** Whether a block is in a window. */
  predicate InView(b: nat, start: Index, end: Index) {
    InRect(Index(b / NUM_BLOCKS, b % NUM_BLOCKS), start, end)
  }

  /** Inside, as a truth value */
  predicate Inside(point: Vec, start: Index, end: Index) {
    InRect(IndexFromCoord(point), start, end)
  }

  /** EdgeInside, as a truth value */
  predicate EdgeInside(center: Vec, radius: real, start: Index, end: Index) {
    var x, y, r := center.x / 100.0, center.y / 100.0, radius / 100.0;
    x + r >= start.x as real && y + r >= start.y as real && x - r <= (end.x + 1) as real && y - r <= (end.y + 1) as real
  }

  lemma BlockIndex(i: Index)
    requires i.y < NUM_BLOCKS
    ensures BlockAt(i) / NUM_BLOCKS == i.x && BlockAt(i) % NUM_BLOCKS == i.y
  {
  }

  /** A point is in a window exactly when its block is. */
  lemma InsideView(point: Vec, start: Index, end: Index)
    ensures Inside(point, start, end) <==> InView(BlockOf(point), start, end)
  {
    BlockIndex(IndexFromCoord(point));
  }

  predicate InMap(c: Vec) {
    0.0 <= c.x < MAP_SIZE as real && 0.0 <= c.y < MAP_SIZE as real
  }

  lemma AxisBounds(v: real)
    requires 0.0 <= v < MAP_SIZE as real
    ensures Axis(v) as real <= v / 100.0 < (Axis(v) + 1) as real
  {
  }

  lemma AxisMonotone(v: real, w: real)
    requires v <= w
    ensures Axis(v) <= Axis(w)
  {
  }

  /** A square around a point touches the map. */
  predicate Reaches(c: Vec, r: real) {
    c.x + r >= 0.0 && c.y + r >= 0.0 && c.x - r <= MAP_SIZE as real && c.y - r <= MAP_SIZE as real
  }

  /** One coordinate: the block of a point beside the map is the outermost one, so only what
      reaches back to the map reaches into it. */
  lemma AxisReaches(v: real, r: real)
    requires r >= 0.0
    ensures v + r >= 0.0 ==> v / 100.0 + r / 100.0 >= Axis(v) as real
    ensures v - r <= MAP_SIZE as real ==> v / 100.0 - r / 100.0 <= (Axis(v) + 1) as real
    ensures v + r < 0.0 ==> v / 100.0 + r / 100.0 < 0.0
    ensures v - r > MAP_SIZE as real ==> v / 100.0 - r / 100.0 > (Axis(v) + 1) as real
  {
    if 0.0 <= v < MAP_SIZE as real {
      AxisBounds(v);
    }
  }

  /** Of a cell whose centre is in a window the edge is there too, for every window, exactly when
      the cell touches the map: the centre's block is clamped to the map, the edge test is not. */
  lemma CentreThenEdge(center: Vec, radius: real)
    requires radius >= 0.0
    ensures (forall start, end | Inside(center, start, end) :: EdgeInside(center, radius, start, end))
      <==> Reaches(center, radius)
  {
    AxisReaches(center.x, radius);
    AxisReaches(center.y, radius);
    var i := IndexFromCoord(center);
    assert Inside(center, i, i);
    if Reaches(center, radius) {
      forall start, end | Inside(center, start, end) ensures EdgeInside(center, radius, start, end) {}
    }
  }

  /** A point of the window's rectangle, edges included, that is no further than `r` from `c` either way. */
  predicate Touches(c: Vec, r: real, p: Vec, start: Index, end: Index) {
    -r <= p.x - c.x <= r && -r <= p.y - c.y <= r
    && (BLOCK_SIZE * start.x) as real <= p.x <= (BLOCK_SIZE * (end.x + 1)) as real
    && (BLOCK_SIZE * start.y) as real <= p.y <= (BLOCK_SIZE * (end.y + 1)) as real
  }

  /** The point of an interval that is nearest to `v`. */
  function Nearest(v: real, low: real, high: real): real {
    MaxReal(low, MinReal(v, high))
  }

  /** The edge of a cell is in a window exactly when its square and the window's rectangle meet. */
  lemma EdgeTouches(c: Vec, r: real, start: Index, end: Index)
    requires r >= 0.0 && start.x <= end.x && start.y <= end.y
    ensures EdgeInside(c, r, start, end) <==> exists p :: Touches(c, r, p, start, end)
  {
    var p := Vec(
      Nearest(c.x, (BLOCK_SIZE * start.x) as real, (BLOCK_SIZE * (end.x + 1)) as real),
      Nearest(c.y, (BLOCK_SIZE * start.y) as real, (BLOCK_SIZE * (end.y + 1)) as real));
    if EdgeInside(c, r, start, end) {
      assert Touches(c, r, p, start, end);
    }
  }

  /** The point of the map nearest to a point; the last one of the map is its last whole number. */
  function OnMap(c: Vec): Vec {
    Vec(Nearest(c.x, 0.0, (MAP_SIZE - 1) as real), Nearest(c.y, 0.0, (MAP_SIZE - 1) as real))
  }

  /** A point is in a window exactly when it is in the window's rectangle, once it is put on the map. */
  lemma InsideRectangle(c: Vec, start: Index, end: Index)
    ensures var p := OnMap(c);
      Inside(c, start, end) <==>
        (BLOCK_SIZE * start.x) as real <= p.x < (BLOCK_SIZE * (end.x + 1)) as real
        && (BLOCK_SIZE * start.y) as real <= p.y < (BLOCK_SIZE * (end.y + 1)) as real
  {
    AxisInterval(c.x, start.x, end.x);
    AxisInterval(c.y, start.y, end.y);
  }

  lemma AxisInterval(v: real, low: nat, high: nat)
    ensures var w := Nearest(v, 0.0, (MAP_SIZE - 1) as real);
      low <= Axis(v) <= high <==> (BLOCK_SIZE * low) as real <= w < (BLOCK_SIZE * (high + 1)) as real
  {
  }

  /** A cell that does not.  `Cell.MoveAbs` keeps a cell from getting there once it was moved; a cell
      that was just made may be there, but is in no history yet. */
  lemma OffTheMap()
    ensures !Reaches(Vec(20000.0, 0.0), 1.0)
    ensures Inside(Vec(20000.0, 0.0), Index(150, 0), Index(159, 0))
    ensures !EdgeInside(Vec(20000.0, 0.0), 1.0, Index(150, 0), Index(159, 0))
  {
    assert Axis(20000.0) == 159;
  }

  // ---------- cells ----------

  function Apart(a: real, b: real): real {
    if a < b then b - a else a - b
  }

  class Cell {
    const ID: nat
    var center: Vec
    var radius: real
    var isPlayer: bool
    var isVirus: bool
    var isFood: bool
    var moving: bool

    constructor (id: nat, radius: real, center: Vec)
      ensures ID == id && this.radius == radius && this.center == center && !isPlayer && !isVirus && !isFood && !moving
    {
      ID, this.radius, this.center := id, radius, center;
      isPlayer, isVirus, isFood, moving := false, false, false, false;
    }

    /** _MoveAbs: wherever a cell is moved to, it ends up on the map, as close as it can get in each
        coordinate. */
    method MoveAbs(position: Vec)
      modifies this`center
      ensures forall r | r >= 0.0 :: Reaches(center, r)
      ensures InMap(center)
      ensures InMap(position) && position.x <= 15999.999 && position.y <= 15999.999 ==> center == position
      ensures forall p | 0.0 <= p <= 15999.999 ::
        Apart(center.x, position.x) <= Apart(p, position.x) && Apart(center.y, position.y) <= Apart(p, position.y)
    {
      center := Vec(MinReal(15999.999, MaxReal(0.0, position.x)), MinReal(15999.999, MaxReal(0.0, position.y)));
    }
  }

  ghost function Ids(cells: seq<Cell>): set<nat> {
    set c | c in cells :: c.ID
  }

  /** No two cells share an identifier. */
  ghost predicate DistinctIds(cells: seq<Cell>) {
    forall i, j | 0 <= i < j < |cells| :: cells[i].ID != cells[j].ID
  }

  lemma WithoutIds(cells: seq<Cell>, i: nat)
    requires i < |cells| && DistinctIds(cells)
    ensures DistinctIds(Without(cells, i)) && Ids(Without(cells, i)) == Ids(cells) - {cells[i].ID}
    ensures forall c | c in Without(cells, i) :: c in cells && c != cells[i]
  {
    var rest := Without(cells, i);
    assert forall j | 0 <= j < |rest| :: rest[j] == cells[if j < i then j else j + 1];
    forall c | c in cells && c != cells[i] ensures c in rest {
      var j :| 0 <= j < |cells| && cells[j] == c;
      assert rest[if j < i then j else j - 1] == c;
    }
  }

  lemma IdsAppend(cells: seq<Cell>, c: Cell)
    ensures Ids(cells + [c]) == Ids(cells) + {c.ID}
  {
    assert forall x | x in cells + [c] :: x in cells || x == c;
    assert c in cells + [c] && forall x | x in cells :: x in cells + [c];
  }

  /** The identifiers of the cells in the blocks of a window. */
  ghost function VisibleIds(blocks: seq<seq<Cell>>, start: Index, end: Index): set<nat> {
    set b, c | 0 <= b < |blocks| && InView(b, start, end) && c in blocks[b] :: c.ID
  }

  /** The identifiers of the cells of an event whose centre is in the block `b`. */
  ghost function EventIds(cells: seq<Cell>, b: nat): set<nat>
    reads set c | c in cells :: c`center
  {
    set c | c in cells && BlockOf(c.center) == b :: c.ID
  }

  ghost function EventsInside(cells: seq<Cell>, start: Index, end: Index): set<nat>
    reads set c | c in cells :: c`center
  {
    set c | c in cells && Inside(c.center, start, end) :: c.ID
  }

  /** The static map, the dynamic cells and the events of the tick. */
  class World {
    var blocks: seq<seq<Cell>>
    var changeIds: seq<nat>
    var dynamicMap: seq<Cell>
    var moved: seq<Cell>
    var addedStatic: seq<Cell>
    var removedStatic: seq<Cell>
    var addedDynamic: seq<Cell>
    var removedDynamic: seq<Cell>

    /** Every static cell is in the block of its centre, and no identifier is there twice. */
    ghost predicate WellPlaced()
      reads this, set b, c | 0 <= b < |blocks| && c in blocks[b] :: c
    {
      |blocks| == |changeIds| == NUM_BLOCKS * NUM_BLOCKS
      && forall b | 0 <= b < |blocks| :: DistinctIds(blocks[b]) && forall c | c in blocks[b] :: BlockOf(c.center) == b
    }

    /** Map::AddStatic: refused exactly when the block holds the identifier already. */
    method AddStatic(cell: Cell) returns (added: bool)
      requires WellPlaced()
      modifies this`blocks, this`changeIds
      ensures WellPlaced() && (added <==> cell.ID !in Ids(old(blocks)[BlockOf(cell.center)]))
      ensures var b := BlockOf(cell.center);
        blocks == if added then old(blocks)[b := old(blocks)[b] + [cell]] else old(blocks)
      ensures forall b | 0 <= b < |blocks| ::
        Ids(blocks[b]) == Ids(old(blocks)[b]) + if b == BlockOf(cell.center) then {cell.ID} else {}
    {
      var b := BlockOf(cell.center);
      var i := 0;
      while i < |blocks[b]|
        invariant i <= |blocks[b]| && forall k | 0 <= k < i :: blocks[b][k].ID != cell.ID
      {
        if cell.ID == blocks[b][i].ID {
          assert blocks[b][i] in blocks[b];
          return false;
        }
        i := i + 1;
      }
      IdsAppend(blocks[b], cell);
      blocks := blocks[b := blocks[b] + [cell]];
      changeIds := changeIds[b := changeIds[b] + 1];
      return true;
    }

    /** Map::RemoveStatic of a cell: takes away the one with its identifier from the block of its centre. */
    method RemoveStatic(cell: Cell) returns (removed: bool)
      requires WellPlaced()
      modifies this`blocks, this`changeIds
      ensures WellPlaced() && (removed <==> cell.ID in Ids(old(blocks)[BlockOf(cell.center)]))
      ensures !removed ==> blocks == old(blocks)
      ensures var b := BlockOf(cell.center);
        Ids(blocks[b]) == Ids(old(blocks)[b]) - {cell.ID} && blocks == old(blocks)[b := blocks[b]]
      ensures forall b | 0 <= b < |blocks| ::
        Ids(blocks[b]) == Ids(old(blocks)[b]) - if b == BlockOf(cell.center) then {cell.ID} else {}
    {
      var b := BlockOf(cell.center);
      var i := 0;
      while i < |blocks[b]|
        invariant i <= |blocks[b]| && forall k | 0 <= k < i :: blocks[b][k].ID != cell.ID
      {
        if cell.ID == blocks[b][i].ID {
          assert blocks[b][i] in blocks[b];
          EraseStatic(b, i);
          return true;
        }
        i := i + 1;
      }
      return false;
    }

    /** Map::RemoveStatic at a place in a block. */
    method EraseStatic(b: nat, i: nat)
      requires WellPlaced() && b < |blocks| && i < |blocks[b]|
      modifies this`blocks, this`changeIds
      ensures WellPlaced() && blocks == old(blocks)[b := Without(old(blocks)[b], i)]
      ensures Ids(blocks[b]) == Ids(old(blocks)[b]) - {old(blocks)[b][i].ID}
    {
      WithoutIds(blocks[b], i);
      blocks := blocks[b := Without(blocks[b], i)];
      changeIds := changeIds[b := changeIds[b] + 1];
    }

    // ---------- a tick ----------

    /** `before` is the map as it was before the removals of this tick. */
    ghost predicate Accounts(before: seq<seq<Cell>>)
      reads this, set c | c in removedStatic :: c`center
    {
      |before| == |blocks|
      && forall b | 0 <= b < |blocks| ::
           Ids(before[b]) == Ids(blocks[b]) + EventIds(removedStatic, b) && Ids(blocks[b]) !! EventIds(removedStatic, b)
    }

    /** What CollideStatic does with a cell that is eaten: it is reported and taken off the map. */
    method EatStatic(b: nat, i: nat, ghost before: seq<seq<Cell>>)
      requires WellPlaced() && Accounts(before) && b < |blocks| && i < |blocks[b]|
      modifies this`blocks, this`changeIds, this`removedStatic
      ensures WellPlaced() && Accounts(before)
      ensures removedStatic == old(removedStatic) + [old(blocks)[b][i]]
      ensures blocks == old(blocks)[b := Without(old(blocks)[b], i)]
    {
      ghost var cell, were := blocks[b][i], removedStatic;
      assert cell in blocks[b] && BlockOf(cell.center) == b;
      removedStatic := removedStatic + [blocks[b][i]];
      forall k | 0 <= k < |blocks|
        ensures EventIds(removedStatic, k) == EventIds(were, k) + if k == b then {cell.ID} else {}
      {
        EventAppend(were, cell, k);
      }
      EraseStatic(b, i);
    }

    /** Map::AddDynamic */
    method AddDynamic(cell: Cell)
      modifies this`dynamicMap
      ensures dynamicMap == old(dynamicMap) + [cell]
    {
      dynamicMap := dynamicMap + [cell];
    }

    /** Map::RemoveDynamic: the last occurrence of a cell goes. */
    method RemoveDynamic(cell: Cell) returns (removed: bool)
      modifies this`dynamicMap
      ensures removed <==> cell in old(dynamicMap)
      ensures !removed ==> dynamicMap == old(dynamicMap)
      ensures removed ==> exists x | 0 <= x < |old(dynamicMap)| ::
        old(dynamicMap)[x] == cell && cell !in old(dynamicMap)[x + 1..] && dynamicMap == Without(old(dynamicMap), x)
    {
      var x := |dynamicMap| - 1;
      while x >= 0
        invariant -1 <= x < |dynamicMap| && cell !in dynamicMap[x + 1..] && dynamicMap == old(dynamicMap)
      {
        if cell == dynamicMap[x] {
          dynamicMap := Without(dynamicMap, x);
          return true;
        }
        assert dynamicMap[x..] == [dynamicMap[x]] + dynamicMap[x + 1..];
        x := x - 1;
      }
      assert dynamicMap[0..] == dynamicMap;
      return false;
    }

    /** Game::ParseEvents, the static part: what was reported as added or removed this tick. */
    method SettleStatic()
      requires WellPlaced()
      modifies this`blocks, this`changeIds
      ensures WellPlaced()
      ensures forall b | 0 <= b < |blocks| ::
        Ids(blocks[b]) == (Ids(old(blocks)[b]) + EventIds(addedStatic, b)) - EventIds(removedStatic, b)
    {
      SettleAdded();
      SettleRemoved();
    }

    method SettleAdded()
      requires WellPlaced()
      modifies this`blocks, this`changeIds
      ensures WellPlaced()
      ensures forall b | 0 <= b < |blocks| :: Ids(blocks[b]) == Ids(old(blocks)[b]) + EventIds(addedStatic, b)
    {
      var i := 0;
      while i < |addedStatic|
        invariant i <= |addedStatic| && WellPlaced()
        invariant forall b | 0 <= b < |blocks| :: Ids(blocks[b]) == Ids(old(blocks)[b]) + EventIds(addedStatic[..i], b)
      {
        EventsNext(addedStatic, i);
        var added := AddStatic(addedStatic[i]);
        i := i + 1;
      }
      assert addedStatic[..i] == addedStatic;
    }

    method SettleRemoved()
      requires WellPlaced()
      modifies this`blocks, this`changeIds
      ensures WellPlaced()
      ensures forall b | 0 <= b < |blocks| :: Ids(blocks[b]) == Ids(old(blocks)[b]) - EventIds(removedStatic, b)
    {
      var i := 0;
      while i < |removedStatic|
        invariant i <= |removedStatic| && WellPlaced()
        invariant forall b | 0 <= b < |blocks| ::
          Ids(blocks[b]) == Ids(old(blocks)[b]) - EventIds(removedStatic[..i], b)
      {
        EventsNext(removedStatic, i);
        var removed := RemoveStatic(removedStatic[i]);
        i := i + 1;
      }
      assert removedStatic[..i] == removedStatic;
    }

    /** Game::ParseEvents, the dynamic part. */
    method SettleDynamic()
      requires NoneTwice(dynamicMap + addedDynamic)
      modifies this`dynamicMap
      ensures NoneTwice(dynamicMap)
      ensures forall c :: c in dynamicMap <==> (c in old(dynamicMap) || c in addedDynamic) && c !in removedDynamic
    {
      var i := 0;
      while i < |addedDynamic|
        invariant i <= |addedDynamic| && dynamicMap == old(dynamicMap) + addedDynamic[..i]
      {
        AddDynamic(addedDynamic[i]);
        i := i + 1;
      }
      assert dynamicMap == old(dynamicMap) + addedDynamic;
      i := 0;
      while i < |removedDynamic|
        invariant i <= |removedDynamic| && NoneTwice(dynamicMap)
        invariant forall c ::
          c in dynamicMap <==> (c in old(dynamicMap) || c in addedDynamic) && c !in removedDynamic[..i]
      {
        ghost var were := dynamicMap;
        var removed := RemoveDynamic(removedDynamic[i]);
        if removed {
          ghost var x :| 0 <= x < |were| && were[x] == removedDynamic[i] && dynamicMap == Without(were, x);
          WithoutOnce(were, x);
        }
        i := i + 1;
      }
    }

    /** The events of the last tick are dropped when a tick starts. */
    method StartTick()
      modifies this`moved, this`addedStatic, this`removedStatic, this`addedDynamic, this`removedDynamic
      ensures moved == addedStatic == removedStatic == addedDynamic == removedDynamic == []
      ensures Accounts(blocks)
    {
      moved, addedStatic, removedStatic, addedDynamic, removedDynamic := [], [], [], [], [];
    }
  }

  lemma EventsNext(cells: seq<Cell>, i: nat)
    requires i < |cells|
    ensures forall b: nat {:trigger EventIds(cells[..i + 1], b)} ::
      EventIds(cells[..i + 1], b)
        == EventIds(cells[..i], b) + if BlockOf(cells[i].center) == b then {cells[i].ID} else {}
  {
    assert cells[..i + 1] == cells[..i] + [cells[i]];
    forall b: nat
      ensures EventIds(cells[..i + 1], b)
        == EventIds(cells[..i], b) + if BlockOf(cells[i].center) == b then {cells[i].ID} else {}
    {
      EventAppend(cells[..i], cells[i], b);
    }
  }

  ghost predicate NoneTwice(cells: seq<Cell>) {
    forall i, j | 0 <= i < j < |cells| :: cells[i] != cells[j]
  }

  lemma WithoutOnce(cells: seq<Cell>, i: nat)
    requires i < |cells| && NoneTwice(cells)
    ensures NoneTwice(Without(cells, i)) && forall c :: c in Without(cells, i) <==> c in cells && c != cells[i]
  {
    var rest := Without(cells, i);
    assert forall j | 0 <= j < |rest| :: rest[j] == cells[if j < i then j else j + 1];
    forall c | c in cells && c != cells[i] ensures c in rest {
      var j :| 0 <= j < |cells| && cells[j] == c;
      assert rest[if j < i then j else j - 1] == c;
    }
  }

  lemma EventAppend(cells: seq<Cell>, c: Cell, b: nat)
    ensures EventIds(cells + [c], b) == EventIds(cells, b) + if BlockOf(c.center) == b then {c.ID} else {}
  {
    assert forall x | x in cells + [c] :: x in cells || x == c;
    assert c in cells + [c] && forall x | x in cells :: x in cells + [c];
  }
}
