/**
 The game loop around one player's view: over any run of ticks, whatever is eaten, moved and
 looked at, the client shows what the map and the history hold.
 */
module GameLoop {
  import opened GameMap
  import opened PlayerView

  /** What one tick brings: where the moving cells go and how big they get, which static cells are
      eaten (a block and a place in it, in the order they are met), which dynamic cells still move,
      and which were eaten. */
  datatype Tick = Tick(camera: Vec, places: seq<(Vec, real)>, eats: seq<(nat, nat)>, moved: seq<Cell>, gone: seq<Cell>)

  /** The state between ticks.  `pool` are all moving cells of the run, those still to come included,
      `missing` the cells in the window that the client was never told of. */
  ghost predicate Settled(world: World, player: Player, pool: seq<Cell>, missing: set<nat>)
    reads world, player, set b, c | 0 <= b < |world.blocks| && c in world.blocks[b] :: c, set c | c in pool :: c
  {
    world.WellPlaced() && Separate(world.blocks) && Named(pool) && Bodied(pool)
    && AllIds(world.blocks) !! Ids(pool) && (forall c | c in player.cellHistory :: c in pool)
    && |player.cells| > 0 && ViewList(player.blocks, player.topLeft, player.bottomRight)
    && player.Mirror(VisibleIds(world.blocks, player.topLeft, player.bottomRight) - missing)
  }

  ghost function Bodies(pool: seq<Cell>): set<Cell> {
    set c | c in pool
  }

  /** Cell::Update and what eating does to a cell, as far as the view is concerned: it is somewhere
      else on the map, and of another size. */
  method MoveCells(pool: seq<Cell>, places: seq<(Vec, real)>)
    requires Bodied(pool)
    modifies Bodies(pool)`center, Bodies(pool)`radius
    ensures Bodied(pool)
  {
    var i := 0;
    while i < |pool| && i < |places|
      invariant 0 <= i <= |pool| && Bodied(pool)
    {
      assert pool[i] in pool;
      pool[i].MoveAbs(places[i].0);
      pool[i].radius := MaxReal(0.0, places[i].1);
      i := i + 1;
    }
  }

  /** CollideStatic: the cells that are met big enough are eaten. */
  method EatCells(world: World, eats: seq<(nat, nat)>, ghost before: seq<seq<Cell>>)
    requires world.WellPlaced() && world.Accounts(before)
    modifies world`blocks, world`changeIds, world`removedStatic
    ensures world.WellPlaced() && world.Accounts(before)
  {
    var i := 0;
    while i < |eats|
      invariant world.WellPlaced() && world.Accounts(before)
    {
      var (b, k) := eats[i];
      if b < |world.blocks| && k < |world.blocks[b]| {
        world.EatStatic(b, k, before);
      }
      i := i + 1;
    }
  }

  // ---------- maps during a run ----------

  ghost predicate SameIds(a: seq<seq<Cell>>, b: seq<seq<Cell>>) {
    |a| == |b| && forall k | 0 <= k < |a| :: Ids(a[k]) == Ids(b[k])
  }

  /** Every block of the second map has cells of that block of the first. */
  ghost predicate Fewer(a: seq<seq<Cell>>, b: seq<seq<Cell>>) {
    |a| == |b| && forall k | 0 <= k < |a| :: Ids(b[k]) <= Ids(a[k])
  }

  /** Two maps with the same identifiers in every block show the same. */
  lemma SameVisible(a: seq<seq<Cell>>, b: seq<seq<Cell>>, start: Index, end: Index)
    requires SameIds(a, b)
    ensures VisibleIds(a, start, end) == VisibleIds(b, start, end) && AllIds(a) == AllIds(b)
  {
    forall x: nat ensures x in VisibleIds(a, start, end) <==> x in VisibleIds(b, start, end) {
      VisibleAt(a, start, end, x);
      VisibleAt(b, start, end, x);
    }
    forall x: nat ensures x in AllIds(a) <==> x in AllIds(b) {
      AllAt(a, x);
      AllAt(b, x);
    }
  }

  lemma SameSeparate(a: seq<seq<Cell>>, b: seq<seq<Cell>>)
    requires Separate(a) && SameIds(a, b) && forall k | 0 <= k < |b| :: DistinctIds(b[k])
    ensures Separate(b)
  {
  }

  /** Static cells are not among the moving ones. */
  lemma OffPool(world: World, pool: seq<Cell>)
    requires AllIds(world.blocks) !! Ids(pool)
    ensures forall b, c | 0 <= b < |world.blocks| && c in world.blocks[b] :: c !in pool
  {
    forall b, c | 0 <= b < |world.blocks| && c in world.blocks[b] ensures c !in pool {
      assert c.ID in AllIds(world.blocks);
    }
  }

  // ---------- one tick ----------

  /** The part of a tick before the players are told of it. */
  method Happen(world: World, pool: seq<Cell>, t: Tick) returns (ghost before: seq<seq<Cell>>)
    requires world.WellPlaced() && Bodied(pool) && AllIds(world.blocks) !! Ids(pool)
    modifies world, Bodies(pool)`center, Bodies(pool)`radius
    ensures world.WellPlaced() && before == old(world.blocks) && world.Accounts(before)
    ensures world.addedStatic == [] && world.removedDynamic == t.gone && world.moved == t.moved
    ensures Bodied(pool)
  {
    before := world.blocks;
    world.StartTick();
    OffPool(world, pool);
    MoveCells(pool, t.places);
    EatCells(world, t.eats, before);
    world.moved, world.removedDynamic := t.moved, t.gone;
  }

  lemma HappenReady(world: World, player: Player, pool: seq<Cell>, before: seq<seq<Cell>>)
    requires world.WellPlaced() && world.Accounts(before) && Separate(before) && AllIds(before) !! Ids(pool)
    requires world.addedStatic == [] && Named(pool) && Bodied(pool)
    requires (forall c | c in world.moved :: c in pool) && forall c | c in player.cellHistory :: c in pool
    ensures player.Ready(world, before)
  {
    assert forall c | c in world.moved + player.cellHistory :: c in pool;
    assert Ids(world.moved + player.cellHistory) <= Ids(pool);
  }

  /** The part after: the events are settled on the map, which shows the same in every window. */
  method Settle(world: World, ghost before: seq<seq<Cell>>)
    requires world.WellPlaced() && world.Accounts(before) && Separate(before) && world.addedStatic == []
    modifies world
    ensures world.WellPlaced() && Separate(world.blocks) && SameIds(old(world.blocks), world.blocks)
    ensures Fewer(before, world.blocks) && AllIds(world.blocks) <= AllIds(before)
  {
    StillSeparate(world, before);
    ghost var blocks := world.blocks;
    world.SettleStatic();
    SameVisible(blocks, world.blocks, Index(0, 0), Index(0, 0));
    SameSeparate(blocks, world.blocks);
  }

  /** The history after a tick that began with the history `were` and the window `w`: of the cells
      not eaten, those it had whose centre is inside, and those that moved and reach inside. */
  ghost predicate Remembered(player: Player, were: seq<Cell>, t: Tick, w: Window)
    reads player, set c | c in were :: c, set c | c in t.moved :: c
  {
    (forall c | c in player.cellHistory :: c !in t.gone
      && ((c in were && Inside(c.center, w.start, w.end))
          || (c in t.moved && EdgeInside(c.center, c.radius, w.start, w.end))))
    && (forall c | c in were && Inside(c.center, w.start, w.end) && c !in t.gone :: c in player.cellHistory)
    && forall c | c in t.moved && EdgeInside(c.center, c.radius, w.start, w.end) && c !in t.gone ::
      c in player.cellHistory
  }

  /** One tick keeps the picture right, and forgets what was eaten.  What stays missing is what was
      in the window before, too, and still is on the map. */
  method PlayTick(world: World, player: Player, pool: seq<Cell>, t: Tick, ghost missing: set<nat>)
    returns (ghost still: set<nat>)
    requires Settled(world, player, pool, missing) && forall c | c in t.moved :: c in pool
    modifies world, player, Bodies(pool)`center, Bodies(pool)`radius
    ensures Settled(world, player, pool, still)
    ensures still == missing * VisibleIds(world.blocks, old(player.topLeft), old(player.bottomRight))
    ensures Fewer(old(world.blocks), world.blocks)
    ensures Remembered(player, old(player.cellHistory), t, old(player.Sight()))
  {
    ghost var start, end := player.topLeft, player.bottomRight;
    ghost var before := Happen(world, pool, t);
    HappenReady(world, player, pool, before);
    player.Update(world, t.camera, before, missing);
    still := missing * VisibleIds(world.blocks, start, end);
    SettleView(world, before, Window(start, end), player.Sight());
  }

  /** What the end of a tick does not change. */
  method SettleView(world: World, ghost before: seq<seq<Cell>>, ghost w: Window, ghost v: Window)
    requires world.WellPlaced() && world.Accounts(before) && Separate(before) && world.addedStatic == []
    modifies world
    ensures world.WellPlaced() && Separate(world.blocks)
    ensures Fewer(before, world.blocks) && AllIds(world.blocks) <= AllIds(before)
    ensures VisibleIds(world.blocks, w.start, w.end) == old(VisibleIds(world.blocks, w.start, w.end))
    ensures VisibleIds(world.blocks, v.start, v.end) == old(VisibleIds(world.blocks, v.start, v.end))
  {
    ghost var blocks := world.blocks;
    Settle(world, before);
    SameVisible(blocks, world.blocks, w.start, w.end);
    SameVisible(blocks, world.blocks, v.start, v.end);
  }

  // ---------- any number of ticks ----------

  /** A player who joins is shown nothing of the first window: all of it is missing. */
  method Join(world: World, cell: Cell, camera: Vec, pool: seq<Cell>) returns (player: Player, ghost missing: set<nat>)
    requires world.WellPlaced() && Separate(world.blocks) && Named(pool) && Bodied(pool)
    requires AllIds(world.blocks) !! Ids(pool)
    ensures fresh(player) && Settled(world, player, pool, missing)
    ensures missing == VisibleIds(world.blocks, player.topLeft, player.bottomRight) && player.Client() == {}
  {
    player := new Player(cell, world, camera);
    missing := VisibleIds(world.blocks, player.topLeft, player.bottomRight);
    assert missing - missing == {};
  }

  /** A block was in all the windows. */
  ghost predicate InSight(b: nat, windows: seq<Window>) {
    forall k | 0 <= k < |windows| :: InView(b, windows[k].start, windows[k].end)
  }

  /** Every block that has cells was outside some window. */
  ghost predicate AllLeft(blocks: seq<seq<Cell>>, windows: seq<Window>) {
    forall b: nat | b < |blocks| && InSight(b, windows) :: blocks[b] == []
  }

  /** What is missing after some ticks: the cells that were missing at first, still are on the map
      and never were out of sight. */
  ghost predicate Lasting(blocks: seq<seq<Cell>>, missing: set<nat>, still: set<nat>, windows: seq<Window>) {
    still <= missing
    && forall b: nat, x | b < |blocks| && x in Ids(blocks[b]) :: x in still <==> x in missing && InSight(b, windows)
  }

  lemma InSightNext(b: nat, windows: seq<Window>, w: Window)
    ensures InSight(b, windows + [w]) <==> InSight(b, windows) && InView(b, w.start, w.end)
  {
    var all := windows + [w];
    assert all[|windows|] == w && forall k | 0 <= k < |windows| :: all[k] == windows[k];
  }

  lemma LastingNext(old_: seq<seq<Cell>>, blocks: seq<seq<Cell>>, missing: set<nat>, still: set<nat>,
      windows: seq<Window>, w: Window)
    requires Lasting(old_, missing, still, windows) && Fewer(old_, blocks) && Separate(blocks)
    ensures Lasting(blocks, missing, still * VisibleIds(blocks, w.start, w.end), windows + [w])
  {
    forall b: nat, x | b < |blocks| && x in Ids(blocks[b])
      ensures x in still * VisibleIds(blocks, w.start, w.end) <==> x in missing && InSight(b, windows + [w])
    {
      InVisible(blocks, w.start, w.end, b, x);
      InSightNext(b, windows, w);
    }
  }

  /** A cell was eaten in one of the ticks and has not moved since. */
  ghost predicate Dead(c: Cell, ticks: seq<Tick>) {
    exists j | 0 <= j < |ticks| :: c in ticks[j].gone && forall k | j < k < |ticks| :: c !in ticks[k].moved
  }

  lemma DeadNext(c: Cell, ticks: seq<Tick>, t: Tick)
    requires Dead(c, ticks + [t])
    ensures c in t.gone || (c !in t.moved && Dead(c, ticks))
  {
    var all := ticks + [t];
    var j :| 0 <= j < |all| && c in all[j].gone && forall k | j < k < |all| :: c !in all[k].moved;
    if j < |ticks| {
      assert all[j] == ticks[j] && all[|ticks|] == t;
      assert forall k | j < k < |ticks| :: all[k] == ticks[k];
    }
  }

  /** No dead cell is remembered. */
  ghost predicate NoneDead(player: Player, ticks: seq<Tick>)
    reads player
  {
    forall c | c in player.cellHistory :: !Dead(c, ticks)
  }

  lemma NoneDeadNext(player: Player, were: seq<Cell>, ticks: seq<Tick>, t: Tick, w: Window)
    requires Remembered(player, were, t, w) && forall c | c in were :: !Dead(c, ticks)
    ensures NoneDead(player, ticks + [t])
  {
    forall c | c in player.cellHistory ensures !Dead(c, ticks + [t]) {
      if Dead(c, ticks + [t]) {
        DeadNext(c, ticks, t);
      }
    }
  }

  /** Every moving cell moves in the last of the ticks, unless it is dead. */
  ghost predicate AllMove(pool: seq<Cell>, ticks: seq<Tick>)
    requires ticks != []
  {
    forall c | c in pool :: c in ticks[|ticks| - 1].moved || Dead(c, ticks)
  }

  /** The history is exactly the cells that moved and reach into the window, without what was eaten. */
  ghost predicate Shows(player: Player, t: Tick, w: Window)
    reads player, set c | c in t.moved :: c
  {
    (forall c | c in player.cellHistory ::
      c in t.moved && c !in t.gone && EdgeInside(c.center, c.radius, w.start, w.end))
    && forall c | c in t.moved && c !in t.gone && EdgeInside(c.center, c.radius, w.start, w.end) ::
      c in player.cellHistory
  }

  lemma AllShown(player: Player, pool: seq<Cell>, were: seq<Cell>, ticks: seq<Tick>, w: Window)
    requires ticks != [] && AllMove(pool, ticks) && Bodied(pool) && NoneDead(player, ticks)
    requires Remembered(player, were, ticks[|ticks| - 1], w) && forall c | c in player.cellHistory :: c in pool
    ensures Shows(player, ticks[|ticks| - 1], w)
  {
    var t := ticks[|ticks| - 1];
    forall c | c in player.cellHistory ensures c in t.moved && EdgeInside(c.center, c.radius, w.start, w.end) {
      CentreThenEdge(c.center, c.radius);
    }
  }

  /** Any run of ticks.  The client's picture is exact if and only if nothing that is still missing
      is in sight at the end.  No dead cell is remembered, and if all others move in the last tick,
      the history is exactly those of them that reached into the window. */
  method Run(world: World, player: Player, pool: seq<Cell>, ticks: seq<Tick>, ghost missing: set<nat>)
    returns (ghost still: set<nat>, ghost windows: seq<Window>)
    requires Settled(world, player, pool, missing) && forall t <- ticks :: forall c | c in t.moved :: c in pool
    modifies world, player, Bodies(pool)`center, Bodies(pool)`radius
    ensures Settled(world, player, pool, still) && Fewer(old(world.blocks), world.blocks)
    ensures |windows| == |ticks| + 1 && windows[0] == old(player.Sight()) && windows[|ticks|] == player.Sight()
    ensures Lasting(world.blocks, missing, still, windows[..|ticks|])
    ensures NoneDead(player, ticks)
    ensures ticks != [] && AllMove(pool, ticks) ==> Shows(player, ticks[|ticks| - 1], windows[|ticks| - 1])
    ensures player.Client() == VisibleIds(world.blocks, player.topLeft, player.bottomRight) + Ids(player.cellHistory)
      <==> still * VisibleIds(world.blocks, player.topLeft, player.bottomRight) == {}
  {
    still, windows := missing, [player.Sight()];
    var i := 0;
    ghost var history := player.cellHistory;
    while i < |ticks|
      invariant i <= |ticks| && Settled(world, player, pool, still) && Fewer(old(world.blocks), world.blocks)
      invariant |windows| == i + 1 && windows[0] == old(player.Sight()) && windows[i] == player.Sight()
      invariant Lasting(world.blocks, missing, still, windows[..i])
      invariant NoneDead(player, ticks[..i]) && (i > 0 ==> Remembered(player, history, ticks[i - 1], windows[i - 1]))
    {
      ghost var blocks, were, was := world.blocks, windows, still;
      history := player.cellHistory;
      still := PlayTick(world, player, pool, ticks[i], still);
      LastingNext(blocks, world.blocks, missing, was, were[..i], were[i]);
      NoneDeadNext(player, history, ticks[..i], ticks[i], were[i]);
      windows := were + [player.Sight()];
      i := i + 1;
      assert windows[..i] == were[..i - 1] + [were[i - 1]] && ticks[..i] == ticks[..i - 1] + [ticks[i - 1]];
    }
    assert ticks[..i] == ticks;
    if ticks != [] && AllMove(pool, ticks) {
      AllShown(player, pool, history, ticks, windows[i - 1]);
    }
    Exact(world, player, pool, still);
  }

  lemma Exact(world: World, player: Player, pool: seq<Cell>, missing: set<nat>)
    requires Settled(world, player, pool, missing)
    ensures player.Client() == VisibleIds(world.blocks, player.topLeft, player.bottomRight) + Ids(player.cellHistory)
      <==> missing * VisibleIds(world.blocks, player.topLeft, player.bottomRight) == {}
  {
    var now, history := VisibleIds(world.blocks, player.topLeft, player.bottomRight), Ids(player.cellHistory);
    VisibleWithin(world.blocks, player.topLeft, player.bottomRight);
    assert history <= Ids(pool);
    SameSets(now, missing, {}, {}, history);
    assert (now - missing) + {} + history == (now - missing) + history && now + {} + history == now + history;
  }

  /** A player joins and stays for any number of ticks.  The client then shows exactly the static
      cells of the window and the cells of the history if and only if every block that still has
      cells was outside the window some time since. */
  method JoinAndRun(world: World, cell: Cell, camera: Vec, pool: seq<Cell>, ticks: seq<Tick>)
    returns (player: Player, ghost windows: seq<Window>)
    requires world.WellPlaced() && Separate(world.blocks) && Named(pool) && Bodied(pool)
    requires AllIds(world.blocks) !! Ids(pool)
    requires forall t <- ticks :: forall c | c in t.moved :: c in pool
    modifies world, Bodies(pool)`center, Bodies(pool)`radius
    ensures |windows| == |ticks| + 1 && windows[|ticks|] == player.Sight()
    ensures player.Client() == VisibleIds(world.blocks, player.topLeft, player.bottomRight) + Ids(player.cellHistory)
      <==> AllLeft(world.blocks, windows)
    ensures NoneDead(player, ticks)
    ensures ticks != [] && AllMove(pool, ticks) ==> Shows(player, ticks[|ticks| - 1], windows[|ticks| - 1])
  {
    ghost var missing, still;
    player, missing := Join(world, cell, camera, pool);
    ghost var first := world.blocks;
    still, windows := Run(world, player, pool, ticks, missing);
    NeverSeen(first, world.blocks, missing, still, windows);
  }

  /** What is missing in sight are the cells of the blocks that were in sight all along. */
  lemma NeverSeen(first: seq<seq<Cell>>, blocks: seq<seq<Cell>>, missing: set<nat>, still: set<nat>,
      windows: seq<Window>)
    requires Separate(first) && Separate(blocks) && Fewer(first, blocks) && windows != []
    requires missing == VisibleIds(first, windows[0].start, windows[0].end)
    requires Lasting(blocks, missing, still, windows[..|windows| - 1])
    ensures var last := windows[|windows| - 1];
      still * VisibleIds(blocks, last.start, last.end) == {} <==> AllLeft(blocks, windows)
  {
    var w, last := windows[0], windows[|windows| - 1];
    LastingNext(blocks, blocks, missing, still, windows[..|windows| - 1], last);
    assert windows[..|windows| - 1] + [last] == windows;
    var lost := still * VisibleIds(blocks, last.start, last.end);
    forall b: nat, x | b < |blocks| && x in Ids(blocks[b]) ensures x in lost <==> InSight(b, windows) {
      InVisible(first, w.start, w.end, b, x);
    }
    if lost == {} {
      forall b: nat | b < |blocks| && InSight(b, windows) ensures blocks[b] == [] {
        NoIds(blocks[b]);
        assert forall x | x in Ids(blocks[b]) :: x in lost;
      }
    } else {
      var x :| x in lost;
      var b, c :| 0 <= b < |blocks| && c in blocks[b] && c.ID == x;
      assert x in Ids(blocks[b]);
    }
  }

  lemma NoIds(block: seq<Cell>)
    ensures block == [] <==> forall x :: x !in Ids(block)
  {
    if block != [] {
      assert block[0] in block;
      assert block[0].ID in Ids(block);
    }
  }
}
