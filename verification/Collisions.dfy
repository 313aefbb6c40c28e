/**
 The collision loops of a player: eating and being eaten, being popped by a virus, splitting.
 */
module Collisions {
  import opened Lists
  import opened Balls
  import opened Meals

  /** Collide: how deep the two cells overlap, and then their sizes, decide. */
  method Collide(space: Space, a: Ball, b: Ball) returns (r: Collision)
    ensures r == Collided(space, a, b)
  {
    var ra, rb := space.radius(a.size), space.radius(b.size);
    var distance := space.distance(a.id, b.id);
    var sumR := rb + ra;
    var smallD := 2.0 * if ra < rb then ra else rb;
    var overlap := sumR - distance;
    if overlap >= 0.0 {
      if overlap > 0.75 * smallD {
        if a.size > 1.3333 * b.size {
          return BIGGER;
        } else if a.size < 0.75 * b.size {
          return SMALLER;
        }
        return OVERLAP;
      }
      return TOUCH;
    }
    return NONE;
  }

  // ---------- the arena ----------

  /** The dynamic cells, the removals reported this tick, and the next identifier. */
  class Arena {
    var dynamicMap: seq<Ball>
    var removed: seq<nat>
    var nextId: nat

    constructor (dynamicMap: seq<Ball>, nextId: nat)
      ensures this.dynamicMap == dynamicMap && removed == [] && this.nextId == nextId
    {
      this.dynamicMap, removed, this.nextId := dynamicMap, [], nextId;
    }

    method NewId() returns (id: nat)
      modifies this`nextId
      ensures id == old(nextId) && nextId == old(nextId) + 1
    {
      id := nextId;
      nextId := nextId + 1;
    }
  }

  /** The cells of one player. */
  class Team {
    var cells: seq<Ball>

    constructor (cells: seq<Ball>)
      ensures this.cells == cells
    {
      this.cells := cells;
    }

    /** The two lists of the loop. */
    ghost function InArena(arena: Arena): Table
      reads this, arena
    {
      Table(cells, arena.dynamicMap, arena.nextId, arena.removed)
    }

    /** How often an identifier is in play, in the arena, or reported as removed. */
    ghost function Copies(arena: Arena, id: nat): nat
      reads this, arena
    {
      Meals.Copies(InArena(arena), id)
    }

    ghost predicate Healthy(arena: Arena)
      reads this, arena
    {
      Sound(cells) && Sound(arena.dynamicMap) && |cells| <= MAX_CELLS
    }

    // ---------- small steps ----------

    /** AddSize of the cell at a place */
    method Resize(i: nat, size: real)
      requires i < |cells| && size >= 0.0
      modifies this
      ensures cells == old(cells)[i := old(cells)[i].(size := size)]
      ensures Total(cells) == old(Total(cells)) - old(cells)[i].size + size
      ensures forall id :: Count(cells, id) == old(Count(cells, id))
      ensures old(Sound(cells)) ==> Sound(cells)
    {
      Resized(cells, i, size);
      cells := cells[i := cells[i].(size := size)];
    }

    /** The cell at a place is gone. */
    method Drop(i: nat) returns (b: Ball)
      requires i < |cells|
      modifies this
      ensures b == old(cells)[i] && cells == Without(old(cells), i) && Total(cells) == old(Total(cells)) - b.size
      ensures forall id :: old(Count(cells, id)) == Count(cells, id) + if b.id == id then 1 else 0
      ensures old(Sound(cells)) ==> Sound(cells) && b.size >= 0.0
    {
      Taken(cells, i);
      b := cells[i];
      cells := Without(cells, i);
    }

    method Push(b: Ball)
      requires b.size >= 0.0
      modifies this
      ensures cells == old(cells) + [b]
      ensures Total(cells) == old(Total(cells)) + b.size
      ensures forall id :: Count(cells, id) == old(Count(cells, id)) + if b.id == id then 1 else 0
      ensures old(Sound(cells)) ==> Sound(cells)
    {
      Pushed(cells, b);
      cells := cells + [b];
    }

    /** Every identifier is where it was at first, once more if it was given out since. */
    ghost predicate Grew(arena: Arena, first: multiset<nat>, from: nat)
      reads this, arena
    {
      Meals.Grew(InArena(arena), first, from)
    }

    /** A new cell with a fresh identifier. */
    method Spawn(arena: Arena, size: real, ghost first: multiset<nat>, ghost from: nat)
      requires Healthy(arena) && |cells| < MAX_CELLS && size >= 0.0 && Grew(arena, first, from)
      modifies this, arena`nextId
      ensures Healthy(arena) && cells == old(cells) + [Ball(old(arena.nextId), size, false, false)]
      ensures arena.nextId == old(arena.nextId) + 1
      ensures Total(cells) == old(Total(cells)) + size && Grew(arena, first, from)
    {
      var id := arena.NewId();
      Push(Ball(id, size, false, false));
    }

    // ---------- popped by a virus ----------

    /** The cell at `i` is popped: up to four big parts, each taken off the one before, then small
        cells out of what is left of it.  `big` and `small` count them.  The player gains a fifth
        of whatever is cut, half of what the cuts take from the size in all. */
    method Pop(arena: Arena, i: nat, ghost first: multiset<nat>, ghost from: nat)
      returns (ghost big: nat, ghost small: nat)
      requires Healthy(arena) && i < |cells| && Grew(arena, first, from)
      modifies this, arena`nextId
      ensures Healthy(arena) && Grew(arena, first, from)
      ensures BigPops(old(cells)[i].size, Least(4, MAX_CELLS - old(|cells|)), big)
      ensures small == SmallBalls(FirstPart(old(cells)[i].size, big), MAX_CELLS - old(|cells|) - big)
      ensures arena.nextId == old(arena.nextId) + big + small
      ensures cells == Popped(old(cells), i, big, small, old(arena.nextId))
      ensures Total(cells)
        == old(Total(cells)) + (old(cells)[i].size - Cut(old(cells)[i].size, big)) / 2.0 >= old(Total(cells))
    {
      big, small := PopParts(arena, i, first, from);
      CutShrinks(old(cells)[i].size, big);
    }

    /** Both loops. */
    method PopParts(arena: Arena, i: nat, ghost first: multiset<nat>, ghost from: nat)
      returns (ghost big: nat, ghost small: nat)
      requires Healthy(arena) && i < |cells| && Grew(arena, first, from)
      modifies this, arena`nextId
      ensures Healthy(arena) && Grew(arena, first, from)
      ensures BigPops(old(cells)[i].size, Least(4, MAX_CELLS - old(|cells|)), big)
      ensures small == SmallBalls(FirstPart(old(cells)[i].size, big), MAX_CELLS - old(|cells|) - big)
      ensures arena.nextId == old(arena.nextId) + big + small
      ensures cells == Popped(old(cells), i, big, small, old(arena.nextId))
      ensures Total(cells) == old(Total(cells)) + (old(cells)[i].size - Cut(old(cells)[i].size, big)) / 2.0
    {
      ghost var were, next := cells, arena.nextId;
      big := PopBig(arena, i, first, from);
      small := PopSmall(arena, i, first, from);
      PoppedParts(were, i, big, small, next);
    }

    /** The first loop: the part that was taken off last is the one to take the next part off. */
    method PopBig(arena: Arena, i: nat, ghost first: multiset<nat>, ghost from: nat) returns (ghost big: nat)
      requires Healthy(arena) && i < |cells| && Grew(arena, first, from)
      modifies this, arena`nextId
      ensures Healthy(arena) && Grew(arena, first, from) && arena.nextId == old(arena.nextId) + big
      ensures BigPops(old(cells)[i].size, Least(4, MAX_CELLS - old(|cells|)), big)
      ensures cells == CutUp(old(cells), i, big, old(arena.nextId))
      ensures Total(cells) == old(Total(cells)) + (old(cells)[i].size - Cut(old(cells)[i].size, big)) / 2.0
    {
      var popCell: nat, bigPop := i, 0;
      ghost var were, next := cells, arena.nextId;
      ghost var s := cells[i].size;
      assert cells == CutUp(were, i, 0, next);
      while cells[popCell].size > 500.0 && bigPop < 4 && |cells| < MAX_CELLS
        invariant Healthy(arena) && Grew(arena, first, from) && arena.nextId == next + bigPop
        invariant 0 <= bigPop <= Least(4, MAX_CELLS - |were|)
        invariant popCell == (if bigPop == 0 then i else |were| + bigPop - 1)
        invariant cells == CutUp(were, i, bigPop, next) && forall k | 0 <= k < bigPop :: Cut(s, k) > 500.0
        invariant Total(cells) == Total(were) + (s - Cut(s, bigPop)) / 2.0
        decreases 4 - bigPop
      {
        PopOne(arena, popCell, were, i, bigPop, next, first, from);
        bigPop := bigPop + 1;
        popCell := |cells| - 1;
      }
      big := bigPop;
    }

    /** One more part is taken off. */
    method PopOne(arena: Arena, popCell: nat, ghost were: seq<Ball>, ghost i: nat, ghost big: nat, ghost next: nat,
        ghost first: multiset<nat>, ghost from: nat)
      requires Healthy(arena) && |cells| < MAX_CELLS && Grew(arena, first, from) && i < |were|
      requires arena.nextId == next + big
      requires cells == CutUp(were, i, big, next) && popCell == if big == 0 then i else |were| + big - 1
      modifies this, arena`nextId
      ensures Healthy(arena) && Grew(arena, first, from) && arena.nextId == next + big + 1
      ensures cells == CutUp(were, i, big + 1, next)
      ensures Total(cells) == old(Total(cells)) + (Cut(were[i].size, big) - Cut(were[i].size, big + 1)) / 2.0
    {
      CutUpNext(were, i, big, next);
      Halve(arena, popCell, 0.4, first, from);
    }

    /** A part of the cell at `i` becomes a cell of its own, of the rest of the size it had. */
    method Halve(arena: Arena, i: nat, ratio: real, ghost first: multiset<nat>, ghost from: nat)
      requires Healthy(arena) && i < |cells| < MAX_CELLS && 0.0 <= ratio <= 1.0 && Grew(arena, first, from)
      modifies this, arena`nextId
      ensures Healthy(arena) && Grew(arena, first, from) && arena.nextId == old(arena.nextId) + 1
      ensures cells == Halved(old(cells), i, ratio, old(arena.nextId))
      ensures Total(cells) == old(Total(cells)) + Gain(old(cells)[i].size, ratio)
    {
      var size := cells[i].size;
      Portion(size, ratio);
      HalvedParts(cells, i, ratio, size * ratio, size * (1.0 - ratio), arena.nextId);
      MoveOut(arena, i, size * ratio, size * (1.0 - ratio), first, from);
    }

    method MoveOut(arena: Arena, i: nat, part: real, rest: real, ghost first: multiset<nat>, ghost from: nat)
      requires Healthy(arena) && i < |cells| < MAX_CELLS && Grew(arena, first, from) && part <= cells[i].size
      requires rest >= 0.0
      modifies this, arena`nextId
      ensures Healthy(arena) && Grew(arena, first, from) && arena.nextId == old(arena.nextId) + 1
      ensures cells
        == old(cells)[i := old(cells)[i].(size := old(cells)[i].size - part)]
          + [Ball(old(arena.nextId), rest, false, false)]
      ensures Total(cells) == old(Total(cells)) - part + rest
    {
      Resize(i, cells[i].size - part);
      Spawn(arena, rest, first, from);
    }

    /** The small cells that fit come out of the cell at `i`. */
    method PopSmall(arena: Arena, i: nat, ghost first: multiset<nat>, ghost from: nat) returns (ghost small: nat)
      requires Healthy(arena) && i < |cells| && Grew(arena, first, from)
      modifies this, arena`nextId
      ensures Healthy(arena) && Grew(arena, first, from) && Total(cells) == old(Total(cells))
      ensures small == SmallBalls(old(cells)[i].size, MAX_CELLS - old(|cells|))
      ensures arena.nextId == old(arena.nextId) + small
      ensures cells == Crumbled(old(cells), i, small, old(arena.nextId))
    {
      var popSize := cells[i].size;
      var fits := (popSize / PLAYER_MIN_SIZE).Floor;
      var smallBalls := if MAX_CELLS - |cells| < fits then MAX_CELLS - |cells| else fits;
      assert popSize / PLAYER_MIN_SIZE >= 0.0;
      small := smallBalls;
      if smallBalls > 0 {
        var share := popSize / smallBalls as real;
        var sizeSmall := if 2.0 * PLAYER_MIN_SIZE < share then 2.0 * PLAYER_MIN_SIZE else share;
        TakeSmall(arena, i, smallBalls, sizeSmall, first, from);
      } else {
        NoneCrumbled(cells, i, arena.nextId);
      }
    }

    method TakeSmall(arena: Arena, i: nat, n: nat, each: real, ghost first: multiset<nat>, ghost from: nat)
      requires Healthy(arena) && i < |cells| && Grew(arena, first, from) && |cells| + n <= MAX_CELLS
      requires n > 0 && each == SmallSize(cells[i].size, n)
      modifies this, arena`nextId
      ensures Healthy(arena) && Grew(arena, first, from) && Total(cells) == old(Total(cells))
      ensures cells == Crumbled(old(cells), i, n, old(arena.nextId)) && arena.nextId == old(arena.nextId) + n
    {
      SmallTotal(cells[i].size, n);
      var taken := Product(n, each);
      Resize(i, cells[i].size - taken);
      SpawnMany(arena, n, each, first, from);
    }

    method SpawnMany(arena: Arena, n: nat, size: real, ghost first: multiset<nat>, ghost from: nat)
      requires Healthy(arena) && |cells| + n <= MAX_CELLS && size >= 0.0 && Grew(arena, first, from)
      modifies this, arena`nextId
      ensures Healthy(arena) && Grew(arena, first, from) && cells == old(cells) + Row(n, size, old(arena.nextId))
      ensures Total(cells) == old(Total(cells)) + Repeated(n, size) && arena.nextId == old(arena.nextId) + n
    {
      var x := 0;
      while x < n
        invariant 0 <= x <= n && Healthy(arena) && Grew(arena, first, from) && arena.nextId == old(arena.nextId) + x
        invariant cells == old(cells) + Row(x, size, old(arena.nextId))
        invariant Total(cells) == old(Total(cells)) + Repeated(x, size)
      {
        RowNext(old(cells), x, size, old(arena.nextId));
        Spawn(arena, size, first, from);
        x := x + 1;
      }
    }

    // ---------- the arena's cells ----------

    /** What this player and the arena weigh together. */
    ghost function Mass(arena: Arena): real
      reads this, arena
    {
      Total(cells) + Total(arena.dynamicMap)
    }

    /** The cell at `i` eats the dynamic cell at `k`, which is reported. */
    method EatDynamic(arena: Arena, i: nat, k: nat, ghost first: multiset<nat>, ghost from: nat)
      requires Healthy(arena) && i < |cells| && k < |arena.dynamicMap| && Grew(arena, first, from)
      modifies this, arena`dynamicMap, arena`removed
      ensures Healthy(arena) && Grew(arena, first, from) && Mass(arena) == old(Mass(arena))
      ensures InArena(arena) == Ate(old(InArena(arena)), i, k)
    {
      ghost var t := InArena(arena);
      var d := arena.dynamicMap[k];
      AteKeeps(PLAYERS, t, i, k);
      KeptGrew(PLAYERS, t, Ate(t, i, k), first, from);
      cells := cells[i := cells[i].(size := cells[i].size + d.size)];
      arena.removed := arena.removed + [d.id];
      arena.dynamicMap := Without(arena.dynamicMap, k);
    }

    /** The cell at `i` is eaten by the dynamic cell at `k`, and reported. */
    method FeedDynamic(arena: Arena, i: nat, k: nat, ghost first: multiset<nat>, ghost from: nat)
      requires Healthy(arena) && i < |cells| && k < |arena.dynamicMap| && Grew(arena, first, from)
      modifies this, arena`dynamicMap, arena`removed
      ensures Healthy(arena) && Grew(arena, first, from) && Mass(arena) == old(Mass(arena))
      ensures InArena(arena) == Fed(old(InArena(arena)), i, k)
    {
      ghost var t := InArena(arena);
      var cell, d := cells[i], arena.dynamicMap[k];
      FedKeeps(PLAYERS, t, i, k);
      KeptGrew(PLAYERS, t, Fed(t, i, k), first, from);
      arena.dynamicMap := arena.dynamicMap[k := d.(size := d.size + cell.size)];
      arena.removed := arena.removed + [cell.id];
      cells := Without(cells, i);
    }

    /** The virus that the cell at `i` ate pops it. */
    method PopEater(arena: Arena, i: nat, ghost first: multiset<nat>, ghost from: nat)
      requires Healthy(arena) && i < |cells| && Grew(arena, first, from)
      modifies this, arena`nextId
      ensures Healthy(arena) && Grew(arena, first, from) && Mass(arena) >= old(Mass(arena))
      ensures InArena(arena) == Burst(old(InArena(arena)), i)
    {
      ghost var t := InArena(arena);
      ghost var big, small := Pop(arena, i, first, from);
      BurstIs(t, i, big, small, InArena(arena));
    }

    ghost predicate NoVirus(arena: Arena)
      reads arena
    {
      forall b <- arena.dynamicMap :: !b.virus
    }

    /** Comparing dynamic cells has come to the cells at `i` and `k`. */
    ghost predicate Met(arena: Arena, space: Space, first: multiset<nat>, from: nat, was: Table, log: seq<Look>,
        i: nat, k: nat)
      reads this, arena
    {
      Healthy(arena) && Grew(arena, first, from) && Played(space, ARENA, was, log, InArena(arena), i, k)
    }

    /** The cell at `i` is the bigger one: it eats, and a virus may pop it. */
    method Devour(arena: Arena, space: Space, i: nat, k: nat, ghost first: multiset<nat>, ghost from: nat,
        ghost was: Table, ghost log: seq<Look>)
      returns (popped: bool)
      requires Met(arena, space, first, from, was, log, i, k) && i < |cells| && k < |arena.dynamicMap|
      requires Collided(space, cells[i], arena.dynamicMap[k]) == BIGGER
      modifies this, arena
      ensures Met(arena, space, first, from, was, log + [Look(i, k, BIGGER)], i, if popped then 0 else k)
      ensures |arena.dynamicMap| == old(|arena.dynamicMap|) - 1 && i < |cells|
      ensures !popped ==> |cells| == old(|cells|) && Mass(arena) == old(Mass(arena))
      ensures popped ==> Mass(arena) >= old(Mass(arena)) && !old(NoVirus(arena))
      ensures old(NoVirus(arena)) ==> NoVirus(arena)
    {
      ghost var look, u := Look(i, k, BIGGER), InArena(arena);
      var d := arena.dynamicMap[k];
      assert Fair(space, u, look);
      EatDynamic(arena, i, k, first, from);
      popped := d.virus && |cells| < MAX_CELLS;
      if popped {
        PopEater(arena, i, first, from);
        PlayedBurst(space, ARENA, was, log, u, i, k, look);
      } else {
        PlayedAte(space, ARENA, was, log, u, i, k, look);
      }
    }

    /** The cell at `i` is the smaller one, and is eaten. */
    method Perish(arena: Arena, space: Space, i: nat, k: nat, ghost first: multiset<nat>, ghost from: nat,
        ghost was: Table, ghost log: seq<Look>)
      requires Met(arena, space, first, from, was, log, i, k) && i < |cells| && k < |arena.dynamicMap|
      requires Collided(space, cells[i], arena.dynamicMap[k]) == SMALLER
      requires !(arena.dynamicMap[k].food || arena.dynamicMap[k].virus)
      modifies this, arena`dynamicMap, arena`removed
      ensures Met(arena, space, first, from, was, log + [Look(i, k, SMALLER)], i, 0)
      ensures |arena.dynamicMap| == old(|arena.dynamicMap|) && |cells| == old(|cells|) - 1
      ensures Mass(arena) == old(Mass(arena)) && (old(NoVirus(arena)) ==> NoVirus(arena))
    {
      ghost var look, u := Look(i, k, SMALLER), InArena(arena);
      assert Fair(space, u, look);
      FeedDynamic(arena, i, k, first, from);
      PlayedFed(space, ARENA, was, log, u, i, k, look);
    }

    /** The inner loop of CollideDynamic for the cell at `myLoop`; the result is where the outer loop stands. */
    method CollideCell(arena: Arena, space: Space, myLoop: nat, ghost first: multiset<nat>, ghost from: nat,
        ghost was: Table, ghost looks: seq<Look>)
      returns (at: int, ghost log: seq<Look>)
      requires Met(arena, space, first, from, was, looks, myLoop, 0) && myLoop < |cells|
      modifies this, arena
      ensures -1 <= at < |cells| && at <= myLoop && Met(arena, space, first, from, was, log, at + 1, 0)
      ensures |arena.dynamicMap| <= old(|arena.dynamicMap|)
      ensures |arena.dynamicMap| == old(|arena.dynamicMap|) ==> |cells| - (at + 1) < old(|cells|) - myLoop
      ensures Mass(arena) >= old(Mass(arena))
      ensures old(NoVirus(arena)) ==> NoVirus(arena) && Mass(arena) == old(Mass(arena))
    {
      at, log := myLoop, looks;
      var loop := 0;
      ghost var size, mass, quiet := |cells|, Mass(arena), NoVirus(arena);
      while loop < |arena.dynamicMap|
        invariant 0 <= loop <= |arena.dynamicMap| <= old(|arena.dynamicMap|) && |cells| == size
        invariant Mass(arena) == mass && (quiet ==> NoVirus(arena))
        invariant Met(arena, space, first, from, was, log, myLoop, loop)
        decreases |arena.dynamicMap| - loop
      {
        var d := arena.dynamicMap[loop];
        var result := Collide(space, cells[myLoop], d);
        ghost var past := log;
        log := log + [Look(myLoop, loop, result)];
        if result == BIGGER {
          var popped := Devour(arena, space, myLoop, loop, first, from, was, past);
          loop := loop - 1;
          if popped {
            at := myLoop - 1;
            return;
          }
        } else if result == SMALLER && !(d.food || d.virus) {
          Perish(arena, space, myLoop, loop, first, from, was, past);
          at := myLoop - 1;
          return;
        } else {
          PlayedSpared(space, ARENA, was, past, InArena(arena), myLoop, loop, Look(myLoop, loop, result));
        }
        loop := loop + 1;
      }
      PlayedRow(space, ARENA, was, log, InArena(arena), myLoop);
    }

    /** No identifier is in two places: nothing that was reported is in play, or reported again. */
    ghost predicate Once(arena: Arena)
      reads this, arena
    {
      forall id: nat :: Copies(arena, id) <= 1 && (Copies(arena, id) == 1 ==> id < arena.nextId)
    }

    /** CollideDynamic: ends whatever overlaps, keeps the player at sixteen cells at most, and
        reports everything that disappears, once.  `log` is what was compared, in order: it leads
        from the table there was to the one there is, and no two cells left were passed over. */
    method CollideDynamic(arena: Arena, space: Space) returns (ghost log: seq<Look>)
      requires Healthy(arena)
      modifies this, arena
      ensures Healthy(arena) && old(arena.nextId) <= arena.nextId
      ensures Played(space, ARENA, old(InArena(arena)), log, InArena(arena), |cells|, 0)
      ensures forall id :: Copies(arena, id) == old(Copies(arena, id)) + Born(old(arena.nextId), arena.nextId, id)
      ensures old(Once(arena)) ==> Once(arena)
      ensures Mass(arena) >= old(Mass(arena)) && (old(NoVirus(arena)) ==> Mass(arena) == old(Mass(arena)))
    {
      ghost var first := Everyone(arena);
      ghost var from := arena.nextId;
      ghost var was := InArena(arena);
      log := [];
      var myLoop := 0;
      while myLoop < |cells|
        invariant 0 <= myLoop <= |cells| && Healthy(arena) && Grew(arena, first, from)
        invariant Played(space, ARENA, was, log, InArena(arena), myLoop, 0)
        invariant Mass(arena) >= old(Mass(arena))
        decreases |arena.dynamicMap|, |cells| - myLoop
      {
        var at;
        at, log := CollideCell(arena, space, myLoop, first, from, was, log);
        myLoop := at + 1;
      }
      QuietMass(arena, space, was, log);
    }

    lemma QuietMass(arena: Arena, space: Space, was: Table, log: seq<Look>)
      requires Sound(was.mine) && Sound(was.theirs) && Run(space, ARENA, was, log) == Some(InArena(arena))
      ensures (forall b <- was.theirs :: !b.virus) ==> Mass(arena) == Total(was.mine) + Total(was.theirs)
    {
      if forall b <- was.theirs :: !b.virus {
        RunKeeps(space, ARENA, was, log);
      }
    }

    // ---------- splitting ----------

    /** The split of Update: every cell big enough, as far as there is room, becomes two of half its size. */
    method Split(arena: Arena) returns (ghost upTo: nat)
      requires Healthy(arena)
      modifies this, arena`nextId
      ensures upTo <= old(|cells|) && SplitTo(old(cells), upTo) && (upTo < old(|cells|) ==> |cells| == MAX_CELLS)
      ensures Healthy(arena) && |cells| >= old(|cells|) && Total(cells) == old(Total(cells))
      ensures forall k | 0 <= k < old(|cells|) :: cells[k] == old(cells)[k] || HalfOf(cells[k], old(cells)[k])
      ensures |cells| < MAX_CELLS ==> forall k | 0 <= k < old(|cells|) ::
        HalfOf(cells[k], old(cells)[k]) || !Splits(old(cells)[k])
      ensures old(arena.nextId) <= arena.nextId
      ensures forall id :: Copies(arena, id) == old(Copies(arena, id)) + Born(old(arena.nextId), arena.nextId, id)
    {
      ghost var first, from := Everyone(arena), arena.nextId;
      upTo := SplitCells(arena, cells, first, from);
      SplitMeans(old(cells), upTo);
    }

    method SplitCells(arena: Arena, ghost were: seq<Ball>, ghost first: multiset<nat>, ghost from: nat)
      returns (ghost upTo: nat)
      requires Healthy(arena) && Grew(arena, first, from) && were == cells
      modifies this, arena`nextId
      ensures Healthy(arena) && Grew(arena, first, from) && Total(cells) == old(Total(cells))
      ensures upTo <= |were| && SplitTo(were, upTo) && (upTo < |were| ==> |cells| == MAX_CELLS)
    {
      var originalSize := |cells|;
      var x := 0;
      while x < originalSize && |cells| < MAX_CELLS
        invariant 0 <= x <= originalSize && Healthy(arena) && Grew(arena, first, from)
        invariant Total(cells) == old(Total(cells)) && SplitTo(were, x)
      {
        if Splits(cells[x]) {
          SplitOne(arena, x, were, first, from);
        } else {
          SplitNone(were, x);
        }
        x := x + 1;
      }
      upTo := x;
    }

    lemma SplitNone(were: seq<Ball>, x: nat)
      requires x < |were| && SplitTo(were, x) && !Splits(cells[x])
      ensures SplitTo(were, x + 1)
    {
      SplittingNext(were, x);
    }

    lemma SplitMeans(were: seq<Ball>, x: nat)
      requires x <= |were| && SplitTo(were, x) && (x < |were| ==> |cells| >= MAX_CELLS)
      ensures forall k | 0 <= k < |were| :: cells[k] == were[k] || HalfOf(cells[k], were[k])
      ensures |cells| < MAX_CELLS ==> forall k | 0 <= k < |were| :: HalfOf(cells[k], were[k]) || !Splits(were[k])
    {
    }

    /** The first `x` of the cells there were are split, as far as they are big enough, and for each of
        those there is one cell more. */
    ghost predicate SplitTo(were: seq<Ball>, x: nat)
      requires x <= |were|
      reads this
    {
      |cells| == |were| + Splitting(were[..x])
      && (forall k | x <= k < |were| :: cells[k] == were[k])
      && forall k | 0 <= k < x :: if Splits(were[k]) then HalfOf(cells[k], were[k]) else cells[k] == were[k]
    }

    method SplitOne(arena: Arena, x: nat, ghost were: seq<Ball>, ghost first: multiset<nat>, ghost from: nat)
      requires Healthy(arena) && |cells| < MAX_CELLS && Grew(arena, first, from)
      requires x < |were| && SplitTo(were, x) && Splits(cells[x])
      modifies this, arena`nextId
      ensures Healthy(arena) && Grew(arena, first, from) && Total(cells) == old(Total(cells)) && SplitTo(were, x + 1)
    {
      SplittingNext(were, x);
      Halve(arena, x, 0.5, first, from);
    }

    /** The identifiers as a multiset. */
    ghost function Everyone(arena: Arena): (m: multiset<nat>)
      reads this, arena
      ensures forall id :: m[id] == Copies(arena, id)
    {
      CensusCounts(cells);
      CensusCounts(arena.dynamicMap);
      Census(cells) + Census(arena.dynamicMap) + multiset(arena.removed)
    }

    // ---------- two players ----------

    /** How often an identifier is with either player or reported as removed. */
    ghost function Between(other: Team, arena: Arena, id: nat): nat
      reads this, other, arena
    {
      Count(cells, id) + Count(other.cells, id) + Times(arena.removed, id)
    }

    /** The two lists of the loop. */
    ghost function Against(other: Team, arena: Arena): Table
      reads this, other, arena
    {
      Table(cells, other.cells, arena.nextId, arena.removed)
    }

    /** The cell at `i` eats the other player's cell at `k`, which is reported. */
    method EatOther(other: Team, arena: Arena, i: nat, k: nat)
      requires other != this && i < |cells| && k < |other.cells| && Sound(cells) && Sound(other.cells)
      modifies this, other, arena`removed
      ensures Against(other, arena) == Ate(old(Against(other, arena)), i, k)
      ensures Sound(cells) && Sound(other.cells)
    {
      var b := other.Drop(k);
      Resize(i, cells[i].size + b.size);
      arena.removed := arena.removed + [b.id];
    }

    /** CollideOtherPlayer for one opponent. */
    method CollideTeam(other: Team, arena: Arena, space: Space) returns (ghost log: seq<Look>)
      requires other != this && Sound(cells) && Sound(other.cells)
      modifies this, other, arena`removed
      ensures Sound(cells) && Sound(other.cells)
      ensures Played(space, PLAYERS, old(Against(other, arena)), log, Against(other, arena), |cells|, 0)
      ensures |cells| <= old(|cells|) && |other.cells| <= old(|other.cells|)
      ensures Total(cells) + Total(other.cells) == old(Total(cells) + Total(other.cells))
      ensures forall id :: Between(other, arena, id) == old(Between(other, arena, id))
    {
      var myLoop := 0;
      log := [];
      ghost var was := Against(other, arena);
      while myLoop < |cells|
        invariant 0 <= myLoop <= |cells| && Sound(cells) && Sound(other.cells)
        invariant Played(space, PLAYERS, was, log, Against(other, arena), myLoop, 0)
        decreases |cells| - myLoop
      {
        var at;
        at, log := CollideWith(other, arena, space, myLoop, was, log);
        myLoop := at + 1;
      }
      RunKeeps(space, PLAYERS, was, log);
      forall id ensures Between(other, arena, id) == old(Between(other, arena, id)) {
        assert Meals.Copies(Against(other, arena), id) == Meals.Copies(was, id);
      }
    }

    /** The inner loop for the cell at `myLoop`; the result is where the outer loop stands. */
    method CollideWith(other: Team, arena: Arena, space: Space, myLoop: nat, ghost was: Table, ghost looks: seq<Look>)
      returns (at: int, ghost log: seq<Look>)
      requires other != this && Sound(cells) && Sound(other.cells) && myLoop < |cells|
      requires Played(space, PLAYERS, was, looks, Against(other, arena), myLoop, 0)
      modifies this, other, arena`removed
      ensures Sound(cells) && Sound(other.cells)
      ensures -1 <= at < |cells| && |cells| - (at + 1) < old(|cells|) - myLoop
      ensures Played(space, PLAYERS, was, log, Against(other, arena), at + 1, 0)
    {
      at, log := myLoop, looks;
      var loop := 0;
      while loop < |other.cells|
        invariant 0 <= loop <= |other.cells| && |cells| == old(|cells|) && Sound(cells) && Sound(other.cells)
        invariant Played(space, PLAYERS, was, log, Against(other, arena), myLoop, loop)
        decreases |other.cells| - loop
      {
        var result := Collide(space, cells[myLoop], other.cells[loop]);
        ghost var look, u, past := Look(myLoop, loop, result), Against(other, arena), log;
        assert Fair(space, u, look);
        log := log + [look];
        if result == BIGGER {
          EatOther(other, arena, myLoop, loop);
          PlayedAte(space, PLAYERS, was, past, u, myLoop, loop, look);
          loop := loop - 1;
        } else if result == SMALLER {
          other.EatOther(this, arena, loop, myLoop);
          PlayedFed(space, PLAYERS, was, past, u, myLoop, loop, look);
          at := myLoop - 1;
          return;
        } else {
          PlayedSpared(space, PLAYERS, was, past, u, myLoop, loop, look);
        }
        loop := loop + 1;
      }
      PlayedRow(space, PLAYERS, was, log, Against(other, arena), myLoop);
    }
  }

  // ---------- all players ----------

  ghost predicate Apart(teams: seq<Team>) {
    forall i, j | 0 <= i < j < |teams| :: teams[i] != teams[j]
  }

  /** The cells of all players, the next identifier and what was reported. */
  ghost function GameOf(teams: seq<Team>, arena: Arena): (g: Game)
    reads teams, arena
    ensures |g.lists| == |teams| && forall k | 0 <= k < |teams| :: g.lists[k] == teams[k].cells
    ensures g.next == arena.nextId && g.removed == arena.removed
  {
    Game(seq(|teams|, k requires 0 <= k < |teams| reads teams => teams[k].cells), arena.nextId, arena.removed)
  }

  /** Complete runs with the players between `i` and `x`, one each, lead from `g` to `h`. */
  ghost predicate Turns(space: Space, g: Game, i: nat, x: nat, logs: seq<seq<Look>>, h: Game) {
    i < x <= |g.lists| && x == i + 1 + |logs| && Rounds(space, g, i, logs) == Some(h)
  }

  /** CollideOtherPlayer for the player at `i`: against every later one.  `logs` is what was compared
      with each of them, in order. */
  method CollideOtherPlayer(teams: seq<Team>, i: nat, arena: Arena, space: Space) returns (ghost logs: seq<seq<Look>>)
    requires Apart(teams) && AllSound(GameOf(teams, arena).lists) && i < |teams|
    modifies set t | t in teams :: t, arena`removed
    ensures Turns(space, old(GameOf(teams, arena)), i, |teams|, logs, GameOf(teams, arena))
    ensures KeptAll(old(GameOf(teams, arena)), GameOf(teams, arena))
  {
    ghost var g := GameOf(teams, arena);
    logs := [];
    var x := i + 1;
    while x < |teams|
      invariant i < x <= |teams| && AllSound(GameOf(teams, arena).lists)
      invariant Turns(space, g, i, x, logs, GameOf(teams, arena))
    {
      logs := CollideNext(teams, i, x, arena, space, g, logs);
      x := x + 1;
    }
    RoundsKeep(space, g, i, logs, GameOf(teams, arena));
  }

  method CollideNext(teams: seq<Team>, i: nat, x: nat, arena: Arena, space: Space, ghost g: Game,
      ghost past: seq<seq<Look>>)
    returns (ghost logs: seq<seq<Look>>)
    requires Apart(teams) && AllSound(GameOf(teams, arena).lists) && i < x < |teams| && |g.lists| == |teams|
    requires Turns(space, g, i, x, past, GameOf(teams, arena))
    modifies set t | t in teams :: t, arena`removed
    ensures AllSound(GameOf(teams, arena).lists)
    ensures Turns(space, g, i, x + 1, logs, GameOf(teams, arena))
  {
    ghost var h, log := GameOf(teams, arena), [];
    log := CollidePair(teams, i, x, arena, space);
    RoundMore(space, g, i, past, h, log, teams[i].Against(teams[x], arena));
    logs := past + [log];
  }

  method CollidePair(teams: seq<Team>, i: nat, x: nat, arena: Arena, space: Space) returns (ghost log: seq<Look>)
    requires Apart(teams) && AllSound(GameOf(teams, arena).lists) && i < x < |teams|
    modifies set t | t in teams :: t, arena`removed
    ensures AllSound(GameOf(teams, arena).lists)
    ensures GameOf(teams, arena) == old(GameOf(teams, arena)).With(i, x, teams[i].Against(teams[x], arena))
    ensures Played(space, PLAYERS, old(GameOf(teams, arena)).Pair(i, x), log, teams[i].Against(teams[x], arena),
      |teams[i].cells|, 0)
  {
    var me, other := teams[i], teams[x];
    ghost var g := GameOf(teams, arena);
    assert me in teams && other in teams && g.lists[i] in g.lists && g.lists[x] in g.lists;
    log := me.CollideTeam(other, arena, space);
    forall k: nat | k < |teams| && k != i && k != x ensures teams[k].cells == g.lists[k] {
      Distinct(teams, k, i);
      Distinct(teams, k, x);
    }
    ghost var h := g.With(i, x, me.Against(other, arena));
    assert GameOf(teams, arena).lists == h.lists;
    assert forall l <- h.lists :: l in g.lists || l == me.cells || l == other.cells;
  }

  lemma Distinct(teams: seq<Team>, i: nat, j: nat)
    requires Apart(teams) && i < |teams| && j < |teams| && i != j
    ensures teams[i] != teams[j]
  {
    assert if i < j then teams[i] != teams[j] else teams[j] != teams[i];
  }
}
