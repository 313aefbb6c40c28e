/**
 Who eats whom: a run of the collision loops as the list of the collisions looked at.
 */
module Meals {
  import opened Lists
  import opened Balls

  datatype Collision = NONE | TOUCH | OVERLAP | BIGGER | SMALLER

  /** How far the cells with two identifiers are apart, and the radius that goes with a size. */
  datatype Space = Space(distance: (nat, nat) -> real, radius: real -> real)

  /** How deep two cells overlap; negative for two that do not touch. */
  function Overlap(space: Space, a: Ball, b: Ball): real {
    space.radius(b.size) + space.radius(a.size) - space.distance(a.id, b.id)
  }

  function SmallDiameter(space: Space, a: Ball, b: Ball): real {
    2.0 * if space.radius(a.size) < space.radius(b.size) then space.radius(a.size) else space.radius(b.size)
  }

  function Collided(space: Space, a: Ball, b: Ball): Collision {
    if Overlap(space, a, b) < 0.0 then NONE
    else if Overlap(space, a, b) <= 0.75 * SmallDiameter(space, a, b) then TOUCH
    else if a.size > 1.3333 * b.size then BIGGER
    else if a.size < 0.75 * b.size then SMALLER
    else OVERLAP
  }

  /** Other players' cells, or the cells of the arena, of which food and viruses never eat. */
  datatype Rules = PLAYERS | ARENA

  /** Two lists of cells, the next identifier, and the removals reported. */
  datatype Table = Table(mine: seq<Ball>, theirs: seq<Ball>, next: nat, removed: seq<nat>)
  {
    /** All cells in play. */
    function All(): seq<Ball> {
      mine + theirs
    }
  }

  /** The cell at `i` of one list was compared with the cell at `k` of the other. */
  datatype Look = Look(i: nat, k: nat, result: Collision)

  predicate On(t: Table, l: Look) {
    l.i < |t.mine| && l.k < |t.theirs| && t.mine[l.i].size >= 0.0 && t.theirs[l.k].size >= 0.0
  }

  /** The comparison gives what it must. */
  predicate Fair(space: Space, t: Table, l: Look) {
    On(t, l) && l.result == Collided(space, t.mine[l.i], t.theirs[l.k])
  }

  /** Whether one of the two is eaten. */
  predicate Meal(rules: Rules, t: Table, l: Look)
    requires On(t, l)
  {
    l.result == BIGGER
    || (l.result == SMALLER && (rules == ARENA ==> !(t.theirs[l.k].food || t.theirs[l.k].virus)))
  }

  function Eater(t: Table, l: Look): Ball
    requires On(t, l)
  {
    if l.result == BIGGER then t.mine[l.i] else t.theirs[l.k]
  }

  function Eaten(t: Table, l: Look): Ball
    requires On(t, l)
  {
    if l.result == BIGGER then t.theirs[l.k] else t.mine[l.i]
  }

  /** A cell with the size of another added. */
  function Grown(a: Ball, b: Ball): Ball {
    a.(size := a.size + b.size)
  }

  /** The first list's cell ate. */
  function Ate(t: Table, i: nat, k: nat): Table
    requires i < |t.mine| && k < |t.theirs|
  {
    t.(mine := t.mine[i := Grown(t.mine[i], t.theirs[k])], theirs := Without(t.theirs, k),
       removed := t.removed + [t.theirs[k].id])
  }

  /** The second list's cell ate. */
  function Fed(t: Table, i: nat, k: nat): Table
    requires i < |t.mine| && k < |t.theirs|
  {
    t.(mine := Without(t.mine, i), theirs := t.theirs[k := Grown(t.theirs[k], t.mine[i])],
       removed := t.removed + [t.mine[i].id])
  }

  /** The cell at `i` was popped. */
  function Burst(t: Table, i: nat): Table
    requires i < |t.mine| <= MAX_CELLS && t.mine[i].size >= 0.0
  {
    var s, room := t.mine[i].size, MAX_CELLS - |t.mine|;
    var big := BigCount(s, Least(4, room));
    CutShrinks(s, 1);
    var small := SmallBalls(FirstPart(s, big), room - big);
    t.(mine := Popped(t.mine, i, big, small, t.next), next := t.next + big + small)
  }

  lemma BurstIs(t: Table, i: nat, big: nat, small: nat, u: Table)
    requires i < |t.mine| <= MAX_CELLS && t.mine[i].size >= 0.0
    requires BigPops(t.mine[i].size, Least(4, MAX_CELLS - |t.mine|), big)
    requires small == SmallBalls(FirstPart(t.mine[i].size, big), MAX_CELLS - |t.mine| - big)
    requires u == t.(mine := Popped(t.mine, i, big, small, t.next), next := t.next + big + small)
    ensures u == Burst(t, i)
  {
    BigPopsOnce(t.mine[i].size, Least(4, MAX_CELLS - |t.mine|), big);
  }

  /** A player with less than sixteen cells ate a virus. */
  predicate Pops(rules: Rules, t: Table, l: Look)
    requires On(t, l)
  {
    rules == ARENA && l.result == BIGGER && t.theirs[l.k].virus && |t.mine| < MAX_CELLS
  }

  function After(rules: Rules, t: Table, l: Look): Table
    requires On(t, l)
  {
    if !Meal(rules, t, l) then t
    else if l.result == SMALLER then Fed(t, l.i, l.k)
    else if Pops(rules, t, l) then Burst(Ate(t, l.i, l.k), l.i)
    else Ate(t, l.i, l.k)
  }

  datatype Option<T> = None | Some(value: T)

  /** What a list of comparisons leads to, if each gives what it must where it is made. */
  function Run(space: Space, rules: Rules, t: Table, log: seq<Look>): Option<Table> {
    if log == [] then Some(t)
    else
      match Run(space, rules, t, log[..|log| - 1])
      case Some(u) => if Fair(space, u, log[|log| - 1]) then Some(After(rules, u, log[|log| - 1])) else None
      case None => None
  }

  lemma RunMore(space: Space, rules: Rules, t: Table, log: seq<Look>, l: Look)
    requires Run(space, rules, t, log).Some? && Fair(space, Run(space, rules, t, log).value, l)
    ensures Run(space, rules, t, log + [l]) == Some(After(rules, Run(space, rules, t, log).value, l))
  {
    assert (log + [l])[..|log|] == log;
  }

  /** The cells with two identifiers were compared, and neither was eaten. */
  predicate Spared(space: Space, rules: Rules, t: Table, log: seq<Look>, a: nat, b: nat) {
    log != []
    && (Spared(space, rules, t, log[..|log| - 1], a, b)
        || match Run(space, rules, t, log[..|log| - 1])
           case Some(u) => SparedNow(rules, u, log[|log| - 1], a, b)
           case None => false)
  }

  predicate SparedNow(rules: Rules, u: Table, l: Look, a: nat, b: nat) {
    On(u, l) && !Meal(rules, u, l) && u.mine[l.i].id == a && u.theirs[l.k].id == b
  }

  lemma SparedMore(space: Space, rules: Rules, t: Table, log: seq<Look>, l: Look, a: nat, b: nat)
    requires Run(space, rules, t, log).Some?
    ensures Spared(space, rules, t, log + [l], a, b)
      <==> Spared(space, rules, t, log, a, b) || SparedNow(rules, Run(space, rules, t, log).value, l, a, b)
  {
    assert (log + [l])[..|log|] == log;
  }

  /** Every cell before `i` was spared with every cell of the other list, and the cell at `i` with
      those before `k`. */
  predicate Spares(space: Space, rules: Rules, t: Table, log: seq<Look>, u: Table, i: nat, k: nat) {
    forall x: nat, y: nat | x < |u.mine| && y < |u.theirs| && (x < i || (x == i && y < k)) ::
      Spared(space, rules, t, log, u.mine[x].id, u.theirs[y].id)
  }

  /** The run has come to the table `u`, and to the cells at `i` and `k`. */
  predicate Played(space: Space, rules: Rules, t: Table, log: seq<Look>, u: Table, i: nat, k: nat) {
    Run(space, rules, t, log) == Some(u) && i <= |u.mine| && k <= |u.theirs| && Spares(space, rules, t, log, u, i, k)
  }

  lemma SparesMore(space: Space, rules: Rules, t: Table, log: seq<Look>, u: Table, i: nat, k: nat, l: Look)
    requires Played(space, rules, t, log, u, i, k)
    ensures Spares(space, rules, t, log + [l], u, i, k)
  {
    forall x: nat, y: nat | x < |u.mine| && y < |u.theirs| && (x < i || (x == i && y < k))
      ensures Spared(space, rules, t, log + [l], u.mine[x].id, u.theirs[y].id)
    {
      SparedMore(space, rules, t, log, l, u.mine[x].id, u.theirs[y].id);
    }
  }

  lemma PlayedSpared(space: Space, rules: Rules, t: Table, log: seq<Look>, u: Table, i: nat, k: nat, l: Look)
    requires Played(space, rules, t, log, u, i, k) && l.i == i && l.k == k
    requires Fair(space, u, l) && !Meal(rules, u, l)
    ensures Played(space, rules, t, log + [l], u, i, k + 1)
  {
    RunMore(space, rules, t, log, l);
    SparesMore(space, rules, t, log, u, i, k, l);
    SparedMore(space, rules, t, log, l, u.mine[i].id, u.theirs[k].id);
  }

  lemma PlayedAte(space: Space, rules: Rules, t: Table, log: seq<Look>, u: Table, i: nat, k: nat, l: Look)
    requires Played(space, rules, t, log, u, i, k) && l == Look(i, k, BIGGER)
    requires Fair(space, u, l) && !Pops(rules, u, l)
    ensures Played(space, rules, t, log + [l], Ate(u, i, k), i, k)
  {
    RunMore(space, rules, t, log, l);
    SparesMore(space, rules, t, log, u, i, k, l);
    SparesAte(space, rules, t, log + [l], u, i, k, k);
  }

  lemma SparesAte(space: Space, rules: Rules, t: Table, log: seq<Look>, u: Table, i: nat, k: nat, j: nat)
    requires Spares(space, rules, t, log, u, i, j) && i < |u.mine| && j <= k < |u.theirs|
    ensures Spares(space, rules, t, log, Ate(u, i, k), i, j)
  {
    var v := Ate(u, i, k);
    forall x: nat, y: nat | x < |v.mine| && y < |v.theirs| && (x < i || (x == i && y < j))
      ensures Spared(space, rules, t, log, v.mine[x].id, v.theirs[y].id)
    {
      var z := if y < k then y else y + 1;
      assert v.mine[x].id == u.mine[x].id && v.theirs[y] == u.theirs[z];
    }
  }

  lemma PlayedBurst(space: Space, rules: Rules, t: Table, log: seq<Look>, u: Table, i: nat, k: nat, l: Look)
    requires Played(space, rules, t, log, u, i, k) && l == Look(i, k, BIGGER)
    requires Fair(space, u, l) && Pops(rules, u, l)
    ensures Played(space, rules, t, log + [l], Burst(Ate(u, i, k), i), i, 0)
  {
    RunMore(space, rules, t, log, l);
    SparesMore(space, rules, t, log, u, i, k, l);
    SparesAte(space, rules, t, log + [l], u, i, k, 0);
    SparesBurst(space, rules, t, log + [l], Ate(u, i, k), i);
  }

  lemma SparesBurst(space: Space, rules: Rules, t: Table, log: seq<Look>, u: Table, i: nat)
    requires Spares(space, rules, t, log, u, i, 0) && i < |u.mine| <= MAX_CELLS && u.mine[i].size >= 0.0
    ensures Spares(space, rules, t, log, Burst(u, i), i, 0) && i < |Burst(u, i).mine|
  {
    var v := Burst(u, i);
    assert v.theirs == u.theirs && |v.mine| >= |u.mine| && forall x | 0 <= x < i :: v.mine[x] == u.mine[x];
  }

  lemma PlayedFed(space: Space, rules: Rules, t: Table, log: seq<Look>, u: Table, i: nat, k: nat, l: Look)
    requires Played(space, rules, t, log, u, i, k) && l == Look(i, k, SMALLER)
    requires Fair(space, u, l) && Meal(rules, u, l)
    ensures Played(space, rules, t, log + [l], Fed(u, i, k), i, 0)
  {
    RunMore(space, rules, t, log, l);
    SparesMore(space, rules, t, log, u, i, k, l);
    var v := Fed(u, i, k);
    forall x: nat, y: nat | x < |v.mine| && y < |v.theirs| && x < i
      ensures Spared(space, rules, t, log + [l], v.mine[x].id, v.theirs[y].id)
    {
      assert v.mine[x] == u.mine[x] && v.theirs[y].id == u.theirs[y].id;
    }
  }

  /** The cell at `i` is through. */
  lemma PlayedRow(space: Space, rules: Rules, t: Table, log: seq<Look>, u: Table, i: nat)
    requires Played(space, rules, t, log, u, i, |u.theirs|) && i < |u.mine|
    ensures Played(space, rules, t, log, u, i + 1, 0)
  {
  }

  /** The lists of all players, the next identifier, and the removals reported. */
  datatype Game = Game(lists: seq<seq<Ball>>, next: nat, removed: seq<nat>)
  {
    function Pair(i: nat, x: nat): Table
      requires i < |lists| && x < |lists|
    {
      Table(lists[i], lists[x], next, removed)
    }

    function With(i: nat, x: nat, u: Table): Game
      requires i < |lists| && x < |lists|
    {
      this.(lists := lists[i := u.mine][x := u.theirs], removed := u.removed)
    }
  }

  /** The run passes over no two cells that are left. */
  predicate Complete(space: Space, rules: Rules, t: Table, log: seq<Look>) {
    match Run(space, rules, t, log)
    case Some(u) => Played(space, rules, t, log, u, |u.mine|, 0)
    case None => false
  }

  /** One player against the later ones, in order: what a complete run with each of them leads to. */
  function Rounds(space: Space, g: Game, i: nat, logs: seq<seq<Look>>): (r: Option<Game>)
    requires i + |logs| < |g.lists|
    ensures r.Some? ==> |r.value.lists| == |g.lists|
  {
    if logs == [] then Some(g)
    else
      match Rounds(space, g, i, logs[..|logs| - 1])
      case Some(h) =>
        var t, log := h.Pair(i, i + |logs|), logs[|logs| - 1];
        if Complete(space, PLAYERS, t, log) then Some(h.With(i, i + |logs|, Run(space, PLAYERS, t, log).value))
        else None
      case None => None
  }

  lemma RoundMore(space: Space, g: Game, i: nat, logs: seq<seq<Look>>, h: Game, log: seq<Look>, u: Table)
    requires i + |logs| + 1 < |g.lists| && Rounds(space, g, i, logs) == Some(h)
    requires Played(space, PLAYERS, h.Pair(i, i + |logs| + 1), log, u, |u.mine|, 0)
    ensures Rounds(space, g, i, logs + [log]) == Some(h.With(i, i + |logs| + 1, u))
  {
    assert (logs + [log])[..|logs|] == logs;
  }

  // ---------- one meal ----------

  /** Two cells that do not overlap by more than three quarters of the smaller one's diameter leave
      each other alone; otherwise the one over 1.3333 times the other's size, or the other if the
      one is under 0.75 of it, is the one to eat. */
  lemma CollidedSizes(space: Space, a: Ball, b: Ball)
    requires a.size >= 0.0 && b.size >= 0.0
    ensures var d := space.distance(a.id, b.id);
      var ra, rb := space.radius(a.size), space.radius(b.size);
      var deep := d <= ra + rb && (ra + rb - d > 1.5 * ra || ra + rb - d > 1.5 * rb);
      (Collided(space, a, b) == BIGGER <==> deep && a.size > b.size * 1.3333)
      && (Collided(space, a, b) == SMALLER <==> deep && a.size < b.size * 0.75)
  {
  }

  /** Turned around, the smaller one is the bigger one, but not the other way round: 1.3333 is less
      than four thirds, and between them only the cell that is asked first can eat. */
  lemma Mirror(space: Space, a: Ball, b: Ball)
    requires a.size >= 0.0 && b.size >= 0.0 && space.distance(a.id, b.id) == space.distance(b.id, a.id)
    ensures Collided(space, a, b) == SMALLER ==> Collided(space, b, a) == BIGGER
    ensures Collided(space, a, b) == BIGGER ==>
      (Collided(space, b, a) == SMALLER <==> a.size > 4.0 / 3.0 * b.size) && Collided(space, b, a) in [SMALLER, OVERLAP]
  {
  }

  /** Whoever is eaten is under 0.75 of the eater's size or was over 1.3333 times smaller, hence
      smaller; food and viruses do not eat; the eaten one is reported and no other. */
  lemma MealSizes(space: Space, rules: Rules, t: Table, l: Look)
    requires Fair(space, t, l) && Meal(rules, t, l)
    ensures Eaten(t, l).size < Eater(t, l).size
    ensures Eaten(t, l).size < 0.75 * Eater(t, l).size || Eater(t, l).size > 1.3333 * Eaten(t, l).size
    ensures rules == ARENA && (t.theirs[l.k].food || t.theirs[l.k].virus) ==> Eater(t, l) == t.mine[l.i]
    ensures After(rules, t, l).removed == t.removed + [Eaten(t, l).id]
  {
  }

  lemma OneOut(s: seq<Ball>, i: nat)
    requires i < |s|
    ensures multiset(Without(s, i)) == multiset(s) - multiset{s[i]}
  {
    assert s == s[..i] + ([s[i]] + s[i + 1..]);
  }

  /** One of the cells ate another, and otherwise they are the same. */
  ghost predicate Eats(all: multiset<Ball>, a: Ball, b: Ball, more: multiset<Ball>) {
    more == all - multiset{a} - multiset{b} + multiset{a.(size := a.size + b.size)}
  }

  /** Unless a virus pops the eater, the cells afterwards are those before without the eaten one,
      and the eater has its size in addition. */
  lemma MealTable(space: Space, rules: Rules, t: Table, l: Look)
    requires Fair(space, t, l) && Meal(rules, t, l) && !Pops(rules, t, l)
    ensures Eats(multiset(t.All()), Eater(t, l), Eaten(t, l), multiset(After(rules, t, l).All()))
  {
    if l.result == BIGGER {
      EatsOne(t.mine, l.i, t.theirs, l.k);
      BothLists(Ate(t, l.i, l.k));
    } else {
      EatsOne(t.theirs, l.k, t.mine, l.i);
      BothLists(Fed(t, l.i, l.k));
    }
    BothLists(t);
  }

  lemma BothLists(t: Table)
    ensures multiset(t.All()) == multiset(t.mine) + multiset(t.theirs) == multiset(t.theirs) + multiset(t.mine)
  {
  }

  lemma EatsOne(s: seq<Ball>, i: nat, from: seq<Ball>, k: nat)
    requires i < |s| && k < |from|
    ensures Eats(multiset(s) + multiset(from), s[i], from[k],
      multiset(s[i := Grown(s[i], from[k])]) + multiset(Without(from, k)))
  {
    OneOut(from, k);
    Changed(s, i, Grown(s[i], from[k]));
    assert multiset(s)[s[i]] > 0 && multiset(from)[from[k]] > 0;
    Exchange(multiset(s), multiset(from), s[i], from[k], Grown(s[i], from[k]));
  }

  lemma Exchange(some: multiset<Ball>, others: multiset<Ball>, a: Ball, b: Ball, c: Ball)
    requires a in some && b in others
    ensures (some - multiset{a} + multiset{c}) + (others - multiset{b})
      == (some + others) - multiset{a} - multiset{b} + multiset{c}
  {
  }

  lemma Changed(s: seq<Ball>, i: nat, b: Ball)
    requires i < |s|
    ensures multiset(s[i := b]) == multiset(s) - multiset{s[i]} + multiset{b}
  {
  }

  /** A cell at least as large as all cells in play is not the one that is eaten. */
  lemma LargestStays(space: Space, rules: Rules, t: Table, l: Look, b: Ball)
    requires Fair(space, t, l) && Meal(rules, t, l) && forall c <- t.All() :: c.size <= b.size
    ensures Eaten(t, l).size < b.size
  {
    MealSizes(space, rules, t, l);
    assert Eater(t, l) in t.All();
  }

  /** A player with less than sixteen cells who eats a virus gets a new cell exactly when the eater
      has the least size by then, and as long as there are less than sixteen after it, the eater is
      left with less than that. */
  lemma VirusPops(space: Space, t: Table, l: Look)
    requires Fair(space, t, l) && l.result == BIGGER && t.theirs[l.k].virus && |t.mine| < MAX_CELLS
    ensures var u := After(ARENA, t, l);
      u.theirs == t.theirs[..l.k] + t.theirs[l.k + 1..] && u.removed == t.removed + [t.theirs[l.k].id]
      && (|u.mine| > |t.mine| <==> t.mine[l.i].size + t.theirs[l.k].size >= 17.64)
      && |t.mine| <= |u.mine| <= 16 && (|u.mine| < 16 ==> u.mine[l.i].size < 17.64)
  {
    var s, room := t.mine[l.i].size + t.theirs[l.k].size, MAX_CELLS - |t.mine|;
    var big := BigCount(s, Least(4, room));
    var p := FirstPart(s, big);
    CutShrinks(s, 1);
    Fitting(p, room - big);
    BigEnough(s, Least(4, room), big);
  }

  /** Without a virus, or with sixteen cells, the eater only grows. */
  lemma NoPop(space: Space, rules: Rules, t: Table, l: Look)
    requires Fair(space, t, l) && l.result == BIGGER
    requires rules == PLAYERS || !t.theirs[l.k].virus || |t.mine| >= MAX_CELLS
    ensures |After(rules, t, l).mine| == |t.mine|
    ensures After(rules, t, l).mine[l.i].size == t.mine[l.i].size + t.theirs[l.k].size
  {
  }

  // ---------- whole runs ----------

  /** Every comparison of a run gives what it must, and the next one finds what it left. */
  lemma {:induction false} EachFair(space: Space, rules: Rules, t: Table, log: seq<Look>, n: nat)
    requires n < |log| && Run(space, rules, t, log).Some?
    ensures Run(space, rules, t, log[..n]).Some? && Fair(space, Run(space, rules, t, log[..n]).value, log[n])
    ensures Run(space, rules, t, log[..n + 1]) == Some(After(rules, Run(space, rules, t, log[..n]).value, log[n]))
  {
    var front := log[..|log| - 1];
    if n < |front| {
      EachFair(space, rules, t, front, n);
      assert front[..n] == log[..n] && front[..n + 1] == log[..n + 1];
    } else {
      assert log[..n] == front && log[..n + 1] == log;
    }
  }

  /** Whenever in a run one cell eats another, the sizes they have by then say so, and the eaten one
      is reported. */
  lemma EachMeal(space: Space, rules: Rules, t: Table, log: seq<Look>, n: nat)
    requires n < |log| && Run(space, rules, t, log).Some?
    ensures Run(space, rules, t, log[..n]).Some? && Run(space, rules, t, log[..n + 1]).Some?
    ensures var u, l := Run(space, rules, t, log[..n]).value, log[n];
      On(u, l) && (Meal(rules, u, l) ==>
        (Eaten(u, l).size < 0.75 * Eater(u, l).size || Eater(u, l).size > 1.3333 * Eaten(u, l).size)
        && Run(space, rules, t, log[..n + 1]).value.removed == u.removed + [Eaten(u, l).id])
  {
    EachFair(space, rules, t, log, n);
    var u := Run(space, rules, t, log[..n]).value;
    if Meal(rules, u, log[n]) {
      MealSizes(space, rules, u, log[n]);
    }
  }

  /** No player can meet a virus. */
  predicate Quiet(rules: Rules, t: Table) {
    rules == PLAYERS || forall b <- t.theirs :: !b.virus
  }

  /** What one meal keeps: the mass, and every identifier in play or reported. */
  ghost predicate Kept(rules: Rules, t: Table, u: Table) {
    Sound(u.mine) && Sound(u.theirs) && Quiet(rules, u)
    && Total(u.mine) + Total(u.theirs) == Total(t.mine) + Total(t.theirs)
    && |u.mine| <= |t.mine| && |u.theirs| <= |t.theirs|
    && forall id :: Copies(u, id) == Copies(t, id) && Times(t.removed, id) <= Times(u.removed, id)
  }

  /** How often an identifier is in play or reported. */
  ghost function Copies(t: Table, id: nat): nat {
    Count(t.mine, id) + Count(t.theirs, id) + Times(t.removed, id)
  }

  lemma AteKeeps(rules: Rules, t: Table, i: nat, k: nat)
    requires i < |t.mine| && k < |t.theirs| && Sound(t.mine) && Sound(t.theirs) && Quiet(rules, t)
    ensures Kept(rules, t, Ate(t, i, k))
  {
    Feeding(t.mine, i, t.theirs, k, t.removed);
    WithoutIn(t.theirs, k);
  }

  /** One list's cell ate one of the other's. */
  lemma Feeding(a: seq<Ball>, i: nat, b: seq<Ball>, k: nat, removed: seq<nat>)
    requires i < |a| && k < |b| && Sound(a) && Sound(b)
    ensures Sound(a[i := Grown(a[i], b[k])]) && Sound(Without(b, k))
    ensures Total(a[i := Grown(a[i], b[k])]) + Total(Without(b, k)) == Total(a) + Total(b)
    ensures forall id: nat :: Times(removed, id) <= Times(removed + [b[k].id], id)
    ensures forall id: nat ::
      Count(a[i := Grown(a[i], b[k])], id) + Count(Without(b, k), id) + Times(removed + [b[k].id], id)
        == Count(a, id) + Count(b, id) + Times(removed, id)
  {
    Resized(a, i, a[i].size + b[k].size);
    Taken(b, k);
    Told(removed, b[k].id);
  }

  lemma Told(ids: seq<nat>, x: nat)
    ensures forall id: nat :: Times(ids + [x], id) == Times(ids, id) + if x == id then 1 else 0
  {
  }

  lemma WithoutIn(balls: seq<Ball>, i: nat)
    requires i < |balls|
    ensures forall b <- Without(balls, i) :: b in balls
  {
  }

  lemma FedKeeps(rules: Rules, t: Table, i: nat, k: nat)
    requires i < |t.mine| && k < |t.theirs| && Sound(t.mine) && Sound(t.theirs) && Quiet(rules, t)
    ensures Kept(rules, t, Fed(t, i, k))
  {
    Feeding(t.theirs, k, t.mine, i, t.removed);
    GrownIn(t.theirs, k, Grown(t.theirs[k], t.mine[i]));
  }

  lemma GrownIn(balls: seq<Ball>, k: nat, b: Ball)
    requires k < |balls| && b.virus == balls[k].virus
    ensures (forall c <- balls :: !c.virus) ==> forall c <- balls[k := b] :: !c.virus
  {
    assert balls[k] in balls;
    assert forall c <- balls[k := b] :: c in balls || c == b;
  }

  /** Every identifier is where it was at first, once more if it was given out since. */
  ghost predicate Grew(t: Table, first: multiset<nat>, from: nat) {
    from <= t.next && forall id :: Copies(t, id) == first[id] + Born(from, t.next, id)
  }

  lemma KeptGrew(rules: Rules, t: Table, u: Table, first: multiset<nat>, from: nat)
    requires Kept(rules, t, u) && Grew(t, first, from) && u.next == t.next
    ensures Grew(u, first, from)
  {
  }

  /** A whole run keeps them. */
  lemma {:induction false} RunKeeps(space: Space, rules: Rules, t: Table, log: seq<Look>)
    requires Run(space, rules, t, log).Some? && Sound(t.mine) && Sound(t.theirs) && Quiet(rules, t)
    ensures Kept(rules, t, Run(space, rules, t, log).value)
  {
    if log != [] {
      RunKeeps(space, rules, t, log[..|log| - 1]);
      StepKeeps(space, rules, Run(space, rules, t, log[..|log| - 1]).value, log[|log| - 1]);
    }
  }

  lemma StepKeeps(space: Space, rules: Rules, t: Table, l: Look)
    requires Fair(space, t, l) && Sound(t.mine) && Sound(t.theirs) && Quiet(rules, t)
    ensures Kept(rules, t, After(rules, t, l))
  {
    if Meal(rules, t, l) {
      assert t.theirs[l.k] in t.theirs;
      if l.result == SMALLER {
        FedKeeps(rules, t, l.i, l.k);
      } else {
        AteKeeps(rules, t, l.i, l.k);
      }
    }
  }

  lemma {:induction false} SoundTotal(balls: seq<Ball>)
    requires Sound(balls)
    ensures Total(balls) >= 0.0
  {
    if balls != [] {
      assert forall b <- balls[1..] :: b in balls;
      SoundTotal(balls[1..]);
    }
  }

  lemma PartOfTotal(balls: seq<Ball>, i: nat)
    requires i < |balls| && Sound(balls)
    ensures balls[i].size <= Total(balls)
  {
    Parts(balls, i);
    assert Sound(balls[..i]) && Sound(balls[i + 1..]);
    SoundTotal(balls[..i]);
    SoundTotal(balls[i + 1..]);
  }

  lemma {:induction false} Named(balls: seq<Ball>, b: Ball)
    requires b in balls
    ensures Count(balls, b.id) >= 1
  {
    if balls[0] != b {
      Named(balls[1..], b);
    }
  }

  lemma {:induction false} NamedOnce(balls: seq<Ball>, a: Ball, b: Ball)
    requires a in balls && b in balls && a.id == b.id && Count(balls, a.id) <= 1
    ensures a == b
  {
    if balls[0] == a && b != a {
      Named(balls[1..], b);
    } else if balls[0] == b && b != a {
      Named(balls[1..], a);
    } else if a != b {
      NamedOnce(balls[1..], a, b);
    }
  }

  /** A cell with this identifier, at least as large, is in play, and was not reported since. */
  ghost predicate Alive(t: Table, u: Table, b: Ball) {
    (exists c <- u.All() :: c.id == b.id && c.size >= b.size) && Times(u.removed, b.id) == Times(t.removed, b.id)
  }

  /** A cell that weighs at least as much as all others in play together is never eaten, however
      the others grow. */
  lemma {:induction false} HeavySafe(space: Space, rules: Rules, t: Table, log: seq<Look>, b: Ball)
    requires Run(space, rules, t, log).Some? && Sound(t.mine) && Sound(t.theirs) && Quiet(rules, t)
    requires b in t.All() && b.size >= Total(t.mine) + Total(t.theirs) - b.size
    requires forall id :: Count(t.mine, id) + Count(t.theirs, id) <= 1
    ensures Alive(t, Run(space, rules, t, log).value, b)
  {
    if log != [] {
      var front, l := log[..|log| - 1], log[|log| - 1];
      HeavySafe(space, rules, t, front, b);
      RunKeeps(space, rules, t, front);
      HeavyStep(space, rules, t, Run(space, rules, t, front).value, l, b);
    }
  }

  /** Nobody in play can eat it. */
  lemma TooHeavy(space: Space, rules: Rules, u: Table, l: Look, c: Ball)
    requires Fair(space, u, l) && Meal(rules, u, l) && Sound(u.mine) && Sound(u.theirs)
    requires c in u.All() && c.size >= Total(u.mine) + Total(u.theirs) - c.size && Count(u.All(), c.id) <= 1
    ensures Eaten(u, l).id != c.id
  {
    var e := Eaten(u, l);
    MealSizes(space, rules, u, l);
    PartOfTotal(u.mine, l.i);
    PartOfTotal(u.theirs, l.k);
    assert e in u.All();
    if e.id == c.id {
      NamedOnce(u.All(), c, e);
      assert false;
    }
  }

  /** Whoever is not eaten stays, or has grown. */
  lemma StaysOrGrows(space: Space, rules: Rules, u: Table, l: Look, c: Ball)
    requires Fair(space, u, l) && Meal(rules, u, l) && !Pops(rules, u, l) && c in u.All() && Eaten(u, l).id != c.id
    ensures Alive(u, After(rules, u, l), c)
  {
    var a, e := Eater(u, l), Eaten(u, l);
    MealTable(space, rules, u, l);
    MealSizes(space, rules, u, l);
    Told(u.removed, e.id);
    var w := StillIn(u.All(), After(rules, u, l).All(), a, e, c);
  }

  lemma StillIn(all: seq<Ball>, more: seq<Ball>, a: Ball, b: Ball, c: Ball) returns (w: Ball)
    requires Eats(multiset(all), a, b, multiset(more)) && c in all && c != b && b.size >= 0.0
    ensures w in more && w.id == c.id && w.size >= c.size
  {
    w := if c == a then Grown(a, b) else c;
    assert c in multiset(all);
    assert w in multiset(more);
  }

  lemma HeavyStep(space: Space, rules: Rules, t: Table, u: Table, l: Look, b: Ball)
    requires Fair(space, u, l) && Kept(rules, t, u) && Alive(t, u, b)
    requires b.size >= Total(t.mine) + Total(t.theirs) - b.size
    requires forall id :: Count(t.mine, id) + Count(t.theirs, id) <= 1
    ensures Alive(t, After(rules, u, l), b)
  {
    if Meal(rules, u, l) {
      var c :| c in u.All() && c.id == b.id && c.size >= b.size;
      Concat(u.mine, u.theirs);
      assert Copies(u, b.id) == Copies(t, b.id);
      TooHeavy(space, rules, u, l, c);
      assert u.theirs[l.k] in u.theirs;
      StaysOrGrows(space, rules, u, l, c);
    }
  }

  /** Being the largest is not enough over a whole run: ten, six and nine.  The nine eats the six
      and then the ten. */
  lemma LargestEaten()
    ensures exists space: Space, log: seq<Look> ::
      var t := Table([Ball(1, 6.0, false, false), Ball(2, 10.0, false, false)], [Ball(3, 9.0, false, false)], 4, []);
      Run(space, PLAYERS, t, log) == Some(Table([], [Ball(3, 25.0, false, false)], 4, [1, 2]))
  {
    var t := Table([Ball(1, 6.0, false, false), Ball(2, 10.0, false, false)], [Ball(3, 9.0, false, false)], 4, []);
    var space := Space((a, b) => 0.0, s => s);
    var log := [Look(0, 0, SMALLER), Look(0, 0, SMALLER)];
    var u := Table([Ball(2, 10.0, false, false)], [Ball(3, 15.0, false, false)], 4, [1]);
    assert Run(space, PLAYERS, t, []) == Some(t);
    assert Fair(space, t, log[0]) && After(PLAYERS, t, log[0]) == u;
    assert Fair(space, u, log[1]) && After(PLAYERS, u, log[1]) == Table([], [Ball(3, 25.0, false, false)], 4, [1, 2]);
    assert log == [] + [log[0]] + [log[1]];
    RunMore(space, PLAYERS, t, [], log[0]);
    RunMore(space, PLAYERS, t, [] + [log[0]], log[1]);
  }

  // ---------- all players ----------

  function WeightOf(lists: seq<seq<Ball>>): real {
    if lists == [] then 0.0 else Total(lists[0]) + WeightOf(lists[1..])
  }

  /** How often an identifier is in the lists. */
  function HeldIn(lists: seq<seq<Ball>>, id: nat): nat {
    if lists == [] then 0 else Count(lists[0], id) + HeldIn(lists[1..], id)
  }

  predicate AllSound(lists: seq<seq<Ball>>) {
    forall l <- lists :: Sound(l)
  }

  lemma {:induction false} OneList(lists: seq<seq<Ball>>, i: nat, l: seq<Ball>)
    requires i < |lists|
    ensures WeightOf(lists[i := l]) == WeightOf(lists) - Total(lists[i]) + Total(l)
    ensures forall id :: HeldIn(lists[i := l], id) == HeldIn(lists, id) - Count(lists[i], id) + Count(l, id)
  {
    if i == 0 {
      assert lists[i := l][1..] == lists[1..];
    } else {
      assert lists[i := l][1..] == lists[1..][i - 1 := l];
      OneList(lists[1..], i - 1, l);
    }
  }

  /** What a game keeps. */
  ghost predicate KeptAll(g: Game, h: Game) {
    AllSound(h.lists) && WeightOf(h.lists) == WeightOf(g.lists)
    && forall id :: HeldIn(h.lists, id) + Times(h.removed, id) == HeldIn(g.lists, id) + Times(g.removed, id)
  }

  lemma PairKeeps(g: Game, i: nat, x: nat, u: Table)
    requires i < x < |g.lists| && AllSound(g.lists) && Kept(PLAYERS, g.Pair(i, x), u)
    ensures KeptAll(g, g.With(i, x, u))
  {
    OneList(g.lists, i, u.mine);
    OneList(g.lists[i := u.mine], x, u.theirs);
    assert forall id :: Copies(u, id) == Copies(g.Pair(i, x), id);
    assert forall l <- g.With(i, x, u).lists :: l in g.lists || l == u.mine || l == u.theirs;
  }

  /** Whatever the players eat of each other, the mass of all is kept, and so is every identifier, in play
      or reported. */
  lemma {:induction false} RoundsKeep(space: Space, g: Game, i: nat, logs: seq<seq<Look>>, h: Game)
    requires i + |logs| < |g.lists| && Rounds(space, g, i, logs) == Some(h) && AllSound(g.lists)
    ensures KeptAll(g, h)
  {
    if logs != [] {
      var before := LastRound(space, g, i, logs);
      RoundsKeep(space, g, i, logs[..|logs| - 1], before);
      RoundKeeps(space, g, before, i, i + |logs|, logs[|logs| - 1], h);
    }
  }

  lemma LastRound(space: Space, g: Game, i: nat, logs: seq<seq<Look>>) returns (h: Game)
    requires i + |logs| < |g.lists| && Rounds(space, g, i, logs).Some? && logs != []
    ensures Rounds(space, g, i, logs[..|logs| - 1]) == Some(h) && |h.lists| == |g.lists|
    ensures var r := Run(space, PLAYERS, h.Pair(i, i + |logs|), logs[|logs| - 1]);
      r.Some? && Rounds(space, g, i, logs) == Some(h.With(i, i + |logs|, r.value))
  {
    h := Rounds(space, g, i, logs[..|logs| - 1]).value;
  }

  lemma RoundKeeps(space: Space, g: Game, h: Game, i: nat, x: nat, log: seq<Look>, next: Game)
    requires i < x < |h.lists| && KeptAll(g, h) && Run(space, PLAYERS, h.Pair(i, x), log).Some?
    requires next == h.With(i, x, Run(space, PLAYERS, h.Pair(i, x), log).value)
    ensures KeptAll(g, next)
  {
    assert h.lists[i] in h.lists && h.lists[x] in h.lists;
    RunKeeps(space, PLAYERS, h.Pair(i, x), log);
    PairKeeps(h, i, x, Run(space, PLAYERS, h.Pair(i, x), log).value);
  }
}
