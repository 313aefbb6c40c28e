/**
 A player's window over the map and the messages that keep the client's picture of it.

 The client holds one set of identifiers; it is what replaying the messages gives.  Static
 cells are told from the blocks of the window, dynamic ones from the player's history.
 */
module PlayerView {
  import opened Lists
  import opened GameMap

  datatype Msg =
    | AddCell(id: nat)
    | MoveCell(id: nat)
    | RemoveCell(id: nat)
    | Position

  /** What one message does to the client's set. */
  function Apply(client: set<nat>, m: Msg): set<nat> {
    match m
    case AddCell(id) => client + {id}
    case RemoveCell(id) => client - {id}
    case _ => client
  }

  function Replay(client: set<nat>, msgs: seq<Msg>): set<nat> {
    if msgs == [] then client else Apply(Replay(client, msgs[..|msgs| - 1]), msgs[|msgs| - 1])
  }

  /** No cell is added that the client has already, and none is moved that it does not have. */
  predicate Sensible(client: set<nat>, msgs: seq<Msg>) {
    msgs != [] ==>
      Sensible(client, msgs[..|msgs| - 1]) && Fits(msgs[|msgs| - 1], Replay(client, msgs[..|msgs| - 1]))
  }

  predicate Fits(m: Msg, client: set<nat>) {
    (m.AddCell? ==> m.id !in client) && (m.MoveCell? ==> m.id in client)
  }

  /** The cells that are moved, in order. */
  function Moves(msgs: seq<Msg>): seq<nat> {
    if msgs == [] then [] else Moves(msgs[..|msgs| - 1]) + Move(msgs[|msgs| - 1])
  }

  function Move(m: Msg): seq<nat> {
    if m.MoveCell? then [m.id] else []
  }

  // ---------- block lists ----------

  predicate Increasing(s: seq<nat>) {
    forall i, j | 0 <= i < j < |s| :: s[i] < s[j]
  }

  lemma Append(s: seq<nat>, v: nat)
    requires Increasing(s) && forall m | 0 <= m < |s| :: s[m] < v
    ensures Increasing(s + [v])
  {
  }

  /** std::set_difference on two increasing lists */
  method SetDifference(a: seq<nat>, b: seq<nat>) returns (d: seq<nat>)
    requires Increasing(a) && Increasing(b)
    ensures Increasing(d) && forall x :: x in d <==> x in a && x !in b
  {
    d := [];
    var i, j := 0, 0;
    while i < |a|
      invariant 0 <= i <= |a| && 0 <= j <= |b| && Increasing(d)
      invariant forall x :: x in d <==> x in a[..i] && x !in b
      invariant i < |a| ==> forall m | 0 <= m < |d| :: d[m] < a[i]
      invariant i < |a| ==> forall k | 0 <= k < j :: b[k] < a[i]
      decreases |a| - i + |b| - j
    {
      assert a[..i + 1] == a[..i] + [a[i]];
      if j < |b| && b[j] < a[i] {
        j := j + 1;
      } else if j < |b| && b[j] == a[i] {
        i, j := i + 1, j + 1;
      } else {
        assert a[i] !in b by {
          forall k | 0 <= k < |b| ensures b[k] != a[i] {
            assert k > j ==> b[j] < b[k];
          }
        }
        Append(d, a[i]);
        d := d + [a[i]];
        i := i + 1;
      }
    }
    assert a[..i] == a;
  }

  /** The blocks of a window, as UpdateView lists them. */
  ghost predicate ViewList(blocks: seq<nat>, start: Index, end: Index) {
    Increasing(blocks) && forall b: nat :: b in blocks <==> b < NUM_BLOCKS * NUM_BLOCKS && InView(b, start, end)
  }

  /** Row by row; pointers into the grid grow along the way. */
  method ListBlocks(start: Index, end: Index) returns (blocks: seq<nat>)
    requires end.x < NUM_BLOCKS && end.y < NUM_BLOCKS
    ensures ViewList(blocks, start, end)
  {
    blocks := [];
    var x := start.x;
    while x <= end.x
      invariant start.x <= x && Increasing(blocks)
      invariant forall b: nat :: b in blocks <==> b / NUM_BLOCKS < x && InView(b, start, end)
      decreases end.x + 1 - x
    {
      blocks := ListRow(blocks, x, start, end);
      x := x + 1;
    }
    forall b: nat ensures b in blocks <==> b < NUM_BLOCKS * NUM_BLOCKS && InView(b, start, end) {}
  }

  method ListRow(blocks: seq<nat>, x: nat, start: Index, end: Index) returns (more: seq<nat>)
    requires start.x <= x <= end.x < NUM_BLOCKS && end.y < NUM_BLOCKS && Increasing(blocks)
    requires forall b: nat :: b in blocks <==> b / NUM_BLOCKS < x && InView(b, start, end)
    ensures Increasing(more)
    ensures forall b: nat :: b in more <==> b / NUM_BLOCKS < x + 1 && InView(b, start, end)
  {
    more := blocks;
    var y := start.y;
    while y <= end.y
      invariant start.y <= y && (y <= end.y + 1 || y == start.y) && Increasing(more)
      invariant forall b: nat ::
        b in more <==> (b / NUM_BLOCKS < x || (b / NUM_BLOCKS == x && b % NUM_BLOCKS < y)) && InView(b, start, end)
      decreases end.y + 1 - y
    {
      BlockIndex(Index(x, y));
      forall m | 0 <= m < |more| ensures more[m] < BlockAt(Index(x, y)) {
        assert more[m] in more;
      }
      Append(more, BlockAt(Index(x, y)));
      more := more + [BlockAt(Index(x, y))];
      y := y + 1;
    }
  }

  // ---------- the player ----------

  lemma ReplayAppend(client: set<nat>, msgs: seq<Msg>, m: Msg)
    ensures Replay(client, msgs + [m]) == Apply(Replay(client, msgs), m)
    ensures Sensible(client, msgs + [m]) <==> Sensible(client, msgs) && Fits(m, Replay(client, msgs))
    ensures Moves(msgs + [m]) == Moves(msgs) + Move(m)
  {
    assert (msgs + [m])[..|msgs|] == msgs;
  }

  /** Not off the map and not of negative size, as every cell is after it was updated once. */
  ghost predicate Bodied(cells: seq<Cell>)
    reads set c | c in cells :: c
  {
    forall c | c in cells :: Reaches(c.center, c.radius) && c.radius >= 0.0
  }

  /** An identifier names one cell. */
  ghost predicate Named(cells: seq<Cell>) {
    forall a, b | a in cells && b in cells :: a.ID == b.ID ==> a == b
  }

  datatype Window = Window(start: Index, end: Index)

  ghost function Those(cells: seq<Cell>): set<Cell> {
    set c | c in cells
  }

  /** A cell that reaches into the window, and is a player's or moving. */
  ghost predicate MovesOn(c: Cell, start: Index, end: Index)
    reads c
  {
    EdgeInside(c.center, c.radius, start, end) && (c.isPlayer || c.moving)
  }

  ghost function Moving(cells: seq<Cell>, start: Index, end: Index): set<Cell>
    reads set c | c in cells :: c
  {
    set c | c in cells && MovesOn(c, start, end)
  }

  /** The cells that the client is told to move: of the reported ones, in order, those that move `on` in
      the window and were known before, or were reported before and so added. */
  ghost function Followed(known: set<Cell>, moved: seq<Cell>, on: set<Cell>): seq<nat>
  {
    if moved == [] then []
    else
      var earlier, c := moved[..|moved| - 1], moved[|moved| - 1];
      Followed(known, earlier, on) + if c in on && (c in known || c in earlier) then [c.ID] else []
  }

  /** A cell is told to move exactly if one with its identifier is reported that moves on and was known
      before, or was reported before. */
  lemma {:induction false} FollowedIff(known: set<Cell>, moved: seq<Cell>, on: set<Cell>, id: nat)
    ensures id in Followed(known, moved, on) <==> exists i | 0 <= i < |moved| ::
      moved[i].ID == id && moved[i] in on && (moved[i] in known || moved[i] in moved[..i])
  {
    if moved != [] {
      var n := |moved| - 1;
      FollowedIff(known, moved[..n], on, id);
      assert forall i | 0 <= i < n :: moved[..n][i] == moved[i] && moved[..n][..i] == moved[..i];
    }
  }

  lemma FollowedNext(known: set<Cell>, moved: seq<Cell>, i: nat, on: set<Cell>)
    requires i < |moved|
    ensures Followed(known, moved[..i + 1], on) == Followed(known, moved[..i], on)
      + if moved[i] in on && (moved[i] in known || moved[i] in moved[..i]) then [moved[i].ID] else []
  {
    assert moved[..i + 1][..i] == moved[..i];
  }

  class Player {
    var cells: seq<Cell>
    var topLeft: Index
    var bottomRight: Index
    var blocks: seq<nat>
    var cellHistory: seq<Cell>
    var message: seq<Msg>
    /** The client's set when the message was last empty. */
    ghost var base: set<nat>
    /** The cells that the message moves. */
    ghost var moves: seq<nat>

    ghost function Client(): set<nat>
      reads this
    {
      Replay(base, message)
    }

    function Sight(): Window
      reads this
    {
      Window(topLeft, bottomRight)
    }

    /** The client has the cells of the history and `statics`; it was told of nothing twice, and to
        move nothing it did not have. */
    ghost predicate Mirror(statics: set<nat>)
      reads this
    {
      Client() == statics + Ids(cellHistory) && statics !! Ids(cellHistory)
      && DistinctIds(cellHistory) && Sensible(base, message) && moves == Moves(message)
    }

    /** A message that moves no cell. */
    method Send(m: Msg)
      requires !m.MoveCell?
      modifies this`message
      ensures message == old(message) + [m] && Client() == Apply(old(Client()), m)
      ensures Sensible(base, message) <==> old(Sensible(base, message)) && Fits(m, old(Client()))
      ensures Moves(message) == old(Moves(message))
    {
      ReplayAppend(base, message, m);
      message := message + [m];
    }

    method SendMove(id: nat)
      modifies this`message, this`moves
      ensures message == old(message) + [MoveCell(id)] && Client() == old(Client())
      ensures Sensible(base, message) <==> old(Sensible(base, message)) && id in old(Client())
      ensures Moves(message) == old(Moves(message)) + [id] && moves == old(moves) + [id]
    {
      ReplayAppend(base, message, MoveCell(id));
      message, moves := message + [MoveCell(id)], moves + [id];
    }

    // ---------- dynamic cells ----------

    /** Forget the cell at a place of the history and tell the client. */
    method Forget(x: nat, ghost statics: set<nat>)
      requires Mirror(statics) && x < |cellHistory|
      modifies this`cellHistory, this`message
      ensures Mirror(statics) && cellHistory == Without(old(cellHistory), x)
    {
      var id := cellHistory[x].ID;
      WithoutIds(cellHistory, x);
      assert cellHistory[x] in cellHistory;
      cellHistory := Without(cellHistory, x);
      Send(RemoveCell(id));
    }

    /** The first loop of Update: cells whose centre has left the window are forgotten. */
    method FilterHistory(ghost statics: set<nat>)
      requires Mirror(statics)
      modifies this`cellHistory, this`message
      ensures Mirror(statics)
      ensures forall c :: c in cellHistory <==> c in old(cellHistory) && Inside(c.center, topLeft, bottomRight)
    {
      var x := 0;
      while x < |cellHistory|
        invariant 0 <= x <= |cellHistory| && Mirror(statics)
        invariant forall k | 0 <= k < x :: Inside(cellHistory[k].center, topLeft, bottomRight)
        invariant forall c | c in cellHistory :: c in old(cellHistory)
        invariant forall c | c in old(cellHistory) && Inside(c.center, topLeft, bottomRight) :: c in cellHistory
        decreases |cellHistory| - x
      {
        if !Inside(cellHistory[x].center, topLeft, bottomRight) {
          ghost var were := cellHistory;
          WithoutIds(were, x);
          Forget(x, statics);
          KeepOthers(were, x);
        } else {
          x := x + 1;
        }
      }
    }

    /** What the client is told of a cell that moved. */
    ghost function MoveNews(cell: Cell, known: seq<Cell>): seq<Msg>
      reads this`topLeft, this`bottomRight, cell
    {
      if !EdgeInside(cell.center, cell.radius, topLeft, bottomRight) then []
      else if cell !in known then [AddCell(cell.ID)]
      else if cell.isPlayer || cell.moving then [MoveCell(cell.ID)]
      else []
    }

    /** A cell of the history moved inside the window. */
    method MoveKnown(cell: Cell, ghost statics: set<nat>)
      requires Mirror(statics) && cell in cellHistory && EdgeInside(cell.center, cell.radius, topLeft, bottomRight)
      modifies this`message, this`moves
      ensures Mirror(statics) && message == old(message) + MoveNews(cell, cellHistory)
      ensures moves == old(moves) + if MovesOn(cell, topLeft, bottomRight) then [cell.ID] else []
    {
      if cell.isPlayer || cell.moving {
        assert cell.ID in Ids(cellHistory);
        SendMove(cell.ID);
      }
    }

    /** A cell moved: the client is told to move it, or to add it when it was not known. */
    method ParseMove(cell: Cell, ghost statics: set<nat>)
      requires Mirror(statics) && cell.ID !in statics && forall c | c in cellHistory :: c.ID == cell.ID ==> c == cell
      modifies this`cellHistory, this`message, this`moves
      ensures Mirror(statics)
      ensures cellHistory == if EdgeInside(cell.center, cell.radius, topLeft, bottomRight) && cell !in old(cellHistory)
        then old(cellHistory) + [cell] else old(cellHistory)
      ensures message == old(message) + MoveNews(cell, old(cellHistory))
      ensures moves == old(moves)
        + if MovesOn(cell, topLeft, bottomRight) && cell in old(cellHistory) then [cell.ID] else []
    {
      if EdgeInside(cell.center, cell.radius, topLeft, bottomRight) {
        var done, i := false, 0;
        while i < |cellHistory| && !done
          invariant 0 <= i <= |cellHistory| && (done ==> cell in cellHistory) && (!done ==> cell !in cellHistory[..i])
          invariant cellHistory == old(cellHistory) && Mirror(statics)
          invariant message == old(message) + if done then MoveNews(cell, cellHistory) else []
          invariant moves == old(moves) + if done && MovesOn(cell, topLeft, bottomRight) then [cell.ID] else []
          decreases |cellHistory| - i
        {
          if cell == cellHistory[i] {
            done := true;
            MoveKnown(cell, statics);
          }
          i := i + 1;
        }
        if !done {
          IdsAppend(cellHistory, cell);
          assert cell !in cellHistory by {
            assert cellHistory[..i] == cellHistory;
          }
          assert cell.ID !in Ids(cellHistory);
          cellHistory := cellHistory + [cell];
          Send(AddCell(cell.ID));
        }
      }
    }

    ghost predicate InWindow(c: Cell)
      reads this`topLeft, this`bottomRight, c
    {
      EdgeInside(c.center, c.radius, topLeft, bottomRight)
    }

    /** The history is `were` and the cells of `more` that reach into the window. */
    ghost predicate Grown(were: seq<Cell>, more: seq<Cell>)
      reads this, set c | c in more :: c
    {
      GrownTo(cellHistory, were, more)
    }

    ghost predicate GrownTo(history: seq<Cell>, were: seq<Cell>, more: seq<Cell>)
      reads this`topLeft, this`bottomRight, set c | c in more :: c
    {
      (forall c | c in history :: c in were || (c in more && InWindow(c)))
      && (forall c | c in were :: c in history)
      && forall c | c in more && InWindow(c) :: c in history
    }

    /** The history is `were` without the cells of `gone` that reach into the window. */
    ghost predicate Shrunk(were: seq<Cell>, gone: seq<Cell>)
      reads this, set c | c in gone :: c
    {
      (forall c | c in cellHistory :: c in were && !(c in gone && InWindow(c)))
      && forall c | c in were :: (c in gone && InWindow(c)) || c in cellHistory
    }

    lemma MoveReady(moved: seq<Cell>, were: seq<Cell>, i: nat, statics: set<nat>)
      requires statics !! Ids(moved) && Named(moved + were) && i < |moved| && Grown(were, moved[..i])
      ensures moved[i].ID !in statics && forall c | c in cellHistory :: c.ID == moved[i].ID ==> c == moved[i]
    {
      assert moved[i] in moved && moved[i] in moved + were;
      forall c | c in cellHistory ensures c in moved + were {
        assert c in were || c in moved;
      }
    }

    lemma GrownNext(were: seq<Cell>, moved: seq<Cell>, i: nat, history: seq<Cell>)
      requires i < |moved| && GrownTo(history, were, moved[..i])
      requires cellHistory == if InWindow(moved[i]) && moved[i] !in history then history + [moved[i]] else history
      ensures Grown(were, moved[..i + 1])
    {
      assert moved[..i + 1] == moved[..i] + [moved[i]];
    }

    /** The move events. */
    method ParseMoves(moved: seq<Cell>, ghost statics: set<nat>)
      requires Mirror(statics) && statics !! Ids(moved) && Named(moved + cellHistory)
      modifies this`cellHistory, this`message, this`moves
      ensures Mirror(statics)
      ensures Grown(old(cellHistory), moved)
      ensures moves == old(moves) + Followed(Those(old(cellHistory)), moved, old(Moving(moved, topLeft, bottomRight)))
    {
      var i := 0;
      ghost var on := Moving(moved, topLeft, bottomRight);
      while i < |moved|
        invariant i <= |moved| && Mirror(statics)
        invariant MovedTo(old(cellHistory), moved, i, on, old(moves))
      {
        ParseNext(moved, i, statics, old(cellHistory), on, old(moves));
        i := i + 1;
      }
      assert moved[..i] == moved;
    }

    /** The first `i` of the cells that moved are parsed. */
    ghost predicate MovedTo(were: seq<Cell>, moved: seq<Cell>, i: nat, on: set<Cell>, first: seq<nat>)
      reads this, set c | c in moved :: c
    {
      i <= |moved| && on == Moving(moved, topLeft, bottomRight)
      && (assert forall c | c in moved[..i] :: c in moved; Grown(were, moved[..i]))
      && moves == first + Followed(Those(were), moved[..i], on)
    }

    method ParseNext(moved: seq<Cell>, i: nat, ghost statics: set<nat>, ghost were: seq<Cell>, ghost on: set<Cell>,
        ghost first: seq<nat>)
      requires Mirror(statics) && statics !! Ids(moved) && Named(moved + were)
      requires i < |moved| && MovedTo(were, moved, i, on, first)
      modifies this`cellHistory, this`message, this`moves
      ensures Mirror(statics) && MovedTo(were, moved, i + 1, on, first)
    {
      MoveReady(moved, were, i, statics);
      ghost var history, before := cellHistory, moves;
      assert GrownTo(history, were, moved[..i]);
      ParseMove(moved[i], statics);
      MovedNext(were, moved, i, on, first, history, before);
    }

    lemma MovedNext(were: seq<Cell>, moved: seq<Cell>, i: nat, on: set<Cell>, first: seq<nat>, history: seq<Cell>,
        before: seq<nat>)
      requires i < |moved| && on == Moving(moved, topLeft, bottomRight) && GrownTo(history, were, moved[..i])
      requires before == first + Followed(Those(were), moved[..i], on)
      requires cellHistory == if InWindow(moved[i]) && moved[i] !in history then history + [moved[i]] else history
      requires moves == before
        + if MovesOn(moved[i], topLeft, bottomRight) && moved[i] in history then [moved[i].ID] else []
      ensures MovedTo(were, moved, i + 1, on, first)
    {
      FollowedNext(Those(were), moved, i, on);
      GrownNext(were, moved, i, history);
      assert moved[i] in moved;
    }

    /** DeleteDynamic */
    method DeleteDynamic(cell: Cell, ghost statics: set<nat>)
      requires Mirror(statics)
      modifies this`cellHistory, this`message
      ensures Mirror(statics)
      ensures forall c :: c in cellHistory <==> c in old(cellHistory) && c != cell
    {
      var x := 0;
      while x < |cellHistory|
        invariant 0 <= x <= |cellHistory| && cell !in cellHistory[..x]
        invariant cellHistory == old(cellHistory) && message == old(message) && Mirror(statics)
      {
        if cell == cellHistory[x] {
          WithoutIds(cellHistory, x);
          KeepOthers(cellHistory, x);
          Forget(x, statics);
          return;
        }
        x := x + 1;
      }
      assert cellHistory[..x] == cellHistory;
    }

    /** The removals of dynamic cells. */
    method ParseRemovals(removed: seq<Cell>, ghost statics: set<nat>)
      requires Mirror(statics)
      modifies this`cellHistory, this`message
      ensures Mirror(statics)
      ensures Shrunk(old(cellHistory), removed)
    {
      var i := 0;
      while i < |removed|
        invariant i <= |removed| && Mirror(statics)
        invariant Shrunk(old(cellHistory), removed[..i])
      {
        assert removed[..i + 1] == removed[..i] + [removed[i]];
        if EdgeInside(removed[i].center, removed[i].radius, topLeft, bottomRight) {
          DeleteDynamic(removed[i], statics);
        }
        i := i + 1;
      }
      assert removed[..i] == removed;
    }

    // ---------- static cells ----------

    method ParseStaticAdd(cell: Cell, ghost statics: set<nat>)
      requires Mirror(statics) && cell.ID !in statics && cell.ID !in Ids(cellHistory)
      modifies this`message
      ensures Mirror(statics + One(cell, topLeft, bottomRight))
    {
      if Inside(cell.center, topLeft, bottomRight) {
        Send(AddCell(cell.ID));
      }
    }

    method ParseStaticRemoval(cell: Cell, ghost statics: set<nat>)
      requires Mirror(statics) && cell.ID !in Ids(cellHistory)
      modifies this`message
      ensures Mirror(statics - One(cell, topLeft, bottomRight))
    {
      if Inside(cell.center, topLeft, bottomRight) {
        Send(RemoveCell(cell.ID));
      }
    }

    /** Tell the client of the cells of a list that are in the window: what ParseEvents does with ADD_STATIC. */
    method ParseStaticAdds(added: seq<Cell>, ghost statics: set<nat>)
      requires Mirror(statics) && DistinctIds(added) && Ids(added) !! statics && Ids(added) !! Ids(cellHistory)
      modifies this`message
      ensures Mirror(statics + EventsInside(added, topLeft, bottomRight))
    {
      var i := 0;
      assert statics + EventsInside(added[..0], topLeft, bottomRight) == statics;
      while i < |added|
        invariant i <= |added| && Mirror(statics + EventsInside(added[..i], topLeft, bottomRight))
      {
        EventNext(added, i, topLeft, bottomRight);
        ParseStaticAdd(added[i], statics + EventsInside(added[..i], topLeft, bottomRight));
        i := i + 1;
      }
      assert added[..i] == added;
    }

    /** REMOVE_STATIC: eaten cells in the window are taken from the client. */
    method ParseStaticRemovals(removed: seq<Cell>, ghost statics: set<nat>)
      requires Mirror(statics) && Ids(removed) !! Ids(cellHistory)
      modifies this`message
      ensures Mirror(statics - EventsInside(removed, topLeft, bottomRight))
    {
      var i := 0;
      assert statics - EventsInside(removed[..0], topLeft, bottomRight) == statics;
      while i < |removed|
        invariant i <= |removed| && Mirror(statics - EventsInside(removed[..i], topLeft, bottomRight))
      {
        EventNext(removed, i, topLeft, bottomRight);
        ParseStaticRemoval(removed[i], statics - EventsInside(removed[..i], topLeft, bottomRight));
        SetMinus(statics, EventsInside(removed[..i], topLeft, bottomRight), One(removed[i], topLeft, bottomRight));
        i := i + 1;
      }
      assert removed[..i] == removed;
    }

    /** RemoveBlock */
    method RemoveBlock(data: seq<Cell>, ghost statics: set<nat>)
      requires Mirror(statics) && Ids(data) !! Ids(cellHistory)
      modifies this`message
      ensures Mirror(statics - Ids(data))
    {
      var i := 0;
      assert statics - Ids(data[..0]) == statics;
      while i < |data|
        invariant i <= |data| && Mirror(statics - Ids(data[..i]))
      {
        IdsAppend(data[..i], data[i]);
        assert data[..i + 1] == data[..i] + [data[i]] && data[i] in data;
        Send(RemoveCell(data[i].ID));
        i := i + 1;
      }
      assert data[..i] == data;
    }

    /** AddBlock */
    method AddBlock(data: seq<Cell>, ghost statics: set<nat>)
      requires Mirror(statics) && DistinctIds(data) && Ids(data) !! statics && Ids(data) !! Ids(cellHistory)
      modifies this`message
      ensures Mirror(statics + Ids(data))
    {
      var i := 0;
      assert statics + Ids(data[..0]) == statics;
      while i < |data|
        invariant i <= |data| && Mirror(statics + Ids(data[..i]))
      {
        IdsAppend(data[..i], data[i]);
        assert data[..i + 1] == data[..i] + [data[i]] && data[i] in data;
        assert forall k | 0 <= k < i :: data[k].ID != data[i].ID;
        Send(AddCell(data[i].ID));
        i := i + 1;
      }
      assert data[..i] == data;
    }

    // ---------- the window ----------

    /** The first loop of CalculateCamera. */
    method SumRadius() returns (total: real)
      ensures total == TotalRadius(cells)
    {
      total := 0.0;
      var i := 0;
      while i < |cells|
        invariant i <= |cells| && total == TotalRadius(cells[..i])
      {
        assert cells[..i + 1][..i] == cells[..i];
        total := total + cells[i].radius;
        i := i + 1;
      }
      assert cells[..i] == cells;
    }

    /** UpdateView for a camera position: the window reaches as far as the view on either side, and
        1.6 times as far across. */
    method UpdateView(camera: Vec)
      requires |cells| > 0
      modifies this`topLeft, this`bottomRight, this`blocks
      ensures ViewList(blocks, topLeft, bottomRight)
      ensures var view := ViewSize(cells);
        topLeft == IndexFromCoord(Vec(camera.x - view * 1.6, camera.y - view))
        && bottomRight == IndexFromCoord(Vec(camera.x + view * 1.6, camera.y + view))
    {
      var total := SumRadius();
      var view := View(|cells|, total);
      topLeft := IndexFromCoord(Vec(camera.x - view * 1.6, camera.y - view));
      bottomRight := IndexFromCoord(Vec(camera.x + view * 1.6, camera.y + view));
      blocks := ListBlocks(topLeft, bottomRight);
    }

    /** The blocks that left the window go, the ones that came in are told. */
    method UpdateBlocks(world: World, camera: Vec, ghost missing: set<nat>, ghost more: set<nat>)
      requires |cells| > 0 && ViewList(blocks, topLeft, bottomRight) && Separate(world.blocks)
      requires Mirror((VisibleIds(world.blocks, topLeft, bottomRight) - missing) + more)
      requires AllIds(world.blocks) !! more && AllIds(world.blocks) !! Ids(cellHistory)
      modifies this`topLeft, this`bottomRight, this`blocks, this`message
      ensures ViewList(blocks, topLeft, bottomRight)
      ensures Mirror((VisibleIds(world.blocks, topLeft, bottomRight)
        - (missing * VisibleIds(world.blocks, old(topLeft), old(bottomRight)))) + more)
    {
      var oldTL, oldBR, oldBlocks := topLeft, bottomRight, blocks;
      ghost var was := VisibleIds(world.blocks, topLeft, bottomRight);
      UpdateView(camera);
      if oldTL != topLeft || oldBR != bottomRight {
        var gone := SetDifference(oldBlocks, blocks);
        var come := SetDifference(blocks, oldBlocks);
        RemoveBlocks(world, gone, (was - missing) + more);
        Arrivals(world.blocks, come, oldTL, oldBR, more);
        AddBlocks(world, come, ((was - missing) + more) - UnionIds(world.blocks, gone));
        Turned(world.blocks, Turn(oldTL, oldBR, topLeft, bottomRight), gone, come, missing, more);
      } else {
        assert was - missing == was - (missing * was);
      }
    }

    method RemoveBlocks(world: World, list: seq<nat>, ghost statics: set<nat>)
      requires Mirror(statics) && AllIds(world.blocks) !! Ids(cellHistory) && forall b | b in list :: b < |world.blocks|
      modifies this`message
      ensures Mirror(statics - UnionIds(world.blocks, list))
    {
      var i := 0;
      assert statics - UnionIds(world.blocks, list[..0]) == statics;
      while i < |list|
        invariant i <= |list| && Mirror(statics - UnionIds(world.blocks, list[..i]))
      {
        assert list[i] in list;
        UnionNext(world.blocks, list, i);
        RemoveBlock(world.blocks[list[i]], statics - UnionIds(world.blocks, list[..i]));
        assert (statics - UnionIds(world.blocks, list[..i])) - Ids(world.blocks[list[i]])
          == statics - UnionIds(world.blocks, list[..i + 1]);
        i := i + 1;
      }
      assert list[..i] == list;
    }

    method AddBlocks(world: World, list: seq<nat>, ghost statics: set<nat>)
      requires Mirror(statics) && AllIds(world.blocks) !! Ids(cellHistory) && forall b | b in list :: b < |world.blocks|
      requires Increasing(list) && Separate(world.blocks) && statics !! UnionIds(world.blocks, list)
      modifies this`message
      ensures Mirror(statics + UnionIds(world.blocks, list))
    {
      var i := 0;
      assert statics + UnionIds(world.blocks, list[..0]) == statics;
      while i < |list|
        invariant i <= |list| && Mirror(statics + UnionIds(world.blocks, list[..i]))
      {
        assert list[i] in list;
        UnionNext(world.blocks, list, i);
        NewBlock(world.blocks, list, i);
        AddBlock(world.blocks[list[i]], statics + UnionIds(world.blocks, list[..i]));
        assert (statics + UnionIds(world.blocks, list[..i])) + Ids(world.blocks[list[i]])
          == statics + UnionIds(world.blocks, list[..i + 1]);
        i := i + 1;
      }
      assert list[..i] == list;
    }

    // ---------- a tick ----------

    /** A new player has a window, but nothing in it was told. */
    constructor (cell: Cell, world: World, camera: Vec)
      ensures cells == [cell] && cellHistory == [] && ViewList(blocks, topLeft, bottomRight)
      ensures Mirror({}) && Client() == {}
    {
      cells, cellHistory, message, moves, base := [cell], [], [], [], {};
      topLeft, bottomRight, blocks := Index(0, 0), Index(0, 0), [];
      new;
      UpdateView(camera);
    }

    /** What has to hold of the events of a tick and of the map `before` it: identifiers are not
        shared, and the cells in the history have a body on the map. */
    ghost predicate Ready(world: World, before: seq<seq<Cell>>)
      reads this, world, set b, c | 0 <= b < |world.blocks| && c in world.blocks[b] :: c,
        set c | c in cellHistory :: c, set c | c in world.removedStatic :: c
    {
      world.WellPlaced() && world.Accounts(before) && Separate(before)
      && AllIds(before) !! Ids(world.moved + cellHistory)
      && DistinctIds(world.addedStatic) && Ids(world.addedStatic) !! AllIds(before) + Ids(world.moved + cellHistory)
      && Named(world.moved + cellHistory) && Bodied(cellHistory)
    }

    /** ParseEvents: moves, then additions and removals of static cells, then removals of dynamic ones. */
    method ParseEvents(world: World, ghost before: seq<seq<Cell>>, ghost missing: set<nat>)
      requires Ready(world, before) && forall c | c in cellHistory :: InWindow(c)
      requires Mirror(VisibleIds(before, topLeft, bottomRight) - missing)
      modifies this`cellHistory, this`message, this`moves
      ensures Mirror((VisibleIds(world.blocks, topLeft, bottomRight) - missing)
        + EventsInside(world.addedStatic, topLeft, bottomRight))
      ensures Told(old(cellHistory), world.moved, world.removedDynamic)
      ensures moves
        == old(moves) + Followed(Those(old(cellHistory)), world.moved, old(Moving(world.moved, topLeft, bottomRight)))
    {
      VisibleWithin(before, topLeft, bottomRight);
      IdsConcat(world.moved, cellHistory);
      ParseMoves(world.moved, VisibleIds(before, topLeft, bottomRight) - missing);
      HistoryIds(cellHistory, world.moved, old(cellHistory));
      ParseStatic(world, before, missing);
      ParseRemovals(world.removedDynamic,
        (VisibleIds(world.blocks, topLeft, bottomRight) - missing)
          + EventsInside(world.addedStatic, topLeft, bottomRight));
    }

    method ParseStatic(world: World, ghost before: seq<seq<Cell>>, ghost missing: set<nat>)
      requires world.WellPlaced() && world.Accounts(before) && Separate(before) && AllIds(before) !! Ids(cellHistory)
      requires DistinctIds(world.addedStatic) && Ids(world.addedStatic) !! AllIds(before) + Ids(cellHistory)
      requires Mirror(VisibleIds(before, topLeft, bottomRight) - missing)
      modifies this`message
      ensures Mirror((VisibleIds(world.blocks, topLeft, bottomRight) - missing)
        + EventsInside(world.addedStatic, topLeft, bottomRight))
    {
      ghost var statics := VisibleIds(before, topLeft, bottomRight) - missing;
      ghost var added := EventsInside(world.addedStatic, topLeft, bottomRight);
      VisibleWithin(before, topLeft, bottomRight);
      ParseStaticAdds(world.addedStatic, statics);
      RemovedWithin(world, before);
      ParseStaticRemovals(world.removedStatic, statics + added);
      Visible(world, before, topLeft, bottomRight);
      AddedWithin(world, topLeft, bottomRight);
      assert EventsInside(world.removedStatic, topLeft, bottomRight) <= VisibleIds(before, topLeft, bottomRight);
      assert (statics + added) - EventsInside(world.removedStatic, topLeft, bottomRight)
        == (VisibleIds(world.blocks, topLeft, bottomRight) - missing) + added;
    }

    /** The history after a tick that started with the history `were` and the window from `start` to
        `end`: what was there with its centre inside, what moved and reaches inside, nothing that was eaten. */
    ghost predicate Remembers(were: seq<Cell>, world: World, start: Index, end: Index)
      reads this, world, set c | c in were :: c, set c | c in world.moved :: c
    {
      (forall c | c in cellHistory :: c !in world.removedDynamic)
      && (forall c | c in cellHistory ::
            (c in were && Inside(c.center, start, end))
            || (c in world.moved && EdgeInside(c.center, c.radius, start, end)))
      && (forall c | c in were && Inside(c.center, start, end) && c !in world.removedDynamic :: c in cellHistory)
      && forall c | c in world.moved && EdgeInside(c.center, c.radius, start, end) && c !in world.removedDynamic ::
        c in cellHistory
    }

    /** Update, from the filter on.  `before` is the map before this tick's removals, `missing` the
        cells the client was never told of.  The client has exactly the static cells of the new
        window but the missing ones that were visible all along, the cells reported as added inside
        the old window, and the history, in which no cell that was eaten is left. */
    method Update(world: World, camera: Vec, ghost before: seq<seq<Cell>>, ghost missing: set<nat>)
      requires |cells| > 0 && Ready(world, before) && ViewList(blocks, topLeft, bottomRight)
      requires Mirror(VisibleIds(before, topLeft, bottomRight) - missing)
      modifies this`topLeft, this`bottomRight, this`blocks, this`cellHistory, this`message, this`moves
      ensures ViewList(blocks, topLeft, bottomRight)
      ensures Mirror(Expected(world, old(topLeft), old(bottomRight), missing))
      ensures Remembers(old(cellHistory), world, old(topLeft), old(bottomRight))
      ensures moves
        == old(moves) + Followed(old(Centred()), world.moved, old(Moving(world.moved, topLeft, bottomRight)))
    {
      UpdateCells(world, before, missing);
      EventsApart(world, before, old(cellHistory));
      UpdateWindow(world, camera, missing);
    }

    /** The end of Update. */
    method UpdateWindow(world: World, camera: Vec, ghost missing: set<nat>)
      requires |cells| > 0 && ViewList(blocks, topLeft, bottomRight) && Separate(world.blocks)
      requires Mirror((VisibleIds(world.blocks, topLeft, bottomRight) - missing)
        + EventsInside(world.addedStatic, topLeft, bottomRight))
      requires AllIds(world.blocks) !! EventsInside(world.addedStatic, topLeft, bottomRight)
      requires AllIds(world.blocks) !! Ids(cellHistory)
      modifies this`topLeft, this`bottomRight, this`blocks, this`message
      ensures ViewList(blocks, topLeft, bottomRight)
      ensures Mirror(Expected(world, old(topLeft), old(bottomRight), missing))
    {
      UpdateBlocks(world, camera, missing, EventsInside(world.addedStatic, topLeft, bottomRight));
      Send(Position);
    }

    /** The cells of the map, the reported ones and those of the history stay apart. */
    lemma EventsApart(world: World, before: seq<seq<Cell>>, were: seq<Cell>)
      requires world.WellPlaced() && world.Accounts(before) && Separate(before)
      requires AllIds(before) !! Ids(world.moved + were) && Ids(world.addedStatic) !! AllIds(before)
      requires forall c | c in cellHistory :: c in world.moved || c in were
      ensures Separate(world.blocks) && AllIds(world.blocks) !! Ids(cellHistory)
      ensures AllIds(world.blocks) !! EventsInside(world.addedStatic, topLeft, bottomRight)
    {
      StillSeparate(world, before);
      AddedWithin(world, topLeft, bottomRight);
      HistoryIds(cellHistory, world.moved, were);
    }

    /** The cells of the history whose centre is in the window. */
    ghost function Centred(): set<Cell>
      reads this, set c | c in cellHistory :: c
    {
      set c | c in cellHistory && Inside(c.center, topLeft, bottomRight)
    }

    method UpdateCells(world: World, ghost before: seq<seq<Cell>>, ghost missing: set<nat>)
      requires Ready(world, before) && Mirror(VisibleIds(before, topLeft, bottomRight) - missing)
      modifies this`cellHistory, this`message, this`moves
      ensures Mirror((VisibleIds(world.blocks, topLeft, bottomRight) - missing)
        + EventsInside(world.addedStatic, topLeft, bottomRight))
      ensures Remembers(old(cellHistory), world, topLeft, bottomRight)
      ensures moves
        == old(moves) + Followed(old(Centred()), world.moved, old(Moving(world.moved, topLeft, bottomRight)))
    {
      FilterHistory(VisibleIds(before, topLeft, bottomRight) - missing);
      FilterReady(world.moved, old(cellHistory), cellHistory);
      assert Those(cellHistory) == old(Centred());
      forall c | c in cellHistory ensures InWindow(c) {
        CentreThenEdge(c.center, c.radius);
      }
      ParseEvents(world, before, missing);
    }

    /** The static cells the client has after an update. */
    ghost function Expected(world: World, oldStart: Index, oldEnd: Index, missing: set<nat>): set<nat>
      reads this, world, set c | c in world.addedStatic :: c
    {
      (VisibleIds(world.blocks, topLeft, bottomRight) - (missing * VisibleIds(world.blocks, oldStart, oldEnd)))
      + EventsInside(world.addedStatic, oldStart, oldEnd)
    }

    /** The history after the events: what was there and what moved into the window, without what was eaten. */
    ghost predicate Told(were: seq<Cell>, moved: seq<Cell>, gone: seq<Cell>)
      reads this, set c | c in moved :: c
    {
      (forall c | c in cellHistory :: (c in were || (c in moved && InWindow(c))) && c !in gone)
      && (forall c | c in were && c !in gone :: c in cellHistory)
      && forall c | c in moved && InWindow(c) && c !in gone :: c in cellHistory
    }
  }

  /** The identifier of a cell whose centre is in the window. */
  ghost function One(c: Cell, start: Index, end: Index): set<nat>
    reads c
  {
    if Inside(c.center, start, end) then {c.ID} else {}
  }

  lemma EventNext(cells: seq<Cell>, i: nat, start: Index, end: Index)
    requires i < |cells|
    ensures EventsInside(cells[..i + 1], start, end) == EventsInside(cells[..i], start, end) + One(cells[i], start, end)
    ensures EventsInside(cells[..i], start, end) <= Ids(cells[..i]) && cells[i].ID in Ids(cells)
    ensures DistinctIds(cells) ==> cells[i].ID !in EventsInside(cells[..i], start, end)
  {
    InsideAppend(cells[..i], cells[i], start, end);
    assert cells[..i + 1] == cells[..i] + [cells[i]] && cells[i] in cells;
  }

  lemma SetMinus(a: set<nat>, b: set<nat>, c: set<nat>)
    ensures (a - b) - c == a - (b + c)
  {
  }

  lemma FilterReady(moved: seq<Cell>, were: seq<Cell>, history: seq<Cell>)
    requires forall c | c in history :: c in were
    ensures Ids(moved + history) <= Ids(moved + were) && (Named(moved + were) ==> Named(moved + history))
    ensures Bodied(were) ==> Bodied(history)
  {
    assert forall c | c in moved + history :: c in moved + were;
  }

  lemma HistoryIds(history: seq<Cell>, moved: seq<Cell>, were: seq<Cell>)
    requires forall c | c in history :: c in moved || c in were
    ensures Ids(history) <= Ids(moved + were)
  {
    assert forall c | c in history :: c in moved + were;
  }

  lemma IdsConcat(a: seq<Cell>, b: seq<Cell>)
    ensures Ids(a + b) == Ids(a) + Ids(b)
  {
    assert forall c | c in a :: c in a + b;
    assert forall c | c in b :: c in a + b;
  }

  lemma VisibleWithin(blocks: seq<seq<Cell>>, start: Index, end: Index)
    ensures VisibleIds(blocks, start, end) <= AllIds(blocks)
  {
  }

  lemma AddedWithin(world: World, start: Index, end: Index)
    ensures EventsInside(world.addedStatic, start, end) <= Ids(world.addedStatic)
  {
  }

  /** Eaten cells were on the map. */
  lemma RemovedWithin(world: World, before: seq<seq<Cell>>)
    requires world.WellPlaced() && world.Accounts(before)
    ensures Ids(world.removedStatic) <= AllIds(before)
  {
    forall c | c in world.removedStatic ensures c.ID in AllIds(before) {
      var b := BlockOf(c.center);
      assert c.ID in EventIds(world.removedStatic, b) && c.ID in Ids(before[b]);
    }
  }

  /** Being visible is being in a block of the window. */
  lemma VisibleAt(blocks: seq<seq<Cell>>, start: Index, end: Index, x: nat)
    ensures x in VisibleIds(blocks, start, end)
      <==> exists b | 0 <= b < |blocks| :: InView(b, start, end) && x in Ids(blocks[b])
  {
    forall b | 0 <= b < |blocks| && InView(b, start, end) && x in Ids(blocks[b])
      ensures x in VisibleIds(blocks, start, end)
    {
      var c :| c in blocks[b] && c.ID == x;
    }
    if x in VisibleIds(blocks, start, end) {
      var b, c :| 0 <= b < |blocks| && InView(b, start, end) && c in blocks[b] && c.ID == x;
      assert x in Ids(blocks[b]);
    }
  }

  lemma EventAt(cells: seq<Cell>, start: Index, end: Index, x: nat)
    ensures x in EventsInside(cells, start, end)
      <==> exists b: nat :: b < NUM_BLOCKS * NUM_BLOCKS && InView(b, start, end) && x in EventIds(cells, b)
  {
    forall c | c in cells && c.ID == x && Inside(c.center, start, end)
      ensures exists b: nat :: b < NUM_BLOCKS * NUM_BLOCKS && InView(b, start, end) && x in EventIds(cells, b)
    {
      InsideView(c.center, start, end);
      assert x in EventIds(cells, BlockOf(c.center));
    }
    forall b: nat | b < NUM_BLOCKS * NUM_BLOCKS && InView(b, start, end) && x in EventIds(cells, b)
      ensures x in EventsInside(cells, start, end)
    {
      var c :| c in cells && BlockOf(c.center) == b && c.ID == x;
      InsideView(c.center, start, end);
    }
  }

  lemma AllAt(blocks: seq<seq<Cell>>, x: nat)
    ensures x in AllIds(blocks) <==> exists b | 0 <= b < |blocks| :: x in Ids(blocks[b])
  {
    forall b | 0 <= b < |blocks| && x in Ids(blocks[b]) ensures x in AllIds(blocks) {
      var c :| c in blocks[b] && c.ID == x;
    }
    if x in AllIds(blocks) {
      var b, c :| 0 <= b < |blocks| && c in blocks[b] && c.ID == x;
      assert x in Ids(blocks[b]);
    }
  }

  lemma StillSeparate(world: World, before: seq<seq<Cell>>)
    requires world.WellPlaced() && world.Accounts(before) && Separate(before)
    ensures Separate(world.blocks) && AllIds(world.blocks) <= AllIds(before)
  {
    forall a, b | 0 <= a < |world.blocks| && 0 <= b < |world.blocks| && a != b
      ensures Ids(world.blocks[a]) !! Ids(world.blocks[b])
    {
      assert Ids(before[a]) !! Ids(before[b]);
    }
    forall x | x in AllIds(world.blocks) ensures x in AllIds(before) {
      AllAt(world.blocks, x);
      var b :| 0 <= b < |world.blocks| && x in Ids(world.blocks[b]);
      assert x in Ids(before[b]);
      AllAt(before, x);
    }
  }

  /** What was visible before the tick is what still is, and what was eaten inside the window. */
  lemma Visible(world: World, before: seq<seq<Cell>>, start: Index, end: Index)
    requires world.WellPlaced() && world.Accounts(before) && Separate(before)
    ensures VisibleIds(before, start, end)
      == VisibleIds(world.blocks, start, end) + EventsInside(world.removedStatic, start, end)
    ensures VisibleIds(world.blocks, start, end) !! EventsInside(world.removedStatic, start, end)
    ensures Separate(world.blocks) && AllIds(world.blocks) <= AllIds(before)
  {
    StillSeparate(world, before);
    var now, gone := VisibleIds(world.blocks, start, end), EventsInside(world.removedStatic, start, end);
    forall x: nat ensures x in VisibleIds(before, start, end) <==> x in now + gone {
      VisibleAt(before, start, end, x);
      VisibleAt(world.blocks, start, end, x);
      EventAt(world.removedStatic, start, end, x);
    }
    forall x | x in now ensures x !in gone {
      VisibleAt(world.blocks, start, end, x);
      EventAt(world.removedStatic, start, end, x);
      var a :| 0 <= a < |world.blocks| && InView(a, start, end) && x in Ids(world.blocks[a]);
      forall b: nat | b < NUM_BLOCKS * NUM_BLOCKS ensures x !in EventIds(world.removedStatic, b) {
        NotEaten(world, before, a, b, x);
      }
    }
  }

  lemma NotEaten(world: World, before: seq<seq<Cell>>, a: nat, b: nat, x: nat)
    requires world.WellPlaced() && world.Accounts(before) && Separate(before)
    requires a < |before| && b < |before| && x in Ids(world.blocks[a])
    ensures x !in EventIds(world.removedStatic, b)
  {
    assert x in Ids(before[a]);
    assert a != b ==> Ids(before[a]) !! Ids(before[b]);
  }

  ghost function TotalRadius(cells: seq<Cell>): real
    reads cells
    decreases |cells|
  {
    if cells == [] then 0.0
    else TotalRadius(cells[..|cells| - 1]) + cells[|cells| - 1].radius
  }

  /** How far the view reaches: the more and the bigger the cells, the further. */
  function View(count: nat, total: real): real
    requires count > 0
  {
    (4 + count * 3) as real * (total / count as real) + 1000.0
  }

  ghost function ViewSize(cells: seq<Cell>): real
    requires cells != []
    reads cells
  {
    View(|cells|, TotalRadius(cells))
  }

  lemma {:induction false} TotalNotNegative(cells: seq<Cell>)
    requires Bodied(cells)
    ensures TotalRadius(cells) >= 0.0
  {
    if cells != [] {
      assert cells[|cells| - 1] in cells && forall c | c in cells[..|cells| - 1] :: c in cells;
      TotalNotNegative(cells[..|cells| - 1]);
    }
  }

  /** With cells of any sizes the view reaches 1000 at least, so whatever is on the map and within
      1000 of the camera is in the window. */
  lemma NearInView(cells: seq<Cell>, camera: Vec, point: Vec, start: Index, end: Index)
    requires cells != [] && Bodied(cells)
    requires start == IndexFromCoord(Vec(camera.x - ViewSize(cells) * 1.6, camera.y - ViewSize(cells)))
    requires end == IndexFromCoord(Vec(camera.x + ViewSize(cells) * 1.6, camera.y + ViewSize(cells)))
    requires camera.x - 1600.0 <= point.x <= camera.x + 1600.0 && camera.y - 1000.0 <= point.y <= camera.y + 1000.0
    ensures Inside(point, start, end)
  {
    var view := ViewSize(cells);
    TotalNotNegative(cells);
    Product((4 + |cells| * 3) as real, TotalRadius(cells) / |cells| as real);
    assert view >= 1000.0;
    AxisMonotone(camera.x - view * 1.6, point.x);
    AxisMonotone(camera.y - view, point.y);
    AxisMonotone(point.x, camera.x + view * 1.6);
    AxisMonotone(point.y, camera.y + view);
  }

  /** Of a player with `n` cells of one size the view reaches 3 `n` + 4 of their radii, and 1000. */
  lemma EqualCells(cells: seq<Cell>, r: real)
    requires cells != [] && forall c <- cells :: c.radius == r
    ensures ViewSize(cells) == (3 * |cells| + 4) as real * r + 1000.0
  {
    EqualTotal(cells, r);
    EqualView(|cells|, TotalRadius(cells), r);
  }

  lemma EqualView(n: nat, total: real, r: real)
    requires n > 0 && total == n as real * r
    ensures View(n, total) == (3 * n + 4) as real * r + 1000.0
  {
    Average(n as real, r);
    assert total / n as real == r;
    assert (4 + n * 3) as real == (3 * n + 4) as real;
  }

  lemma {:induction false} EqualTotal(cells: seq<Cell>, r: real)
    requires forall c <- cells :: c.radius == r
    ensures TotalRadius(cells) == |cells| as real * r
  {
    if cells != [] {
      var n := |cells| - 1;
      assert cells[n] in cells && forall c <- cells[..n] :: c in cells;
      EqualTotal(cells[..n], r);
      assert (n + 1) as real * r == n as real * r + r;
    }
  }

  lemma Average(n: real, r: real)
    requires n > 0.0
    ensures n * r / n == r
  {
  }

  lemma Product(a: real, b: real)
    requires a >= 0.0 && b >= 0.0
    ensures a * b >= 0.0
  {
  }

  // ---------- sets of identifiers ----------

  ghost function AllIds(blocks: seq<seq<Cell>>): set<nat> {
    set b, c | 0 <= b < |blocks| && c in blocks[b] :: c.ID
  }

  ghost function UnionIds(blocks: seq<seq<Cell>>, list: seq<nat>): set<nat> {
    set b, c | b in list && b < |blocks| && c in blocks[b] :: c.ID
  }

  /** No identifier is on the map twice. */
  ghost predicate Separate(blocks: seq<seq<Cell>>) {
    |blocks| == NUM_BLOCKS * NUM_BLOCKS
    && (forall b | 0 <= b < |blocks| :: DistinctIds(blocks[b]))
    && forall a, b | 0 <= a < |blocks| && 0 <= b < |blocks| && a != b :: Ids(blocks[a]) !! Ids(blocks[b])
  }

  /** The one block an identifier is in. */
  lemma OneBlock(blocks: seq<seq<Cell>>, a: nat, b: nat, x: nat)
    requires Separate(blocks) && a < |blocks| && b < |blocks| && x in Ids(blocks[a]) && x in Ids(blocks[b])
    ensures a == b
  {
  }

  lemma UnionNext(blocks: seq<seq<Cell>>, list: seq<nat>, i: nat)
    requires i < |list| && list[i] < |blocks|
    ensures UnionIds(blocks, list[..i + 1]) == UnionIds(blocks, list[..i]) + Ids(blocks[list[i]])
    ensures Ids(blocks[list[i]]) <= AllIds(blocks) && Ids(blocks[list[i]]) <= UnionIds(blocks, list)
  {
    assert list[..i + 1] == list[..i] + [list[i]] && list[i] in list;
  }

  /** What arrives was not visible before. */
  lemma Arrivals(blocks: seq<seq<Cell>>, come: seq<nat>, start: Index, end: Index, more: set<nat>)
    requires Separate(blocks) && AllIds(blocks) !! more
    requires forall b | b in come :: b < |blocks| && !InView(b, start, end)
    ensures UnionIds(blocks, come) !! VisibleIds(blocks, start, end) + more
  {
    forall x | x in UnionIds(blocks, come) ensures x !in VisibleIds(blocks, start, end) {
      var b, c :| b in come && b < |blocks| && c in blocks[b] && c.ID == x;
      assert x in Ids(blocks[b]);
      InVisible(blocks, start, end, b, x);
    }
  }

  /** A window that moved. */
  datatype Turn = Turn(oldStart: Index, oldEnd: Index, start: Index, end: Index) {
    predicate Was(b: nat) {
      InView(b, oldStart, oldEnd)
    }

    predicate Is(b: nat) {
      InView(b, start, end)
    }
  }

  lemma InUnion(blocks: seq<seq<Cell>>, list: seq<nat>, b: nat, x: nat)
    requires Separate(blocks) && b < |blocks| && x in Ids(blocks[b]) && forall k | k in list :: k < |blocks|
    ensures x in UnionIds(blocks, list) <==> b in list
  {
    var c :| c in blocks[b] && c.ID == x;
    if x in UnionIds(blocks, list) {
      var a, d :| a in list && a < |blocks| && d in blocks[a] && d.ID == x;
      assert x in Ids(blocks[a]);
      OneBlock(blocks, a, b, x);
    }
  }

  lemma InVisible(blocks: seq<seq<Cell>>, start: Index, end: Index, b: nat, x: nat)
    requires Separate(blocks) && b < |blocks| && x in Ids(blocks[b])
    ensures x in VisibleIds(blocks, start, end) <==> InView(b, start, end)
  {
    var c :| c in blocks[b] && c.ID == x;
    if x in VisibleIds(blocks, start, end) {
      var a, d :| 0 <= a < |blocks| && InView(a, start, end) && d in blocks[a] && d.ID == x;
      assert x in Ids(blocks[a]);
      OneBlock(blocks, a, b, x);
    }
  }

  lemma NewBlock(blocks: seq<seq<Cell>>, list: seq<nat>, i: nat)
    requires i < |list| && list[i] < |blocks| && Separate(blocks)
    requires Increasing(list) && forall b | b in list :: b < |blocks|
    ensures Ids(blocks[list[i]]) !! UnionIds(blocks, list[..i])
  {
    assert list[i] !in list[..i];
    forall x | x in Ids(blocks[list[i]]) ensures x !in UnionIds(blocks, list[..i]) {
      InUnion(blocks, list[..i], list[i], x);
    }
  }

  /** The differences of the block lists turn what was visible into what is. */
  lemma Turned(blocks: seq<seq<Cell>>, t: Turn, gone: seq<nat>, come: seq<nat>, missing: set<nat>, more: set<nat>)
    requires Separate(blocks) && AllIds(blocks) !! more
    requires forall b: nat :: b in gone <==> b < |blocks| && t.Was(b) && !t.Is(b)
    requires forall b: nat :: b in come <==> b < |blocks| && t.Is(b) && !t.Was(b)
    ensures var was, now := VisibleIds(blocks, t.oldStart, t.oldEnd), VisibleIds(blocks, t.start, t.end);
      ((was - missing) + more) - UnionIds(blocks, gone) + UnionIds(blocks, come) == (now - (missing * was)) + more
  {
    var was, now := VisibleIds(blocks, t.oldStart, t.oldEnd), VisibleIds(blocks, t.start, t.end);
    forall x | x in AllIds(blocks)
      ensures x in was - missing - UnionIds(blocks, gone) + UnionIds(blocks, come) <==> x in now - (missing * was)
    {
      var b, c :| 0 <= b < |blocks| && c in blocks[b] && c.ID == x;
      assert x in Ids(blocks[b]);
      InUnion(blocks, gone, b, x);
      InUnion(blocks, come, b, x);
      InVisible(blocks, t.oldStart, t.oldEnd, b, x);
      InVisible(blocks, t.start, t.end, b, x);
    }
    assert was <= AllIds(blocks) && now <= AllIds(blocks) && UnionIds(blocks, gone) <= AllIds(blocks);
    assert UnionIds(blocks, come) <= AllIds(blocks);
  }

  lemma InsideAppend(cells: seq<Cell>, c: Cell, start: Index, end: Index)
    ensures EventsInside(cells + [c], start, end)
      == EventsInside(cells, start, end) + if Inside(c.center, start, end) then {c.ID} else {}
  {
    assert forall x | x in cells + [c] :: x in cells || x == c;
    assert c in cells + [c] && forall x | x in cells :: x in cells + [c];
  }

  lemma KeepOthers(cells: seq<Cell>, x: nat)
    requires x < |cells| && DistinctIds(cells)
    ensures forall c :: c in Without(cells, x) <==> c in cells && c != cells[x]
  {
    WithoutOnce(cells, x);
  }

  /** The static mirror at the end of a tick, once the reported cells are on the map: it is exact
      if and only if nothing missing stayed visible and every reported cell is inside the old
      window just when it is inside the new one. */
  lemma StaticMirrorExact(player: Player, world: World, oldStart: Index, oldEnd: Index, missing: set<nat>)
    requires player.Mirror(player.Expected(world, oldStart, oldEnd, missing))
    requires Ids(world.addedStatic) !! AllIds(world.blocks) + Ids(player.cellHistory)
    requires AllIds(world.blocks) !! Ids(player.cellHistory)
    ensures var start, end := player.topLeft, player.bottomRight;
      player.Client()
        == VisibleIds(world.blocks, start, end) + EventsInside(world.addedStatic, start, end) + Ids(player.cellHistory)
      <==> (missing * VisibleIds(world.blocks, oldStart, oldEnd) * VisibleIds(world.blocks, start, end) == {}
        && EventsInside(world.addedStatic, oldStart, oldEnd) == EventsInside(world.addedStatic, start, end))
  {
    var start, end, history := player.topLeft, player.bottomRight, Ids(player.cellHistory);
    var was, now := VisibleIds(world.blocks, oldStart, oldEnd), VisibleIds(world.blocks, start, end);
    var early, late := EventsInside(world.addedStatic, oldStart, oldEnd), EventsInside(world.addedStatic, start, end);
    VisibleWithin(world.blocks, start, end);
    AddedWithin(world, oldStart, oldEnd);
    AddedWithin(world, start, end);
    SameSets(now, missing * was, early, late, history);
  }

  lemma SameSets(now: set<nat>, lost: set<nat>, a: set<nat>, b: set<nat>, history: set<nat>)
    requires a !! now && b !! now && a !! history && b !! history && now !! history
    ensures ((now - lost) + a) + history == now + b + history <==> lost * now == {} && a == b
  {
    var told, shown := ((now - lost) + a) + history, now + b + history;
    if told == shown {
      forall x | x in now ensures x !in lost {
        assert x in shown && x in told;
      }
      forall x | x in a ensures x in b {
        assert x in told && x in shown;
      }
      forall x | x in b ensures x in a {
        assert x in shown && x in told;
      }
      assert lost * now == {} && a == b;
    }
    if lost * now == {} && a == b {
      forall x | x in now ensures x !in lost {
        assert x in lost ==> x in lost * now;
      }
      assert now - lost == now;
    }
  }
}
