/**
 Cells as the collision loops see them: their sizes, their sums, and what a virus makes of them.

 A cell is a value in the one vector that holds it, and its size is exact.
 */
module Balls {
  import opened Lists

  const PLAYER_MIN_SIZE := 17.64
  const MAX_CELLS := 16

  datatype Ball = Ball(id: nat, size: real, virus: bool, food: bool)

  // ---------- sums and censuses ----------

  function Total(balls: seq<Ball>): real {
    if balls == [] then 0.0 else balls[0].size + Total(balls[1..])
  }

  /** How often an identifier occurs. */
  function Count(balls: seq<Ball>, id: nat): nat {
    if balls == [] then 0 else (if balls[0].id == id then 1 else 0) + Count(balls[1..], id)
  }

  function Times(ids: seq<nat>, id: nat): nat {
    multiset(ids)[id]
  }

  /** 1 for an identifier given out from one count to another. */
  function Born(from: nat, to: nat, id: nat): nat {
    if from <= id < to then 1 else 0
  }

  predicate Sound(balls: seq<Ball>) {
    forall b <- balls :: b.size >= 0.0
  }

  lemma {:induction false} Concat(a: seq<Ball>, b: seq<Ball>)
    ensures Total(a + b) == Total(a) + Total(b)
    ensures forall id :: Count(a + b, id) == Count(a, id) + Count(b, id)
  {
    if a == [] {
      assert a + b == b;
    } else {
      assert (a + b)[1..] == a[1..] + b;
      Concat(a[1..], b);
    }
  }

  lemma Parts(balls: seq<Ball>, i: nat)
    requires i < |balls|
    ensures Total(balls) == Total(balls[..i]) + balls[i].size + Total(balls[i + 1..])
    ensures forall id ::
      Count(balls, id) == Count(balls[..i], id) + (if balls[i].id == id then 1 else 0) + Count(balls[i + 1..], id)
  {
    var tail := balls[i..];
    assert balls == balls[..i] + tail && tail[1..] == balls[i + 1..];
    Concat(balls[..i], tail);
  }

  /** One ball taken out. */
  lemma Taken(balls: seq<Ball>, i: nat)
    requires i < |balls|
    ensures Total(Without(balls, i)) == Total(balls) - balls[i].size
    ensures forall id :: Count(balls, id) == Count(Without(balls, i), id) + if balls[i].id == id then 1 else 0
    ensures Sound(balls) ==> Sound(Without(balls, i))
  {
    Parts(balls, i);
    Concat(balls[..i], balls[i + 1..]);
    assert forall b <- Without(balls, i) :: b in balls;
  }

  /** One ball changed in size. */
  lemma Resized(balls: seq<Ball>, i: nat, size: real)
    requires i < |balls|
    ensures var more := balls[i := balls[i].(size := size)];
      Total(more) == Total(balls) - balls[i].size + size && (Sound(balls) && size >= 0.0 ==> Sound(more))
      && forall id :: Count(more, id) == Count(balls, id)
  {
    var more := balls[i := balls[i].(size := size)];
    Parts(balls, i);
    Parts(more, i);
    assert more[..i] == balls[..i] && more[i + 1..] == balls[i + 1..];
    assert forall b <- more :: b in balls || b == more[i];
  }

  /** One ball more at the end. */
  lemma Pushed(balls: seq<Ball>, b: Ball)
    ensures Total(balls + [b]) == Total(balls) + b.size
    ensures forall id :: Count(balls + [b], id) == Count(balls, id) + if b.id == id then 1 else 0
    ensures Sound(balls) && b.size >= 0.0 ==> Sound(balls + [b])
  {
    Concat(balls, [b]);
    assert [b][1..] == [];
    assert forall id :: Count([b], id) == (if b.id == id then 1 else 0) + Count([b][1..], id);
    assert Total([b]) == b.size + Total([]);
  }

  /** A radius over 42. */
  predicate Splits(b: Ball) {
    b.size > PLAYER_MIN_SIZE
  }

  /** The size of a cell is a hundredth of its radius squared. */
  lemma SplitsRadius(b: Ball, r: real)
    requires r >= 0.0 && b.size == 0.01 * (r * r)
    ensures Splits(b) <==> r > 42.0
  {
    if r > 42.0 {
      assert r * r >= 42.0 * r;
    } else {
      assert r * r <= 42.0 * r;
    }
  }

  predicate HalfOf(a: Ball, b: Ball) {
    a == b.(size := b.size / 2.0)
  }

  /** How many of the cells are big enough. */
  function Splitting(balls: seq<Ball>): nat {
    if balls == [] then 0 else Splitting(balls[..|balls| - 1]) + if Splits(balls[|balls| - 1]) then 1 else 0
  }

  lemma SplittingNext(balls: seq<Ball>, x: nat)
    requires x < |balls|
    ensures Splitting(balls[..x + 1]) == Splitting(balls[..x]) + if Splits(balls[x]) then 1 else 0
  {
    assert balls[..x + 1][..x] == balls[..x];
  }

  ghost function Census(balls: seq<Ball>): multiset<nat> {
    if balls == [] then multiset{} else multiset{balls[0].id} + Census(balls[1..])
  }

  lemma {:induction false} CensusCounts(balls: seq<Ball>)
    ensures forall id: nat :: Census(balls)[id] == Count(balls, id)
  {
    if balls != [] {
      CensusCounts(balls[1..]);
    }
  }

  function Repeated(n: nat, size: real): real {
    if n == 0 then 0.0 else Repeated(n - 1, size) + size
  }

  function Product(n: nat, size: real): real {
    n as real * size
  }

  lemma {:induction false} RepeatedIs(n: nat, size: real)
    ensures Repeated(n, size) == Product(n, size)
  {
    if n > 0 {
      RepeatedIs(n - 1, size);
      assert n as real * size == (n - 1) as real * size + size;
    }
  }

  /** The small cells together weigh at most what there is. */
  lemma SmallTotal(size: real, n: nat)
    requires size >= 0.0 && n > 0
    ensures SmallSize(size, n) >= 0.0 && Product(n, SmallSize(size, n)) == Repeated(n, SmallSize(size, n)) <= size
  {
    assert size / n as real >= 0.0;
    Shares(size, n, SmallSize(size, n));
    RepeatedIs(n, SmallSize(size, n));
  }

  function Least(a: int, b: int): int {
    if a < b then a else b
  }

  /** The size of the `k`th part in a row when each is cut off the one before. */
  function Cut(size: real, k: nat): real {
    if k == 0 then size else Cut(size, k - 1) * 0.6
  }

  lemma {:induction false} CutShrinks(size: real, k: nat)
    requires size >= 0.0
    ensures 0.0 <= Cut(size, k) <= size
  {
    if k > 0 {
      CutShrinks(size, k - 1);
    }
  }

  /** The parts taken off are as many as there is room for while the last one is over 500. */
  predicate BigPops(size: real, limit: int, n: nat) {
    n <= limit && (forall k | 0 <= k < n :: Cut(size, k) > 500.0) && (n < limit ==> Cut(size, n) <= 500.0)
  }

  /** How many parts are taken off. */
  function BigCount(size: real, limit: nat, done: nat := 0): (n: nat)
    requires done <= limit && forall k | 0 <= k < done :: Cut(size, k) > 500.0
    ensures BigPops(size, limit, n)
    decreases limit - done
  {
    if done < limit && Cut(size, done) > 500.0 then BigCount(size, limit, done + 1) else done
  }

  /** There is one such number. */
  lemma BigPopsOnce(size: real, limit: nat, n: nat)
    requires BigPops(size, limit, n)
    ensures n == BigCount(size, limit)
  {
  }

  /** What is left of the cell itself. */
  function FirstPart(size: real, big: nat): real {
    if big == 0 then size else Cut(size, 1)
  }

  /** The part at `k`, of which the next one was taken unless it is the last. */
  function BigPart(size: real, big: nat, k: nat): real {
    Cut(size, if k + 1 < big then k + 2 else big)
  }

  /** How many small cells there are room and size for. */
  function SmallBalls(size: real, room: int): int {
    Least((size / PLAYER_MIN_SIZE).Floor, room)
  }

  function SmallSize(size: real, n: nat): real {
    if n == 0 then 0.0 else if 2.0 * PLAYER_MIN_SIZE < size / n as real then 2.0 * PLAYER_MIN_SIZE else size / n as real
  }

  /** New cells of one size. */
  function Row(n: nat, size: real, next: nat): seq<Ball> {
    seq(n, k requires 0 <= k => Ball(next + k, size, false, false))
  }

  lemma RowNext(cells: seq<Ball>, n: nat, size: real, next: nat)
    ensures cells + Row(n + 1, size, next) == (cells + Row(n, size, next)) + [Ball(next + n, size, false, false)]
  {
  }

  /** New cells of the sizes of the big parts. */
  function BigRow(s: real, big: nat, next: nat): seq<Ball> {
    seq(big, k requires 0 <= k => Ball(next + k, BigPart(s, big, k), false, false))
  }

  function Halved(cells: seq<Ball>, i: nat, ratio: real, next: nat): seq<Ball>
    requires i < |cells|
  {
    cells[i := cells[i].(size := cells[i].size - cells[i].size * ratio)]
      + [Ball(next, cells[i].size * (1.0 - ratio), false, false)]
  }

  lemma HalvedParts(cells: seq<Ball>, i: nat, ratio: real, part: real, rest: real, next: nat)
    requires i < |cells| && part == cells[i].size * ratio && rest == cells[i].size * (1.0 - ratio)
    ensures Halved(cells, i, ratio, next)
      == cells[i := cells[i].(size := cells[i].size - part)] + [Ball(next, rest, false, false)]
    ensures Gain(cells[i].size, ratio) == rest - part
  {
  }

  /** After the big parts were taken off. */
  function CutUp(cells: seq<Ball>, i: nat, big: nat, next: nat): (r: seq<Ball>)
    requires i < |cells|
    ensures |r| == |cells| + big && r[i] == cells[i].(size := FirstPart(cells[i].size, big))
  {
    cells[i := cells[i].(size := FirstPart(cells[i].size, big))] + BigRow(cells[i].size, big, next)
  }

  lemma CutUpNext(cells: seq<Ball>, i: nat, big: nat, next: nat)
    requires i < |cells|
    ensures var at := if big == 0 then i else |cells| + big - 1;
      CutUp(cells, i, big, next)[at].size == Cut(cells[i].size, big)
      && Halved(CutUp(cells, i, big, next), at, 0.4, next + big) == CutUp(cells, i, big + 1, next)
  {
    var s := cells[i].size;
    if big > 0 {
      var parts := BigRow(s, big, next);
      assert parts[big - 1 := Ball(next + big - 1, Cut(s, big + 1), false, false)]
        + [Ball(next + big, Cut(s, big + 1), false, false)]
        == BigRow(s, big + 1, next);
    }
  }

  /** After the small cells came out. */
  function Crumbled(cells: seq<Ball>, i: nat, small: nat, next: nat): seq<Ball>
    requires i < |cells|
  {
    var s := cells[i].size;
    cells[i := cells[i].(size := s - Product(small, SmallSize(s, small)))] + Row(small, SmallSize(s, small), next)
  }

  lemma NoneCrumbled(cells: seq<Ball>, i: nat, next: nat)
    requires i < |cells|
    ensures Crumbled(cells, i, 0, next) == cells
  {
    assert Product(0, SmallSize(cells[i].size, 0)) == 0.0;
  }

  /** After both: the cell, the big parts and the small cells. */
  function Popped(cells: seq<Ball>, i: nat, big: nat, small: nat, next: nat): seq<Ball>
    requires i < |cells|
  {
    var s := cells[i].size;
    var p := FirstPart(s, big);
    cells[i := cells[i].(size := p - Product(small, SmallSize(p, small)))] + BigRow(s, big, next)
      + Row(small, SmallSize(p, small), next + big)
  }

  lemma PoppedParts(cells: seq<Ball>, i: nat, big: nat, small: nat, next: nat)
    requires i < |cells|
    ensures Crumbled(CutUp(cells, i, big, next), i, small, next + big) == Popped(cells, i, big, small, next)
  {
  }

  /** A small cell has at least the least size and at most twice that. */
  lemma SmallFair(size: real, room: nat)
    requires size >= 0.0
    ensures var n := SmallBalls(size, room); n > 0 ==> PLAYER_MIN_SIZE <= SmallSize(size, n) <= 2.0 * PLAYER_MIN_SIZE
  {
    var n := SmallBalls(size, room);
    if n > 0 {
      assert n as real <= size / PLAYER_MIN_SIZE;
      assert n as real * PLAYER_MIN_SIZE <= size;
      Quotient(size, n as real, PLAYER_MIN_SIZE);
    }
  }

  /** What the small cells leave of the one they come out of: nothing, unless there is room for
      fewer than could be that are twice the least size. */
  lemma Leftover(size: real, n: nat)
    requires size >= 0.0 && n > 0
    ensures size - Product(n, SmallSize(size, n))
      == if size > Product(n, 2.0 * PLAYER_MIN_SIZE) then size - Product(n, 2.0 * PLAYER_MIN_SIZE) else 0.0
  {
    Ratio(size, n as real, 2.0 * PLAYER_MIN_SIZE);
  }

  lemma Ratio(a: real, b: real, c: real)
    requires b > 0.0
    ensures c < a / b <==> b * c < a
    ensures b * (a / b) == a
  {
  }

  /** With room to spare, less than the least size is left. */
  lemma Fitting(size: real, room: nat)
    requires size >= 0.0
    ensures var n := SmallBalls(size, room);
      0 <= n <= room && (n < room ==> size - Product(n, SmallSize(size, n)) < PLAYER_MIN_SIZE)
      && (room > 0 ==> (n > 0 <==> size >= PLAYER_MIN_SIZE))
  {
    var n := SmallBalls(size, room);
    var q := size / PLAYER_MIN_SIZE;
    assert q >= 0.0 && q * PLAYER_MIN_SIZE == size;
    if 0 < n < room {
      assert q < n as real + 1.0;
      assert size < (n as real + 1.0) * PLAYER_MIN_SIZE <= Product(n, 2.0 * PLAYER_MIN_SIZE);
      Leftover(size, n);
    } else if n == 0 {
      assert Product(0, SmallSize(size, 0)) == 0.0;
    }
  }

  lemma BigEnough(size: real, limit: nat, big: nat)
    requires limit > 0 && BigPops(size, limit, big)
    ensures big > 0 <==> size > 500.0
  {
    assert Cut(size, 0) == size;
  }

  lemma Quotient(a: real, b: real, c: real)
    requires b > 0.0 && b * c <= a
    ensures c <= a / b
  {
  }

  /** What the two cells weigh more than the one. */
  function Gain(size: real, ratio: real): real {
    size * (1.0 - ratio) - size * ratio
  }

  lemma Portion(size: real, ratio: real)
    requires size >= 0.0 && 0.0 <= ratio <= 1.0
    ensures size - size * ratio >= 0.0 && size * (1.0 - ratio) >= 0.0
  {
  }

  /** The small cells never take more than there is. */
  lemma Shares(size: real, n: nat, each: real)
    requires size >= 0.0 && n > 0 && 0.0 <= each <= size / n as real
    ensures 0.0 <= n as real * each <= size
  {
    assert n as real * each <= n as real * (size / n as real);
  }
}
