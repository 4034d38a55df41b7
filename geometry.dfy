/**
 * Grid geometry of the maze: directions, coordinates, the edge test and the
 * one-step offset, the pool of directions the generator draws from, and the
 * fact that a region closed under valid steps covers the whole grid.
 */
module Geometry {

  /** The four directions a connection can take (the sketch's `Dir` enum). */
  datatype Dir = Up | Down | Left | Right

  /**
   * A grid position (the sketch's `Pair<Integer, Integer>`): `x` is the
   * column, `y` the row, row 0 at the top. Compared structurally.
   */
  datatype Coord = Coord(x: int, y: int)

  predicate InBounds(p: Coord, width: int, height: int) {
    0 <= p.x < width && 0 <= p.y < height
  }

  /** Two positions one step apart on exactly one axis. */
  predicate Adjacent(a: Coord, b: Coord) {
    || (a.x == b.x && (a.y == b.y + 1 || b.y == a.y + 1))
    || (a.y == b.y && (a.x == b.x + 1 || b.x == a.x + 1))
  }

  /** `Dir.values()`: every direction exactly once. */
  function AllDirs(): (ds: seq<Dir>)
    ensures |ds| == 4 && Drawing(ds, [])
  {
    [Up, Down, Left, Right]
  }

  /**
   * The generator's draw so far: the directions still in `pool` and the
   * directions already drawn, in `order`, number four between them and
   * include every direction.
   */
  predicate Drawing(pool: seq<Dir>, order: seq<Dir>) {
    && |pool| + |order| == 4
    && (Up in pool || Up in order) && (Down in pool || Down in order)
    && (Left in pool || Left in order) && (Right in pool || Right in order)
  }

  /** Removing the direction at `i` from the pool and drawing it keeps the bookkeeping. */
  lemma DrawKeeps(pool: seq<Dir>, order: seq<Dir>, i: int)
    requires 0 <= i < |pool| && Drawing(pool, order)
    ensures Drawing(RemoveAt(pool, i).1, order + [pool[i]])
  {
    var rest, drawn := RemoveAt(pool, i).1, order + [pool[i]];
    forall d | d in pool ensures d in rest || d in drawn {
      var j :| 0 <= j < |pool| && pool[j] == d;
      if j < i {
        assert rest[j] == d;
      } else if j > i {
        assert rest[j - 1] == d;
      }
    }
  }

  /** Four draws that include every direction draw each direction exactly once. */
  lemma EachOnce(order: seq<Dir>)
    requires Drawing([], order)
    ensures forall i, j :: 0 <= i < j < |order| ==> order[i] != order[j]
  {
  }

  /**
   * `Maze.directionToCoords`: the neighbouring position in direction `d`,
   * without any bounds check.
   */
  function Step(d: Dir, at: Coord): (next: Coord)
    ensures Adjacent(at, next)
    ensures (d == Up || d == Down) <==> next.x == at.x
    ensures (d == Up || d == Left) <==> (next.x < at.x || next.y < at.y)
  {
    match d
    case Up => Coord(at.x, at.y - 1)
    case Down => Coord(at.x, at.y + 1)
    case Left => Coord(at.x - 1, at.y)
    case Right => Coord(at.x + 1, at.y)
  }

  /**
   * `Maze.validateDirection`: false for Up on the top row, Down on or past
   * the last row, Left on column 0 and Right on or past the last column.
   * For a position inside the grid it holds exactly when the step stays
   * inside the grid.
   */
  function ValidDirection(d: Dir, at: Coord, width: int, height: int): (ok: bool)
    ensures InBounds(at, width, height) ==> (ok <==> InBounds(Step(d, at), width, height))
  {
    match d
    case Up => at.y != 0
    case Down => at.y < height - 1
    case Left => at.x != 0
    case Right => at.x < width - 1
  }

  /** A step is never undone by a different direction: distinct directions reach distinct neighbours. */
  lemma StepInjective(d1: Dir, d2: Dir, at: Coord)
    requires d1 != d2
    ensures Step(d1, at) != Step(d2, at)
  {
  }

  /**
   * `ArrayList.remove(int)` on the generator's direction list: the element at
   * `i` and the list without it, the other elements keeping their order.
   */
  function RemoveAt<T>(s: seq<T>, i: int): (r: (T, seq<T>))
    requires 0 <= i < |s|
    ensures r.0 == s[i]
    ensures |r.1| == |s| - 1
    ensures forall k :: 0 <= k < i ==> r.1[k] == s[k]
    ensures forall k :: i <= k < |r.1| ==> r.1[k] == s[k + 1]
  {
    (s[i], s[..i] + s[i + 1..])
  }

  /** The positions of column `x`, rows `0 .. height-1`. */
  function Column(x: int, height: nat): (col: set<Coord>)
    ensures forall p | p in col :: p.x == x && 0 <= p.y < height
  {
    set y | 0 <= y < height :: Coord(x, y)
  }

  /** Every position of a `width` by `height` grid. */
  function AllCoords(width: nat, height: nat): (all: set<Coord>)
    ensures forall p | p in all :: InBounds(p, width, height)
  {
    set x, y | 0 <= x < width && 0 <= y < height :: Coord(x, y)
  }

  /** The grid holds exactly the positions inside it. */
  lemma AllCoordsMembers(width: nat, height: nat)
    ensures forall p :: p in AllCoords(width, height) <==> InBounds(p, width, height)
  {
    forall p | InBounds(p, width, height) ensures p in AllCoords(width, height) {
      assert p == Coord(p.x, p.y);
    }
  }

  /** A column has `height` positions. */
  lemma {:induction false} ColumnSize(x: int, height: nat)
    ensures |Column(x, height)| == height
  {
    if height > 0 {
      ColumnSize(x, height - 1);
      assert Column(x, height) == Column(x, height - 1) + {Coord(x, height - 1)};
    }
  }

  /** The grid has `width * height` positions. */
  lemma GridSize(width: nat, height: nat)
    ensures |AllCoords(width, height)| == width * height
  {
    CountColumns(width, height);
    AreaIsProduct(width, height);
  }

  /** `height` positions for each of the `width` columns, added up one column at a time. */
  function Area(width: nat, height: nat): nat {
    if width == 0 then 0 else Area(width - 1, height) + height
  }

  /** The grid has `Area(width, height)` positions: the first `width - 1` columns, plus one more column. */
  lemma {:induction false} CountColumns(width: nat, height: nat)
    ensures |AllCoords(width, height)| == Area(width, height)
  {
    if width > 0 {
      CountColumns(width - 1, height);
      ColumnSize(width - 1, height);
      var left, last := AllCoords(width - 1, height), Column(width - 1, height);
      assert AllCoords(width, height) == left + last by {
        forall p | p in AllCoords(width, height) ensures p in left + last {
          if p.x < width - 1 {
            assert p == Coord(p.x, p.y);
          } else {
            assert p == Coord(width - 1, p.y);
          }
        }
        forall p | p in left + last ensures p in AllCoords(width, height) {
          assert p == Coord(p.x, p.y);
        }
      }
    }
  }

  /** Adding up `height` once per column gives `width * height`. */
  lemma {:induction false} AreaIsProduct(width: nat, height: nat)
    ensures Area(width, height) == width * height
  {
    if width > 0 {
      AreaIsProduct(width - 1, height);
    }
  }

  /** Every valid step from `p` stays inside `region`. */
  predicate Closed(region: set<Coord>, p: Coord, width: int, height: int) {
    && (ValidDirection(Up, p, width, height) ==> Step(Up, p) in region)
    && (ValidDirection(Down, p, width, height) ==> Step(Down, p) in region)
    && (ValidDirection(Left, p, width, height) ==> Step(Left, p) in region)
    && (ValidDirection(Right, p, width, height) ==> Step(Right, p) in region)
  }

  /** Growing the region keeps every position closed. */
  lemma ClosedGrows(small: set<Coord>, large: set<Coord>, ps: set<Coord>, width: int, height: int)
    requires small <= large
    requires forall p {:trigger Closed(small, p, width, height)} | p in ps :: Closed(small, p, width, height)
    ensures forall p {:trigger Closed(large, p, width, height)} | p in ps :: Closed(large, p, width, height)
  {
    forall p | p in ps ensures Closed(large, p, width, height) {
      assert Closed(small, p, width, height);
    }
  }

  /** The region reaches `to` by walking from `from`: first along the row, then along the column. */
  lemma {:induction false} WalkInsideClosedRegion(region: set<Coord>, from: Coord, to: Coord, width: int, height: int)
    requires InBounds(from, width, height) && from in region
    requires InBounds(to, width, height)
    requires forall p | p in region && InBounds(p, width, height) :: Closed(region, p, width, height)
    ensures to in region
    decreases (if from.x < to.x then to.x - from.x else from.x - to.x) + (if from.y < to.y then to.y - from.y else from.y - to.y)
  {
    if from != to {
      var d := if from.x < to.x then Right else if to.x < from.x then Left else if from.y < to.y then Down else Up;
      assert ValidDirection(d, from, width, height) && Closed(region, from, width, height);
      WalkInsideClosedRegion(region, Step(d, from), to, width, height);
    }
  }

  /**
   * A set of positions that contains one position of the grid and is closed
   * under every valid step contains the whole grid: the grid is connected.
   */
  lemma ClosedRegionCoversGrid(region: set<Coord>, root: Coord, width: nat, height: nat)
    requires InBounds(root, width, height) && root in region
    requires forall p | p in region && InBounds(p, width, height) :: Closed(region, p, width, height)
    ensures AllCoords(width, height) <= region
  {
    AllCoordsMembers(width, height);
    forall p | p in AllCoords(width, height) ensures p in region {
      WalkInsideClosedRegion(region, root, p, width, height);
    }
  }
}
