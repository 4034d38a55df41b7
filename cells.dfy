/**
 * The maze's `Cell`: a fixed position, the solver's `visited` flag, the
 * colour facts the solver looks at, and the list of outgoing connections
 * that `addConnection` appends to.
 */
module Cells {
  import opened Geometry
  import opened Trees

  /**
   * The entries `Cell.addConnection(d)` appends for a cell at `at` in a
   * `width` by `height` maze. UP, DOWN and RIGHT are appended only off the
   * matching edge. The LEFT case has no `break`: after its own test it also
   * runs the RIGHT test, appending LEFT a second time off the last column.
   */
  function AddedEntries(d: Dir, at: Coord, width: int, height: int): (added: seq<Dir>)
    ensures forall e | e in added :: e == d
    ensures |added| <= 2 && (|added| == 2 ==> d == Left)
    ensures InBounds(at, width, height) && d != Left ==> (added != [] <==> ValidDirection(d, at, width, height))
    ensures InBounds(at, width, height) && d == Left ==>
      (added != [] <==> ValidDirection(Left, at, width, height) || ValidDirection(Right, at, width, height))
  {
    match d
    case Up => if at.y != 0 then [Up] else []
    case Down => if at.y != height - 1 then [Down] else []
    case Left => (if at.x != 0 then [Left] else []) + (if at.x != width - 1 then [Left] else [])
    case Right => if at.x != width - 1 then [Right] else []
  }

  /** LEFT on column 0 of a maze wider than one column is invalid, yet it is appended once. */
  lemma LeftAppendedOffGrid(at: Coord, width: int, height: int)
    requires InBounds(at, width, height) && at.x == 0 && width > 1
    ensures !ValidDirection(Left, at, width, height)
    ensures AddedEntries(Left, at, width, height) == [Left]
  {
  }

  /** LEFT on the last column of a maze wider than one column is valid and appended once: the RIGHT test it falls into fails. */
  lemma LeftAppendedOnceAtLastColumn(at: Coord, width: int, height: int)
    requires InBounds(at, width, height) && at.x == width - 1 && width > 1
    ensures ValidDirection(Left, at, width, height)
    ensures AddedEntries(Left, at, width, height) == [Left]
  {
  }

  /** LEFT on an interior column is appended twice. */
  lemma LeftAppendedTwice(at: Coord, width: int, height: int)
    requires InBounds(at, width, height) && 0 < at.x < width - 1
    ensures ValidDirection(Left, at, width, height)
    ensures AddedEntries(Left, at, width, height) == [Left, Left]
  {
  }

  /**
   * The connection list a cell at `at` ends up with when the generator's
   * `addConnection` calls are `log` (calls from other cells add nothing).
   */
  function ConnectionsFrom(log: seq<Edge>, at: Coord, width: int, height: int): seq<Dir> {
    if log == [] then []
    else
      var last := log[|log| - 1];
      ConnectionsFrom(log[..|log| - 1], at, width, height) + (if last.from == at then AddedEntries(last.dir, at, width, height) else [])
  }

  /** Every connection at `at` is the direction of some call made from `at`. */
  lemma {:induction false} ConnectionsAreCalls(log: seq<Edge>, at: Coord, width: int, height: int)
    ensures forall d | d in ConnectionsFrom(log, at, width, height) :: exists i :: 0 <= i < |log| && log[i] == Edge(at, d)
    decreases |log|
  {
    if log != [] {
      var init := log[..|log| - 1];
      ConnectionsAreCalls(init, at, width, height);
      forall d | d in ConnectionsFrom(log, at, width, height) ensures exists i :: 0 <= i < |log| && log[i] == Edge(at, d) {
        if d in ConnectionsFrom(init, at, width, height) {
          var i :| 0 <= i < |init| && init[i] == Edge(at, d);
          assert log[i] == Edge(at, d);
        } else {
          assert log[|log| - 1] == Edge(at, d);
        }
      }
    }
  }

  /** Calls logged one after the other add their entries one after the other. */
  lemma {:induction false} ConnectionsFromAppend(a: seq<Edge>, b: seq<Edge>, at: Coord, width: int, height: int)
    ensures ConnectionsFrom(a + b, at, width, height) == ConnectionsFrom(a, at, width, height) + ConnectionsFrom(b, at, width, height)
    decreases |b|
  {
    if b == [] {
      assert a + b == a;
    } else {
      var init := b[..|b| - 1];
      assert (a + b)[..|a + b| - 1] == a + init;
      assert (a + b)[|a + b| - 1] == b[|b| - 1];
      ConnectionsFromAppend(a, init, at, width, height);
    }
  }

  /** No call made from `at`: no connection at `at`. */
  lemma {:induction false} ConnectionsFromNone(log: seq<Edge>, at: Coord, width: int, height: int)
    requires forall i | 0 <= i < |log| :: log[i].from != at
    ensures ConnectionsFrom(log, at, width, height) == []
    decreases |log|
  {
    if log != [] {
      ConnectionsFromNone(log[..|log| - 1], at, width, height);
    }
  }

  /** A valid call made from `at` leaves its direction among the connections at `at`. */
  lemma {:induction false} ConnectionsFromHas(log: seq<Edge>, i: nat, width: int, height: int)
    requires i < |log|
    requires InBounds(log[i].from, width, height) && ValidDirection(log[i].dir, log[i].from, width, height)
    ensures log[i].dir in ConnectionsFrom(log, log[i].from, width, height)
    decreases |log|
  {
    var at := log[i].from;
    var last := |log| - 1;
    if i < last {
      var init := log[..last];
      assert init[i] == log[i];
      ConnectionsFromHas(init, i, width, height);
    } else {
      var added := AddedEntries(log[i].dir, at, width, height);
      assert added != [] && added[0] == log[i].dir;
      assert ConnectionsFrom(log, at, width, height) == ConnectionsFrom(log[..last], at, width, height) + added;
    }
  }

  /**
   * The first call of a tree with at least one edge leaves the root, so
   * the root's connection list is not empty.
   */
  lemma RootIsConnected(log: seq<Edge>, root: Coord, nodes: set<Coord>, width: int, height: int)
    requires RootedTree(log, root, nodes) && EdgesValid(log, width, height) && |log| > 0
    ensures ConnectionsFrom(log, root, width, height) != []
  {
    ConnectionsFromHas(log, 0, width, height);
  }

  /**
   * The generator's recursion step seen from the connection lists: after the
   * edge `e` from a node of the first tree and the calls of the subtree grown
   * from its target, the parent's list has grown by what `e` appended, the
   * other nodes of the first tree are untouched, and the subtree's nodes have
   * exactly the entries their own calls made.
   */
  lemma ConnectionsAfterGraft(log: seq<Edge>, root: Coord, nodes: set<Coord>, e: Edge, sub: seq<Edge>, subNodes: set<Coord>, width: int, height: int)
    requires RootedTree(log, root, nodes) && RootedTree(sub, Target(e), subNodes)
    requires e.from in nodes && nodes !! subNodes
    ensures ConnectionsFrom(log + [e] + sub, e.from, width, height) == ConnectionsFrom(log, e.from, width, height) + AddedEntries(e.dir, e.from, width, height)
    ensures forall p | p in nodes && p != e.from :: ConnectionsFrom(log + [e] + sub, p, width, height) == ConnectionsFrom(log, p, width, height)
    ensures forall p | p in subNodes :: ConnectionsFrom(log + [e] + sub, p, width, height) == ConnectionsFrom(sub, p, width, height)
  {
    FromsAreNodes(log, root, nodes);
    FromsAreNodes(sub, Target(e), subNodes);
    assert (log + [e])[..|log + [e]| - 1] == log;
    forall p | p in nodes
      ensures ConnectionsFrom(log + [e] + sub, p, width, height)
        == ConnectionsFrom(log, p, width, height) + (if p == e.from then AddedEntries(e.dir, p, width, height) else [])
    {
      ConnectionsFromAppend(log + [e], sub, p, width, height);
      ConnectionsFromNone(sub, p, width, height);
    }
    forall p | p in subNodes
      ensures ConnectionsFrom(log + [e] + sub, p, width, height) == ConnectionsFrom(sub, p, width, height)
    {
      ConnectionsFromAppend(log + [e], sub, p, width, height);
      ConnectionsFromNone(log + [e], p, width, height);
    }
  }

  class Cell {
    /** Set by the solver on every cell it enters. */
    var visited: bool
    const width: int
    const height: int
    const coords: Coord
    /**
     * Whether the constructor gave the cell a grey cloud colour (blue
     * channel below 255) rather than a sky blue (blue channel 255).
     */
    const cloud: bool
    /** Whether the solver has repainted the cell lightning yellow (blue channel 0). */
    var lit: bool
    /** Outgoing connections, in the order they were added. */
    var connections: seq<Dir>

    /** `new Cell(visited, mWidth, mHeight, coords)`: no connections yet, and whichever colour the constructor draws. */
    constructor (visited: bool, width: int, height: int, coords: Coord)
      ensures this.visited == visited && this.width == width && this.height == height && this.coords == coords
      ensures !lit && connections == []
    {
      this.visited := visited;
      this.width := width;
      this.height := height;
      this.coords := coords;
      var grey: bool :| true;
      cloud := grey;
      lit := false;
      connections := [];
    }

    /**
     * `cell.rgb[2] == 255`: the blue channel is still 255, a sky-blue cell
     * not yet repainted. A repainted cell (blue channel 0) and a grey cloud
     * cell (blue channel below 255) are never sky blue.
     */
    predicate SkyBlue(): (blue: bool)
      reads this`lit
      ensures lit ==> !blue
      ensures cloud ==> !blue
    {
      !cloud && !lit
    }

    /** `addConnection(direction)`, with the LEFT case falling through into the RIGHT case. */
    method AddConnection(d: Dir)
      modifies this`connections
      ensures connections == old(connections) + AddedEntries(d, coords, width, height)
    {
      match d
      case Up =>
        if coords.y != 0 {
          connections := connections + [d];
        }
      case Down =>
        if coords.y != height - 1 {
          connections := connections + [d];
        }
      case Left =>
        if coords.x != 0 {
          connections := connections + [d];
        }
        // no break: control continues into the RIGHT test with d still LEFT
        if coords.x != width - 1 {
          connections := connections + [d];
        }
      case Right =>
        if coords.x != width - 1 {
          connections := connections + [d];
        }
    }
  }
}
