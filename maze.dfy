/**
 * The sketch's `Maze`: a `width` by `height` array of cells, every slot null
 * until the generator instantiates it, a randomized recursive backtracker
 * that fills the array and connects it into a spanning tree, and a
 * depth-first solver that walks the connections from the start cell and
 * repaints the lightning path.
 */
module Mazes {
  import opened Geometry
  import opened Trees
  import opened Cells
  import opened Search

  class Maze {
    const width: nat
    const height: nat
    /** `mazeCells[x][y]`; a null slot is a position not yet in the tree. */
    const cells: array2<Cell?>
    const startCell: Coord
    const endCell: Coord
    /** Every position of the maze: what bounds the generator's recursion. */
    ghost const grid: set<Coord>
    /** The non-null slots of `cells`, by position. */
    ghost var slots: map<Coord, Cell>
    /** The generator's `addConnection` calls, in the order they were made. */
    ghost var edges: seq<Edge>

    /**
     * The array has the maze's dimensions, `slots` lists exactly its
     * non-null slots, and every cell sits in the slot of its own position.
     */
    ghost predicate Valid()
      reads this`slots, cells
    {
      && cells.Length0 == width && cells.Length1 == height
      && (forall p | InBounds(p, width, height) :: Holds(p))
      && (forall p | p in slots :: Placed(p))
    }

    /** `p` is a position of the maze whose array slot holds the cell `slots` lists there, or null. */
    ghost predicate Holds(p: Coord)
      reads this`slots, cells
    {
      && p in grid
      && 0 <= p.x < cells.Length0 && 0 <= p.y < cells.Length1
      && cells[p.x, p.y] == (if p in slots then slots[p] else null)
    }

    /** The cell listed at `p` lies inside the maze and knows its own position and the maze's size. */
    ghost predicate Placed(p: Coord)
      reads this`slots
    {
      && p in slots && InBounds(p, width, height)
      && slots[p].coords == p && slots[p].width == width && slots[p].height == height
    }

    /**
     * The cell at `p` is as the generator leaves it: never entered by the
     * solver, not repainted, and holding the connections the calls in `log`
     * made from `p`.
     */
    ghost predicate Generated(p: Coord, log: seq<Edge>)
      reads this`slots, Cells()`visited, Cells()`lit, Cells()`connections
    {
      && p in slots
      && !slots[p].visited && !slots[p].lit
      && slots[p].connections == ConnectionsFrom(log, p, width, height)
    }

    /** The cells the array holds. */
    ghost function Cells(): set<Cell>
      reads this`slots
    {
      slots.Values
    }

    /** Each instantiated position's connection list. */
    ghost function Links(): (links: Links)
      reads this`slots, Cells()`connections
      ensures links.Keys == slots.Keys
    {
      map p | p in slots :: slots[p].connections
    }

    /** The instantiated positions whose cell the solver has entered. */
    ghost function Visited(): set<Coord>
      reads this`slots, Cells()`visited
    {
      set p | p in slots && slots[p].visited
    }

    /** The instantiated positions whose cell has been repainted lightning yellow. */
    ghost function Lit(): set<Coord>
      reads this`slots, Cells()`lit
    {
      set p | p in slots && slots[p].lit
    }

    /** The instantiated positions whose cell the constructor gave a grey cloud colour. */
    ghost function Clouds(): set<Coord>
      reads this`slots
    {
      set p | p in slots && slots[p].cloud
    }

    /** The instantiated positions whose cell still has a blue channel of 255: neither cloud nor repainted. */
    ghost function Sky(): set<Coord>
      reads this`slots, Cells()`lit
    {
      slots.Keys - Clouds() - Lit()
    }

    /** The test `cell.rgb[2] == 255` on an instantiated cell holds exactly for the positions in `Sky()`. */
    lemma SkyBlueIsSky(p: Coord)
      requires p in slots
      ensures slots[p].SkyBlue() <==> p in Sky()
    {
    }

    /** `getViaCoords`: the slot at `p`, a cell exactly when `p` is instantiated. */
    function CellAt(p: Coord): (c: Cell?)
      reads this`slots, cells
      requires Valid() && InBounds(p, width, height)
      ensures c != null <==> p in slots
      ensures c != null ==> c == slots[p] && c.coords == p && c.width == width && c.height == height
    {
      cells[p.x, p.y]
    }

    /**
     * `new Maze(mWidth, mHeight)`: an array of null slots, a start position
     * on the top row and an end position on the bottom row in columns drawn
     * at random, then `generate(startCell)` and
     * `solve(getViaCoords(startCell))`. The generator fills every slot and
     * its `width * height - 1` calls form a spanning tree rooted at the
     * start; every cell holds the connections those calls made from it. The
     * solver enters the start cell and never repaints it. When the end is
     * not the start, some chain of connections from the start to the end
     * that never re-enters the start is the lightning path: the repainted
     * cells are exactly the ones it marks, the end and each cell after a
     * sky-blue one. When the end is the start, nothing is repainted.
     */
    constructor (width: nat, height: nat)
      requires width >= 1 && height >= 1
      ensures Valid() && this.width == width && this.height == height && fresh(cells)
      ensures 0 <= startCell.x < width && startCell.y == 0
      ensures 0 <= endCell.x < width && endCell.y == height - 1
      ensures slots.Keys == AllCoords(width, height)
      ensures RootedTree(edges, startCell, slots.Keys) && EdgesValid(edges, width, height)
      ensures |edges| == width * height - 1
      ensures forall p | p in slots :: slots[p].connections == ConnectionsFrom(edges, p, width, height)
      ensures Linked(Links())
      ensures startCell in slots && endCell in slots && startCell in Visited()
      ensures endCell in Lit() <==> startCell != endCell
      ensures startCell !in Lit()
      ensures exists path ::
        && (startCell != endCell ==> EscapeChain(Links(), {startCell}, startCell, endCell, path))
        && Struck(startCell, endCell, path, slots.Keys - Clouds(), Lit())
    {
      this.width, this.height := width, height;
      var sx :| 0 <= sx < width;
      var ex :| 0 <= ex < width;
      startCell, endCell := Coord(sx, 0), Coord(ex, height - 1);
      cells := new Cell?[width, height]((x, y) => null);
      grid := AllCoords(width, height);
      slots, edges := map[], [];
      new;
      AllCoordsMembers(width, height);
      GenerateFromStart();
      TreeSpansGrid(edges, startCell, width, height);
      ghost var path, sky := SolveFromStart();
      assert (startCell != endCell ==> EscapeChain(Links(), {startCell}, startCell, endCell, path))
        && Struck(startCell, endCell, path, slots.Keys - Clouds(), Lit());
    }

    /**
     * The constructor's `generate(startCell)`, run on an array of null
     * slots: it fills every slot with a fresh cell, and its calls form a
     * spanning tree of the grid rooted at the start.
     */
    method GenerateFromStart()
      requires Valid() && slots == map[] && edges == [] && InBounds(startCell, width, height)
      modifies this`slots, this`edges, cells
      ensures Valid() && slots.Keys == AllCoords(width, height)
      ensures RootedTree(edges, startCell, slots.Keys) && EdgesValid(edges, width, height)
      ensures forall p | p in slots :: fresh(slots[p])
      ensures forall p | p in slots :: Generated(p, edges)
    {
      ghost var _, sub, nodes := Generate(startCell);
      assert edges == sub && slots.Keys == nodes;
      ClosedRegionCoversGrid(slots.Keys, startCell, width, height);
      AllCoordsMembers(width, height);
      forall p | p in slots ensures Generated(p, edges) {
        assert Generated(p, sub);
      }
    }

    /**
     * The constructor's `solve(getViaCoords(startCell))`, run on the maze
     * the generator just filled: the search enters the start cell, never
     * repaints it, and repaints the end cell exactly when it is not the start
     * cell, since the tree leads from the start to every other cell. Then
     * `path` is the chain found and the repainted cells are the ones it
     * marks, given the sky-blue cells `sky` the search started from;
     * otherwise nothing is repainted.
     */
    method SolveFromStart() returns (ghost path: seq<Coord>, ghost sky: set<Coord>)
      requires Valid() && slots.Keys == AllCoords(width, height)
      requires InBounds(startCell, width, height) && InBounds(endCell, width, height)
      requires RootedTree(edges, startCell, slots.Keys) && EdgesValid(edges, width, height)
      requires forall p | p in slots :: Generated(p, edges)
      modifies Cells()`visited, Cells()`lit
      ensures Valid() && Links() == old(Links()) && Linked(Links())
      ensures startCell in slots && endCell in slots && startCell in Visited()
      ensures endCell in Lit() <==> startCell != endCell
      ensures startCell !in Lit()
      ensures sky == slots.Keys - Clouds()
      ensures startCell != endCell ==> EscapeChain(Links(), {startCell}, startCell, endCell, path)
      ensures Struck(startCell, endCell, path, sky, Lit())
    {
      AllCoordsMembers(width, height);
      ghost var links := Links();
      Untouched();
      ghost var blocked := Visited() + {startCell};
      sky := Sky();
      assert blocked == {startCell} && sky == slots.Keys - Clouds();
      var found;
      found, path := Solve(CellAt(startCell));
      if startCell != endCell {
        TreeReachesEveryNode(edges, startCell, slots.Keys, links, width, height, endCell);
        assert found;
        MarksOnPath(path, sky);
      } else {
        NeverReachesItself(links, blocked, startCell);
        assert Lit() == {};
      }
    }

    /**
     * The maze as the generator leaves it, before any search: every
     * connection leads to a cell, each cell holds the connections the log
     * made from it, and no cell is visited or repainted.
     */
    lemma Untouched()
      requires Valid() && slots.Keys == AllCoords(width, height) && EdgesValid(edges, width, height)
      requires forall p | p in slots :: Generated(p, edges)
      ensures forall p | p in slots :: Links()[p] == ConnectionsFrom(edges, p, width, height)
      ensures Linked(Links()) && Visited() == {} && Lit() == {}
    {
      AllCoordsMembers(width, height);
      ghost var links := Links();
      forall p | p in links ensures InBounds(p, width, height) && links[p] == ConnectionsFrom(edges, p, width, height) {
        assert Generated(p, edges);
      }
      ValidCallsAreLinked(edges, links, width, height);
      forall p | p in slots ensures !slots[p].visited && !slots[p].lit {
        assert Generated(p, edges);
      }
    }

    /**
     * `generate(startCell)` called again once every slot is filled, as
     * `setup()` does: the pass puts a fresh, unconnected cell in the start
     * slot, finds no null slot in any direction and makes no call. The log
     * of calls and every other cell stay as they were, so the start position
     * loses the connections its first cell held while the cells around it
     * keep theirs, and every cell but the start keeps its visited flag and
     * its colour.
     */
    method Regenerate()
      requires Valid() && slots.Keys == AllCoords(width, height) && InBounds(startCell, width, height)
      requires RootedTree(edges, startCell, slots.Keys) && EdgesValid(edges, width, height) && |edges| > 0
      requires forall p | p in slots :: slots[p].connections == ConnectionsFrom(edges, p, width, height)
      modifies this`slots, this`edges, cells
      ensures Valid() && slots.Keys == old(slots).Keys && edges == old(edges)
      ensures forall p | p in old(slots) && p != startCell :: slots[p] == old(slots)[p]
      ensures forall p | p in slots && p != startCell :: slots[p].connections == ConnectionsFrom(edges, p, width, height)
      ensures fresh(slots[startCell]) && Generated(startCell, [])
      ensures slots[startCell].connections == [] != ConnectionsFrom(edges, startCell, width, height)
      ensures Lit() == old(Lit()) - {startCell} && Visited() == old(Visited()) - {startCell}
      ensures slots.Keys - Clouds() - {startCell} == old(slots.Keys - Clouds()) - {startCell}
    {
      RootIsConnected(edges, startCell, slots.Keys, width, height);
      ghost var filled, before, lit, visited, sky := slots.Keys, slots, Lit(), Visited(), slots.Keys - Clouds();
      ghost var _, sub, nodes := Generate(startCell);
      assert nodes <= filled by {
        AllCoordsMembers(width, height);
        forall p | p in nodes ensures p in filled {
          assert Placed(p);
        }
      }
      assert nodes == {startCell};
      TreeSize(sub, startCell, nodes);
      assert sub == [];
      assert Generated(startCell, sub);
      forall p | p in slots
        ensures (slots[p].lit <==> p in lit - {startCell}) && (slots[p].visited <==> p in visited - {startCell})
        ensures p != startCell ==> (!slots[p].cloud <==> p in sky)
      {
        if p != startCell {
          assert slots[p] == before[p];
        }
      }
      assert Lit() == lit - {startCell};
      assert Visited() == visited - {startCell};
      assert slots.Keys - Clouds() - {startCell} == sky - {startCell};
    }

    /**
     * `generate(coords)`: instantiate the slot at `c` with a fresh cell,
     * then draw the four directions in random order without replacement;
     * for each one that stays inside the grid and leads to a null slot,
     * connect the new cell to it and recurse there. `order` is the order in
     * which the directions were drawn, `sub` the `addConnection` calls made
     * and `nodes` the slots this pass instantiated, `c` included.
     */
    method Generate(c: Coord) returns (ghost order: seq<Dir>, ghost sub: seq<Edge>, ghost nodes: set<Coord>)
      requires Valid() && InBounds(c, width, height)
      modifies this`slots, this`edges, cells
      decreases grid - slots.Keys + {c}, 4
      ensures Valid() && edges == old(edges) + sub
      ensures Drawing([], order)
      ensures slots.Keys == old(slots).Keys + nodes && c in nodes && nodes * old(slots).Keys <= {c}
      ensures forall p | p in old(slots) && p != c :: slots[p] == old(slots)[p]
      ensures forall p | p in nodes :: fresh(slots[p])
      ensures forall p {:trigger Generated(p, sub)} | p in nodes :: Generated(p, sub)
      ensures forall p {:trigger Closed(slots.Keys, p, width, height)} | p in nodes :: Closed(slots.Keys, p, width, height)
      ensures RootedTree(sub, c, nodes) && EdgesValid(sub, width, height)
    {
      var me := Instantiate(c);
      order, sub, nodes := Explore(c, me, old(slots));
    }

    /**
     * The loop of `generate(coords)` once the cell `me` at `c` is
     * instantiated: draw the four directions in random order without
     * replacement; for each one that stays inside the grid and leads to a
     * null slot, connect `me` to it and recurse there. `order` is the order
     * in which the directions were drawn, `sub` the `addConnection` calls
     * made and `nodes` the slots instantiated by the pass, `c` included, on
     * top of the slots `prior` instantiated when the pass began.
     */
    method Explore(c: Coord, me: Cell, ghost prior: map<Coord, Cell>) returns (ghost order: seq<Dir>, ghost sub: seq<Edge>, ghost nodes: set<Coord>)
      requires Valid() && InBounds(c, width, height) && c in slots && slots[c] == me
      requires slots == prior[c := me] && Generated(c, [])
      modifies this`slots, this`edges, cells, me`connections
      decreases grid - prior.Keys + {c}, 3
      ensures Valid() && edges == old(edges) + sub
      ensures Drawing([], order)
      ensures slots.Keys == prior.Keys + nodes && c in nodes && nodes * prior.Keys <= {c}
      ensures forall p | p in prior && p != c :: slots[p] == prior[p]
      ensures slots[c] == me && forall p | p in nodes - {c} :: fresh(slots[p])
      ensures forall p {:trigger Generated(p, sub)} | p in nodes :: Generated(p, sub)
      ensures forall p {:trigger Closed(slots.Keys, p, width, height)} | p in nodes :: Closed(slots.Keys, p, width, height)
      ensures RootedTree(sub, c, nodes) && EdgesValid(sub, width, height)
    {
      var pool := AllDirs();
      order, sub, nodes := [], [], {c};
      while |pool| > 0
        invariant Valid() && c in slots && slots[c] == me
        invariant edges == old(edges) + sub
        invariant Drawing(pool, order)
        invariant slots.Keys == prior.Keys + nodes && c in nodes && nodes * prior.Keys <= {c}
        invariant forall p | p in prior && p != c :: slots[p] == prior[p]
        invariant forall p | p in nodes - {c} :: fresh(slots[p])
        invariant forall p {:trigger Generated(p, sub)} | p in nodes :: Generated(p, sub)
        invariant forall p {:trigger Closed(slots.Keys, p, width, height)} | p in nodes - {c} :: Closed(slots.Keys, p, width, height)
        invariant forall d | d in order && ValidDirection(d, c, width, height) :: Step(d, c) in slots
        invariant RootedTree(sub, c, nodes) && EdgesValid(sub, width, height)
        decreases |pool|
      {
        ghost var nodes0 := nodes;
        pool, order, sub, nodes := Turn(c, me, prior, old(edges), pool, order, sub, nodes);
        forall p | p in nodes - {c} ensures fresh(slots[p]) {
          if p in nodes0 {
            assert p in nodes0 - {c};
          }
        }
      }
      assert Closed(slots.Keys, c, width, height);
      forall p | p in nodes ensures Closed(slots.Keys, p, width, height) {
        if p != c {
          assert p in nodes - {c};
        }
      }
    }

    /**
     * One turn of `generate`'s loop: remove a random direction from `pool`,
     * record it in `order`, and extend the pass in that direction.
     */
    method Turn(c: Coord, me: Cell, ghost prior: map<Coord, Cell>, ghost log0: seq<Edge>, pool: seq<Dir>,
                ghost order: seq<Dir>, ghost sub: seq<Edge>, ghost nodes: set<Coord>)
      returns (pool': seq<Dir>, ghost order': seq<Dir>, ghost sub': seq<Edge>, ghost nodes': set<Coord>)
      requires |pool| > 0
      requires Valid() && InBounds(c, width, height) && c in slots && slots[c] == me
      requires edges == log0 + sub
      requires Drawing(pool, order)
      requires slots.Keys == prior.Keys + nodes && c in nodes && nodes * prior.Keys <= {c}
      requires forall p | p in prior && p != c :: slots[p] == prior[p]
      requires forall p {:trigger Generated(p, sub)} | p in nodes :: Generated(p, sub)
      requires forall p {:trigger Closed(slots.Keys, p, width, height)} | p in nodes - {c} :: Closed(slots.Keys, p, width, height)
      requires forall d | d in order && ValidDirection(d, c, width, height) :: Step(d, c) in slots
      requires RootedTree(sub, c, nodes) && EdgesValid(sub, width, height)
      modifies this`slots, this`edges, cells, me`connections
      decreases grid - prior.Keys + {c}, 2
      ensures |pool'| < |pool|
      ensures Valid() && c in slots && slots[c] == me
      ensures edges == log0 + sub'
      ensures Drawing(pool', order')
      ensures slots.Keys == prior.Keys + nodes' && c in nodes' && nodes' * prior.Keys <= {c}
      ensures nodes <= nodes' && forall p | p in old(slots) :: slots[p] == old(slots)[p]
      ensures forall p | p in nodes' - nodes :: fresh(slots[p])
      ensures forall p | p in prior && p != c :: slots[p] == prior[p]
      ensures forall p {:trigger Generated(p, sub')} | p in nodes' :: Generated(p, sub')
      ensures forall p {:trigger Closed(slots.Keys, p, width, height)} | p in nodes' - {c} :: Closed(slots.Keys, p, width, height)
      ensures forall d | d in order' && ValidDirection(d, c, width, height) :: Step(d, c) in slots
      ensures RootedTree(sub', c, nodes') && EdgesValid(sub', width, height)
    {
      var i :| 0 <= i < |pool|;
      var d: Dir;
      DrawKeeps(pool, order, i);
      d, pool' := RemoveAt(pool, i).0, RemoveAt(pool, i).1;
      order' := order + [d];
      sub', nodes' := Extend(c, d, me, prior.Keys, log0, sub, nodes);
    }

    /** `mazeCells[x][y] = new Cell(false, ...)`: the slot at `c` now holds a fresh, unconnected cell. */
    method Instantiate(c: Coord) returns (me: Cell)
      requires Valid() && InBounds(c, width, height)
      modifies this`slots, cells
      ensures Valid() && slots == old(slots)[c := me] && fresh(me)
      ensures !me.visited && !me.lit && me.connections == []
    {
      me := new Cell(false, width, height, c);
      cells[c.x, c.y] := me;
      slots := slots[c := me];
    }

    /**
     * One turn of `generate`'s loop, once direction `d` is drawn: if it stays
     * inside the grid and leads to a null slot, descend there. The ghost
     * parameters describe the pass from `c` so far: `me` the cell it
     * instantiated at `c`, `before` the slots instantiated when it began,
     * `log0` the calls made before it, `sub` the calls and `nodes` the slots
     * of the pass; the results extend them.
     */
    method Extend(c: Coord, d: Dir, ghost me: Cell, ghost before: set<Coord>, ghost log0: seq<Edge>, ghost sub: seq<Edge>, ghost nodes: set<Coord>)
      returns (ghost sub': seq<Edge>, ghost nodes': set<Coord>)
      requires Valid() && InBounds(c, width, height) && c in slots && slots[c] == me
      requires edges == log0 + sub
      requires slots.Keys == before + nodes && c in nodes && nodes * before <= {c}
      requires forall p {:trigger Generated(p, sub)} | p in nodes :: Generated(p, sub)
      requires forall p {:trigger Closed(slots.Keys, p, width, height)} | p in nodes - {c} :: Closed(slots.Keys, p, width, height)
      requires RootedTree(sub, c, nodes) && EdgesValid(sub, width, height)
      modifies this`slots, this`edges, cells, me`connections
      decreases grid - before + {c}, 1
      ensures Valid() && edges == log0 + sub'
      ensures slots.Keys == before + nodes' && c in nodes' && nodes' * before <= {c} && nodes <= nodes'
      ensures old(slots).Keys <= slots.Keys && forall p | p in old(slots) :: slots[p] == old(slots)[p]
      ensures forall p | p in nodes' - nodes :: fresh(slots[p])
      ensures forall p {:trigger Generated(p, sub')} | p in nodes' :: Generated(p, sub')
      ensures forall p {:trigger Closed(slots.Keys, p, width, height)} | p in nodes' - {c} :: Closed(slots.Keys, p, width, height)
      ensures ValidDirection(d, c, width, height) ==> Step(d, c) in slots
      ensures RootedTree(sub', c, nodes') && EdgesValid(sub', width, height)
    {
      if ValidDirection(d, c, width, height) {
        var target := CellAt(Step(d, c));
        if target == null {
          sub', nodes' := Descend(c, d, me, before, log0, sub, nodes);
          forall p | p in nodes && p != c ensures Generated(p, sub') {
            assert old(Generated(p, sub));
            assert slots[p] == old(slots)[p] && old(slots)[p] != me;
          }
          ClosedGrows(old(slots).Keys, slots.Keys, nodes - {c}, width, height);
          return;
        }
      }
      sub', nodes' := sub, nodes;
    }

    /**
     * The body of `generate`'s innermost branch: connect the cell at `c` in
     * direction `d` to the null slot there and generate from that slot. The
     * ghost parameters describe the pass from `c` so far: `me` the cell it
     * instantiated at `c`, `before` the slots
     * instantiated when it began, `log0` the calls made before it, `sub` the
     * calls and `nodes` the slots of the pass; the results extend them.
     */
    method Descend(c: Coord, d: Dir, ghost me: Cell, ghost before: set<Coord>, ghost log0: seq<Edge>, ghost sub: seq<Edge>, ghost nodes: set<Coord>)
      returns (ghost sub': seq<Edge>, ghost nodes': set<Coord>)
      requires Valid() && InBounds(c, width, height) && ValidDirection(d, c, width, height) && Step(d, c) !in slots
      requires c in slots && slots[c] == me
      requires edges == log0 + sub
      requires slots.Keys == before + nodes && c in nodes && nodes * before <= {c}
      requires Generated(c, sub)
      requires RootedTree(sub, c, nodes) && EdgesValid(sub, width, height)
      modifies this`slots, this`edges, cells, me`connections
      decreases grid - before + {c}, 0
      ensures Valid() && edges == log0 + sub'
      ensures slots.Keys == before + nodes' && c in nodes' && nodes' * before <= {c} && nodes <= nodes'
      ensures forall p | p in old(slots) :: slots[p] == old(slots)[p]
      ensures forall p | p in nodes' - nodes :: fresh(slots[p])
      ensures Generated(c, sub') && forall p {:trigger Generated(p, sub')} | p in nodes' - nodes :: Generated(p, sub')
      ensures forall p | p in nodes && p != c :: ConnectionsFrom(sub', p, width, height) == ConnectionsFrom(sub, p, width, height)
      ensures forall p {:trigger Closed(slots.Keys, p, width, height)} | p in nodes' - nodes :: Closed(slots.Keys, p, width, height)
      ensures Step(d, c) in slots
      ensures RootedTree(sub', c, nodes') && EdgesValid(sub', width, height)
    {
      var next := Step(d, c);
      CellAt(c).AddConnection(d);
      edges := edges + [Edge(c, d)];
      ghost var filled := slots.Keys;
      Shrinks(grid, before, filled, c, next);
      assert !me.visited && !me.lit;
      ghost var _, grown, claimed := Generate(next);
      GraftPass(before, nodes, c, d, sub, grown, claimed, filled, slots.Keys, width, height);
      LogRegroup(log0, sub, Edge(c, d), grown);
      sub', nodes' := sub + [Edge(c, d)] + grown, nodes + claimed;
      assert slots[c] == me;
      assert !me.visited;
      assert !me.lit;
      assert me.connections == ConnectionsFrom(sub, c, width, height) + AddedEntries(d, c, width, height);
      assert Generated(c, sub');
      forall p | p in claimed ensures Generated(p, sub') {
        assert Generated(p, grown);
      }
    }

    /**
     * `solve(cell)`: mark the cell visited, then follow its connections in
     * order until one of them leads to the end. On success `path` is the
     * chain of positions found, from this cell to the end; the cells
     * repainted yellow are the ones that chain marks. On failure nothing is
     * repainted and no chain through unvisited cells reaches the end.
     */
    method Solve(cell: Cell) returns (found: bool, ghost path: seq<Coord>)
      requires Valid() && Linked(Links())
      requires cell.coords in slots && slots[cell.coords] == cell
      modifies Cells()`visited, Cells()`lit
      decreases slots.Keys - Visited() + {cell.coords}, 3
      ensures Links() == old(Links())
      ensures old(Visited()) + {cell.coords} <= Visited()
      ensures found <==> ReachesEnd(old(Links()), old(Visited()) + {cell.coords}, cell.coords, endCell)
      ensures found ==> EscapeChain(old(Links()), old(Visited()) + {cell.coords}, cell.coords, endCell, path)
      ensures found ==> Lit() == old(Lit()) + LightningMarks(path, old(Sky()))
      ensures !found ==> Lit() == old(Lit()) && Sky() == old(Sky())
      ensures !found ==> Exhausted(old(Links()), old(Visited()), Visited(), cell.coords, endCell)
    {
      ghost var links, before, lit, sky := Links(), Visited(), Lit(), Sky();
      Visit(cell);
      found, path := Scan(cell, links, before, lit, sky);
    }

    /** `cell.visited = true`: the cell's position joins the visited ones, nothing else changes. */
    method Visit(cell: Cell)
      requires Valid() && cell.coords in slots && slots[cell.coords] == cell
      modifies cell`visited
      ensures Visited() == old(Visited()) + {cell.coords}
      ensures Links() == old(Links()) && Lit() == old(Lit()) && Sky() == old(Sky())
    {
      cell.visited := true;
    }

    /** `target.rgb = {yellowness, ..., 0}`: the cell is repainted lightning yellow, nothing else changes. */
    method Light(target: Cell)
      requires Valid() && target.coords in slots && slots[target.coords] == target
      modifies target`lit
      ensures Lit() == old(Lit()) + {target.coords}
      ensures Links() == old(Links()) && Visited() == old(Visited())
    {
      target.lit := true;
    }

    /**
     * The loop of `solve(cell)` once the cell is marked visited: follow the
     * connections in order, stopping at the first that leads to the end.
     * `links`, `lit` and `sky` are the connections, repainted cells and sky
     * blue cells when the search began, `before` the cells visited then.
     */
    method Scan(cell: Cell, ghost links: Links, ghost before: set<Coord>, ghost lit: set<Coord>, ghost sky: set<Coord>)
      returns (found: bool, ghost path: seq<Coord>)
      requires Valid() && Linked(links) && Links() == links
      requires cell.coords in slots && slots[cell.coords] == cell
      requires Visited() == before + {cell.coords} && Lit() == lit && Sky() == sky
      modifies Cells()`visited, Cells()`lit
      decreases slots.Keys - before + {cell.coords}, 2
      ensures Links() == links
      ensures before + {cell.coords} <= Visited()
      ensures found <==> ReachesEnd(links, before + {cell.coords}, cell.coords, endCell)
      ensures found ==> EscapeChain(links, before + {cell.coords}, cell.coords, endCell, path)
      ensures found ==> Lit() == lit + LightningMarks(path, sky)
      ensures !found ==> Lit() == lit
      ensures !found ==> Exhausted(links, before, Visited(), cell.coords, endCell)
    {
      var at := cell.coords;
      var conns := cell.connections;
      var i := 0;
      ghost var reached: set<Coord> := {};
      while i < |conns|
        invariant conns == links[at] && Covers(conns, at, i, reached)
        invariant Links() == links && Lit() == lit
        invariant before + {at} <= Visited() && reached <= Visited()
        invariant forall n | n in Visited() - before - {at} :: n in links && LinkTargets(links, n) <= Visited()
        invariant endCell in Visited() ==> endCell in before + {at}
        decreases |conns| - i
      {
        found, path := Follow(cell, i, links, before, lit, sky);
        if found {
          return;
        }
        CoversNext(conns, at, i, reached);
        reached := reached + {Step(conns[i], at)};
        i := i + 1;
      }
      found, path := false, [];
      TargetsCovered(links, at, reached);
      ExhaustedMeansUnreachable(links, before, Visited(), at, endCell);
    }

    /**
     * One turn of `solve`'s loop, on the connection at index `i`: skip a
     * visited target; succeed on the end cell, repainting it; otherwise
     * search from the target, and on success repaint it if this cell is
     * still sky blue.
     */
    method Follow(cell: Cell, i: int, ghost links: Links, ghost before: set<Coord>, ghost lit: set<Coord>, ghost sky: set<Coord>)
      returns (found: bool, ghost path: seq<Coord>)
      requires Valid() && Linked(links) && Links() == links
      requires cell.coords in slots && slots[cell.coords] == cell && 0 <= i < |links[cell.coords]|
      requires Lit() == lit && Sky() == sky && before + {cell.coords} <= Visited()
      requires forall n | n in Visited() - before - {cell.coords} :: n in links && LinkTargets(links, n) <= Visited()
      requires endCell in Visited() ==> endCell in before + {cell.coords}
      modifies Cells()`visited, Cells()`lit
      decreases slots.Keys - before + {cell.coords}, 1
      ensures Links() == links && old(Visited()) <= Visited()
      ensures found ==> EscapeChain(links, before + {cell.coords}, cell.coords, endCell, path)
      ensures found ==> Lit() == lit + LightningMarks(path, sky)
      ensures !found ==> Lit() == lit && Step(links[cell.coords][i], cell.coords) in Visited()
      ensures !found ==> forall n | n in Visited() - before - {cell.coords} :: n in links && LinkTargets(links, n) <= Visited()
      ensures !found ==> (endCell in Visited() ==> endCell in before + {cell.coords})
    {
      var at := cell.coords;
      var next := Step(cell.connections[i], at);
      assert next in LinkTargets(links, at);
      var target := CellAt(next);
      found, path := false, [];
      if !target.visited {
        if target.coords == endCell {
          Light(target);
          found, path := true, [at, endCell];
          assert EscapeChain(links, before + {at}, at, endCell, path);
          assert LightningMarks(path, sky) == {endCell};
          return;
        }
        found, path := Pursue(cell, target, links, before, lit, sky);
      }
    }

    /**
     * The search branch of `solve`'s loop, for an unvisited target that is
     * not the end: search from the target, and on success repaint it if
     * this cell is still sky blue.
     */
    method Pursue(cell: Cell, target: Cell, ghost links: Links, ghost before: set<Coord>, ghost lit: set<Coord>, ghost sky: set<Coord>)
      returns (found: bool, ghost path: seq<Coord>)
      requires Valid() && Linked(links) && Links() == links
      requires cell.coords in slots && slots[cell.coords] == cell
      requires target.coords in slots && slots[target.coords] == target && target.coords in LinkTargets(links, cell.coords)
      requires !target.visited && target.coords != endCell
      requires Lit() == lit && Sky() == sky && before + {cell.coords} <= Visited()
      requires forall n | n in Visited() - before - {cell.coords} :: n in links && LinkTargets(links, n) <= Visited()
      requires endCell in Visited() ==> endCell in before + {cell.coords}
      modifies Cells()`visited, Cells()`lit
      decreases slots.Keys - before + {cell.coords}, 0
      ensures Links() == links && old(Visited()) <= Visited()
      ensures found ==> EscapeChain(links, before + {cell.coords}, cell.coords, endCell, path)
      ensures found ==> Lit() == lit + LightningMarks(path, sky)
      ensures !found ==> Lit() == lit && target.coords in Visited()
      ensures !found ==> forall n | n in Visited() - before - {cell.coords} :: n in links && LinkTargets(links, n) <= Visited()
      ensures !found ==> (endCell in Visited() ==> endCell in before + {cell.coords})
    {
      var at, next := cell.coords, target.coords;
      ghost var visited, wasSky := Visited(), cell.SkyBlue();
      assert wasSky <==> at in sky;
      Shrinks(slots.Keys, before, visited, at, next);
      var onTrack, sub := Solve(target);
      if onTrack {
        ChainPrepend(links, before + {at}, visited, at, next, endCell, sub, sky);
        MarksOnPath(sub, sky);
        assert at !in LightningMarks(sub, sky) by {
          forall k | 1 <= k < |sub| ensures sub[k] != at {
            assert sub[k] !in visited + {next};
          }
        }
        assert cell.lit <==> at in Lit();
        assert at in Lit() <==> at in lit;
        ghost var marks := LightningMarks(sub, sky);
        assert Lit() == lit + marks;
        ghost var sb := cell.SkyBlue();
        assert sb <==> at in sky;
        if cell.SkyBlue() {
          Light(target);
        }
        assert Lit() == lit + marks + (if sb then {next} else {});
        UnionSwap(lit, marks, if sb then {next} else {});
        found, path := true, [at] + sub;
      } else {
        AbsorbFailedSearch(links, before, at, visited, Visited(), next, endCell);
        found, path := false, [];
      }
    }
  }

  /**
   * The generator's recursion step on the ghost bookkeeping: a pass from `c`
   * that instantiated `nodes` (on top of `before`) with the calls `sub`,
   * then called `addConnection(d)` and ran a nested pass that instantiated
   * `claimed` with the calls `grown`, has instantiated `nodes + claimed`
   * with the calls `sub + [Edge(c, d)] + grown`, still a spanning tree.
   */
  lemma GraftPass(before: set<Coord>, nodes: set<Coord>, c: Coord, d: Dir, sub: seq<Edge>, grown: seq<Edge>, claimed: set<Coord>,
                  filled: set<Coord>, after: set<Coord>, width: int, height: int)
    requires filled == before + nodes && c in nodes && nodes * before <= {c}
    requires after == filled + claimed && claimed * filled <= {Step(d, c)} && Step(d, c) !in filled
    requires InBounds(c, width, height) && ValidDirection(d, c, width, height)
    requires RootedTree(sub, c, nodes) && EdgesValid(sub, width, height)
    requires RootedTree(grown, Step(d, c), claimed) && EdgesValid(grown, width, height)
    ensures after == before + (nodes + claimed) && (nodes + claimed) * before <= {c}
    ensures RootedTree(sub + [Edge(c, d)] + grown, c, nodes + claimed)
    ensures EdgesValid(sub + [Edge(c, d)] + grown, width, height)
    ensures ConnectionsFrom(sub + [Edge(c, d)] + grown, c, width, height) == ConnectionsFrom(sub, c, width, height) + AddedEntries(d, c, width, height)
    ensures forall p | p in nodes && p != c :: ConnectionsFrom(sub + [Edge(c, d)] + grown, p, width, height) == ConnectionsFrom(sub, p, width, height)
    ensures forall p | p in claimed :: ConnectionsFrom(sub + [Edge(c, d)] + grown, p, width, height) == ConnectionsFrom(grown, p, width, height)
  {
    NodesGrow(before, nodes, c, filled, claimed, Step(d, c), after);
    assert Target(Edge(c, d)) == Step(d, c);
    ConnectionsAfterGraft(sub, c, nodes, Edge(c, d), grown, claimed, width, height);
    Graft(sub, c, nodes, Edge(c, d), grown, claimed);
    EdgesValidJoin(sub, Edge(c, d), grown, width, height);
  }

  /** The positions still to instantiate shrink from one generation pass to the nested one. */
  lemma Shrinks(all: set<Coord>, before: set<Coord>, filled: set<Coord>, c: Coord, next: Coord)
    requires before + {c} <= filled && next !in filled && next in all
    ensures all - filled + {next} < all - before + {c}
  {
    assert c !in all - filled + {next};
  }

  /** How the slots instantiated by a pass grow when a nested pass from `next` returns. */
  lemma NodesGrow(before: set<Coord>, nodes: set<Coord>, c: Coord, filled: set<Coord>, claimed: set<Coord>, next: Coord, after: set<Coord>)
    requires filled == before + nodes && c in nodes && nodes * before <= {c}
    requires after == filled + claimed && claimed * filled <= {next} && next !in filled
    ensures nodes !! claimed
    ensures after == before + (nodes + claimed) && (nodes + claimed) * before <= {c}
  {
    forall p | p in claimed ensures p !in filled {
      assert p in filled ==> p in claimed * filled;
    }
  }

  /** Adding `c` after `b` or before it gives the same set. */
  lemma UnionSwap<T>(a: set<T>, b: set<T>, c: set<T>)
    ensures a + b + c == a + (c + b)
  {
  }

  /** A spanning tree of the whole grid has one call fewer than the grid has positions. */
  lemma TreeSpansGrid(log: seq<Edge>, root: Coord, width: nat, height: nat)
    requires RootedTree(log, root, AllCoords(width, height))
    ensures |log| == width * height - 1
  {
    TreeSize(log, root, AllCoords(width, height));
    GridSize(width, height);
  }

  /**
   * `setup()`: build a 32 by 45 maze, then call `generate(startCell)` once
   * more. The second pass leaves the log of calls as the constructor's
   * spanning tree, but the start slot now holds a fresh cell with no
   * connections although the tree has calls from the start; every other
   * cell keeps its connections. Every slot is still filled, and the cells
   * the constructor's `solve` repainted stay repainted, since the start was
   * never one of them: they are still the ones the lightning path
   * `lightning` marks, given the sky-blue cells `sky` that search began
   * with. That path is a chain of the connections the log made, from the
   * start to the end, and `sky` agrees with the cells' colours everywhere
   * but at the start, whose cell was replaced.
   */
  method Setup() returns (maze: Maze, ghost lightning: seq<Coord>, ghost sky: set<Coord>)
    ensures fresh(maze) && maze.Valid() && maze.width == 32 && maze.height == 45
    ensures maze.slots.Keys == AllCoords(32, 45)
    ensures maze.endCell in maze.Lit() <==> maze.startCell != maze.endCell
    ensures maze.startCell in maze.slots
    ensures RootedTree(maze.edges, maze.startCell, maze.slots.Keys)
    ensures forall p | p in maze.slots && p != maze.startCell :: maze.slots[p].connections == ConnectionsFrom(maze.edges, p, maze.width, maze.height)
    ensures maze.slots[maze.startCell].connections == [] != ConnectionsFrom(maze.edges, maze.startCell, maze.width, maze.height)
    ensures maze.startCell != maze.endCell ==>
      EscapeChain(map p | p in AllCoords(32, 45) :: ConnectionsFrom(maze.edges, p, 32, 45), {maze.startCell}, maze.startCell, maze.endCell, lightning)
    ensures sky - {maze.startCell} == maze.slots.Keys - maze.Clouds() - {maze.startCell}
    ensures Struck(maze.startCell, maze.endCell, lightning, sky, maze.Lit())
  {
    maze := new Maze(32, 45);
    ghost var lit, links := maze.Lit(), maze.Links();
    sky := maze.slots.Keys - maze.Clouds();
    lightning :| && (maze.startCell != maze.endCell ==> EscapeChain(links, {maze.startCell}, maze.startCell, maze.endCell, lightning))
                 && Struck(maze.startCell, maze.endCell, lightning, sky, lit);
    assert links == map p | p in AllCoords(32, 45) :: ConnectionsFrom(maze.edges, p, 32, 45);
    assert lit - {maze.startCell} == lit;
    maze.Regenerate();
    assert maze.Lit() == lit;
  }
}
