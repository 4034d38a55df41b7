/**
 * What the solver's depth-first search computes, stated over a map from each
 * instantiated position to its connection list: chains of connections that
 * avoid already visited cells, the state a search that fails leaves behind,
 * and the cells a successful search repaints.
 */
module Search {
  import opened Geometry
  import opened Trees
  import opened Cells

  type Links = map<Coord, seq<Dir>>

  /** The positions one connection away from `at`. */
  ghost function LinkTargets(links: Links, at: Coord): set<Coord>
    requires at in links
  {
    set d | d in links[at] :: Step(d, at)
  }

  /** Every connection leads to an instantiated position. */
  ghost predicate Linked(links: Links) {
    forall p | p in links :: LinkTargets(links, p) <= links.Keys
  }

  /**
   * `path` starts at `from`, follows one connection per step, never enters a
   * position in `blocked` after the first, and ends at `to`.
   */
  ghost predicate EscapeChain(links: Links, blocked: set<Coord>, from: Coord, to: Coord, path: seq<Coord>) {
    && |path| >= 2 && path[0] == from && path[|path| - 1] == to
    && (forall i | 0 <= i < |path| - 1 :: Hop(links, path, i))
    && (forall i | 1 <= i < |path| :: path[i] !in blocked)
  }

  /** The step from `path[i]` to `path[i + 1]` follows a connection. */
  ghost predicate Hop(links: Links, path: seq<Coord>, i: int)
    requires 0 <= i < |path| - 1
  {
    path[i] in links && path[i + 1] in LinkTargets(links, path[i])
  }

  /** Some chain of connections from `from` through positions outside `blocked` reaches `to`. */
  ghost predicate ReachesEnd(links: Links, blocked: set<Coord>, from: Coord, to: Coord) {
    exists path :: EscapeChain(links, blocked, from, to, path)
  }

  /**
   * What a search from `from` that found nothing leaves behind, with
   * `before` and `after` the visited positions at its start and end: every
   * position it entered has all its connection targets visited, and the end
   * position was entered only if it was visited already or is `from` itself.
   */
  ghost predicate Exhausted(links: Links, before: set<Coord>, after: set<Coord>, from: Coord, to: Coord) {
    && (forall n | n in (after - before) + {from} :: n in links && LinkTargets(links, n) <= after)
    && (to in after ==> to in before + {from})
  }

  /** The first `i` of the connections `conns` leaving `at` lead into `reached`. */
  ghost predicate Covers(conns: seq<Dir>, at: Coord, i: int, reached: set<Coord>) {
    0 <= i <= |conns| && forall k | 0 <= k < i :: Step(conns[k], at) in reached
  }

  /** Following one more connection extends the covered prefix by one. */
  lemma CoversNext(conns: seq<Dir>, at: Coord, i: int, reached: set<Coord>)
    requires Covers(conns, at, i, reached) && i < |conns|
    ensures Covers(conns, at, i + 1, reached + {Step(conns[i], at)})
  {
  }

  /** Every connection target of `at` lies in `reached` once each entry of its list has been followed there. */
  lemma TargetsCovered(links: Links, at: Coord, reached: set<Coord>)
    requires at in links && Covers(links[at], at, |links[at]|, reached)
    ensures LinkTargets(links, at) <= reached
  {
    forall q | q in LinkTargets(links, at) ensures q in reached {
      var d :| d in links[at] && q == Step(d, at);
      var k :| 0 <= k < |links[at]| && links[at][k] == d;
    }
  }

  lemma {:induction false} ChainStaysInside(links: Links, before: set<Coord>, after: set<Coord>, from: Coord, to: Coord, path: seq<Coord>, i: nat)
    requires before + {from} <= after
    requires Exhausted(links, before, after, from, to)
    requires EscapeChain(links, before + {from}, from, to, path)
    requires 1 <= i < |path|
    ensures path[i] in after - (before + {from})
    decreases i
  {
    if i > 1 {
      ChainStaysInside(links, before, after, from, to, path, i - 1);
    }
    assert path[i - 1] in (after - before) + {from};
    assert Hop(links, path, i - 1);
  }

  /** A search that found nothing leaves no chain from `from` to `to` through cells unvisited at its start. */
  lemma ExhaustedMeansUnreachable(links: Links, before: set<Coord>, after: set<Coord>, from: Coord, to: Coord)
    requires before + {from} <= after
    requires Exhausted(links, before, after, from, to)
    ensures !ReachesEnd(links, before + {from}, from, to)
  {
    forall path | EscapeChain(links, before + {from}, from, to, path) ensures false {
      ChainStaysInside(links, before, after, from, to, path, |path| - 1);
    }
  }

  /**
   * A chain found from a neighbour `next` of `from`, through positions not
   * blocked when that search began, extends to a chain from `from`; the
   * first step repaints `next` only when `from` is still sky blue.
   */
  lemma ChainPrepend(links: Links, blocked: set<Coord>, inner: set<Coord>, from: Coord, next: Coord, to: Coord, sub: seq<Coord>, sky: set<Coord>)
    requires EscapeChain(links, inner + {next}, next, to, sub)
    requires from in links && next in LinkTargets(links, from)
    requires blocked <= inner && next !in blocked
    ensures EscapeChain(links, blocked, from, to, [from] + sub)
    ensures LightningMarks([from] + sub, sky) == (if from in sky then {next} else {}) + LightningMarks(sub, sky)
  {
    var path := [from] + sub;
    assert path[1..] == sub;
    forall i | 1 <= i < |path| ensures path[i] !in blocked {
      assert path[i] == sub[i - 1];
    }
    forall i | 0 <= i < |path| - 1 ensures Hop(links, path, i) {
      if i > 0 {
        assert path[i] == sub[i - 1] && path[i + 1] == sub[i];
        assert Hop(links, sub, i - 1);
      }
    }
  }

  /**
   * A failed search from a neighbour, started once `visited` positions were
   * visited and ending with `after`, keeps the failure bookkeeping of the
   * search from `from` that launched it.
   */
  lemma AbsorbFailedSearch(links: Links, before: set<Coord>, from: Coord, visited: set<Coord>, after: set<Coord>, next: Coord, to: Coord)
    requires forall n | n in visited - before - {from} :: n in links && LinkTargets(links, n) <= visited
    requires to in visited ==> to in before + {from}
    requires visited + {next} <= after && next != to
    requires Exhausted(links, visited, after, next, to)
    ensures forall n | n in after - before - {from} :: n in links && LinkTargets(links, n) <= after
    ensures to in after ==> to in before + {from}
  {
  }

  /**
   * Connections left by valid `addConnection` calls all lead to positions of
   * the grid, so in a full grid every connection leads to a cell.
   */
  lemma ValidCallsAreLinked(log: seq<Edge>, links: Links, width: int, height: int)
    requires EdgesValid(log, width, height)
    requires forall p | p in links :: InBounds(p, width, height) && links[p] == ConnectionsFrom(log, p, width, height)
    requires forall p | InBounds(p, width, height) :: p in links
    ensures Linked(links)
  {
    forall p, q | p in links && q in LinkTargets(links, p) ensures q in links {
      var d :| d in links[p] && q == Step(d, p);
      ConnectionsAreCalls(log, p, width, height);
      var i :| 0 <= i < |log| && log[i] == Edge(p, d);
    }
  }

  /** The solver compares only targets with the end: a search can never succeed on its own start position. */
  lemma NeverReachesItself(links: Links, blocked: set<Coord>, from: Coord)
    requires from in blocked
    ensures !ReachesEnd(links, blocked, from, from)
  {
  }

  /**
   * The cells a successful search along `path` repaints yellow: the last one,
   * and each intermediate one whose predecessor was still sky blue (`sky`).
   * The first position is never repainted by the search itself.
   */
  ghost function LightningMarks(path: seq<Coord>, sky: set<Coord>): set<Coord>
    requires |path| >= 2
    decreases |path|
  {
    if |path| == 2 then {path[1]}
    else (if path[0] in sky then {path[1]} else {}) + LightningMarks(path[1..], sky)
  }

  /**
   * What a search from `start` for `end` leaves repainted, `lit`: when the
   * end is not the start, `path` runs from the start to the end and `lit`
   * is exactly what it marks, given the sky-blue cells `sky` the search
   * began with; otherwise nothing.
   */
  ghost predicate Struck(start: Coord, end: Coord, path: seq<Coord>, sky: set<Coord>, lit: set<Coord>) {
    if start != end then
      && |path| >= 2 && path[0] == start && path[|path| - 1] == end
      && lit == LightningMarks(path, sky)
    else
      lit == {}
  }

  /** The repainted cells all lie on the path after its first position, and include its last. */
  lemma {:induction false} MarksOnPath(path: seq<Coord>, sky: set<Coord>)
    requires |path| >= 2
    ensures path[|path| - 1] in LightningMarks(path, sky)
    ensures forall c | c in LightningMarks(path, sky) :: c in path[1..]
    decreases |path|
  {
    if |path| > 2 {
      MarksOnPath(path[1..], sky);
      assert path[1..][1..] == path[2..];
    }
  }

  /**
   * In a spanning tree whose cells carry the connections the generator's
   * calls left, a chain of connections leads from the root to every other
   * node without re-entering the root.
   */
  lemma TreeReachesEveryNode(log: seq<Edge>, root: Coord, nodes: set<Coord>, links: Links, width: int, height: int, n: Coord)
    requires RootedTree(log, root, nodes)
    requires EdgesValid(log, width, height)
    requires forall p | p in nodes :: p in links && links[p] == ConnectionsFrom(log, p, width, height)
    requires n in nodes && n != root
    ensures ReachesEnd(links, {root}, root, n)
  {
    FromsAreNodes(log, root, nodes);
    var k :| 0 <= k < |log| && Targets(log)[k] == n;
    var steps, path := PathFromRoot(log, root, k);
    forall i | 0 <= i < |path| - 1 ensures Hop(links, path, i) {
      assert Traverses(log, steps, path, i);
      var e := log[steps[i]];
      ConnectionsFromHas(log, steps[i], width, height);
      assert e.dir in links[e.from];
    }
    forall i | 1 <= i < |path| ensures path[i] !in {root} {
      assert Traverses(log, steps, path, i - 1);
    }
    assert EscapeChain(links, {root}, root, n, path);
  }
}
