/**
 * The generator's connections as a log of parent-to-child edges, and what it
 * means for such a log to be a spanning tree of a set of positions rooted at
 * the position the generation started from.
 */
module Trees {
  import opened Geometry

  /** One `addConnection` call made by the generator: the parent's position and the direction to the child. */
  datatype Edge = Edge(from: Coord, dir: Dir)

  /** The child position an edge leads to. */
  function Target(e: Edge): Coord {
    Step(e.dir, e.from)
  }

  function Targets(log: seq<Edge>): seq<Coord> {
    seq(|log|, i requires 0 <= i < |log| => Target(log[i]))
  }

  predicate Distinct<T(==)>(s: seq<T>) {
    forall i, j :: 0 <= i < j < |s| ==> s[i] != s[j]
  }

  /** Every edge leaves a position inside the grid in a direction that stays inside it. */
  predicate EdgesValid(log: seq<Edge>, width: int, height: int) {
    forall i | 0 <= i < |log| :: InBounds(log[i].from, width, height) && ValidDirection(log[i].dir, log[i].from, width, height)
  }

  lemma LogRegroup(prefix: seq<Edge>, log: seq<Edge>, e: Edge, sub: seq<Edge>)
    ensures prefix + log + [e] + sub == prefix + (log + [e] + sub)
  {
  }

  lemma EdgesValidJoin(a: seq<Edge>, e: Edge, b: seq<Edge>, width: int, height: int)
    requires EdgesValid(a, width, height) && EdgesValid(b, width, height)
    requires InBounds(e.from, width, height) && ValidDirection(e.dir, e.from, width, height)
    ensures EdgesValid(a + [e] + b, width, height)
  {
    var s := a + [e] + b;
    forall i | 0 <= i < |s|
      ensures InBounds(s[i].from, width, height) && ValidDirection(s[i].dir, s[i].from, width, height)
    {
      if i < |a| {
        assert s[i] == a[i];
      } else if i > |a| {
        assert s[i] == b[i - |a| - 1];
      }
    }
  }

  /**
   * `log` is a spanning tree of `nodes` rooted at `root`: every node but the
   * root is the child of exactly one edge, the root is the child of none,
   * and every edge leaves the root or a node an earlier edge reached (so
   * following parents from any node ends at the root).
   */
  ghost predicate RootedTree(log: seq<Edge>, root: Coord, nodes: set<Coord>) {
    && root in nodes
    && Distinct(Targets(log))
    && (forall i | 0 <= i < |log| :: Target(log[i]) in nodes && Target(log[i]) != root)
    && (forall n | n in nodes && n != root :: n in Targets(log))
    && Parented(log, root)
  }

  /** Every edge leaves the root or a position an earlier edge reached. */
  ghost predicate Parented(log: seq<Edge>, root: Coord) {
    forall i | 0 <= i < |log| :: log[i].from == root || log[i].from in Targets(log)[..i]
  }

  /** A sequence without repetitions has as many distinct elements as it is long. */
  lemma {:induction false} DistinctSize<T>(s: seq<T>)
    requires Distinct(s)
    ensures |set x | x in s| == |s|
  {
    if s != [] {
      var init := s[..|s| - 1];
      DistinctSize(init);
      assert (set x | x in s) == (set x | x in init) + {s[|s| - 1]};
      assert s[|s| - 1] !in init;
    }
  }

  /** A spanning tree of `n` nodes has exactly `n - 1` edges. */
  lemma TreeSize(log: seq<Edge>, root: Coord, nodes: set<Coord>)
    requires RootedTree(log, root, nodes)
    ensures |log| == |nodes| - 1
  {
    var ts := Targets(log);
    assert (set x | x in ts) == nodes - {root};
    DistinctSize(ts);
  }

  /** Every edge of a tree leaves one of its nodes. */
  lemma FromsAreNodes(log: seq<Edge>, root: Coord, nodes: set<Coord>)
    requires RootedTree(log, root, nodes)
    ensures forall i | 0 <= i < |log| :: log[i].from in nodes
  {
    forall i | 0 <= i < |log| ensures log[i].from in nodes {
      if log[i].from != root {
        var j :| 0 <= j < i && Targets(log)[j] == log[i].from;
        assert Target(log[j]) == log[i].from;
      }
    }
  }

  /** Joining two repetition-free sequences with no element in common, and a new element between them, repeats nothing. */
  lemma DistinctJoin<T>(a: seq<T>, t: T, b: seq<T>)
    requires Distinct(a) && Distinct(b)
    requires t !in a && t !in b
    requires forall x | x in a :: x !in b
    ensures Distinct(a + [t] + b)
  {
    var s := a + [t] + b;
    forall i, j | 0 <= i < j < |s| ensures s[i] != s[j] {
      if j < |a| {
        assert s[i] == a[i] && s[j] == a[j];
      } else if j == |a| {
        assert s[i] == a[i] && s[j] == t;
        assert a[i] in a;
      } else if i < |a| {
        assert s[i] == a[i] && s[j] == b[j - |a| - 1];
        assert a[i] in a;
      } else if i == |a| {
        assert s[i] == t && s[j] == b[j - |a| - 1];
        assert b[j - |a| - 1] in b;
      } else {
        assert s[i] == b[i - |a| - 1] && s[j] == b[j - |a| - 1];
      }
    }
  }

  /**
   * The generator's recursion step: an edge from a node of a tree to a new
   * position, followed by a tree rooted at that position over nodes disjoint
   * from the first tree, gives one tree over both node sets.
   */
  lemma Graft(log: seq<Edge>, root: Coord, nodes: set<Coord>, e: Edge, sub: seq<Edge>, subNodes: set<Coord>)
    requires RootedTree(log, root, nodes)
    requires e.from in nodes && Target(e) !in nodes
    requires RootedTree(sub, Target(e), subNodes)
    requires nodes !! subNodes
    ensures RootedTree(log + [e] + sub, root, nodes + subNodes)
  {
    TargetsJoin(log, e, sub);
    GraftDistinct(log, root, nodes, e, sub, subNodes);
    GraftTargets(log, root, nodes, e, sub, subNodes);
    GraftCovers(log, root, nodes, e, sub, subNodes);
    GraftParents(log, root, e, sub);
  }

  lemma TargetsJoin(log: seq<Edge>, e: Edge, sub: seq<Edge>)
    ensures Targets(log + [e] + sub) == Targets(log) + [Target(e)] + Targets(sub)
  {
    var all, ts, joined := log + [e] + sub, Targets(log + [e] + sub), Targets(log) + [Target(e)] + Targets(sub);
    forall i | 0 <= i < |ts| ensures ts[i] == joined[i] {
      if i < |log| {
        assert all[i] == log[i];
      } else if i > |log| {
        assert all[i] == sub[i - |log| - 1];
      }
    }
  }

  /** The targets of a log whose every edge leads into `nodes` lie in `nodes`. */
  lemma TargetsWithin(log: seq<Edge>, nodes: set<Coord>)
    requires forall i | 0 <= i < |log| :: Target(log[i]) in nodes
    ensures forall x | x in Targets(log) :: x in nodes
  {
    forall x | x in Targets(log) ensures x in nodes {
      var i :| 0 <= i < |log| && Targets(log)[i] == x;
    }
  }

  lemma GraftDistinct(log: seq<Edge>, root: Coord, nodes: set<Coord>, e: Edge, sub: seq<Edge>, subNodes: set<Coord>)
    requires RootedTree(log, root, nodes) && RootedTree(sub, Target(e), subNodes)
    requires Target(e) !in nodes && nodes !! subNodes
    ensures Distinct(Targets(log) + [Target(e)] + Targets(sub))
  {
    TargetsWithin(log, nodes);
    TargetsWithin(sub, subNodes);
    DistinctJoin(Targets(log), Target(e), Targets(sub));
  }

  lemma GraftTargets(log: seq<Edge>, root: Coord, nodes: set<Coord>, e: Edge, sub: seq<Edge>, subNodes: set<Coord>)
    requires RootedTree(log, root, nodes) && RootedTree(sub, Target(e), subNodes)
    requires Target(e) !in nodes && nodes !! subNodes
    ensures forall i | 0 <= i < |log + [e] + sub| :: Target((log + [e] + sub)[i]) in nodes + subNodes && Target((log + [e] + sub)[i]) != root
  {
    var all := log + [e] + sub;
    forall i | 0 <= i < |all| ensures Target(all[i]) in nodes + subNodes && Target(all[i]) != root {
      if i < |log| {
        assert all[i] == log[i];
      } else if i > |log| {
        assert all[i] == sub[i - |log| - 1];
      }
    }
  }

  lemma GraftCovers(log: seq<Edge>, root: Coord, nodes: set<Coord>, e: Edge, sub: seq<Edge>, subNodes: set<Coord>)
    requires RootedTree(log, root, nodes)
    requires RootedTree(sub, Target(e), subNodes)
    requires Targets(log + [e] + sub) == Targets(log) + [Target(e)] + Targets(sub)
    ensures forall n | n in nodes + subNodes && n != root :: n in Targets(log + [e] + sub)
  {
    var ts := Targets(log + [e] + sub);
    forall n | n in nodes + subNodes && n != root ensures n in ts {
      if n in nodes {
        assert n in Targets(log);
      } else if n != Target(e) {
        assert n in Targets(sub);
      }
    }
  }

  lemma GraftParents(log: seq<Edge>, root: Coord, e: Edge, sub: seq<Edge>)
    requires Parented(log, root) && Parented(sub, Target(e))
    requires e.from == root || e.from in Targets(log)
    ensures Parented(log + [e] + sub, root)
  {
    var all := log + [e] + sub;
    var ts := Targets(all);
    forall i | 0 <= i < |all| ensures all[i].from == root || all[i].from in ts[..i] {
      if i < |log| {
        assert all[i] == log[i];
        if log[i].from != root {
          var j :| 0 <= j < i && Targets(log)[..i][j] == log[i].from;
          assert all[j] == log[j] && ts[..i][j] == ts[j];
        }
      } else if i == |log| {
        if e.from != root {
          var j :| 0 <= j < |log| && Targets(log)[j] == e.from;
          assert all[j] == log[j] && ts[..i][j] == ts[j];
        }
      } else {
        var k := i - |log| - 1;
        assert all[i] == sub[k];
        if sub[k].from == Target(e) {
          assert all[|log|] == e && ts[..i][|log|] == ts[|log|];
        } else {
          var j :| 0 <= j < k && Targets(sub)[..k][j] == sub[k].from;
          assert all[|log| + 1 + j] == sub[j] && ts[..i][|log| + 1 + j] == ts[|log| + 1 + j];
        }
      }
    }
  }

  /**
   * Following parents from the child of edge `k` reaches the root: `path`
   * lists the positions from the root down to that child and `steps` the
   * edges between consecutive ones.
   */
  lemma {:induction false} PathFromRoot(log: seq<Edge>, root: Coord, k: nat) returns (steps: seq<nat>, path: seq<Coord>)
    requires Parented(log, root)
    requires k < |log|
    ensures |path| == |steps| + 1 && path[0] == root && path[|path| - 1] == Target(log[k])
    ensures forall j | 0 <= j < |steps| :: Traverses(log, steps, path, j)
    decreases k
  {
    if log[k].from == root {
      steps, path := [k], [root, Target(log[k])];
      assert Traverses(log, steps, path, 0);
    } else {
      var m :| 0 <= m < k && Targets(log)[..k][m] == log[k].from;
      var s0, p0 := PathFromRoot(log, root, m);
      steps, path := s0 + [k], p0 + [Target(log[k])];
      forall j | 0 <= j < |steps| ensures Traverses(log, steps, path, j) {
        if j < |s0| {
          assert Traverses(log, s0, p0, j);
        }
      }
    }
  }

  /** Edge `steps[j]` of the log leads from `path[j]` to `path[j + 1]`. */
  ghost predicate Traverses(log: seq<Edge>, steps: seq<nat>, path: seq<Coord>, j: int)
    requires 0 <= j < |steps| && |path| == |steps| + 1
  {
    steps[j] < |log| && log[steps[j]].from == path[j] && Target(log[steps[j]]) == path[j + 1]
  }
}
