/** Prim's algorithm (`compute_mst`) over the same distance table, grown
    from vertex 0. */
module SpanningTree {
  import opened Common
  import opened Points
  import opened Distances

  /** A `min_dist` entry: `float("inf")` or a distance. */
  datatype Extended = Infinity | Finite(value: real)

  /** Python's `<` on these values: nothing is below infinity's
      counterpart on the left, every distance is below infinity. */
  predicate Less(x: Extended, y: Extended)
  {
    match (x, y)
    case (Finite(a), Finite(b)) => a < b
    case (Finite(_), Infinity) => true
    case (Infinity, _) => false
  }

  /** An MST edge `(parent[u], u)`. */
  type Edge = (nat, nat)

  /** The vertices in the tree when edge j was added: vertex 0 and the
      endpoints of the edges before it. */
  ghost function Grown(edges: seq<Edge>, j: nat): set<nat>
    requires j <= |edges|
  {
    {0} + set m | 0 <= m < j :: edges[m].1
  }

  /** Adding edge j adds its new vertex to the tree. */
  lemma GrownStep(edges: seq<Edge>, j: nat)
    requires j < |edges|
    ensures Grown(edges, j + 1) == Grown(edges, j) + {edges[j].1}
  {
    var lhs, rhs := Grown(edges, j + 1), Grown(edges, j) + {edges[j].1};
    forall x | x in lhs
      ensures x in rhs
    {
      if x != 0 {
        var m :| 0 <= m < j + 1 && edges[m].1 == x;
        if m < j {
          assert x in Grown(edges, j);
        }
      }
    }
  }

  /** Each edge joins a vertex already in the tree to one outside it, and
      no edge that leaves the tree at that moment is lighter: the edges
      are those Prim's algorithm adds, in the order it adds them. */
  ghost predicate IsPrimOrder(d: Table, edges: seq<Edge>)
    requires IsSquare(d)
  {
    forall j | 0 <= j < |edges| :: IsLightestLeaving(d, Grown(edges, j), edges[j])
  }

  /** `e` leaves `tree`, and no edge leaving `tree` is lighter. */
  ghost predicate IsLightestLeaving(d: Table, tree: set<nat>, e: Edge)
    requires IsSquare(d)
  {
    && e.0 in tree && e.0 < |d| && e.1 < |d| && e.1 !in tree
    && forall x, y | x in tree && 0 <= x < |d| && 0 <= y < |d| && y !in tree :: d[e.0][e.1] <= d[x][y]
  }

  /** A set of indices below n has at most n elements; it has n exactly
      when it holds every index below n. */
  lemma {:induction false} BoundedSetSize(s: set<nat>, n: nat)
    requires forall x | x in s :: x < n
    ensures |s| <= n
    ensures |s| == n <==> forall v: nat | v < n :: v in s
    decreases n
  {
    if n > 0 {
      var s' := s - {n - 1};
      BoundedSetSize(s', n - 1);
      if n - 1 in s {
        assert s == s' + {n - 1};
        assert (forall v: nat | v < n :: v in s) <==> (forall v: nat | v < n - 1 :: v in s');
      } else {
        assert s == s';
      }
    } else {
      assert s == {};
    }
  }

  /** A tree with fewer than n vertices below n leaves one out. */
  lemma OutsideVertex(tree: set<nat>, n: nat) returns (v: nat)
    requires |tree| < n && forall x | x in tree :: x < n
    ensures v < n && v !in tree
  {
    BoundedSetSize(tree, n);
    v :| v < n && v !in tree;
  }

  /** While the tree is not complete, some vertex outside it has a finite
      `min_dist`: vertex 0 before the first step, any vertex afterwards. */
  lemma ReachableOutside(d: Table, tree: set<nat>, inMst: seq<bool>, minDist: seq<Extended>, parent: seq<int>, t: nat)
    returns (v: nat)
    requires IsSquare(d) && |inMst| == |minDist| == |parent| == |d|
    requires |tree| < |d| && forall x | x in tree :: x < |d|
    requires forall x | 0 <= x < |d| :: inMst[x] <==> x in tree
    requires t == 0 ==> tree == {} && minDist[0] == Finite(0.0)
    requires t > 0 ==> Labelled(d, tree, inMst, minDist, parent)
    ensures v < |d| && !inMst[v] && minDist[v].Finite?
  {
    if t == 0 {
      v := 0;
    } else {
      v := OutsideVertex(tree, |d|);
    }
  }

  /** Lemma form of the spanning property: n - 1 edges each adding a new
      vertex other than 0 reach every vertex. */
  lemma PrimOrderSpans(d: Table, edges: seq<Edge>)
    requires IsSquare(d) && |d| >= 1 && IsPrimOrder(d, edges) && |edges| == |d| - 1
    ensures forall j, m | 0 <= j < m < |edges| :: edges[j].1 != edges[m].1
    ensures forall j | 0 <= j < |edges| :: edges[j].1 != 0
    ensures forall v: nat | v < |d| :: v in Grown(edges, |edges|)
  {
    forall j, m | 0 <= j < m < |edges|
      ensures edges[j].1 != edges[m].1
    {
      assert edges[j].1 in Grown(edges, m);
    }
    forall j | 0 <= j < |edges|
      ensures edges[j].1 != 0
    {
      assert 0 in Grown(edges, j);
    }
    assert DistinctTargets(edges);
    GrownSize(edges, |edges|);
    GrownBounded(edges, |edges|, |d|);
    BoundedSetSize(Grown(edges, |edges|), |d|);
  }

  /** The vertex each edge adds, in order. */
  ghost function Targets(edges: seq<Edge>): seq<nat>
  {
    seq(|edges|, m requires 0 <= m < |edges| => edges[m].1)
  }

  /** The edges add distinct vertices, none of them vertex 0. */
  ghost predicate DistinctTargets(edges: seq<Edge>)
  {
    && (forall j, m | 0 <= j < m < |Targets(edges)| :: Targets(edges)[j] != Targets(edges)[m])
    && (forall j | 0 <= j < |Targets(edges)| :: Targets(edges)[j] != 0)
  }

  /** Each edge adds one vertex, so after j edges the tree has j + 1. */
  lemma {:induction false} GrownSize(edges: seq<Edge>, j: nat)
    requires j <= |edges| && DistinctTargets(edges)
    ensures |Grown(edges, j)| == j + 1
    decreases j
  {
    if j == 0 {
      GrownZero(edges);
    } else {
      GrownSize(edges, j - 1);
      NewTarget(edges, j);
      GrownSizeStep(edges, j);
    }
  }

  lemma GrownZero(edges: seq<Edge>)
    ensures |Grown(edges, 0)| == 1
  {
    assert Grown(edges, 0) == {0};
  }

  /** With distinct targets, the j-th edge adds a vertex new to the tree. */
  lemma NewTarget(edges: seq<Edge>, j: nat)
    requires 0 < j <= |edges| && DistinctTargets(edges)
    ensures edges[j - 1].1 !in Grown(edges, j - 1)
  {
    var t := Targets(edges);
    assert t[j - 1] == edges[j - 1].1 && t[j - 1] != 0;
    forall m | 0 <= m < j - 1
      ensures edges[m].1 != edges[j - 1].1
    {
      assert t[m] == edges[m].1;
    }
  }

  lemma GrownSizeStep(edges: seq<Edge>, j: nat)
    requires 0 < j <= |edges| && edges[j - 1].1 !in Grown(edges, j - 1)
    ensures |Grown(edges, j)| == |Grown(edges, j - 1)| + 1
  {
    GrownStep(edges, j - 1);
  }

  /** The tree holds only vertices the edges name, all below n. */
  lemma GrownBounded(edges: seq<Edge>, j: nat, n: nat)
    requires j <= |edges| && n >= 1
    requires forall m | 0 <= m < |edges| :: edges[m].1 < n
    ensures forall x | x in Grown(edges, j) :: x < n
  {
  }

  /** The bookkeeping of the vertices outside the tree once the tree is
      not empty: each has a parent in the tree, its `min_dist` is the
      distance from that parent, and no tree vertex is closer. */
  ghost predicate Labelled(d: Table, tree: set<nat>, inMst: seq<bool>, minDist: seq<Extended>, parent: seq<int>)
    requires IsSquare(d) && |inMst| == |minDist| == |parent| == |d|
  {
    forall v | 0 <= v < |d| && !inMst[v] ::
      && 0 <= parent[v] < |d| && parent[v] as nat in tree
      && minDist[v] == Finite(d[parent[v]][v])
      && forall x | x in tree && x < |d| :: d[parent[v]][v] <= d[x][v]
  }

  /** The inner `for i` loop: the first vertex outside the tree with the
      smallest `min_dist`, or -1 when every such entry is infinite. */
  method ClosestOutside(inMst: array<bool>, minDist: array<Extended>) returns (u: int)
    requires inMst.Length == minDist.Length
    ensures u == -1 ==> forall i | 0 <= i < inMst.Length && !inMst[i] :: minDist[i] == Infinity
    ensures u != -1 ==> && 0 <= u < inMst.Length && !inMst[u] && minDist[u].Finite?
                        && (forall i | 0 <= i < inMst.Length && !inMst[i] :: !Less(minDist[i], minDist[u]))
                        && (forall i | 0 <= i < u && !inMst[i] :: Less(minDist[u], minDist[i]))
  {
    u := -1;
    var bestD := Infinity;
    for i := 0 to inMst.Length
      invariant u == -1 ==> bestD == Infinity && forall i' | 0 <= i' < i && !inMst[i'] :: minDist[i'] == Infinity
      invariant u != -1 ==> && 0 <= u < i && !inMst[u] && bestD == minDist[u] && bestD.Finite?
                            && (forall i' | 0 <= i' < i && !inMst[i'] :: !Less(minDist[i'], bestD))
                            && (forall i' | 0 <= i' < u && !inMst[i'] :: Less(bestD, minDist[i']))
    {
      if !inMst[i] && Less(minDist[i], bestD) {
        bestD := minDist[i];
        u := i;
      }
    }
  }

  /** What the inner `for v` loop does to `min_dist` and `parent`. */
  ghost predicate Relaxed(d: Table, u: nat, inMst: seq<bool>, m0: seq<Extended>, p0: seq<int>, m1: seq<Extended>, p1: seq<int>)
    requires IsSquare(d) && u < |d| && |inMst| == |m0| == |p0| == |m1| == |p1| == |d|
  {
    forall v | 0 <= v < |d| ::
      if !inMst[v] && Less(Finite(d[u][v]), m0[v])
      then m1[v] == Finite(d[u][v]) && p1[v] == u
      else m1[v] == m0[v] && p1[v] == p0[v]
  }

  /** The inner `for v` loop: every vertex outside the tree that `u` is
      strictly closer to than its current `min_dist` takes `u` as its
      parent. */
  method Relax(d: Table, u: nat, inMst: array<bool>, minDist: array<Extended>, parent: array<int>)
    requires IsSquare(d) && u < |d| && inMst.Length == minDist.Length == parent.Length == |d|
    modifies minDist, parent
    ensures Relaxed(d, u, inMst[..], old(minDist[..]), old(parent[..]), minDist[..], parent[..])
  {
    for v := 0 to |d|
      invariant forall w | 0 <= w < v ::
                  if !inMst[w] && Less(Finite(d[u][w]), old(minDist[w]))
                  then minDist[w] == Finite(d[u][w]) && parent[w] == u
                  else minDist[w] == old(minDist[w]) && parent[w] == old(parent[w])
      invariant forall w | v <= w < |d| :: minDist[w] == old(minDist[w]) && parent[w] == old(parent[w])
    {
      if !inMst[v] && Less(Finite(d[u][v]), minDist[v]) {
        minDist[v] := Finite(d[u][v]);
        parent[v] := u;
      }
    }
  }

  /** The tree after edge j, seen from a longer edge list. */
  lemma GrownAppend(edges: seq<Edge>, e: Edge, j: nat)
    requires j <= |edges|
    ensures Grown(edges + [e], j) == Grown(edges, j)
  {
    assert forall m | 0 <= m < j :: (edges + [e])[m] == edges[m];
  }

  /** The edge `(parent[u], u)` extends the Prim order when `u` is a
      closest vertex outside the tree. */
  lemma AddEdge(d: Table, edges: seq<Edge>, tree: set<nat>, inMst: seq<bool>, minDist: seq<Extended>, parent: seq<int>, u: nat)
    requires IsSquare(d) && |inMst| == |minDist| == |parent| == |d| && u < |d|
    requires IsPrimOrder(d, edges) && tree == Grown(edges, |edges|)
    requires forall v | 0 <= v < |d| :: inMst[v] <==> v in tree
    requires forall x | x in tree :: x < |d|
    requires !inMst[u] && Labelled(d, tree, inMst, minDist, parent)
    requires forall y | 0 <= y < |d| && !inMst[y] :: !Less(minDist[y], minDist[u])
    ensures 0 <= parent[u] < |d|
    ensures IsPrimOrder(d, edges + [(parent[u] as nat, u)])
    ensures Grown(edges + [(parent[u] as nat, u)], |edges| + 1) == tree + {u}
  {
    var e: Edge := (parent[u] as nat, u);
    var es := edges + [e];
    forall j | 0 <= j <= |edges|
      ensures Grown(es, j) == Grown(edges, j)
    {
      GrownAppend(edges, e, j);
    }
    GrownStep(es, |edges|);
    forall j | 0 <= j < |es|
      ensures IsLightestLeaving(d, Grown(es, j), es[j])
    {
      if j < |edges| {
        assert es[j] == edges[j];
      } else {
        assert es[j] == e && Grown(es, j) == tree;
        LightestCut(d, tree, inMst, minDist, parent, u);
      }
    }
  }

  /** The cut property behind each step: the edge from the parent of a
      closest vertex outside the tree is a lightest edge leaving it. */
  lemma LightestCut(d: Table, tree: set<nat>, inMst: seq<bool>, minDist: seq<Extended>, parent: seq<int>, u: nat)
    requires IsSquare(d) && |inMst| == |minDist| == |parent| == |d| && u < |d|
    requires forall v | 0 <= v < |d| :: inMst[v] <==> v in tree
    requires !inMst[u] && Labelled(d, tree, inMst, minDist, parent)
    requires forall y | 0 <= y < |d| && !inMst[y] :: !Less(minDist[y], minDist[u])
    ensures 0 <= parent[u] < |d| && parent[u] as nat in tree && u !in tree
    ensures forall x, y | x in tree && 0 <= x < |d| && 0 <= y < |d| && y !in tree :: d[parent[u]][u] <= d[x][y]
  {
    forall x, y | x in tree && 0 <= x < |d| && 0 <= y < |d| && y !in tree
      ensures d[parent[u]][u] <= d[x][y]
    {
      assert !Less(minDist[y], minDist[u]);
      assert d[parent[y]][y] <= d[x][y];
    }
  }

  /** After the first vertex, 0, joins: every other vertex hangs off it. */
  lemma RelaxFirst(d: Table, inMst: seq<bool>, m0: seq<Extended>, p0: seq<int>, m1: seq<Extended>, p1: seq<int>)
    requires IsSquare(d) && |d| >= 1 && |inMst| == |m0| == |p0| == |m1| == |p1| == |d|
    requires inMst[0] && forall v | 1 <= v < |d| :: !inMst[v] && m0[v] == Infinity
    requires Relaxed(d, 0, inMst, m0, p0, m1, p1)
    ensures Labelled(d, {0}, inMst, m1, p1)
  {
  }

  /** After a later vertex u joins, the labels describe the larger tree. */
  lemma RelaxNext(d: Table, tree: set<nat>, u: nat, before: seq<bool>, inMst: seq<bool>,
                  m0: seq<Extended>, p0: seq<int>, m1: seq<Extended>, p1: seq<int>)
    requires IsSquare(d) && u < |d| && |before| == |inMst| == |m0| == |p0| == |m1| == |p1| == |d|
    requires Labelled(d, tree, before, m0, p0) && inMst == before[u := true]
    requires Relaxed(d, u, inMst, m0, p0, m1, p1)
    ensures Labelled(d, tree + {u}, inMst, m1, p1)
  {
    forall v | 0 <= v < |d| && !inMst[v]
      ensures && 0 <= p1[v] < |d| && p1[v] as nat in tree + {u}
              && m1[v] == Finite(d[p1[v]][v])
              && forall x | x in tree + {u} && x < |d| :: d[p1[v]][v] <= d[x][v]
    {
      assert !before[v];
    }
  }

  /** The state of Prim's loop after t vertices have joined the tree. */
  ghost predicate PrimState(d: Table, t: nat, tree: set<nat>, edges: seq<Edge>,
                            inMst: seq<bool>, minDist: seq<Extended>, parent: seq<int>)
    requires IsSquare(d) && |inMst| == |minDist| == |parent| == |d|
  {
    && (forall v | 0 <= v < |d| :: inMst[v] <==> v in tree)
    && (forall x | x in tree :: x < |d|)
    && |tree| == t
    && (t == 0 ==> && tree == {} && edges == [] && |d| >= 1 && minDist[0] == Finite(0.0)
                   && (forall v | 1 <= v < |d| :: minDist[v] == Infinity)
                   && (forall v | 0 <= v < |d| :: parent[v] == -1))
    && (t > 0 ==> |edges| == t - 1 && tree == Grown(edges, |edges|))
    && (t > 0 ==> Labelled(d, tree, inMst, minDist, parent))
    && IsPrimOrder(d, edges)
  }

  /** The vertex that joins was outside the tree: the tree grows by one
      and `in_mst` still marks exactly its vertices. */
  lemma TreeGrows(d: Table, t: nat, tree0: set<nat>, before: seq<bool>, u: nat, inMst: seq<bool>)
    requires |before| == |inMst| == |d| && u < |d|
    requires (forall v | 0 <= v < |d| :: before[v] <==> v in tree0) && (forall x | x in tree0 :: x < |d|)
    requires |tree0| == t && !before[u] && inMst == before[u := true]
    ensures forall v | 0 <= v < |d| :: inMst[v] <==> v in tree0 + {u}
    ensures forall x | x in tree0 + {u} :: x < |d|
    ensures |tree0 + {u}| == t + 1
  {
    assert u !in tree0;
  }

  /** The first round: vertex 0 joins without an edge and every other
      vertex is labelled with its distance from 0. */
  lemma JoinFirst(d: Table, tree0: set<nat>, edges0: seq<Edge>, before: seq<bool>, m0: seq<Extended>, p0: seq<int>,
                  u: nat, inMst: seq<bool>, m1: seq<Extended>, p1: seq<int>)
    requires IsSquare(d) && u < |d| && |before| == |m0| == |p0| == |inMst| == |m1| == |p1| == |d|
    requires PrimState(d, 0, tree0, edges0, before, m0, p0)
    requires !before[u] && m0[u].Finite? && inMst == before[u := true]
    requires Relaxed(d, u, inMst, m0, p0, m1, p1)
    ensures u == 0 && p0[u] == -1
    ensures PrimState(d, 1, tree0 + {u}, edges0, inMst, m1, p1)
  {
    RelaxFirst(d, inMst, m0, p0, m1, p1);
    assert Grown(edges0, 0) == {0};
  }

  /** A later round: the closest vertex outside the tree joins through the
      edge from its parent, and the labels follow the larger tree. */
  lemma JoinNext(d: Table, t: nat, tree0: set<nat>, edges0: seq<Edge>, before: seq<bool>, m0: seq<Extended>, p0: seq<int>,
                 u: nat, inMst: seq<bool>, m1: seq<Extended>, p1: seq<int>)
    requires IsSquare(d) && u < |d| && |before| == |m0| == |p0| == |inMst| == |m1| == |p1| == |d|
    requires t > 0 && PrimState(d, t, tree0, edges0, before, m0, p0)
    requires !before[u] && inMst == before[u := true]
    requires forall y | 0 <= y < |d| && !before[y] :: !Less(m0[y], m0[u])
    requires Relaxed(d, u, inMst, m0, p0, m1, p1)
    ensures 0 <= p0[u] < |d|
    ensures PrimState(d, t + 1, tree0 + {u}, edges0 + [(p0[u] as nat, u)], inMst, m1, p1)
  {
    TreeGrows(d, t, tree0, before, u, inMst);
    AddEdge(d, edges0, tree0, before, m0, p0, u);
    RelaxNext(d, tree0, u, before, inMst, m0, p0, m1, p1);
  }

  /** The edge list after a round: unchanged when the vertex that joined
      has no parent, one edge `(parent[u], u)` longer otherwise. */
  function Joined(edges: seq<Edge>, p: int, u: nat): (es: seq<Edge>)
    requires p >= -1
    ensures p == -1 ==> es == edges
    ensures p != -1 ==> es == edges + [(p as nat, u)]
  {
    if p == -1 then edges else edges + [(p as nat, u)]
  }

  /** The closest vertex outside the tree has no parent exactly in the
      first round. */
  lemma ParentOfClosest(d: Table, t: nat, tree: set<nat>, edges: seq<Edge>,
                        inMst: seq<bool>, minDist: seq<Extended>, parent: seq<int>, u: nat)
    requires IsSquare(d) && |inMst| == |minDist| == |parent| == |d| && u < |d|
    requires PrimState(d, t, tree, edges, inMst, minDist, parent) && !inMst[u]
    ensures parent[u] == -1 <==> t == 0
    ensures -1 <= parent[u] < |d|
  {
  }

  /** Either kind of round keeps Prim's state. */
  lemma Join(d: Table, t: nat, tree0: set<nat>, edges0: seq<Edge>, before: seq<bool>, m0: seq<Extended>, p0: seq<int>,
             u: nat, inMst: seq<bool>, m1: seq<Extended>, p1: seq<int>)
    requires IsSquare(d) && u < |d| && |before| == |m0| == |p0| == |inMst| == |m1| == |p1| == |d|
    requires PrimState(d, t, tree0, edges0, before, m0, p0)
    requires !before[u] && m0[u].Finite? && inMst == before[u := true]
    requires forall y | 0 <= y < |d| && !before[y] :: !Less(m0[y], m0[u])
    requires Relaxed(d, u, inMst, m0, p0, m1, p1)
    requires p0[u] >= -1
    ensures PrimState(d, t + 1, tree0 + {u}, Joined(edges0, p0[u], u), inMst, m1, p1)
  {
    ParentOfClosest(d, t, tree0, edges0, before, m0, p0, u);
    if t == 0 {
      JoinFirst(d, tree0, edges0, before, m0, p0, u, inMst, m1, p1);
    } else {
      JoinNext(d, t, tree0, edges0, before, m0, p0, u, inMst, m1, p1);
    }
  }

  /** One round of Prim's loop: the closest vertex outside the tree joins
      it, through the edge from its parent unless it is the first vertex,
      and the vertices still outside are relabelled. */
  method Grow(d: Table, inMst: array<bool>, minDist: array<Extended>, parent: array<int>,
              edges0: seq<Edge>, ghost tree0: set<nat>, t: nat)
    returns (edges: seq<Edge>, ghost tree: set<nat>)
    requires IsSquare(d) && t < |d| && inMst.Length == minDist.Length == parent.Length == |d|
    requires PrimState(d, t, tree0, edges0, inMst[..], minDist[..], parent[..])
    modifies inMst, minDist, parent
    ensures PrimState(d, t + 1, tree, edges, inMst[..], minDist[..], parent[..])
  {
    var u := ClosestOutside(inMst, minDist);
    if u == -1 {
      ghost var v := ReachableOutside(d, tree0, inMst[..], minDist[..], parent[..], t);
      assert false;
    }
    ParentOfClosest(d, t, tree0, edges0, inMst[..], minDist[..], parent[..], u);
    ghost var before, m0, p0 := inMst[..], minDist[..], parent[..];
    edges := if parent[u] == -1 then edges0 else edges0 + [(parent[u] as nat, u)];
    inMst[u] := true;
    Relax(d, u, inMst, minDist, parent);
    Join(d, t, tree0, edges0, before, m0, p0, u, inMst[..], minDist[..], parent[..]);
    tree := tree0 + {u as nat};
  }

  /** Prim's loop of `compute_mst` on a table: `n - 1` edges (none for an
      empty table), in the order Prim's algorithm adds them, reaching
      every vertex. */
  method PrimMst(d: Table) returns (edges: seq<Edge>)
    requires IsSquare(d)
    ensures |d| == 0 ==> edges == []
    ensures |d| >= 1 ==> |edges| == |d| - 1
    ensures IsPrimOrder(d, edges)
    ensures |d| >= 1 ==> forall v: nat | v < |d| :: v in Grown(edges, |edges|)
  {
    var n := |d|;
    var inMst := new bool[n](_ => false);
    var minDist := new Extended[n](_ => Infinity);
    var parent := new int[n](_ => -1);
    edges := [];
    if n == 0 {
      return;
    }
    minDist[0] := Finite(0.0);
    ghost var tree: set<nat> := {};
    for t := 0 to n
      invariant PrimState(d, t, tree, edges, inMst[..], minDist[..], parent[..])
    {
      edges, tree := Grow(d, inMst, minDist, parent, edges, tree, t);
    }
    PrimDone(d, tree, edges, inMst[..], minDist[..], parent[..]);
  }

  /** Once every vertex has joined: n - 1 edges in Prim order, reaching
      every vertex. */
  lemma PrimDone(d: Table, tree: set<nat>, edges: seq<Edge>, inMst: seq<bool>, minDist: seq<Extended>, parent: seq<int>)
    requires IsSquare(d) && |d| >= 1 && |inMst| == |minDist| == |parent| == |d|
    requires PrimState(d, |d|, tree, edges, inMst, minDist, parent)
    ensures |edges| == |d| - 1 && IsPrimOrder(d, edges)
    ensures forall v: nat | v < |d| :: v in Grown(edges, |edges|)
  {
    PrimOrderSpans(d, edges);
  }
}
