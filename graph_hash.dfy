/** An undirected graph over at most 65534 nodes whose edges live in a hash
    table, with a degree table and a degree histogram updated in place
    (fstcomp/examples/C/GraphLib/Hash/graph_hash.c). */
module GraphHash {
  import opened GraphSpec

  /** G_MAXUSHORT: node numbers and counters are 16-bit unsigned (node_t). */
  const MaxUShort: int := 0xFFFF

  predicate IsNode(x: int)
  {
    0 <= x <= MaxUShort
  }

  function Min(a: int, b: int): int
  {
    if a < b then a else b
  }

  function Max(a: int, b: int): int
  {
    if a < b then b else a
  }

  /** The hash of an edge key: the smaller endpoint in the high 16 bits, the
      larger in the low 16 bits (the bitwise or of disjoint bit ranges is a sum).
      The hash determines the unordered pair of endpoints. */
  function EdgeHash(e: Edge): (h: int)
    requires IsNode(e.0) && IsNode(e.1) && e.0 != e.1
    ensures 0 <= h < 0x1_0000_0000
    ensures h / 0x10000 == Min(e.0, e.1) && h % 0x10000 == Max(e.0, e.1)
  {
    var i := Min(e.0, e.1);
    var j := Max(e.0, e.1);
    i * 0x10000 + j
  }

  /** Key equality of the hash table: the ordered pairs agree. */
  function EdgeEqual(a: Edge, b: Edge): bool
  {
    a.0 == b.0 && a.1 == b.1
  }

  /** The hash ignores the order of the endpoints, and two keys hash alike
      exactly when they are the same pair in either order. */
  lemma EdgeHashUnordered(a: Edge, b: Edge)
    requires IsNode(a.0) && IsNode(a.1) && a.0 != a.1
    requires IsNode(b.0) && IsNode(b.1) && b.0 != b.1
    ensures EdgeHash(a) == EdgeHash(b) <==> (a == b || a == (b.1, b.0))
  {
    if a == (b.1, b.0) {
      assert Min(a.0, a.1) == Min(b.0, b.1) && Max(a.0, a.1) == Max(b.0, b.1);
    } else if EdgeHash(a) == EdgeHash(b) {
      assert Min(a.0, a.1) == Min(b.0, b.1) && Max(a.0, a.1) == Max(b.0, b.1);
    }
  }

  /** Equal keys hash alike (what the hash table needs), yet a pair and its
      reverse hash alike without being equal keys: the table keeps them apart. */
  lemma EdgeEqualIsOrdered(i: int, j: int)
    requires IsNode(i) && IsNode(j) && i != j
    ensures EdgeEqual((i, j), (i, j)) && EdgeHash((i, j)) == EdgeHash((i, j))
    ensures !EdgeEqual((i, j), (j, i)) && EdgeHash((i, j)) == EdgeHash((j, i))
  {
    EdgeHashUnordered((i, j), (j, i));
  }

  /** The key `graph_flip_edge` works on: the endpoints sorted. */
  function Ordered(i: int, j: int): Edge
  {
    if i > j then (j, i) else (i, j)
  }

  class Graph {
    var nnodes: int
    /** The keys of the hash table. */
    var edges: set<Edge>
    /** degree[v]: the degree of node v. */
    var degree: array<int>
    /** degreeDist[k]: the number of nodes of degree k. */
    var degreeDist: array<int>

    /** The degree histogram matches the degree table, and every degree is a
        valid histogram index. */
    ghost predicate Hist()
      reads this, degree, degreeDist
    {
      HistogramOf(degreeDist[..], degree[..], nnodes)
    }

    /** The degree table matches the edge set. */
    ghost predicate Consistent()
      reads this, degree
    {
      DegreesOf(degree[..], edges, nnodes)
    }

    ghost predicate Valid()
      reads this, degree, degreeDist
    {
      && 0 < nnodes < MaxUShort
      && degree != degreeDist
      && Hist()
      && Consistent()
    }

    /** graph_new: no edges, every degree 0, all nodes counted at degree 0. */
    constructor (n: int)
      requires 0 < n < MaxUShort
      ensures Valid() && fresh(degree) && fresh(degreeDist)
      ensures nnodes == n && edges == {}
      ensures forall v :: 0 <= v < n ==> degree[v] == 0
      ensures degreeDist[0] == n && forall k :: 0 < k < n ==> degreeDist[k] == 0
    {
      nnodes := n;
      edges := {};
      degree := new int[n](_ => 0);
      degreeDist := new int[n](_ => 0);
      new;
      degreeDist[0] := n;
      assert degree[..] == seq(n, _ => 0);
      forall k | 0 <= k < n
        ensures degreeDist[k] == Count(degree[..], k)
      {
        CountConstant(n, 0, k);
      }
      forall v | 0 <= v < n
        ensures Deg(edges, v) == 0
      {
        assert Touching({}, v) == {};
      }
    }

    /** graph_get_edge: whether the ordered key (i, j) is stored. */
    method GetEdge(i: int, j: int) returns (found: bool)
      requires i != j
      ensures found <==> (i, j) in edges
    {
      found := (i, j) in edges;
    }

    /** graph_set_edge: nothing changes when the key is present; otherwise the
        key is inserted, both endpoints gain one degree and each moves one
        histogram count up. The caller must keep the new degrees below
        `nnodes`, the length of the histogram. */
    method SetEdge(i: int, j: int)
      requires Valid()
      requires 0 <= i < nnodes && 0 <= j < nnodes && i != j
      requires (i, j) in edges || (degree[i] + 1 < nnodes && degree[j] + 1 < nnodes)
      modifies this`edges, degree, degreeDist
      ensures Valid()
      ensures edges == old(edges) + {(i, j)}
      ensures (i, j) in old(edges) ==> degree[..] == old(degree[..]) && degreeDist[..] == old(degreeDist[..])
      ensures (i, j) !in old(edges) ==>
                degree[..] == old(degree[..])[i := old(degree[i]) + 1][j := old(degree[j]) + 1]
    {
      var present := GetEdge(i, j);
      if present {
        return;
      }
      ghost var deg0, dist0 := degree[..], degreeDist[..];
      DegreesAfterInsert(deg0, edges, nnodes, i, j);
      HistogramSetDel(dist0, deg0, nnodes, i, j, 1);
      edges := edges + {(i, j)};
      var di, dj := StepDegrees(i, j, 1);
      MoveCounts(di, dj, 1);
    }

    /** graph_del_edge: removes the key (i, j) and reports whether it was
        stored. Both degrees drop by one and the histogram follows them even
        when the key was absent, in which case the degree table no longer
        matches the edge set. The caller must not drop a degree below 0. */
    method DelEdge(i: int, j: int) returns (found: bool)
      requires Valid()
      requires 0 <= i < nnodes && 0 <= j < nnodes && i != j
      requires degree[i] > 0 && degree[j] > 0
      modifies this`edges, degree, degreeDist
      ensures Hist()
      ensures found <==> (i, j) in old(edges)
      ensures edges == old(edges) - {(i, j)}
      ensures degree[..] == old(degree[..])[i := old(degree[i]) - 1][j := old(degree[j]) - 1]
      ensures found ==> Valid()
      ensures !found ==> degree[i] == Deg(edges, i) - 1 && degree[j] == Deg(edges, j) - 1
    {
      ghost var deg0, dist0 := degree[..], degreeDist[..];
      DegreesAfterDelete(deg0, edges, nnodes, i, j);
      HistogramSetDel(dist0, deg0, nnodes, i, j, -1);
      var di, dj := StepDegrees(i, j, -1);
      MoveCounts(di, dj, -1);
      found := (i, j) in edges;
      edges := edges - {(i, j)};
    }

    /** graph_flip_edge: sorts the endpoints, then removes the key if it is
        stored and inserts it otherwise; both degrees move by one in the
        matching direction and the histogram follows them. */
    method FlipEdge(i: int, j: int)
      requires Valid()
      requires 0 <= i < nnodes && 0 <= j < nnodes && i != j
      requires Ordered(i, j) in edges || (degree[i] + 1 < nnodes && degree[j] + 1 < nnodes)
      modifies this`edges, degree, degreeDist
      ensures Valid()
      ensures edges == Toggle(old(edges), Ordered(i, j))
      ensures Ordered(i, j) in old(edges) ==>
                degree[..] == old(degree[..])[i := old(degree[i]) - 1][j := old(degree[j]) - 1]
      ensures Ordered(i, j) !in old(edges) ==>
                degree[..] == old(degree[..])[i := old(degree[i]) + 1][j := old(degree[j]) + 1]
    {
      var a, b := i, j;
      if a > b {
        a, b := b, a;
      }
      ghost var deg0 := degree[..];
      FlipSorted(a, b);
      if a != i {
        ghost var delta := if (a, b) in old(edges) then -1 else 1;
        UpdateCommutes(deg0, a, b, deg0[a] + delta, deg0[b] + delta);
      }
    }

    /** `di = ++degree[i], dj = ++degree[j]` (delta = 1) or the same with
        `--` (delta = -1). */
    method StepDegrees(i: int, j: int, delta: int) returns (di: int, dj: int)
      requires 0 <= i < degree.Length && 0 <= j < degree.Length && i != j
      modifies degree
      ensures di == old(degree[i]) + delta && dj == old(degree[j]) + delta
      ensures degree[..] == old(degree[..])[i := di][j := dj]
    {
      degree[i] := degree[i] + delta;
      di := degree[i];
      degree[j] := degree[j] + delta;
      dj := degree[j];
    }

    /** The histogram updates of graph_set_edge (delta = 1) and
        graph_del_edge (delta = -1): one more node at each new degree, one
        fewer at each old degree. */
    method MoveCounts(di: int, dj: int, delta: int)
      requires degree != degreeDist
      requires 0 <= di < degreeDist.Length && 0 <= dj < degreeDist.Length
      requires 0 <= di - delta < degreeDist.Length && 0 <= dj - delta < degreeDist.Length
      modifies degreeDist
      ensures degreeDist[..] == Bump(Bump(Bump(Bump(old(degreeDist[..]), di, 1), dj, 1), di - delta, -1), dj - delta, -1)
      ensures degree[..] == old(degree[..])
    {
      BumpDist(di, 1);
      BumpDist(dj, 1);
      BumpDist(di - delta, -1);
      BumpDist(dj - delta, -1);
    }

    /** The body of graph_flip_edge once the endpoints are sorted. */
    method FlipSorted(a: int, b: int)
      requires Valid()
      requires 0 <= a < b < nnodes
      requires (a, b) in edges || (degree[a] + 1 < nnodes && degree[b] + 1 < nnodes)
      modifies this`edges, degree, degreeDist
      ensures Valid()
      ensures edges == Toggle(old(edges), (a, b))
      ensures (a, b) in old(edges) ==>
                degree[..] == old(degree[..])[a := old(degree[a]) - 1][b := old(degree[b]) - 1]
      ensures (a, b) !in old(edges) ==>
                degree[..] == old(degree[..])[a := old(degree[a]) + 1][b := old(degree[b]) + 1]
    {
      ghost var deg0, dist0 := degree[..], degreeDist[..];
      ghost var delta := if (a, b) in edges then -1 else 1;
      FlipBookkeeping(dist0, deg0, edges, nnodes, a, b, delta);
      var di, dj := degree[a], degree[b];
      BumpDist(di, -1);
      BumpDist(dj, -1);
      if (a, b) in edges {
        edges := edges - {(a, b)};
        StoreDegree(a, di - 1);
        StoreDegree(b, dj - 1);
      } else {
        edges := edges + {(a, b)};
        StoreDegree(a, di + 1);
        StoreDegree(b, dj + 1);
      }
      assert degree[..] == deg0[a := deg0[a] + delta][b := deg0[b] + delta];
      assert degreeDist[..] == Bump(Bump(Bump(Bump(dist0, deg0[a], -1), deg0[b], -1), deg0[a] + delta, 1), deg0[b] + delta, 1);
    }

    /** `degree_dist[degree[v] = x]++`: stores a node's new degree and counts
        it in the histogram. */
    method StoreDegree(v: int, x: int)
      requires degree != degreeDist
      requires 0 <= v < degree.Length && 0 <= x < degreeDist.Length
      modifies degree, degreeDist
      ensures degree[..] == old(degree[..])[v := x]
      ensures degreeDist[..] == Bump(old(degreeDist[..]), x, 1)
    {
      degree[v] := x;
      degreeDist[x] := degreeDist[x] + 1;
    }

    /** One `++` (d = 1) or `--` (d = -1) on a histogram slot. */
    method BumpDist(k: int, d: int)
      requires degree != degreeDist
      requires 0 <= k < degreeDist.Length
      modifies degreeDist
      ensures degreeDist[..] == Bump(old(degreeDist[..]), k, d)
      ensures degree[..] == old(degree[..])
    {
      degreeDist[k] := degreeDist[k] + d;
    }

    /** graph_get_degree: the stored degree of node i, which is the number of
        stored keys touching it while the degree table is consistent. */
    method GetDegree(i: int) returns (d: int)
      requires Hist()
      requires 0 <= i < nnodes
      ensures d == degree[i] && 0 <= d < nnodes
      ensures Consistent() ==> d == Deg(edges, i)
    {
      d := degree[i];
    }

    /** graph_get_nedges: the number of stored keys, returned as a node_t and
        therefore reduced modulo 2^16. */
    method GetNEdges() returns (n: int)
      ensures n == |edges| % 0x10000
      ensures |edges| <= MaxUShort ==> n == |edges|
    {
      n := |edges| % 0x10000;
    }
  }

  /** Deleting an absent key leaves a degree that `graph_get_degree` reports
      one below the number of stored keys touching the node. */
  method AbsentDeleteDrifts(g: Graph, i: int, j: int) returns (d: int)
    requires g.Valid()
    requires 0 <= i < g.nnodes && 0 <= j < g.nnodes && i != j
    requires g.degree[i] > 0 && g.degree[j] > 0 && (i, j) !in g.edges
    modifies g`edges, g.degree, g.degreeDist
    ensures d == Deg(g.edges, i) - 1
  {
    var found := g.DelEdge(i, j);
    d := g.GetDegree(i);
  }

  /** On a valid graph the histogram accounts for every node once, and the
      degrees add up to twice the number of stored keys. */
  lemma ValidTotals(g: Graph)
    requires g.Valid()
    ensures Sum(g.degreeDist[..]) == g.nnodes
    ensures Sum(g.degree[..]) == 2 * |g.edges|
  {
    HistogramTotal(g.degreeDist[..], g.degree[..]);
    SumOfDegreeTable(g.degree[..], g.edges);
    Handshake(g.edges, g.nnodes);
  }

  /** Flipping the same pair twice restores the edge set, the degrees and the
      histogram. */
  method FlipTwice(g: Graph, i: int, j: int)
    requires g.Valid()
    requires 0 <= i < g.nnodes && 0 <= j < g.nnodes && i != j
    requires Ordered(i, j) in g.edges || (g.degree[i] + 1 < g.nnodes && g.degree[j] + 1 < g.nnodes)
    modifies g`edges, g.degree, g.degreeDist
    ensures g.Valid()
    ensures g.edges == old(g.edges)
    ensures g.degree[..] == old(g.degree[..]) && g.degreeDist[..] == old(g.degreeDist[..])
  {
    ghost var deg0, dist0 := g.degree[..], g.degreeDist[..];
    g.FlipEdge(i, j);
    g.FlipEdge(i, j);
    assert g.degree[..] == deg0;
    forall k | 0 <= k < g.nnodes
      ensures g.degreeDist[..][k] == dist0[k]
    {
      assert g.degreeDist[..][k] == Count(deg0, k) && dist0[k] == Count(deg0, k);
    }
    assert g.degreeDist[..] == dist0;
  }
}
