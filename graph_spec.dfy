/** Counting facts behind the degree bookkeeping of the hash-backed graph:
    degrees as a function of the edge set, histograms of a degree table,
    and the sums that tie them together. */
module GraphSpec {

  /** An edge key as the hash table stores it: an ordered pair of node numbers. */
  type Edge = (int, int)

  /** The stored keys that have `v` as one of their endpoints. */
  function Touching(edges: set<Edge>, v: int): set<Edge>
  {
    set e | e in edges && (e.0 == v || e.1 == v)
  }

  /** The degree of `v` as determined by the edge set. */
  function Deg(edges: set<Edge>, v: int): nat
  {
    |Touching(edges, v)|
  }

  /** Every key joins two different nodes numbered below `n`. */
  ghost predicate WellFormed(edges: set<Edge>, n: int)
  {
    forall e :: e in edges ==> 0 <= e.0 < n && 0 <= e.1 < n && e.0 != e.1
  }

  /** 1 when `e` has `v` as an endpoint, else 0. */
  function Hit(e: Edge, v: int): nat
  {
    if e.0 == v || e.1 == v then 1 else 0
  }

  /** The number of positions of `s` that hold `k`. */
  function Count(s: seq<int>, k: int): nat
  {
    if s == [] then 0 else Count(s[..|s| - 1], k) + (if s[|s| - 1] == k then 1 else 0)
  }

  /** The sum of the elements of `s`. */
  function Sum(s: seq<int>): int
  {
    if s == [] then 0 else Sum(s[..|s| - 1]) + s[|s| - 1]
  }

  /** `dist` is the degree histogram of `deg`: entry k counts the nodes of degree k. */
  ghost predicate Histogram(dist: seq<int>, deg: seq<int>)
  {
    forall k {:trigger Count(deg, k)} :: 0 <= k < |dist| ==> dist[k] == Count(deg, k)
  }

  /** Sum of `Count(s, k)` for k in [0, m). */
  function SumCounts(s: seq<int>, m: nat): nat
  {
    if m == 0 then 0 else SumCounts(s, m - 1) + Count(s, m - 1)
  }

  /** Sum of `Deg(edges, v)` for v in [0, m). */
  function SumDeg(edges: set<Edge>, m: nat): nat
  {
    if m == 0 then 0 else SumDeg(edges, m - 1) + Deg(edges, m - 1)
  }

  // ---------------------------------------------------------------------------
  // Degrees under insertion and removal of one key

  /** Inserting a new key raises the degree of its two endpoints by one and
      leaves every other degree alone. */
  lemma DegInsert(edges: set<Edge>, x: Edge, v: int)
    requires x !in edges
    ensures Deg(edges + {x}, v) == Deg(edges, v) + Hit(x, v)
  {
    if x.0 == v || x.1 == v {
      assert Touching(edges + {x}, v) == Touching(edges, v) + {x};
    } else {
      assert Touching(edges + {x}, v) == Touching(edges, v);
    }
  }

  /** Removing a present key lowers the degree of its two endpoints by one and
      leaves every other degree alone. */
  lemma DegRemove(edges: set<Edge>, x: Edge, v: int)
    requires x in edges
    ensures Deg(edges, v) == Deg(edges - {x}, v) + Hit(x, v)
  {
    DegInsert(edges - {x}, x, v);
    assert (edges - {x}) + {x} == edges;
  }

  // ---------------------------------------------------------------------------
  // Counting in a sequence

  /** Overwriting position `v` moves one count from the old value to the new one. */
  lemma {:induction false} CountUpdate(s: seq<int>, v: int, x: int, k: int)
    requires 0 <= v < |s|
    ensures Count(s[v := x], k)
         == Count(s, k) - (if s[v] == k then 1 else 0) + (if x == k then 1 else 0)
  {
    var t := s[v := x];
    if v == |s| - 1 {
      assert t[..|t| - 1] == s[..|s| - 1];
    } else {
      assert t[..|t| - 1] == s[..|s| - 1][v := x];
      CountUpdate(s[..|s| - 1], v, x, k);
    }
  }

  /** Overwriting position `v` changes the sum by the difference of the values. */
  lemma {:induction false} SumUpdate(s: seq<int>, v: int, x: int)
    requires 0 <= v < |s|
    ensures Sum(s[v := x]) == Sum(s) - s[v] + x
  {
    var t := s[v := x];
    if v == |s| - 1 {
      assert t[..|t| - 1] == s[..|s| - 1];
    } else {
      assert t[..|t| - 1] == s[..|s| - 1][v := x];
      SumUpdate(s[..|s| - 1], v, x);
    }
  }

  /** In a sequence of `n` copies of `c`, `c` occurs `n` times and nothing else occurs. */
  lemma {:induction false} CountConstant(n: nat, c: int, k: int)
    ensures Count(seq(n, _ => c), k) == if k == c then n else 0
  {
    if n > 0 {
      assert seq(n, _ => c)[..n - 1] == seq(n - 1, _ => c);
      CountConstant(n - 1, c, k);
    }
  }

  /** Adds `d` to entry `k`: one `++` or `--` on a histogram slot. */
  function Bump(s: seq<int>, k: int, d: int): seq<int>
    requires 0 <= k < |s|
  {
    s[k := s[k] + d]
  }

  // ---------------------------------------------------------------------------
  // The two invariants, stated on the contents of the arrays

  /** `dist` is the histogram of `deg`, and every degree indexes the histogram. */
  ghost predicate HistogramOf(dist: seq<int>, deg: seq<int>, n: int)
  {
    && |deg| == n
    && |dist| == n
    && (forall v :: 0 <= v < n ==> 0 <= deg[v] < n)
    && Histogram(dist, deg)
  }

  /** `deg` holds the degree of every node as determined by `edges`. */
  ghost predicate DegreesOf(deg: seq<int>, edges: set<Edge>, n: int)
  {
    && |deg| == n
    && WellFormed(edges, n)
    && (forall v {:trigger Deg(edges, v)} :: 0 <= v < n ==> deg[v] == Deg(edges, v))
  }

  /** Moving nodes i and j to degrees bi and bj, while the histogram loses one
      count at each old degree and gains one at each new degree, keeps the
      histogram exact. */
  lemma HistogramMoveTwo(dist: seq<int>, deg: seq<int>, n: int, i: int, j: int, bi: int, bj: int, dist': seq<int>)
    requires HistogramOf(dist, deg, n)
    requires 0 <= i < n && 0 <= j < n && i != j
    requires 0 <= bi < n && 0 <= bj < n
    requires |dist'| == n
    requires forall k :: 0 <= k < n ==>
               dist'[k] == dist[k] - (if k == deg[i] then 1 else 0) - (if k == deg[j] then 1 else 0)
                                   + (if k == bi then 1 else 0) + (if k == bj then 1 else 0)
    ensures HistogramOf(dist', deg[i := bi][j := bj], n)
  {
    forall k | 0 <= k < n
      ensures dist'[k] == Count(deg[i := bi][j := bj], k)
    {
      CountUpdate(deg, i, bi, k);
      CountUpdate(deg[i := bi], j, bj, k);
    }
  }

  /** The histogram updates of `graph_set_edge` (delta 1) and `graph_del_edge`
      (delta -1): count at each new degree up, then count at each old degree down. */
  lemma HistogramSetDel(dist: seq<int>, deg: seq<int>, n: int, i: int, j: int, delta: int)
    requires HistogramOf(dist, deg, n)
    requires 0 <= i < n && 0 <= j < n && i != j && (delta == 1 || delta == -1)
    requires 0 <= deg[i] + delta < n && 0 <= deg[j] + delta < n
    ensures HistogramOf(
              Bump(Bump(Bump(Bump(dist, deg[i] + delta, 1), deg[j] + delta, 1), deg[i], -1), deg[j], -1),
              deg[i := deg[i] + delta][j := deg[j] + delta], n)
  {
    HistogramMoveTwo(dist, deg, n, i, j, deg[i] + delta, deg[j] + delta,
      Bump(Bump(Bump(Bump(dist, deg[i] + delta, 1), deg[j] + delta, 1), deg[i], -1), deg[j], -1));
  }

  /** The histogram updates of `graph_flip_edge`: count at each old degree
      down, then count at each new degree up. */
  lemma HistogramFlip(dist: seq<int>, deg: seq<int>, n: int, i: int, j: int, delta: int)
    requires HistogramOf(dist, deg, n)
    requires 0 <= i < n && 0 <= j < n && i != j && (delta == 1 || delta == -1)
    requires 0 <= deg[i] + delta < n && 0 <= deg[j] + delta < n
    ensures HistogramOf(
              Bump(Bump(Bump(Bump(dist, deg[i], -1), deg[j], -1), deg[i] + delta, 1), deg[j] + delta, 1),
              deg[i := deg[i] + delta][j := deg[j] + delta], n)
  {
    HistogramMoveTwo(dist, deg, n, i, j, deg[i] + delta, deg[j] + delta,
      Bump(Bump(Bump(Bump(dist, deg[i], -1), deg[j], -1), deg[i] + delta, 1), deg[j] + delta, 1));
  }

  /** Updates at two different positions commute. */
  lemma UpdateCommutes(s: seq<int>, a: int, b: int, x: int, y: int)
    requires 0 <= a < |s| && 0 <= b < |s| && a != b
    ensures s[a := x][b := y] == s[b := y][a := x]
  {
  }

  /** Inserting a new key (i, j) and raising both degrees keeps the degree
      table exact. */
  lemma DegreesAfterInsert(deg: seq<int>, edges: set<Edge>, n: int, i: int, j: int)
    requires DegreesOf(deg, edges, n)
    requires 0 <= i < n && 0 <= j < n && i != j && (i, j) !in edges
    ensures DegreesOf(deg[i := deg[i] + 1][j := deg[j] + 1], edges + {(i, j)}, n)
  {
    forall v | 0 <= v < n
      ensures deg[i := deg[i] + 1][j := deg[j] + 1][v] == Deg(edges + {(i, j)}, v)
    {
      DegInsert(edges, (i, j), v);
    }
  }

  /** Removing a stored key (i, j) and lowering both degrees keeps the degree
      table exact; both degrees were positive. */
  lemma DegreesAfterRemove(deg: seq<int>, edges: set<Edge>, n: int, i: int, j: int)
    requires DegreesOf(deg, edges, n)
    requires (i, j) in edges
    ensures 0 <= i < n && 0 <= j < n && i != j
    ensures deg[i] > 0 && deg[j] > 0
    ensures DegreesOf(deg[i := deg[i] - 1][j := deg[j] - 1], edges - {(i, j)}, n)
  {
    DegRemove(edges, (i, j), i);
    DegRemove(edges, (i, j), j);
    forall v | 0 <= v < n
      ensures deg[i := deg[i] - 1][j := deg[j] - 1][v] == Deg(edges - {(i, j)}, v)
    {
      DegRemove(edges, (i, j), v);
    }
  }

  /** The degree table after graph_del_edge, whether or not the key was
      stored: it matches the edge set when it was, and falls one below both
      endpoints' real degrees when it was not. */
  lemma DegreesAfterDelete(deg: seq<int>, edges: set<Edge>, n: int, i: int, j: int)
    requires DegreesOf(deg, edges, n)
    requires 0 <= i < n && 0 <= j < n && i != j
    ensures (i, j) in edges ==> DegreesOf(deg[i := deg[i] - 1][j := deg[j] - 1], edges - {(i, j)}, n)
    ensures (i, j) !in edges ==>
              edges - {(i, j)} == edges &&
              deg[i] - 1 == Deg(edges, i) - 1 && deg[j] - 1 == Deg(edges, j) - 1
  {
    if (i, j) in edges {
      DegreesAfterRemove(deg, edges, n, i, j);
    } else {
      assert deg[i] == Deg(edges, i) && deg[j] == Deg(edges, j);
    }
  }

  /** The edge set after toggling `e`. */
  function Toggle(edges: set<Edge>, e: Edge): set<Edge>
  {
    if e in edges then edges - {e} else edges + {e}
  }

  /** All the bookkeeping of `graph_flip_edge` at once: toggling (a, b) moves
      both degrees by `delta` (down when the key was stored, up otherwise),
      the new degrees still index the histogram, the histogram updates keep
      it exact and the degree table keeps matching the edge set. */
  lemma FlipBookkeeping(dist: seq<int>, deg: seq<int>, edges: set<Edge>, n: int, a: int, b: int, delta: int)
    requires HistogramOf(dist, deg, n) && DegreesOf(deg, edges, n)
    requires 0 <= a < n && 0 <= b < n && a != b
    requires (a, b) in edges || (deg[a] + 1 < n && deg[b] + 1 < n)
    requires delta == if (a, b) in edges then -1 else 1
    ensures 0 <= deg[a] + delta < n && 0 <= deg[b] + delta < n
    ensures HistogramOf(
              Bump(Bump(Bump(Bump(dist, deg[a], -1), deg[b], -1), deg[a] + delta, 1), deg[b] + delta, 1),
              deg[a := deg[a] + delta][b := deg[b] + delta], n)
    ensures DegreesOf(deg[a := deg[a] + delta][b := deg[b] + delta], Toggle(edges, (a, b)), n)
  {
    if (a, b) in edges {
      DegreesAfterRemove(deg, edges, n, a, b);
    } else {
      DegreesAfterInsert(deg, edges, n, a, b);
    }
    HistogramFlip(dist, deg, n, a, b, delta);
  }

  // ---------------------------------------------------------------------------
  // The histogram accounts for every node

  /** Appending `x` adds one to the counts below `m` exactly when `x` is below `m`. */
  lemma {:induction false} SumCountsAppend(s: seq<int>, x: int, m: nat)
    ensures SumCounts(s + [x], m) == SumCounts(s, m) + (if 0 <= x < m then 1 else 0)
  {
    if m > 0 {
      SumCountsAppend(s, x, m - 1);
      assert (s + [x])[..|s + [x]| - 1] == s;
    }
  }

  /** When every value lies in [0, m), the counts of those values add up to |s|. */
  lemma {:induction false} SumCountsAll(s: seq<int>, m: nat)
    requires forall i :: 0 <= i < |s| ==> 0 <= s[i] < m
    ensures SumCounts(s, m) == |s|
  {
    if s == [] {
      SumCountsEmpty(m);
    } else {
      var p := s[..|s| - 1];
      SumCountsAll(p, m);
      assert p + [s[|s| - 1]] == s;
      SumCountsAppend(p, s[|s| - 1], m);
    }
  }

  lemma {:induction false} SumCountsEmpty(m: nat)
    ensures SumCounts([], m) == 0
  {
    if m > 0 {
      SumCountsEmpty(m - 1);
    }
  }

  /** The sum of a histogram prefix is the sum of the matching counts. */
  lemma {:induction false} SumOfHistogram(dist: seq<int>, deg: seq<int>)
    requires Histogram(dist, deg)
    ensures Sum(dist) == SumCounts(deg, |dist|)
  {
    if dist != [] {
      var p := dist[..|dist| - 1];
      assert Histogram(p, deg);
      SumOfHistogram(p, deg);
    }
  }

  /** A degree histogram over `n` entries sums to the number of nodes, provided
      every degree is below `n`. */
  lemma HistogramTotal(dist: seq<int>, deg: seq<int>)
    requires |dist| == |deg|
    requires forall v :: 0 <= v < |deg| ==> 0 <= deg[v] < |deg|
    requires Histogram(dist, deg)
    ensures Sum(dist) == |deg|
  {
    SumOfHistogram(dist, deg);
    SumCountsAll(deg, |deg|);
  }

  // ---------------------------------------------------------------------------
  // Handshake: the degrees add up to twice the number of keys

  lemma {:induction false} SumDegNoEdges(m: nat)
    ensures SumDeg({}, m) == 0
  {
    if m > 0 {
      assert Touching({}, m - 1) == {};
      SumDegNoEdges(m - 1);
    }
  }

  /** Removing a present key lowers the degree sum over [0, m) by the number of
      its endpoints in that range. */
  lemma {:induction false} SumDegRemove(edges: set<Edge>, x: Edge, m: nat)
    requires x in edges
    requires x.0 != x.1
    ensures SumDeg(edges, m)
         == SumDeg(edges - {x}, m) + (if 0 <= x.0 < m then 1 else 0) + (if 0 <= x.1 < m then 1 else 0)
  {
    if m > 0 {
      SumDegRemove(edges, x, m - 1);
      DegRemove(edges, x, m - 1);
    }
  }

  /** Each key has two distinct endpoints below `n`, so it contributes exactly two
      to the degree sum. */
  lemma {:induction false} Handshake(edges: set<Edge>, n: nat)
    requires WellFormed(edges, n)
    ensures SumDeg(edges, n) == 2 * |edges|
    decreases |edges|
  {
    if edges == {} {
      SumDegNoEdges(n);
    } else {
      var x :| x in edges;
      assert WellFormed(edges - {x}, n);
      Handshake(edges - {x}, n);
      SumDegRemove(edges, x, n);
    }
  }

  /** A table that holds the degree of every node sums to `SumDeg`. */
  lemma {:induction false} SumOfDegreeTable(deg: seq<int>, edges: set<Edge>)
    requires forall v :: 0 <= v < |deg| ==> deg[v] == Deg(edges, v)
    ensures Sum(deg) == SumDeg(edges, |deg|)
  {
    if deg != [] {
      SumOfDegreeTable(deg[..|deg| - 1], edges);
    }
  }
}
