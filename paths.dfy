/** What a distance array computed by BFS or IBFS means.  An edge is "on" at
    threshold p when its threshold is at most p; Reach says that a vertex can
    be reached from the root over edges that are on, and IsShortest that an
    array holds the hop distances (MAX_VALUE for unreachable vertices), as the
    SPT interface promises its dist(vid). */
module Paths {
  import opened Lattice
  import opened Graphs

  /** The edge from u in direction d is on at p and leads to a vertex. */
  ghost predicate Step(g: Net, p: int, u: int, d: int)
  {
    IsDir(d) && g.Slot(d, u) && g.epn[d][u] <= p && 0 <= g.next[d][u] < g.vs
  }

  /** v is reached from the root by a walk of at most k edges that are on at p. */
  ghost predicate Reach(g: Net, p: int, v: int, k: nat)
    decreases k
  {
    v == g.root ||
    (k > 0 && exists d :: 0 <= d < 4 && Step(g, p, v, d) && Reach(g, p, g.next[d][v], k - 1))
  }

  /** Every entry is a distance or MAX_VALUE, and every finite entry is backed
      by a walk of that many edges. */
  ghost predicate Sound(g: Net, p: int, dist: seq<int>)
  {
    |dist| == g.vs &&
    (forall v :: 0 <= v < g.vs ==> 0 <= dist[v] <= MAX_VALUE) &&
    (forall v {:trigger Backed(g, p, dist, v)} :: 0 <= v < g.vs ==> Backed(g, p, dist, v))
  }

  /** A finite entry of dist is backed by a walk of that many edges. */
  ghost predicate Backed(g: Net, p: int, dist: seq<int>, v: int)
  {
    0 <= v < |dist| && (0 <= dist[v] < MAX_VALUE ==> Reach(g, p, v, dist[v]))
  }

  /** Every edge that is on at p, out of a vertex with a finite distance that is
      not pending, is relaxed: it cannot shorten the distance of its other end. */
  ghost predicate ClosedExcept(g: Net, p: int, dist: seq<int>, pending: set<int>)
    requires |dist| == g.vs
  {
    forall u, d :: 0 <= u < g.vs && u !in pending && dist[u] < MAX_VALUE && Step(g, p, u, d) ==>
      dist[g.next[d][u]] <= dist[u] + 1
  }

  /** dist holds the hop distance of every vertex from the root over the edges
      that are on at p, and MAX_VALUE for the vertices that cannot be reached. */
  ghost predicate IsShortest(g: Net, p: int, dist: seq<int>)
  {
    |dist| == g.vs &&
    forall v :: 0 <= v < g.vs ==>
      0 <= dist[v] <= MAX_VALUE &&
      (dist[v] < MAX_VALUE ==> Reach(g, p, v, dist[v]) && forall k: nat :: k < dist[v] ==> !Reach(g, p, v, k)) &&
      (dist[v] == MAX_VALUE ==> forall k: nat :: !Reach(g, p, v, k))
  }

  /** The distances after BFS.reset: 0 at the root, MAX_VALUE elsewhere. */
  function Fresh(g: Net): (dist: seq<int>)
    requires g.Sized()
    ensures |dist| == g.vs
    ensures forall v :: 0 <= v < g.vs ==> dist[v] == (if v == g.root then 0 else MAX_VALUE)
  {
    seq(g.vs, v => if v == g.root then 0 else MAX_VALUE)
  }

  function Elems(s: seq<int>): set<int>
  {
    set x | x in s
  }

  /** No vertex occurs twice in s.  The pairwise fact is named by Apart so
      that it is only drawn on where a proof mentions it. */
  predicate Distinct(s: seq<int>)
  {
    forall i, j :: 0 <= i < j < |s| ==> Apart(s, i, j)
  }

  predicate Apart(s: seq<int>, i: int, j: int)
  {
    0 <= i < |s| && 0 <= j < |s| && s[i] != s[j]
  }

  // ---------------------------------------------------------------- walks

  lemma {:induction false} ReachMonoK(g: Net, p: int, v: int, k: nat, m: nat)
    requires g.Sized() && 0 <= v < g.vs && k <= m && Reach(g, p, v, k)
    ensures Reach(g, p, v, m)
    decreases k
  {
    if v != g.root {
      var d :| 0 <= d < 4 && Step(g, p, v, d) && Reach(g, p, g.next[d][v], k - 1);
      ReachMonoK(g, p, g.next[d][v], k - 1, m - 1);
    }
  }

  /** Raising the threshold only turns edges on: whatever was reached stays reached. */
  lemma {:induction false} ReachMonoP(g: Net, p: int, q: int, v: int, k: nat)
    requires g.Sized() && 0 <= v < g.vs && p <= q && Reach(g, p, v, k)
    ensures Reach(g, q, v, k)
    decreases k
  {
    if v != g.root {
      var d :| 0 <= d < 4 && Step(g, p, v, d) && Reach(g, p, g.next[d][v], k - 1);
      ReachMonoP(g, p, q, g.next[d][v], k - 1);
      assert Step(g, q, v, d);
    }
  }

  /** One more edge that is on extends a walk by one. */
  lemma ReachStep(g: Net, p: int, u: int, d: int, k: nat)
    requires g.Linked() && p < MAX_VALUE && 0 <= u < g.vs && IsDir(d) && g.epn[d][u] <= p
    requires Reach(g, p, u, k)
    ensures 0 <= g.next[d][u] < g.vs && Reach(g, p, g.next[d][u], k + 1)
  {
    var w := g.next[d][u];
    assert Step(g, p, w, Opp(d));
  }

  /** On the tables, Step is the test `epn[d][u] <= p` of isEdgeEnabled. */
  lemma StepIsEnabled(g: Net, p: int, u: int, d: int)
    requires g.Linked() && p < MAX_VALUE && 0 <= u < g.vs && IsDir(d)
    ensures Step(g, p, u, d) <==> g.epn[d][u] <= p
  {
    if g.epn[d][u] <= p {
    }
  }

  // ----------------------------------------------------- shortest walks are short

  ghost function Layer(g: Net, p: int, k: nat): set<int>
  {
    set v | 0 <= v < g.vs && Reach(g, p, v, k)
  }

  /** The ids 0 .. n-1 as a set. */
  ghost function Ids(n: nat): (s: set<int>)
    ensures |s| == n && forall v :: v in s <==> 0 <= v < n
  {
    if n == 0 then {} else Ids(n - 1) + {n - 1}
  }

  lemma SubsetCard(a: set<int>, b: set<int>)
    requires a <= b
    ensures |a| <= |b|
  {
    assert b == a + (b - a);
  }

  /** A subset of b at least as large as b is b. */
  lemma SubsetFull(a: set<int>, b: set<int>)
    requires a <= b && |a| >= |b|
    ensures a == b
  {
    assert b == a + (b - a);
    assert b - a == {};
  }

  /** A layer that does not grow never grows again. */
  lemma {:induction false} LayerStable(g: Net, p: int, k: nat, m: nat)
    requires g.Sized() && k <= m && Layer(g, p, k) == Layer(g, p, k + 1)
    ensures Layer(g, p, m) == Layer(g, p, k)
    decreases m - k
  {
    if m > k {
      LayerStable(g, p, k, m - 1);
      forall v | 0 <= v < g.vs && Reach(g, p, v, m)
        ensures Reach(g, p, v, k)
      {
        if v != g.root {
          var d :| 0 <= d < 4 && Step(g, p, v, d) && Reach(g, p, g.next[d][v], m - 1);
          assert g.next[d][v] in Layer(g, p, m - 1);
          assert Reach(g, p, g.next[d][v], k);
          assert Reach(g, p, v, k + 1);
          assert v in Layer(g, p, k + 1);
        }
      }
      forall v | v in Layer(g, p, k)
        ensures v in Layer(g, p, m)
      {
        ReachMonoK(g, p, v, k, m);
      }
    }
  }

  /** Layers that keep growing hold at least k + 1 vertices after k steps. */
  lemma {:induction false} LayerGrows(g: Net, p: int, k: nat)
    requires g.Sized()
    requires forall j: nat :: j < k ==> Layer(g, p, j) != Layer(g, p, j + 1)
    ensures |Layer(g, p, k)| >= k + 1
  {
    if k == 0 {
      assert g.root in Layer(g, p, 0);
    } else {
      LayerGrows(g, p, k - 1);
      var a, b := Layer(g, p, k - 1), Layer(g, p, k);
      forall v | v in a
        ensures v in b
      {
        ReachMonoK(g, p, v, k - 1, k);
      }
      SubsetCard(a, b);
      if |a| == |b| {
        SubsetFull(a, b);
        assert false;
      }
    }
  }

  /** A vertex that can be reached at all is reached within vs - 1 edges
      (the pigeonhole principle on the layers). */
  lemma ReachShort(g: Net, p: int, v: int, k: nat)
    requires g.Sized() && 0 <= v < g.vs && Reach(g, p, v, k)
    ensures Reach(g, p, v, g.vs - 1)
  {
    var n: nat := g.vs - 1;
    if k <= n {
      ReachMonoK(g, p, v, k, n);
    } else if forall j: nat :: j < n ==> Layer(g, p, j) != Layer(g, p, j + 1) {
      LayerFull(g, p, n);
    } else {
      var j: nat :| j < n && Layer(g, p, j) == Layer(g, p, j + 1);
      LayerStable(g, p, j, k);
      LayerStable(g, p, j, n);
      assert v in Layer(g, p, k);
    }
  }

  /** After vs - 1 strictly growing layers every vertex is reached. */
  lemma LayerFull(g: Net, p: int, n: nat)
    requires g.Sized() && n == g.vs - 1
    requires forall j: nat :: j < n ==> Layer(g, p, j) != Layer(g, p, j + 1)
    ensures forall v :: 0 <= v < g.vs ==> Reach(g, p, v, n)
  {
    LayerGrows(g, p, n);
    SubsetFull(Layer(g, p, n), Ids(g.vs));
    forall v | 0 <= v < g.vs
      ensures Reach(g, p, v, n)
    {
      assert v in Ids(g.vs);
    }
  }

  // ------------------------------------------------ closure makes distances shortest

  /** Under closure, a walk of k edges bounds the distance by k. */
  lemma {:induction false} ClosedBounds(g: Net, p: int, dist: seq<int>, v: int, k: nat)
    requires g.Linked() && p < MAX_VALUE && |dist| == g.vs && 0 <= v < g.vs
    requires forall u :: 0 <= u < g.vs ==> 0 <= dist[u] <= MAX_VALUE
    requires dist[g.root] == 0 && ClosedExcept(g, p, dist, {})
    requires k < MAX_VALUE && Reach(g, p, v, k)
    ensures dist[v] <= k
    decreases k
  {
    if v != g.root {
      var d :| 0 <= d < 4 && Step(g, p, v, d) && Reach(g, p, g.next[d][v], k - 1);
      var w := g.next[d][v];
      ClosedBounds(g, p, dist, w, k - 1);
      assert Step(g, p, w, Opp(d));
    }
  }

  /** The same for walks of any length. */
  lemma ClosedBoundsAll(g: Net, p: int, dist: seq<int>, v: int, k: nat)
    requires g.Linked() && p < MAX_VALUE && |dist| == g.vs && 0 <= v < g.vs
    requires forall u :: 0 <= u < g.vs ==> 0 <= dist[u] <= MAX_VALUE
    requires dist[g.root] == 0 && ClosedExcept(g, p, dist, {})
    requires Reach(g, p, v, k)
    ensures dist[v] <= k && dist[v] < MAX_VALUE
  {
    ReachShort(g, p, v, k);
    ClosedBounds(g, p, dist, v, g.vs - 1);
    if k < g.vs - 1 {
      ClosedBounds(g, p, dist, v, k);
    }
  }

  /** Sound and closed distances with the root at 0 are the shortest ones. */
  lemma ShortestFromClosed(g: Net, p: int, dist: seq<int>)
    requires g.Linked() && p < MAX_VALUE
    requires Sound(g, p, dist) && dist[g.root] == 0 && ClosedExcept(g, p, dist, {})
    ensures IsShortest(g, p, dist)
  {
    forall v, k: nat | 0 <= v < g.vs && Reach(g, p, v, k)
      ensures dist[v] <= k && dist[v] < MAX_VALUE
    {
      ClosedBoundsAll(g, p, dist, v, k);
    }
    forall v | 0 <= v < g.vs
      ensures dist[v] < MAX_VALUE ==> Reach(g, p, v, dist[v])
    {
      assert Backed(g, p, dist, v);
    }
  }

  /** The shortest distances are unique: any two SPT engines that satisfy
      IsShortest agree vertex by vertex. */
  lemma ShortestUnique(g: Net, p: int, d1: seq<int>, d2: seq<int>)
    requires g.Sized() && IsShortest(g, p, d1) && IsShortest(g, p, d2)
    ensures d1 == d2
  {
    forall v | 0 <= v < g.vs
      ensures d1[v] == d2[v]
    {
      if d1[v] < MAX_VALUE {
        assert Reach(g, p, v, d1[v]);
      }
      if d2[v] < MAX_VALUE {
        assert Reach(g, p, v, d2[v]);
      }
    }
  }

  /** Distances only shrink as the threshold rises. */
  lemma ShortestMono(g: Net, p: int, q: int, d1: seq<int>, d2: seq<int>)
    requires g.Sized() && p <= q && IsShortest(g, p, d1) && IsShortest(g, q, d2)
    ensures forall v :: 0 <= v < g.vs ==> d2[v] <= d1[v]
  {
    forall v | 0 <= v < g.vs && d1[v] < MAX_VALUE
      ensures d2[v] <= d1[v]
    {
      ReachMonoP(g, p, q, v, d1[v]);
    }
  }

  /** A state a sweep from the root completes: sound, the root at 0, and
      closed everywhere but at the root. */
  ghost predicate Seeded(g: Net, p: int, dist: seq<int>)
  {
    Sound(g, p, dist) && 0 <= g.root < g.vs && dist[g.root] == 0 &&
    ClosedExcept(g, p, dist, {g.root})
  }

  /** Fresh distances are sound, and closed everywhere but at the root. */
  lemma FreshStart(g: Net, p: int)
    requires g.Sized()
    ensures Seeded(g, p, Fresh(g))
  {
  }

  /** Shortest distances are closed everywhere: no edge that is on can
      shorten them. */
  lemma ClosedFromShortest(g: Net, p: int, dist: seq<int>)
    requires g.Linked() && p < MAX_VALUE && IsShortest(g, p, dist)
    ensures Sound(g, p, dist) && ClosedExcept(g, p, dist, {})
    ensures 0 <= g.root < g.vs && dist[g.root] == 0
  {
    assert Reach(g, p, g.root, 0);
    forall v | 0 <= v < g.vs
      ensures Backed(g, p, dist, v)
    {
    }
    forall u, d | 0 <= u < g.vs && dist[u] < MAX_VALUE && Step(g, p, u, d)
      ensures dist[g.next[d][u]] <= dist[u] + 1
    {
      ReachStep(g, p, u, d, dist[u]);
    }
  }

  // ------------------------------------------------------------- counting

  lemma {:induction false} DistinctCard(s: seq<int>)
    requires Distinct(s)
    ensures |Elems(s)| == |s|
  {
    if |s| > 0 {
      var t := s[..|s| - 1];
      assert Distinct(t) by {
        forall i, j | 0 <= i < j < |t|
          ensures Apart(t, i, j)
        {
          assert Apart(s, i, j);
        }
      }
      DistinctCard(t);
      assert Elems(s) == Elems(t) + {s[|s| - 1]};
      forall i | 0 <= i < |t|
        ensures t[i] != s[|s| - 1]
      {
        assert Apart(s, i, |s| - 1);
      }
    }
  }

  /** A repetition-free sequence of vertex ids has at most vs entries. */
  lemma DistinctBound(s: seq<int>, n: nat)
    requires Distinct(s) && forall i :: 0 <= i < |s| ==> 0 <= s[i] < n
    ensures |s| <= n
  {
    DistinctCard(s);
    SubsetCard(Elems(s), Ids(n));
  }
}
