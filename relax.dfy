/** One call of BFS.neighbors(q, u) on values: which vertices it lowers, what
    their new distances are, and why the breadth-first queue discipline and the
    meaning of the distances survive it. */
module Relaxation {
  import opened Lattice
  import opened Graphs
  import opened Paths

  /** The test of neighbors for direction d: u has a distance, the edge is on,
      and going through u shortens the distance of the far end. */
  ghost predicate Relaxes(g: Net, p: int, dist: seq<int>, u: int, d: int)
    requires |dist| == g.vs && 0 <= u < g.vs
  {
    dist[u] < MAX_VALUE && Step(g, p, u, d) && dist[u] + 1 < dist[g.next[d][u]]
  }

  /** The directions below k that relax, in increasing order. */
  ghost function RelaxDirs(g: Net, p: int, dist: seq<int>, u: int, k: int): (ds: seq<int>)
    requires |dist| == g.vs && 0 <= u < g.vs && 0 <= k <= 4
    ensures |ds| <= k
    ensures forall i :: 0 <= i < |ds| ==> 0 <= ds[i] < k
    decreases k
  {
    if k == 0 then []
    else RelaxDirs(g, p, dist, u, k - 1) + (if Relaxes(g, p, dist, u, k - 1) then [k - 1] else [])
  }

  /** RelaxDirs lists only relaxing directions. */
  lemma {:induction false} RelaxDirsSpec(g: Net, p: int, dist: seq<int>, u: int, k: int)
    requires |dist| == g.vs && 0 <= u < g.vs && 0 <= k <= 4
    ensures forall i :: 0 <= i < |RelaxDirs(g, p, dist, u, k)| ==>
      Relaxes(g, p, dist, u, RelaxDirs(g, p, dist, u, k)[i])
    decreases k
  {
    if k > 0 {
      RelaxDirsSpec(g, p, dist, u, k - 1);
      var a, ds := RelaxDirs(g, p, dist, u, k - 1), RelaxDirs(g, p, dist, u, k);
      assert ds == a + (if Relaxes(g, p, dist, u, k - 1) then [k - 1] else []);
      forall i | 0 <= i < |ds|
        ensures Relaxes(g, p, dist, u, ds[i])
      {
        if i < |a| {
          assert ds[i] == a[i];
        }
      }
    }
  }

  /** RelaxDirs lists the directions in increasing order. */
  lemma {:induction false} RelaxDirsSorted(g: Net, p: int, dist: seq<int>, u: int, k: int)
    requires |dist| == g.vs && 0 <= u < g.vs && 0 <= k <= 4
    ensures forall i, j :: 0 <= i < j < |RelaxDirs(g, p, dist, u, k)| ==>
      RelaxDirs(g, p, dist, u, k)[i] < RelaxDirs(g, p, dist, u, k)[j]
    decreases k
  {
    if k > 0 {
      RelaxDirsSorted(g, p, dist, u, k - 1);
      var a, ds := RelaxDirs(g, p, dist, u, k - 1), RelaxDirs(g, p, dist, u, k);
      assert ds == a + (if Relaxes(g, p, dist, u, k - 1) then [k - 1] else []);
    }
  }

  /** A vertex without a distance relaxes nothing. */
  lemma {:induction false} NoDistNoTargets(g: Net, p: int, dist: seq<int>, u: int, k: int)
    requires |dist| == g.vs && 0 <= u < g.vs && 0 <= k <= 4 && dist[u] == MAX_VALUE
    ensures Targets(g, p, dist, u, k) == []
    decreases k
  {
    if k > 0 {
      NoDistNoTargets(g, p, dist, u, k - 1);
      assert !Relaxes(g, p, dist, u, k - 1);
    }
  }

  /** RelaxDirs lists every relaxing direction below k. */
  lemma {:induction false} RelaxDirsHas(g: Net, p: int, dist: seq<int>, u: int, k: int, d: int)
    requires |dist| == g.vs && 0 <= u < g.vs && 0 <= d < k <= 4
    requires Relaxes(g, p, dist, u, d)
    ensures d in RelaxDirs(g, p, dist, u, k)
    decreases k
  {
    var a, ds := RelaxDirs(g, p, dist, u, k - 1), RelaxDirs(g, p, dist, u, k);
    assert ds == a + (if Relaxes(g, p, dist, u, k - 1) then [k - 1] else []);
    if d < k - 1 {
      RelaxDirsHas(g, p, dist, u, k - 1, d);
      var i :| 0 <= i < |a| && a[i] == d;
      assert ds[i] == d;
    } else {
      assert ds[|a|] == d;
    }
  }

  /** The vertices neighbors(q, u) hands to neighbor through the directions
      below k, in direction order: the far ends of the relaxing directions. */
  ghost function Targets(g: Net, p: int, dist: seq<int>, u: int, k: int): (t: seq<int>)
    requires |dist| == g.vs && 0 <= u < g.vs && 0 <= k <= 4
    ensures |t| == |RelaxDirs(g, p, dist, u, k)|
    ensures forall i :: 0 <= i < |t| ==> 0 <= t[i] < g.vs
  {
    var ds := RelaxDirs(g, p, dist, u, k);
    RelaxDirsSpec(g, p, dist, u, k);
    seq(|ds|, i requires 0 <= i < |ds| => g.next[ds[i]][u])
  }

  /** dist with every vertex of t set to x. */
  ghost function Lowered(dist: seq<int>, t: seq<int>, x: int): (e: seq<int>)
    ensures |e| == |dist|
    ensures forall v :: 0 <= v < |dist| ==> e[v] == (if v in t then x else dist[v])
  {
    seq(|dist|, v requires 0 <= v < |dist| => if v in t then x else dist[v])
  }

  /** Lowering one more vertex is one more array write. */
  lemma LoweredPush(dist: seq<int>, t: seq<int>, x: int, w: int)
    requires 0 <= w < |dist|
    ensures Lowered(dist, t + [w], x) == Lowered(dist, t, x)[w := x]
  {
    var a, b := Lowered(dist, t + [w], x), Lowered(dist, t, x)[w := x];
    forall v | 0 <= v < |dist|
      ensures a[v] == b[v]
    {
      assert v in t + [w] <==> v in t || v == w;
    }
  }

  /** The breadth-first discipline of the written part Q of the queue, whose
      live part starts at h: no vertex is written twice, distances ascend
      along Q, and the newest entry is at most one further than the oldest
      live one. */
  ghost predicate Frontier(dist: seq<int>, Q: seq<int>, h: int)
  {
    0 <= h <= |Q| &&
    (forall i :: 0 <= i < |Q| ==> 0 <= Q[i] < |dist|) &&
    Distinct(Q) &&
    (forall i, j :: 0 <= i < j < |Q| ==> Nearer(dist, Q, i, j)) &&
    (h < |Q| ==> dist[Q[|Q| - 1]] <= dist[Q[h]] + 1)
  }

  /** Q[i] is no further from the root than Q[j]. */
  ghost predicate Nearer(dist: seq<int>, Q: seq<int>, i: int, j: int)
  {
    0 <= i < |Q| && 0 <= j < |Q| && 0 <= Q[i] < |dist| && 0 <= Q[j] < |dist| &&
    dist[Q[i]] <= dist[Q[j]]
  }

  /** Direction k adds its far end to the targets exactly when it relaxes. */
  lemma TargetsNext(g: Net, p: int, dist: seq<int>, u: int, k: int)
    requires g.Sized() && |dist| == g.vs && 0 <= u < g.vs && 0 <= k < 4
    ensures Targets(g, p, dist, u, k + 1) ==
      Targets(g, p, dist, u, k) + (if Relaxes(g, p, dist, u, k) then [g.next[k][u]] else [])
  {
    var a, b := RelaxDirs(g, p, dist, u, k), RelaxDirs(g, p, dist, u, k + 1);
    assert b == a + (if Relaxes(g, p, dist, u, k) then [k] else []);
  }

  /** An edge that is on leads to a vertex that the directions before it
      have not handed out. */
  lemma NotYetTarget(g: Net, p: int, dist: seq<int>, u: int, k: int)
    requires g.Linked() && p < MAX_VALUE && |dist| == g.vs && 0 <= u < g.vs && 0 <= k < 4
    requires g.epn[k][u] <= p
    ensures g.next[k][u] !in Targets(g, p, dist, u, k)
  {
    var ds := RelaxDirs(g, p, dist, u, k);
    RelaxDirsSpec(g, p, dist, u, k);
    var t := Targets(g, p, dist, u, k);
    forall i | 0 <= i < |t|
      ensures t[i] != g.next[k][u]
    {
      assert Relaxes(g, p, dist, u, ds[i]);
    }
  }

  /** More directions, no fewer targets. */
  lemma {:induction false} TargetsGrow(g: Net, p: int, dist: seq<int>, u: int, k: int, m: int)
    requires g.Sized() && |dist| == g.vs && 0 <= u < g.vs && 0 <= k <= m <= 4
    ensures |Targets(g, p, dist, u, k)| <= |Targets(g, p, dist, u, m)|
    decreases m
  {
    if k < m {
      TargetsGrow(g, p, dist, u, k, m - 1);
      TargetsNext(g, p, dist, u, m - 1);
    }
  }

  /** One direction of neighbors(q, u), with dist = dist[u] + 1: an edge that
      is off leaves the targets as they are; an edge that is on leads to a
      vertex not yet lowered, which becomes the next target exactly when dist
      is below its distance, as one more array write. */
  lemma RelaxDir(g: Net, p: int, dist: seq<int>, u: int, k: int, x: int)
    requires g.Linked() && p < MAX_VALUE && |dist| == g.vs && 0 <= u < g.vs && 0 <= k < 4
    requires dist[u] < MAX_VALUE && x == dist[u] + 1
    ensures |Targets(g, p, dist, u, k + 1)| <= |Targets(g, p, dist, u, 4)|
    ensures var t, w := Targets(g, p, dist, u, k), g.next[k][u];
      if g.epn[k][u] <= p then
        0 <= w < g.vs && Lowered(dist, t, x)[w] == dist[w] &&
        if x < dist[w] then
          Targets(g, p, dist, u, k + 1) == t + [w] &&
          Lowered(dist, t + [w], x) == Lowered(dist, t, x)[w := x]
        else Targets(g, p, dist, u, k + 1) == t
      else Targets(g, p, dist, u, k + 1) == t
  {
    TargetsNext(g, p, dist, u, k);
    TargetsGrow(g, p, dist, u, k + 1, 4);
    StepIsEnabled(g, p, u, k);
    if g.epn[k][u] <= p {
      NotYetTarget(g, p, dist, u, k);
      LoweredPush(dist, Targets(g, p, dist, u, k), x, g.next[k][u]);
    }
  }

  /** Every target is the far end of a relaxing direction, and every relaxing
      direction contributes its far end. */
  lemma TargetsAreRelaxing(g: Net, p: int, dist: seq<int>, u: int, w: int)
    requires g.Sized() && |dist| == g.vs && 0 <= u < g.vs
    ensures w in Targets(g, p, dist, u, 4) <==>
      exists d :: 0 <= d < 4 && Relaxes(g, p, dist, u, d) && w == g.next[d][u]
    ensures w in Targets(g, p, dist, u, 4) ==> 0 <= w < g.vs && dist[u] + 1 < dist[w] && dist[u] < MAX_VALUE
  {
    var ds := RelaxDirs(g, p, dist, u, 4);
    RelaxDirsSpec(g, p, dist, u, 4);
    var t := Targets(g, p, dist, u, 4);
    if w in t {
      var i :| 0 <= i < |t| && t[i] == w;
      assert Relaxes(g, p, dist, u, ds[i]);
    }
    if d :| 0 <= d < 4 && Relaxes(g, p, dist, u, d) && w == g.next[d][u] {
      RelaxDirsHas(g, p, dist, u, 4, d);
      var i :| 0 <= i < |ds| && ds[i] == d;
      assert t[i] == w;
    }
  }

  /** The directions of one vertex lead to different vertices, so neighbors
      never hands the same vertex, or u itself, to neighbor twice. */
  lemma TargetsDistinct(g: Net, p: int, dist: seq<int>, u: int)
    requires g.Linked() && p < MAX_VALUE && |dist| == g.vs && 0 <= u < g.vs
    ensures Distinct(Targets(g, p, dist, u, 4)) && u !in Targets(g, p, dist, u, 4)
  {
    var ds := RelaxDirs(g, p, dist, u, 4);
    RelaxDirsSpec(g, p, dist, u, 4);
    RelaxDirsSorted(g, p, dist, u, 4);
    var t := Targets(g, p, dist, u, 4);
    forall i, j | 0 <= i < j < |t|
      ensures Apart(t, i, j)
    {
    }
    forall i | 0 <= i < |t|
      ensures t[i] != u
    {
      assert Relaxes(g, p, dist, u, ds[i]);
    }
  }

  /** A relaxing direction puts its far end among the targets. */
  lemma RelaxedEnd(g: Net, p: int, dist: seq<int>, u: int, d: int)
    requires g.Sized() && |dist| == g.vs && 0 <= u < g.vs && 0 <= d < 4
    requires Relaxes(g, p, dist, u, d)
    ensures g.next[d][u] in Targets(g, p, dist, u, 4)
  {
    var ds := RelaxDirs(g, p, dist, u, 4);
    RelaxDirsHas(g, p, dist, u, 4, d);
    var i :| 0 <= i < |ds| && ds[i] == d;
    assert Targets(g, p, dist, u, 4)[i] == g.next[d][u];
  }

  /** A relaxation keeps every finite distance backed by a walk, and only
      lowers distances. */
  lemma RelaxSound(g: Net, p: int, dist: seq<int>, u: int)
    requires g.Linked() && p < MAX_VALUE && Sound(g, p, dist) && 0 <= u < g.vs
    ensures var e := Lowered(dist, Targets(g, p, dist, u, 4), dist[u] + 1);
      Sound(g, p, e) && forall v :: 0 <= v < g.vs ==> e[v] <= dist[v]
  {
    var t := Targets(g, p, dist, u, 4);
    var e := Lowered(dist, t, dist[u] + 1);
    assert Backed(g, p, dist, u);
    forall v | 0 <= v < g.vs
      ensures Backed(g, p, e, v) && e[v] <= dist[v]
    {
      if v in t {
        TargetsAreRelaxing(g, p, dist, u, v);
        var d :| 0 <= d < 4 && Relaxes(g, p, dist, u, d) && v == g.next[d][u];
        ReachStep(g, p, u, d, dist[u]);
      } else {
        assert Backed(g, p, dist, v);
      }
    }
  }

  /** Taking u = Q[h] off the queue and appending its targets keeps the
      breadth-first discipline: every target is further than anything already
      written, so none of them was written before, and the queue, sized vs,
      has room for them. */
  lemma RelaxFrontier(g: Net, p: int, dist: seq<int>, Q: seq<int>, h: int)
    requires g.Linked() && p < MAX_VALUE && |dist| == g.vs && Frontier(dist, Q, h) && h < |Q|
    ensures var t := Targets(g, p, dist, Q[h], 4);
      Frontier(Lowered(dist, t, dist[Q[h]] + 1), Q + t, h + 1) &&
      (forall x :: x in Q ==> x !in t) && |Q| + |t| <= g.vs
  {
    var u := Q[h];
    var t := Targets(g, p, dist, u, 4);
    TargetsDistinct(g, p, dist, u);
    forall i | 0 <= i < |t|
      ensures dist[t[i]] > dist[u] + 1
    {
      TargetsAreRelaxing(g, p, dist, u, t[i]);
    }
    FrontierAppend(dist, Q, h, t);
  }

  /** The same on sequences alone: appending distinct vertices that are all
      further than dist[Q[h]] + 1, and lowering them to it. */
  lemma FrontierAppend(dist: seq<int>, Q: seq<int>, h: int, t: seq<int>)
    requires Frontier(dist, Q, h) && h < |Q| && Distinct(t)
    requires forall i :: 0 <= i < |t| ==> 0 <= t[i] < |dist| && dist[t[i]] > dist[Q[h]] + 1
    ensures Frontier(Lowered(dist, t, dist[Q[h]] + 1), Q + t, h + 1)
    ensures (forall x :: x in Q ==> x !in t) && |Q| + |t| <= |dist|
  {
    var x := dist[Q[h]] + 1;
    var e := Lowered(dist, t, x);
    var Q' := Q + t;
    forall i | 0 <= i < |Q|
      ensures dist[Q[i]] <= x && Q[i] !in t && e[Q[i]] == dist[Q[i]]
    {
      if i < h {
        assert Nearer(dist, Q, i, h);
      } else if i < |Q| - 1 {
        assert Nearer(dist, Q, i, |Q| - 1);
      }
    }
    assert Distinct(Q') by {
      forall i, j | 0 <= i < j < |Q'|
        ensures Apart(Q', i, j)
      {
        if j < |Q| {
          assert Apart(Q, i, j);
        } else if i < |Q| {
          assert Q'[i] == Q[i];
        } else {
          assert Apart(t, i - |Q|, j - |Q|);
        }
      }
    }
    forall i, j | 0 <= i < j < |Q'|
      ensures Nearer(e, Q', i, j)
    {
      if j >= |Q| {
        assert Q'[j] in t;
      } else {
        assert Nearer(dist, Q, i, j);
      }
    }
    if h + 1 < |Q| {
      assert Nearer(dist, Q, h, h + 1);
    }
    if h + 1 < |Q'| && |t| > 0 {
      assert Q'[|Q'| - 1] in t;
      if h + 1 == |Q| {
        assert Q'[h + 1] in t;
      }
    }
    DistinctBound(Q', |dist|);
  }

  /** Who is pending after taking u = Q[h] off the queue and appending t:
      anything else that is not pending now was not pending before and is not
      among the targets. */
  lemma PendingShrinks(Q: seq<int>, h: int, t: seq<int>, P: set<int>, v: int)
    requires 0 <= h < |Q| && v != Q[h] && v !in P + Elems((Q + t)[h + 1..])
    ensures v !in P + Elems(Q[h..]) && v !in t
  {
    var rest := (Q + t)[h + 1..];
    forall i | 0 <= i < |t|
      ensures t[i] != v
    {
      assert rest[|Q| - h - 1 + i] == t[i];
    }
    forall i | 0 < i < |Q| - h
      ensures Q[h..][i] != v
    {
      assert rest[i - 1] == Q[h..][i];
    }
  }

  /** Taking u = Q[h] off the queue and relaxing its edges closes u: what was
      pending is now only the rest of the queue and the targets. */
  lemma RelaxClosed(g: Net, p: int, dist: seq<int>, Q: seq<int>, h: int, P: set<int>)
    requires g.Linked() && p < MAX_VALUE && |dist| == g.vs && 0 <= h < |Q| && 0 <= Q[h] < g.vs
    requires ClosedExcept(g, p, dist, P + Elems(Q[h..]))
    ensures var t := Targets(g, p, dist, Q[h], 4);
      ClosedExcept(g, p, Lowered(dist, t, dist[Q[h]] + 1), P + Elems((Q + t)[h + 1..]))
  {
    var u := Q[h];
    var t := Targets(g, p, dist, u, 4);
    var e := Lowered(dist, t, dist[u] + 1);
    var pend := P + Elems((Q + t)[h + 1..]);
    TargetsDistinct(g, p, dist, u);
    forall v, d | 0 <= v < g.vs && v !in pend && e[v] < MAX_VALUE && Step(g, p, v, d)
      ensures e[g.next[d][v]] <= e[v] + 1
    {
      TargetsAreRelaxing(g, p, dist, u, g.next[d][v]);
      if v == u {
        if Relaxes(g, p, dist, u, d) {
          RelaxedEnd(g, p, dist, u, d);
        }
      } else {
        PendingShrinks(Q, h, t, P, v);
      }
    }
  }

  /** What holds while the queue drains, with P pending besides the live
      part of the queue. */
  ghost predicate Draining(g: Net, p: int, P: set<int>, dist: seq<int>, Q: seq<int>, h: int)
  {
    |dist| == g.vs && Frontier(dist, Q, h) && Sound(g, p, dist) &&
    ClosedExcept(g, p, dist, P + Elems(Q[h..]))
  }

  /** One round of the drain loop: u = Q[h] leaves the queue and its targets
      t join it with distance dist[u] + 1, giving the distances e. */
  lemma RelaxStep(g: Net, p: int, P: set<int>, dist: seq<int>, Q: seq<int>, h: int, t: seq<int>, e: seq<int>)
    requires g.Linked() && p < MAX_VALUE && Draining(g, p, P, dist, Q, h) && h < |Q|
    requires t == Targets(g, p, dist, Q[h], 4) && e == Lowered(dist, t, dist[Q[h]] + 1)
    ensures Draining(g, p, P, e, Q + t, h + 1)
    ensures |Q| + |t| <= g.vs
    ensures forall v :: 0 <= v < g.vs ==> e[v] <= dist[v]
  {
    assert Sound(g, p, e) && (forall v :: 0 <= v < g.vs ==> e[v] <= dist[v]) &&
      Frontier(e, Q + t, h + 1) && |Q| + |t| <= g.vs by {
      RelaxKeeps(g, p, dist, Q, h);
    }
    assert ClosedExcept(g, p, e, P + Elems((Q + t)[h + 1..])) by {
      RelaxClosed(g, p, dist, Q, h, P);
    }
  }

  /** The part of a round that does not depend on what is pending. */
  lemma RelaxKeeps(g: Net, p: int, dist: seq<int>, Q: seq<int>, h: int)
    requires g.Linked() && p < MAX_VALUE && Sound(g, p, dist) && Frontier(dist, Q, h) && h < |Q|
    ensures var t := Targets(g, p, dist, Q[h], 4);
      var e := Lowered(dist, t, dist[Q[h]] + 1);
      Sound(g, p, e) && (forall v :: 0 <= v < g.vs ==> e[v] <= dist[v]) &&
      Frontier(e, Q + t, h + 1) && |Q| + |t| <= g.vs
  {
    var t := Targets(g, p, dist, Q[h], 4);
    var e := Lowered(dist, t, dist[Q[h]] + 1);
    assert Sound(g, p, e) && forall v :: 0 <= v < g.vs ==> e[v] <= dist[v] by {
      RelaxSound(g, p, dist, Q[h]);
    }
    assert Frontier(e, Q + t, h + 1) && |Q| + |t| <= g.vs by {
      RelaxFrontier(g, p, dist, Q, h);
    }
  }

  /** The queue, sized vs, has room for the targets of its next vertex. */
  lemma QueueRoom(g: Net, p: int, dist: seq<int>, Q: seq<int>, h: int)
    requires g.Linked() && p < MAX_VALUE && |dist| == g.vs && Frontier(dist, Q, h) && h < |Q|
    ensures |Q| + |Targets(g, p, dist, Q[h], 4)| <= g.vs
  {
    RelaxFrontier(g, p, dist, Q, h);
  }
}
