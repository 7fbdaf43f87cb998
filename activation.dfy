/** The bookkeeping behind IBFS.java's incremental step.  se[d] lists the
    vertices by ascending threshold of their slot d (d in {R, D}), and the
    cursor sei[d] separates the slots that are on at the last threshold from
    those that are not.  Raising the threshold turns on exactly the slots
    between the old and the new cursor; every edge that turns on has one of
    them at one of its two ends, so those vertices are the only ones whose
    edges may still shorten a distance. */
module Activation {
  import opened Lattice
  import opened Graphs
  import opened Paths
  import opened Sorting

  /** s is a permutation of 0 .. n-1: n entries, each a vertex, every vertex
      among them (so none twice). */
  ghost predicate Perm(s: seq<int>, n: int)
  {
    |s| == n && (forall i :: 0 <= i < |s| ==> 0 <= s[i] < n) &&
    forall v :: 0 <= v < n ==> v in s
  }

  /** Reordering keeps the set of entries. */
  lemma SameElems(s: seq<int>, t: seq<int>)
    requires multiset(s) == multiset(t)
    ensures Elems(s) == Elems(t)
  {
    forall x
      ensures x in s <==> x in t
    {
      assert x in s <==> x in multiset(s);
      assert x in t <==> x in multiset(t);
    }
  }

  /** A reordering of a permutation is a permutation. */
  lemma PermKept(s: seq<int>, t: seq<int>, n: int)
    requires Perm(s, n) && multiset(s) == multiset(t)
    ensures Perm(t, n)
  {
    SameElems(s, t);
    assert |t| == |multiset(t)| == |multiset(s)| == |s|;
    assert forall i :: 0 <= i < |t| ==> t[i] in Elems(t);
    forall v | 0 <= v < n
      ensures v in t
    {
      assert v in Elems(s);
    }
  }

  /** s is ordered by the thresholds of its vertices in direction d. */
  ghost predicate Ordered(g: Net, d: int, s: seq<int>)
  {
    g.Sized() && IsDir(d) && SortedByKey(s, g.epn[d])
  }

  /** Cursor c splits s at threshold p: before c every slot is on, from c on
      every slot is off. */
  ghost predicate Split(g: Net, d: int, s: seq<int>, c: int, p: int)
  {
    g.Sized() && IsDir(d) && 0 <= c <= |s| &&
    (forall i :: 0 <= i < |s| ==> 0 <= s[i] < g.vs) &&
    (forall i :: 0 <= i < c ==> g.epn[d][s[i]] <= p) &&
    (forall i :: c <= i < |s| ==> g.epn[d][s[i]] > p)
  }

  /** What enqueueActivated(pn, d) appends: for each position from lo to
      hi, the vertex and its neighbour in direction d. */
  ghost function Pairs(g: Net, d: int, s: seq<int>, lo: int, hi: int): (a: seq<int>)
    requires g.Sized() && IsDir(d) && 0 <= lo <= hi <= |s|
    requires forall i :: 0 <= i < |s| ==> 0 <= s[i] < g.vs
    ensures |a| == 2 * (hi - lo)
    decreases hi
  {
    if hi == lo then [] else Pairs(g, d, s, lo, hi - 1) + [s[hi - 1], g.next[d][s[hi - 1]]]
  }

  /** Both ends of every slot between lo and hi are among the pairs. */
  lemma {:induction false} PairsHas(g: Net, d: int, s: seq<int>, lo: int, hi: int, k: int)
    requires g.Sized() && IsDir(d) && 0 <= lo <= k < hi <= |s|
    requires forall i :: 0 <= i < |s| ==> 0 <= s[i] < g.vs
    ensures s[k] in Elems(Pairs(g, d, s, lo, hi)) && g.next[d][s[k]] in Elems(Pairs(g, d, s, lo, hi))
    decreases hi
  {
    var a := Pairs(g, d, s, lo, hi);
    if k == hi - 1 {
      assert a[|a| - 2] == s[k] && a[|a| - 1] == g.next[d][s[k]];
    } else {
      PairsHas(g, d, s, lo, hi - 1, k);
      var b := Pairs(g, d, s, lo, hi - 1);
      assert a == b + [s[hi - 1], g.next[d][s[hi - 1]]];
      assert forall x :: x in b ==> x in a;
    }
  }

  /** When the slots between lo and hi are on at p < MAX_VALUE, every entry
      of the pairs is a vertex. */
  lemma {:induction false} PairsAreVertices(g: Net, d: int, s: seq<int>, lo: int, hi: int, p: int)
    requires g.Linked() && IsDir(d) && 0 <= lo <= hi <= |s| && p < MAX_VALUE
    requires forall i :: 0 <= i < |s| ==> 0 <= s[i] < g.vs
    requires forall i :: lo <= i < hi ==> g.epn[d][s[i]] <= p
    ensures forall i :: 0 <= i < |Pairs(g, d, s, lo, hi)| ==> 0 <= Pairs(g, d, s, lo, hi)[i] < g.vs
    decreases hi
  {
    if hi > lo {
      PairsAreVertices(g, d, s, lo, hi - 1, p);
      var v := s[hi - 1];
      assert 0 <= g.next[d][v] < g.vs;
    }
  }

  /** A cursor that stops at the first slot above p once every slot before
      it is on splits a sorted s at p. */
  lemma SplitFromFirst(g: Net, d: int, s: seq<int>, c: int, p: int)
    requires Ordered(g, d, s) && 0 <= c <= |s| && (forall i :: 0 <= i < |s| ==> 0 <= s[i] < g.vs)
    requires forall i :: 0 <= i < c ==> g.epn[d][s[i]] <= p
    requires c < |s| ==> g.epn[d][s[c]] > p
    ensures Split(g, d, s, c, p)
  {
    forall i | c < i < |s|
      ensures g.epn[d][s[i]] > p
    {
      assert InOrder(s, g.epn[d], c, i);
    }
  }

  /** The cursor moved on from a split at p0 to the first slot above p1
      splits s at p1. */
  lemma SplitAdvance(g: Net, d: int, s: seq<int>, c0: int, p0: int, c1: int, p1: int)
    requires Ordered(g, d, s) && Split(g, d, s, c0, p0) && p0 <= p1 && c0 <= c1 <= |s|
    requires forall i :: c0 <= i < c1 ==> g.epn[d][s[i]] <= p1
    requires c1 < |s| ==> g.epn[d][s[c1]] > p1
    ensures Split(g, d, s, c1, p1)
  {
    SplitFromFirst(g, d, s, c1, p1);
  }

  /** The split at p is unique: a threshold that did not move leaves the
      cursor where it was. */
  lemma SplitUnique(g: Net, d: int, s: seq<int>, c1: int, c2: int, p: int)
    requires Split(g, d, s, c1, p) && Split(g, d, s, c2, p)
    ensures c1 < |s| ==> g.epn[d][s[c1]] > p
    ensures c2 < |s| ==> g.epn[d][s[c2]] > p
    ensures c1 == c2
  {
  }

  /** A slot in direction R or D that is on at p1 but not at p0 lies between
      the two cursors, and both its ends are among the pairs. */
  lemma Crossing(g: Net, d: int, s: seq<int>, c0: int, p0: int, c1: int, p1: int, u: int)
    requires Perm(s, g.vs) && Split(g, d, s, c0, p0) && Split(g, d, s, c1, p1)
    requires 0 <= u < g.vs && p0 < g.epn[d][u] <= p1
    ensures c0 <= c1
    ensures u in Elems(Pairs(g, d, s, c0, c1)) && g.next[d][u] in Elems(Pairs(g, d, s, c0, c1))
  {
    assert u in s;
    var i :| 0 <= i < |s| && s[i] == u;
    assert c0 <= i < c1;
    PairsHas(g, d, s, c0, c1, i);
  }

  /** enqueueActivated covers every edge that turned on: for each slot that
      is on at p1 and was off at p0, its vertex is among the vertices queued
      for direction R or D. */
  lemma Activated(g: Net, p0: int, p1: int, sR: seq<int>, sD: seq<int>,
                  r0: int, r1: int, d0: int, d1: int, A: seq<int>)
    requires g.Linked() && p1 < MAX_VALUE && Perm(sR, g.vs) && Perm(sD, g.vs)
    requires Split(g, R, sR, r0, p0) && Split(g, R, sR, r1, p1)
    requires Split(g, D, sD, d0, p0) && Split(g, D, sD, d1, p1)
    requires r0 <= r1 && d0 <= d1
    requires A == Pairs(g, R, sR, r0, r1) + Pairs(g, D, sD, d0, d1)
    ensures forall u, e :: 0 <= u < g.vs && Step(g, p1, u, e) && g.epn[e][u] > p0 ==> u in Elems(A)
  {
    var AR, AD := Pairs(g, R, sR, r0, r1), Pairs(g, D, sD, d0, d1);
    assert forall x :: x in AR || x in AD ==> x in A;
    forall u, e | 0 <= u < g.vs && Step(g, p1, u, e) && g.epn[e][u] > p0
      ensures u in Elems(A)
    {
      if e == R {
        Crossing(g, R, sR, r0, p0, r1, p1, u);
      } else if e == D {
        Crossing(g, D, sD, d0, p0, d1, p1, u);
      } else {
        var w := g.next[e][u];
        assert g.epn[Opp(e)][w] == g.epn[e][u] && g.next[Opp(e)][w] == u;
        if e == L {
          Crossing(g, R, sR, r0, p0, r1, p1, w);
        } else {
          Crossing(g, D, sD, d0, p0, d1, p1, w);
        }
      }
    }
  }

  /** The shortest distances at p0 stay sound when the threshold rises to p1,
      and they stay closed at every vertex outside S when every edge that
      turned on has a vertex of S at one end. */
  lemma Raise(g: Net, p0: int, p1: int, dist: seq<int>, S: set<int>)
    requires g.Linked() && p0 <= p1 < MAX_VALUE && IsShortest(g, p0, dist)
    requires forall u, e :: 0 <= u < g.vs && Step(g, p1, u, e) && g.epn[e][u] > p0 ==> u in S
    ensures Sound(g, p1, dist) && ClosedExcept(g, p1, dist, S) && dist[g.root] == 0
  {
    ClosedFromShortest(g, p0, dist);
    forall v | 0 <= v < g.vs
      ensures Backed(g, p1, dist, v)
    {
      assert Backed(g, p0, dist, v);
      if dist[v] < MAX_VALUE {
        ReachMonoP(g, p0, p1, v, dist[v]);
      }
    }
    forall u, d | 0 <= u < g.vs && u !in S && dist[u] < MAX_VALUE && Step(g, p1, u, d)
      ensures dist[g.next[d][u]] <= dist[u] + 1
    {
      assert Step(g, p0, u, d);
    }
  }

  /** Everything update(pn) needs from enqueueActivated: with the cursors
      moved from p0 to p1, the distances of p0 are sound at p1 and closed
      except at the queued vertices, which are all vertices; when the
      threshold did not move, nothing is queued. */
  lemma Enqueued(g: Net, p0: int, p1: int, sR: seq<int>, sD: seq<int>,
                 r0: int, r1: int, d0: int, d1: int, A: seq<int>, dist: seq<int>)
    requires g.Linked() && p0 <= p1 < MAX_VALUE && Perm(sR, g.vs) && Perm(sD, g.vs)
    requires Split(g, R, sR, r0, p0) && Split(g, R, sR, r1, p1)
    requires Split(g, D, sD, d0, p0) && Split(g, D, sD, d1, p1)
    requires r0 <= r1 && d0 <= d1
    requires A == Pairs(g, R, sR, r0, r1) + Pairs(g, D, sD, d0, d1)
    requires IsShortest(g, p0, dist)
    ensures Sound(g, p1, dist) && ClosedExcept(g, p1, dist, Elems(A)) && dist[g.root] == 0
    ensures forall i :: 0 <= i < |A| ==> 0 <= A[i] < g.vs
    ensures p0 == p1 ==> r0 == r1 && d0 == d1 && A == []
  {
    Activated(g, p0, p1, sR, sD, r0, r1, d0, d1, A);
    Raise(g, p0, p1, dist, Elems(A));
    PairsAreVertices(g, R, sR, r0, r1, p1);
    PairsAreVertices(g, D, sD, d0, d1, p1);
    if p0 == p1 {
      SplitUnique(g, R, sR, r0, r1, p1);
      SplitUnique(g, D, sD, d0, d1, p1);
    }
  }
}
