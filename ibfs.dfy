/** IBFS.java: the incremental engine.  After the first step it keeps the
    distances of the previous threshold and, when the threshold rises, only
    queues the ends of the edges that were turned on and sweeps from each of
    them, instead of recomputing from the root. */
module IbfsSpt {
  import opened Lattice
  import opened Graphs
  import opened Queues
  import opened Paths
  import opened Sorting
  import opened Activation
  import opened BfsSpt

  class Ibfs {
    /** The BFS engine it extends: graph, distances and main queue. */
    const b: Bfs
    /** aq, the auxiliary queue of activated vertices. */
    const aq: IntQueue
    /** se[R] and se[D]: the vertices sorted by threshold in R and D. */
    const seR: array<int>
    const seD: array<int>
    /** sei[R] and sei[D]: the cursors into se[R] and se[D]. */
    const sei: array<int>
    /** The threshold of the last update. */
    ghost var last: int

    function Se(d: int): array<int>
    {
      if d == R then seR else seD
    }

    /** The BFS part is valid and so are the buffers of its own. */
    ghost predicate Valid()
      reads this, b, b.g.epn, b.g.ax, b.g.xy, b.g.next, b.q, aq
    {
      b.Valid() && Ready()
    }

    /** What the loops rely on: the BFS part is ready, the graph has its
        shape, the buffers are vs long and no two arrays are the same. */
    ghost predicate Ready()
      reads this, b, b.g.epn, b.g.next, b.q, aq
    {
      b.Ready() && Buffers()
    }

    ghost predicate Buffers()
      reads aq
    {
      aq.Valid() && aq.a.Length == 4 * b.g.vs && aq != b.q &&
      seR.Length == b.g.vs && seD.Length == b.g.vs && sei.Length == 2 &&
      aq.a != b.dists && aq.a != b.q.a &&
      seR != seD && seR != sei && seD != sei &&
      seR != b.dists && seR != b.q.a && seR != aq.a &&
      seD != b.dists && seD != b.q.a && seD != aq.a &&
      sei != b.dists && sei != b.q.a && sei != aq.a
    }

    /** After reset: both se arrays are permutations of the vertices ordered
        by threshold. */
    ghost predicate Sorted()
      reads this, b, b.g.epn, b.g.next, b.q, aq, seR, seD
    {
      Ready() &&
      Perm(seR[..], b.g.vs) && Perm(seD[..], b.g.vs) &&
      Ordered(b.net, R, seR[..]) && Ordered(b.net, D, seD[..])
    }

    /** After an update at `last`: the queues are empty, the distances are the
        shortest ones at `last`, and each cursor splits its se array at
        `last`. */
    ghost predicate Synced()
      reads this, b, b.g.epn, b.g.next, b.q, aq, seR, seD, sei, b.dists
    {
      Sorted() && b.Idle() && aq.start == 0 && aq.end == 0 && last < MAX_VALUE &&
      IsShortest(b.net, last, b.dists[..]) &&
      Split(b.net, R, seR[..], sei[R], last) && Split(b.net, D, seD[..], sei[D], last)
    }

    /** create(gc, g): the BFS arrays, an auxiliary queue of its own array,
        and both se arrays the identity permutation.  The source sizes aq at
        vs entries, which a single update can overrun (AuxOverflow.AsWrittenOverflows);
        here aq has 4 * vs, two for each right and each down slot. */
    constructor (g: Graph)
      requires g.Valid()
      ensures b.g == g && Valid() && b.Idle() && aq.start == 0 && aq.end == 0
      ensures forall v :: 0 <= v < g.vs ==> seR[v] == v && seD[v] == v
      ensures Perm(seR[..], g.vs) && Perm(seD[..], g.vs)
    {
      b := new Bfs(g);
      var buf := new int[4 * g.vs];
      aq := new IntQueue(buf);
      var sr := Range(g.vs);
      var sd := Range(g.vs);
      seR, seD := sr, sd;
      sei := new int[2];
    }

    /** init(seed): the graph draws its thresholds, then reset sorts. */
    method Init(draws: seq<int>)
      requires Valid() && b.Idle() && Perm(seR[..], b.g.vs) && Perm(seD[..], b.g.vs)
      requires |draws| >= SlotsBefore(OpenR(b.g.r), OpenD(b.g.r, b.g.skip), b.g.vs)
      requires forall i :: 0 <= i < |draws| ==> 0 <= draws[i] <= b.g.div
      modifies b`net, b.g, b.g.epn, b.dists, seR, seD
      ensures Sorted() && b.Idle() && aq.start == old(aq.start) && aq.end == old(aq.end)
      ensures b.g.pn == b.g.from && b.dists[..] == Fresh(b.net)
    {
      b.Init(draws);
      Reset();
    }

    /** reset(): the BFS reset, then se[R] and se[D] sorted by threshold.
        Each stays a permutation of the vertices. */
    method Reset()
      requires Valid() && b.q.Size() == 0 && Perm(seR[..], b.g.vs) && Perm(seD[..], b.g.vs)
      modifies b.dists, seR, seD
      ensures Sorted() && b.dists[..] == Fresh(b.net)
      ensures multiset(seR[..]) == multiset(old(seR[..])) && multiset(seD[..]) == multiset(old(seD[..]))
    {
      b.Reset();
      SortSe(R);
      SortSe(D);
    }

    /** parallelQuickSortIndirect(se[d], g.epn[d]). */
    method SortSe(d: int)
      requires Ready() && (d == R || d == D) && Perm(Se(d)[..], b.g.vs)
      modifies Se(d)
      ensures Ready() && Perm(Se(d)[..], b.g.vs) && Ordered(b.net, d, Se(d)[..])
      ensures multiset(Se(d)[..]) == multiset(old(Se(d)[..]))
    {
      var se := Se(d);
      var key := b.g.EpnRow(d);
      assert key == b.net.epn[d];
      SortIndirect(se, 0, se.Length, key);
      assert se[0..se.Length] == se[..];
      assert old(se[0..se.Length]) == old(se[..]);
      PermKept(old(se[..]), se[..], b.g.vs);
    }

    /** preUpdate(pn): only records the threshold; the distances are kept. */
    method PreUpdate(pn: int)
      modifies b.g`pn
      ensures b.g.pn == pn
    {
      b.g.Update(pn);
    }

    /** The slots that cross a threshold rising to pn fit the auxiliary queue,
        two entries each. */
    ghost predicate Room(pn: int)
      reads this, b, b.g.epn, b.g.next, b.q, aq, seR, seD, sei
      requires Sorted() && 0 <= sei[R] <= b.g.vs && 0 <= sei[D] <= b.g.vs
    {
      aq.end + 2 * (b.g.FirstAbove(seR[..], R, sei[R], pn) - sei[R])
             + 2 * (b.g.FirstAbove(seD[..], D, sei[D], pn) - sei[D]) <= aq.a.Length
    }

    /** With 4 * vs entries the auxiliary queue always has room: each
        direction passes at most vs slots, two entries each. */
    lemma RoomAlways(pn: int)
      requires Sorted() && aq.end == 0 && 0 <= sei[R] <= b.g.vs && 0 <= sei[D] <= b.g.vs
      ensures Room(pn)
    {
      b.g.FirstAboveSpec(seR[..], R, sei[R], pn);
      b.g.FirstAboveSpec(seD[..], D, sei[D], pn);
    }

    /** update(pn).  At the first threshold: a BFS from the root, then each
        cursor advances past the slots that are on.  Later: queue the ends of
        the slots turned on since the last update, sort them by distance and
        sweep from each.  Either way the distances become the shortest ones
        at pn and never rise, and an update at an unchanged threshold changes
        nothing. */
    method Update(pn: int)
      requires Valid() && Sorted() && pn == b.g.pn && pn < MAX_VALUE && b.Idle() && aq.start == 0 && aq.end == 0
      requires pn == b.g.from ==> Seeded(b.net, pn, b.dists[..])
      requires pn != b.g.from ==> Synced() && last <= pn
      modifies b.dists, b.q, b.q.a, aq, aq.a, sei, this`last
      ensures Valid() && Synced() && last == pn
      ensures forall v :: 0 <= v < b.g.vs ==> b.dists[v] <= old(b.dists[v])
      ensures pn != b.g.from && old(last) == pn ==>
        b.dists[..] == old(b.dists[..]) && sei[R] == old(sei[R]) && sei[D] == old(sei[D])
    {
      if pn == b.g.from {
        FirstUpdate(pn);
      } else {
        Incremental(pn);
      }
      last := pn;
    }

    /** The pn == from branch of update: both cursors back to 0, a BFS from
        the root, then each cursor advances past the slots that are on. */
    method FirstUpdate(pn: int)
      requires Valid() && Sorted() && pn == b.g.pn && pn < MAX_VALUE && b.Idle()
      requires Seeded(b.net, pn, b.dists[..])
      modifies b.dists, b.q, b.q.a, sei
      ensures Valid() && Sorted() && b.Idle()
      ensures IsShortest(b.net, pn, b.dists[..])
      ensures Split(b.net, R, seR[..], sei[R], pn) && Split(b.net, D, seD[..], sei[D], pn)
      ensures forall v :: 0 <= v < b.g.vs ==> b.dists[v] <= old(b.dists[v])
    {
      sei[R], sei[D] := 0, 0;
      b.Update();
      PassActive(pn);
    }

    /** The two while loops of the pn == from branch: from 0 each cursor
        moves past the slots on at pn, and so splits its se at pn. */
    method PassActive(pn: int)
      requires Sorted() && sei[R] == 0 && sei[D] == 0
      modifies sei
      ensures Sorted()
      ensures Split(b.net, R, seR[..], sei[R], pn) && Split(b.net, D, seD[..], sei[D], pn)
    {
      SkipActive(pn, R);
      SkipActive(pn, D);
      StartSplits(b.g, b.net, seR[..], R, pn);
      StartSplits(b.g, b.net, seD[..], D, pn);
    }

    /** The pn == from branch's while loop over se[d]: sei[d] moves past
        every slot on at pn. */
    method SkipActive(pn: int, d: int)
      requires Ready() && (d == R || d == D) && Perm(Se(d)[..], b.g.vs) && 0 <= sei[d] <= b.g.vs
      modifies sei
      ensures Ready() && sei[d] == b.g.FirstAbove(Se(d)[..], d, old(sei[d]), pn)
      ensures sei[1 - d] == old(sei[1 - d])
    {
      var se := Se(d);
      ghost var s := se[..];
      b.g.FirstAboveSpec(s, d, sei[d], pn);
      ghost var k := b.g.FirstAbove(s, d, sei[d], pn);
      while sei[d] < b.g.vs && b.g.epn[d, se[sei[d]]] <= pn
        invariant old(sei[d]) <= sei[d] <= k && sei[1 - d] == old(sei[1 - d]) && se[..] == s
        decreases b.g.vs - sei[d]
      {
        sei[d] := sei[d] + 1;
      }
    }

    /** enqueueActivated(pn, dir): for every slot from sei[dir] on that is on
        at pn, the vertex and its neighbour are queued on aq; sei[dir] ends at
        the first slot still off, which is findGreater(se[dir], dir,
        sei[dir], pn). */
    method EnqueueActivatedDir(pn: int, dir: int)
      requires Ready() && (dir == R || dir == D) && pn < MAX_VALUE
      requires Perm(Se(dir)[..], b.g.vs) && 0 <= sei[dir] <= b.g.vs
      requires aq.end + 2 * (b.g.FirstAbove(Se(dir)[..], dir, sei[dir], pn) - sei[dir]) <= aq.a.Length
      modifies aq, aq.a, sei
      ensures Ready() && aq.start == old(aq.start)
      ensures sei[dir] == b.g.FirstAbove(Se(dir)[..], dir, old(sei[dir]), pn) && old(sei[dir]) <= sei[dir] <= b.g.vs
      ensures sei[1 - dir] == old(sei[1 - dir])
      ensures aq.Contents() == old(aq.Contents()) + Pairs(b.net, dir, Se(dir)[..], old(sei[dir]), sei[dir])
    {
      var i := EnqueueFrom(b.g, b.net, Se(dir), dir, pn, aq, sei[dir]);
      sei[dir] := i;
    }

    /** enqueueActivated(pn): direction R, then D; returns aq.size(). */
    method EnqueueActivated(pn: int) returns (n: int)
      requires Sorted() && pn < MAX_VALUE && 0 <= sei[R] <= b.g.vs && 0 <= sei[D] <= b.g.vs && aq.end == 0
      modifies aq, aq.a, sei
      ensures Sorted() && aq.start == old(aq.start) && n == |aq.Contents()|
      ensures b.dists[..] == old(b.dists[..]) && seR[..] == old(seR[..]) && seD[..] == old(seD[..])
      ensures sei[R] == b.g.FirstAbove(seR[..], R, old(sei[R]), pn) && old(sei[R]) <= sei[R] <= b.g.vs
      ensures sei[D] == b.g.FirstAbove(seD[..], D, old(sei[D]), pn) && old(sei[D]) <= sei[D] <= b.g.vs
      ensures aq.Contents() == Pairs(b.net, R, seR[..], old(sei[R]), sei[R]) + Pairs(b.net, D, seD[..], old(sei[D]), sei[D])
    {
      RoomAlways(pn);
      EnqueueActivatedDir(pn, R);
      EnqueueActivatedDir(pn, D);
      n := aq.Size();
    }

    /** The pn != from branch of update. */
    method Incremental(pn: int)
      requires Synced() && pn == b.g.pn && last <= pn < MAX_VALUE
      modifies b.dists, b.q, b.q.a, aq, aq.a, sei
      ensures Sorted() && b.Idle() && aq.start == 0 && aq.end == 0
      ensures IsShortest(b.net, pn, b.dists[..])
      ensures Split(b.net, R, seR[..], sei[R], pn) && Split(b.net, D, seD[..], sei[D], pn)
      ensures forall v :: 0 <= v < b.g.vs ==> b.dists[v] <= old(b.dists[v])
      ensures old(last) == pn ==>
        b.dists[..] == old(b.dists[..]) && sei[R] == old(sei[R]) && sei[D] == old(sei[D])
    {
      ghost var D0 := b.dists[..];
      var n, A := Activate(pn);
      if n > 0 {
        SortAux(A);
        ProcessAuxQueue();
      } else {
        ShortestFromClosed(b.net, pn, D0);
      }
    }

    /** The first half of the pn != from branch: enqueueActivated(pn).  The
        cursors move to pn, and the distances of the last threshold are
        sound at pn and closed except at the queued vertices A. */
    method Activate(pn: int) returns (n: int, ghost A: seq<int>)
      requires Synced() && pn == b.g.pn && last <= pn < MAX_VALUE
      modifies aq, aq.a, sei
      ensures Sorted() && b.Idle() && aq.start == 0 && aq.Contents() == A && n == |A|
      ensures forall i :: 0 <= i < |A| ==> 0 <= A[i] < b.g.vs
      ensures Split(b.net, R, seR[..], sei[R], pn) && Split(b.net, D, seD[..], sei[D], pn)
      ensures Sound(b.net, pn, b.dists[..]) && ClosedExcept(b.net, pn, b.dists[..], Elems(A))
      ensures b.dists[b.g.root] == 0
      ensures last == pn ==> sei[R] == old(sei[R]) && sei[D] == old(sei[D]) && n == 0
    {
      ghost var N, p0, sR, sD, cR, cD, D0 := b.net, last, seR[..], seD[..], sei[R], sei[D], b.dists[..];
      n := EnqueueActivated(pn);
      A := aq.Contents();
      ActivateSpan(b.g, N, p0, pn, sR, sD, cR, sei[R], cD, sei[D], A, D0);
    }

    /** parallelQuickSortIndirect(aq.a, dists, aq.start, aq.end): the queued
        vertices, ordered by distance. */
    method SortAux(ghost A: seq<int>)
      requires Ready() && aq.Contents() == A && forall i :: 0 <= i < |A| ==> 0 <= A[i] < b.g.vs
      modifies aq.a
      ensures Ready() && aq.start == old(aq.start) && aq.end == old(aq.end)
      ensures Elems(aq.Contents()) == Elems(A) && SortedByKey(aq.Contents(), b.dists[..])
      ensures forall i :: aq.start <= i < aq.end ==> 0 <= aq.a[i] < b.g.vs
    {
      SortIndirect(aq.a, aq.start, aq.end, b.dists[..]);
      SameElems(A, aq.Contents());
    }

    /** processAuxQueue(): each vertex of aq in turn is queued on q and q is
        drained.  Entering with sound distances that are closed except at
        the vertices of aq, it leaves both queues empty and the shortest
        distances. */
    method ProcessAuxQueue()
      requires Ready() && b.Idle() && b.g.pn < MAX_VALUE
      requires forall i :: aq.start <= i < aq.end ==> 0 <= aq.a[i] < b.g.vs
      requires Sound(b.net, b.g.pn, b.dists[..]) && b.dists[b.g.root] == 0
      requires ClosedExcept(b.net, b.g.pn, b.dists[..], Elems(aq.Contents()))
      modifies b.dists, b.q, b.q.a, aq
      ensures Ready() && b.Idle() && aq.start == 0 && aq.end == 0
      ensures IsShortest(b.net, b.g.pn, b.dists[..])
      ensures forall v :: 0 <= v < b.g.vs ==> b.dists[v] <= old(b.dists[v])
    {
      while aq.Size() != 0
        invariant Ready() && b.Idle() && aq.end == old(aq.end)
        invariant forall i :: aq.start <= i < aq.end ==> 0 <= aq.a[i] < b.g.vs
        invariant Sound(b.net, b.g.pn, b.dists[..]) && b.dists[b.g.root] == 0
        invariant ClosedExcept(b.net, b.g.pn, b.dists[..], Elems(aq.Contents()))
        invariant forall v :: 0 <= v < b.g.vs ==> b.dists[v] <= old(b.dists[v])
        decreases aq.end - aq.start
      {
        ghost var C := aq.Contents();
        var s := aq.Dequeue();
        assert C == [s] + aq.Contents();
        assert Elems(C) == Elems(aq.Contents()) + {s};
        b.Sweep(s, Elems(aq.Contents()));
      }
      aq.Clear();
      ShortestFromClosed(b.net, b.g.pn, b.dists[..]);
    }

    /** When synchronised, each cursor is findGreater(se[d], d, 0, last). */
    lemma CursorIsFindGreater(d: int)
      requires Synced() && (d == R || d == D)
      ensures sei[d] == b.g.FirstAbove(Se(d)[..], d, 0, last)
    {
      var s := Se(d)[..];
      forall j | 0 <= j < sei[d]
        ensures b.g.epn[d, s[j]] <= last
      {
        assert b.net.epn[d][s[j]] <= last;
      }
      if sei[d] < |s| {
        assert b.net.epn[d][s[sei[d]]] > last;
      }
      b.g.FirstAboveIs(s, d, 0, last, sei[d]);
    }
  }

  /** IntStream.range(0, n).toArray(): a fresh array holding 0 .. n-1, a
      permutation of the vertices when n is vs. */
  method Range(n: nat) returns (a: array<int>)
    ensures fresh(a) && a.Length == n && Perm(a[..], n)
    ensures forall v :: 0 <= v < n ==> a[v] == v
  {
    a := new int[n](i => i);
    IdentityPerm(a[..], n);
  }

  /** The identity permutation. */
  lemma IdentityPerm(s: seq<int>, n: int)
    requires |s| == n && forall v :: 0 <= v < n ==> s[v] == v
    ensures Perm(s, n)
  {
    forall v | 0 <= v < n
      ensures v in s
    {
      assert s[v] == v;
    }
  }

  /** From the first threshold on, a cursor at findGreater(s, d, 0, p)
      splits the sorted s at p. */
  lemma StartSplits(g: Graph, N: Net, s: seq<int>, d: int, p: int)
    requires g.Sized() && N.Sized() && N.vs == g.vs && (d == R || d == D)
    requires forall v :: 0 <= v < g.vs ==> N.epn[d][v] == g.epn[d, v]
    requires Perm(s, g.vs) && Ordered(N, d, s)
    ensures Split(N, d, s, g.FirstAbove(s, d, 0, p), p)
  {
    var c := g.FirstAbove(s, d, 0, p);
    g.FirstAboveSpec(s, d, 0, p);
    forall i | 0 <= i < c
      ensures N.epn[d][s[i]] <= p
    {
      assert g.epn[d, s[i]] <= p;
    }
    SplitFromFirst(N, d, s, c, p);
  }

  /** A cursor that split s at p0 and then moved on with findGreater to
      p1 >= p0 splits s at p1. */
  lemma AdvanceSplits(g: Graph, N: Net, s: seq<int>, d: int, c0: int, p0: int, p1: int)
    requires g.Sized() && N.Sized() && N.vs == g.vs && (d == R || d == D)
    requires forall v :: 0 <= v < g.vs ==> N.epn[d][v] == g.epn[d, v]
    requires Perm(s, g.vs) && Ordered(N, d, s) && p0 <= p1 && Split(N, d, s, c0, p0)
    ensures Split(N, d, s, g.FirstAbove(s, d, c0, p1), p1)
  {
    var c := g.FirstAbove(s, d, c0, p1);
    g.FirstAboveSpec(s, d, c0, p1);
    forall i | c0 <= i < c
      ensures N.epn[d][s[i]] <= p1
    {
      assert g.epn[d, s[i]] <= p1;
    }
    SplitAdvance(N, d, s, c0, p0, c, p1);
  }

  /** What a rise of the threshold from p0 to p1 does to cursors that
      split the sorted se arrays at p0: moved on with findGreater they split
      them at p1, and the ends of the slots between are the vertices where
      the shortest distances at p0 may stop being closed at p1. */
  lemma ActivateSpan(g: Graph, N: Net, p0: int, p1: int, sR: seq<int>, sD: seq<int>,
                     r0: int, r1: int, d0: int, d1: int, A: seq<int>, dist: seq<int>)
    requires g.Sized() && N.Sized() && N.vs == g.vs && N.Linked()
    requires forall d, v :: 0 <= d < 4 && 0 <= v < g.vs ==> N.epn[d][v] == g.epn[d, v] && N.next[d][v] == g.next[d, v]
    requires Perm(sR, g.vs) && Perm(sD, g.vs) && Ordered(N, R, sR) && Ordered(N, D, sD)
    requires p0 <= p1 < MAX_VALUE && Split(N, R, sR, r0, p0) && Split(N, D, sD, d0, p0)
    requires r1 == g.FirstAbove(sR, R, r0, p1) && d1 == g.FirstAbove(sD, D, d0, p1)
    requires A == Pairs(N, R, sR, r0, r1) + Pairs(N, D, sD, d0, d1)
    requires IsShortest(N, p0, dist)
    ensures Split(N, R, sR, r1, p1) && Split(N, D, sD, d1, p1)
    ensures Sound(N, p1, dist) && ClosedExcept(N, p1, dist, Elems(A)) && dist[N.root] == 0
    ensures forall i :: 0 <= i < |A| ==> 0 <= A[i] < N.vs
    ensures p0 == p1 ==> r0 == r1 && d0 == d1 && A == []
  {
    AdvanceSplits(g, N, sR, R, r0, p0, p1);
    AdvanceSplits(g, N, sD, D, d0, p0, p1);
    g.FirstAboveSpec(sR, R, r0, p1);
    g.FirstAboveSpec(sD, D, d0, p1);
    Enqueued(N, p0, p1, sR, sD, r0, r1, d0, d1, A, dist);
  }

  /** One simulation step with this engine: preUpdate(pn) then update(pn).
      The first step starts from reset distances; later ones from the last
      step's.  Either way the distances are the shortest ones at pn. */
  method IncrementalStep(e: Ibfs, pn: int)
    requires e.Valid() && pn < MAX_VALUE
    requires pn == e.b.g.from ==>
      e.Sorted() && e.b.Idle() && e.aq.start == 0 && e.aq.end == 0 && e.b.dists[..] == Fresh(e.b.net)
    requires pn != e.b.g.from ==> e.Synced() && e.last <= pn
    modifies e.b.g`pn, e.b.dists, e.b.q, e.b.q.a, e.aq, e.aq.a, e.sei, e`last
    ensures e.Valid() && e.Synced() && e.last == pn && e.b.g.pn == pn
    ensures IsShortest(e.b.net, pn, e.b.dists[..])
  {
    e.PreUpdate(pn);
    if pn == e.b.g.from {
      FreshStart(e.b.net, pn);
    }
    e.Update(pn);
  }

  /** The loop of enqueueActivated(pn, dir): from position lo of se on,
      while the slot is on at pn, queue the vertex and its neighbour in
      direction dir.  It stops at findGreater(se, dir, lo, pn). */
  method EnqueueFrom(g: Graph, ghost N: Net, se: array<int>, dir: int, pn: int, aq: IntQueue, lo: int)
    returns (i: int)
    requires g.Sized() && IsDir(dir) && N.Sized() && N.vs == g.vs
    requires forall v :: 0 <= v < g.vs ==> N.next[dir][v] == g.next[dir, v]
    requires se.Length == g.vs && forall j :: 0 <= j < se.Length ==> 0 <= se[j] < g.vs
    requires aq.Valid() && aq.a != se && 0 <= lo <= se.Length
    requires aq.end + 2 * (g.FirstAbove(se[..], dir, lo, pn) - lo) <= aq.a.Length
    modifies aq, aq.a
    ensures i == g.FirstAbove(se[..], dir, lo, pn)
    ensures aq.Valid() && aq.start == old(aq.start)
    ensures aq.Contents() == old(aq.Contents()) + Pairs(N, dir, se[..], lo, i)
  {
    ghost var s, A0 := se[..], aq.Contents();
    g.FirstAboveSpec(s, dir, lo, pn);
    ghost var k := g.FirstAbove(s, dir, lo, pn);
    i := lo;
    while i < se.Length && g.epn[dir, se[i]] <= pn
      invariant lo <= i <= k && se[..] == s
      invariant aq.Valid() && aq.start == old(aq.start) && aq.end == old(aq.end) + 2 * (i - lo)
      invariant aq.Contents() == A0 + Pairs(N, dir, s, lo, i)
      decreases se.Length - i
    {
      aq.EnqueuePair(se[i], g.Next(se[i], dir));
      i := i + 1;
    }
  }
}
