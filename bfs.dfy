/** BFS.java: the baseline shortest-path engine.  Every step resets the
    distances and runs a breadth-first relaxation from the root over the
    edges that are on at the graph's current threshold. */
module BfsSpt {
  import opened Lattice
  import opened Graphs
  import opened Queues
  import opened Paths
  import opened Relaxation

  class Bfs {
    const g: Graph
    const dists: array<int>
    const q: IntQueue
    /** The graph's tables as the engine reads them. */
    ghost var net: Net

    ghost predicate Valid()
      reads this, g.epn, g.ax, g.xy, g.next, q
    {
      g.Valid() && Ready()
    }

    /** What the inner loops rely on: net is the graph's tables, they are
        linked, and the distance and queue arrays are separate and vs long. */
    ghost predicate Ready()
      reads this, g.epn, g.next, q
    {
      Agrees() && net.Linked() && Buffers()
    }

    /** net holds the graph's threshold and neighbour tables. */
    ghost predicate Agrees()
      reads this, g.epn, g.next
    {
      g.Sized() && net.Sized() && net.vs == g.vs && net.root == g.root &&
      forall d, v :: 0 <= d < 4 && 0 <= v < g.vs ==> net.epn[d][v] == g.epn[d, v] && net.next[d][v] == g.next[d, v]
    }

    ghost predicate Buffers()
      reads q
    {
      dists.Length == g.vs && q.a.Length == g.vs && q.Valid() && q.a != dists
    }

    /** Between calls the queue is empty with both cursors at 0. */
    ghost predicate Idle()
      reads q
    {
      q.start == 0 && q.end == 0
    }

    /** create(gc, g): fresh distance and queue arrays of vs entries. */
    constructor (g: Graph)
      requires g.Valid()
      ensures this.g == g && Valid() && Idle()
      ensures fresh(dists) && fresh(q) && fresh(q.a)
      ensures dists[..] == seq(g.vs, _ => 0)
    {
      this.g := g;
      g.ValidIsLinked();
      g.ViewLinked();
      net := g.View();
      dists := new int[g.vs](_ => 0);
      var a := new int[g.vs](_ => 0);
      q := new IntQueue(a);
    }

    /** init(seed): draws new thresholds. */
    method Init(draws: seq<int>)
      requires Valid()
      requires |draws| >= SlotsBefore(OpenR(g.r), OpenD(g.r, g.skip), g.vs)
      requires forall i :: 0 <= i < |draws| ==> 0 <= draws[i] <= g.div
      modifies this`net, g, g.epn
      ensures Valid() && g.pn == g.from
      ensures forall v :: 0 <= v < g.vs ==>
        g.epn[R, v] == DrawR(OpenR(g.r), OpenD(g.r, g.skip), draws, v) &&
        g.epn[D, v] == DrawD(OpenR(g.r), OpenD(g.r, g.skip), draws, v)
    {
      g.Init(draws);
      g.ValidIsLinked();
      g.ViewLinked();
      net := g.View();
    }

    /** reset(): MAX_VALUE everywhere but 0 at the root.  The source asserts
        that the queue is empty. */
    method Reset()
      requires Valid() && q.Size() == 0
      modifies dists
      ensures dists[..] == Fresh(net)
    {
      g.RootIsOrigin();
      FillDists(dists, g.root);
    }

    /** preUpdate(pn): reset, then switch on the edges up to pn. */
    method PreUpdate(pn: int)
      requires Valid() && q.Size() == 0
      modifies dists, g`pn
      ensures dists[..] == Fresh(net) && g.pn == pn
      ensures Seeded(net, pn, dists[..])
    {
      Reset();
      g.Update(pn);
      FreshStart(net, pn);
    }

    /** neighbor(q, src, dst, dist): records the shorter distance and queues dst. */
    method Neighbor(src: int, dst: int, dist: int) returns (b: bool)
      requires Ready() && 0 <= dst < g.vs && q.end < q.a.Length
      modifies dists, q, q.a
      ensures Ready() && b
      ensures dists[..] == old(dists[..])[dst := dist]
      ensures q.start == old(q.start) && q.Written() == old(q.Written()) + [dst]
    {
      dists[dst] := dist;
      Enqueue(dst);
      b := true;
    }

    /** enqueue(q, vid). */
    method Enqueue(vid: int)
      requires Ready() && q.end < q.a.Length
      modifies q, q.a
      ensures Ready() && q.start == old(q.start) && q.Written() == old(q.Written()) + [vid]
    {
      q.Enqueue(vid);
    }

    /** dequeue(q): the oldest live entry. */
    method Dequeue() returns (vid: int)
      requires Ready() && q.start < q.end
      modifies q
      ensures Ready() && vid == old(q.Contents())[0]
      ensures q.start == old(q.start) + 1 && q.Written() == old(q.Written())
    {
      vid := q.Dequeue();
    }

    /** neighbors(q, src): nothing when src has no distance; otherwise every
        direction whose edge is on and would shorten its far end hands that
        end to neighbor with dists[src] + 1, in direction order. */
    method Neighbors(src: int)
      requires Ready() && 0 <= src < g.vs && g.pn < MAX_VALUE && dists[src] <= MAX_VALUE
      requires q.end + |Targets(net, g.pn, dists[..], src, 4)| <= q.a.Length
      modifies dists, q, q.a
      ensures Ready() && q.start == old(q.start)
      ensures Relaxed(src, 4, old(dists[src]) + 1, old(dists[..]), old(q.Written()))
    {
      ghost var d0, w0 := dists[..], q.Written();
      var dist := dists[src];
      if dist != MAX_VALUE {
        dist := dist + 1;
        for dir := 0 to 4
          invariant Ready() && q.start == old(q.start)
          invariant Relaxed(src, dir, dist, d0, w0)
        {
          NeighborDir(src, dir, dist, d0, w0);
        }
      } else {
        NoDistNoTargets(net, g.pn, d0, src, 4);
        assert Relaxed(src, 4, d0[src] + 1, d0, w0);
      }
    }

    /** After the directions below k of neighbors(q, src), with dist the
        distance it hands out: the targets so far are lowered to dist and
        appended to the queue. */
    ghost predicate Relaxed(src: int, k: int, dist: int, d0: seq<int>, w0: seq<int>)
      reads this, g, dists, q, q.a
      requires q.Valid() && 0 <= src < net.vs && 0 <= k <= 4 && |d0| == net.vs
    {
      var tk := Targets(net, g.pn, d0, src, k);
      dists[..] == Lowered(d0, tk, dist) && q.Written() == w0 + tk
    }

    /** One pass of the direction loop of neighbors. */
    method NeighborDir(src: int, dir: int, dist: int, ghost d0: seq<int>, ghost w0: seq<int>)
      requires Ready() && g.pn < MAX_VALUE && 0 <= src < g.vs && 0 <= dir < 4
      requires |d0| == g.vs && d0[src] < MAX_VALUE && dist == d0[src] + 1
      requires |w0| + |Targets(net, g.pn, d0, src, 4)| <= q.a.Length
      requires Relaxed(src, dir, dist, d0, w0)
      modifies dists, q, q.a
      ensures Ready() && q.start == old(q.start)
      ensures Relaxed(src, dir + 1, dist, d0, w0)
    {
      if g.IsEdgeEnabled(src, dir) {
        var w := g.Next(src, dir);
        NeighborOn(src, dir, w, dist, d0, w0);
      } else {
        RelaxDir(net, g.pn, d0, src, dir, dist);
      }
    }

    /** The enabled case of that pass: w, the far end of the slot, is
        relaxed when dist is below its distance. */
    method NeighborOn(src: int, dir: int, w: int, dist: int, ghost d0: seq<int>, ghost w0: seq<int>)
      requires Ready() && g.pn < MAX_VALUE && 0 <= src < g.vs && 0 <= dir < 4
      requires |d0| == g.vs && d0[src] < MAX_VALUE && dist == d0[src] + 1
      requires |w0| + |Targets(net, g.pn, d0, src, 4)| <= q.a.Length
      requires Relaxed(src, dir, dist, d0, w0)
      requires net.epn[dir][src] <= g.pn && w == net.next[dir][src]
      modifies dists, q, q.a
      ensures Ready() && q.start == old(q.start)
      ensures Relaxed(src, dir + 1, dist, d0, w0)
    {
      ghost var tk, t1 := Targets(net, g.pn, d0, src, dir), Targets(net, g.pn, d0, src, dir + 1);
      RelaxDir(net, g.pn, d0, src, dir, dist);
      if dist < dists[w] {
        ghost var e := Lowered(d0, t1, dist);
        assert e == dists[..][w := dist];
        var _ := Neighbor(src, w, dist);
        assert dists[..] == e;
        assert q.Written() == w0 + t1 by {
          assert (w0 + tk) + [w] == w0 + (tk + [w]);
        }
      }
    }

    /** The drain shared by update and IBFS.processAuxQueue: queue s, relax
        every vertex the queue hands out, then rewind the queue.  Whatever
        was pending besides s (P) stays pending; s and everything the sweep
        lowered are closed. */
    method Sweep(s: int, ghost P: set<int>)
      requires Ready() && Idle() && g.pn < MAX_VALUE && 0 <= s < g.vs
      requires Sound(net, g.pn, dists[..]) && ClosedExcept(net, g.pn, dists[..], P + {s})
      modifies dists, q, q.a
      ensures Ready() && Idle()
      ensures Sound(net, g.pn, dists[..]) && ClosedExcept(net, g.pn, dists[..], P)
      ensures forall v :: 0 <= v < g.vs ==> dists[v] <= old(dists[v])
    {
      Enqueue(s);
      ghost var D, W := dists[..], q.Written();
      assert Elems(W[q.start..]) == {s};
      D, W := Drain(P, D, W);
      assert Elems(W[q.start..]) == {};
      q.Clear();
    }

    /** The drain loop: while the queue is not empty, neighbors(q,
        dequeue(q)).  D and W name the distances and the written queue
        before the loop, and D' and W' after it. */
    method Drain(ghost P: set<int>, ghost D: seq<int>, ghost W: seq<int>)
      returns (ghost D': seq<int>, ghost W': seq<int>)
      requires Ready() && g.pn < MAX_VALUE
      requires dists[..] == D && q.Written() == W && Draining(net, g.pn, P, D, W, q.start)
      modifies dists, q, q.a
      ensures Ready() && q.start == q.end
      ensures dists[..] == D' && q.Written() == W' && Draining(net, g.pn, P, D', W', q.start)
      ensures forall v :: 0 <= v < g.vs ==> D'[v] <= D[v]
    {
      D', W' := D, W;
      ghost var N, p, H := net, g.pn, q.start;
      while q.Size() != 0
        invariant Ready() && g.pn < MAX_VALUE && N == net && p == g.pn && H == q.start
        invariant dists[..] == D' && q.Written() == W' && Draining(N, p, P, D', W', H)
        invariant forall v :: 0 <= v < g.vs ==> D'[v] <= D[v]
        decreases g.vs - H
      {
        D', W' := DrainOne(N, p, P, D', W', H);
        H := H + 1;
      }
    }

    /** One round of the drain loop: neighbors(q, dequeue(q)).  N, p, D, W
        and H name the graph, the threshold, the distances, the written
        queue and its head before the round; D' and W' are the distances and
        the written queue after it. */
    method DrainOne(ghost N: Net, ghost p: int, ghost P: set<int>, ghost D: seq<int>, ghost W: seq<int>, ghost H: int)
      returns (ghost D': seq<int>, ghost W': seq<int>)
      requires Ready() && p < MAX_VALUE && N == net && p == g.pn && H == q.start && q.start < q.end
      requires dists[..] == D && q.Written() == W && Draining(N, p, P, D, W, H)
      modifies dists, q, q.a
      ensures Ready() && q.start == H + 1
      ensures dists[..] == D' && q.Written() == W' && Draining(N, p, P, D', W', H + 1)
      ensures forall v :: 0 <= v < g.vs ==> D'[v] <= D[v]
    {
      ghost var u := W[H];
      ghost var t := Targets(N, p, D, u, 4);
      D' := Lowered(D, t, D[u] + 1);
      W' := W + t;
      RelaxStep(N, p, P, D, W, H, t, D');
      RelaxHead(D, W, u, t, D');
    }

    /** neighbors(q, dequeue(q)) itself.  D and W name the distances and the
        written queue before it, u the vertex handed out, t its targets and
        D1 the distances after it. */
    method RelaxHead(ghost D: seq<int>, ghost W: seq<int>, ghost u: int, ghost t: seq<int>, ghost D1: seq<int>)
      requires Ready() && g.pn < MAX_VALUE && q.start < q.end
      requires dists[..] == D && q.Written() == W && u == W[q.start]
      requires 0 <= u < g.vs && D[u] <= MAX_VALUE
      requires t == Targets(net, g.pn, D, u, 4) && |W| + |t| <= g.vs
      requires D1 == Lowered(D, t, D[u] + 1)
      modifies dists, q, q.a
      ensures Ready() && q.start == old(q.start) + 1
      ensures dists[..] == D1 && q.Written() == W + t
    {
      var x := Dequeue();
      Neighbors(x);
    }

    /** update(pn): a sweep from the root over the edges on at g.pn (the
        argument is not used).  From a seeded state it leaves the shortest
        distances, and it never raises a distance. */
    method Update()
      requires Valid() && Idle() && g.pn < MAX_VALUE && Seeded(net, g.pn, dists[..])
      modifies dists, q, q.a
      ensures Valid() && Idle()
      ensures IsShortest(net, g.pn, dists[..])
      ensures forall v :: 0 <= v < g.vs ==> dists[v] <= old(dists[v])
    {
      Sweep(g.root, {});
      ShortestFromClosed(net, g.pn, dists[..]);
    }

    /** dist(vid).  Once the distances are the shortest ones at g.pn (as
        after update), it is the hop count of the shortest walk from the root
        to vid over the edges that are on, or MAX_VALUE when there is none. */
    function Dist(vid: int): (d: int)
      reads this, g, dists
      requires 0 <= vid < dists.Length
      ensures IsShortest(net, g.pn, dists[..]) ==>
        0 <= d <= MAX_VALUE &&
        (d < MAX_VALUE ==> Reach(net, g.pn, vid, d) && forall k: nat :: k < d ==> !Reach(net, g.pn, vid, k)) &&
        (d == MAX_VALUE ==> forall k: nat :: !Reach(net, g.pn, vid, k))
    {
      dists[vid]
    }

    /** qsize(). */
    function QSize(): (n: int)
      reads q, q.a
      requires q.Valid()
      ensures n == |q.Contents()|
    {
      q.Size()
    }
  }

  /** Arrays.fill(dists, MAX_VALUE), then dists[root] = 0. */
  method FillDists(a: array<int>, root: int)
    requires 0 <= root < a.Length
    modifies a
    ensures forall v :: 0 <= v < a.Length ==> a[v] == (if v == root then 0 else MAX_VALUE)
  {
    for i := 0 to a.Length
      invariant forall j :: 0 <= j < i ==> a[j] == MAX_VALUE
    {
      a[i] := MAX_VALUE;
    }
    a[root] := 0;
  }

  /** One simulation step with this engine, as the simulator drives it:
      preUpdate(pn) then update(pn).  Each step recomputes from scratch, so
      the distances are the shortest ones at pn whatever came before. */
  method StepFromScratch(b: Bfs, pn: int)
    requires b.Valid() && b.Idle() && pn < MAX_VALUE
    modifies b.dists, b.q, b.q.a, b.g`pn
    ensures b.Valid() && b.Idle() && b.g.pn == pn
    ensures IsShortest(b.net, pn, b.dists[..])
  {
    b.PreUpdate(pn);
    b.Update();
  }
}
