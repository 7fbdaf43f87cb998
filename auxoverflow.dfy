/** IBFS.java's create(gc, g) gives the auxiliary queue vs entries, but one
    update can queue more: the smallest diamond, of radius 1, already shows
    it.  The model itself sizes the queue at 4 * vs (IbfsSpt.Ibfs.RoomAlways). */
module AuxOverflow {
  import opened Lattice
  import opened Graphs
  import opened Activation

  /** The auxiliary queue as create(gc, g) sizes it, vs entries, can
      overflow.  Take r = 1 and skip = 0, so vs = 5 and the slots that hold an
      edge are right at vertices 2 and 4 and down at vertices 0 and 4, and
      let every draw be div = 1.  With from = 0 and step = 1 the cursors
      split both se arrays at 0 at the first update, whatever order the sort
      leaves them in, and at 1 they have passed two slots each: the second
      update appends 8 entries to an array of 5. */
  lemma AsWrittenOverflows(r: nat, er: seq<bool>, ed: seq<bool>, g: Net, draws: seq<int>,
                            sR: seq<int>, sD: seq<int>, cR: int, cD: int)
    requires r == 1 && er == OpenR(r) && ed == OpenD(r, 0) && g.Sized() && g.vs == Vs(r)
    requires |draws| >= SlotsBefore(er, ed, g.vs) && forall i :: 0 <= i < |draws| ==> draws[i] == 1
    requires forall v :: 0 <= v < g.vs ==>
      g.epn[R][v] == DrawR(er, ed, draws, v) && g.epn[D][v] == DrawD(er, ed, draws, v)
    requires Perm(sR, g.vs) && Perm(sD, g.vs)
    requires Split(g, R, sR, cR, 1) && Split(g, D, sD, cD, 1)
    ensures Split(g, R, sR, 0, 0) && Split(g, D, sD, 0, 0)
    ensures 0 <= cR <= g.vs && 0 <= cD <= g.vs
    ensures |Pairs(g, R, sR, 0, cR) + Pairs(g, D, sD, 0, cD)| > g.vs
  {
    RightSlots(r);
    DownSlots(r);
    Overflows(er, ed, draws, g, sR, sD, cR, cD);
  }

  /** The same on any five vertices whose open slots include right at 2 and
      4 and down at 0 and 4. */
  lemma Overflows(er: seq<bool>, ed: seq<bool>, draws: seq<int>, g: Net,
                  sR: seq<int>, sD: seq<int>, cR: int, cD: int)
    requires g.Sized() && g.vs == |er| == |ed| == 5 && er[2] && er[4] && ed[0] && ed[4]
    requires |draws| >= SlotsBefore(er, ed, g.vs) && forall i :: 0 <= i < |draws| ==> draws[i] == 1
    requires forall v :: 0 <= v < g.vs ==>
      g.epn[R][v] == DrawR(er, ed, draws, v) && g.epn[D][v] == DrawD(er, ed, draws, v)
    requires Perm(sR, g.vs) && Perm(sD, g.vs)
    requires Split(g, R, sR, cR, 1) && Split(g, D, sD, cD, 1)
    ensures Split(g, R, sR, 0, 0) && Split(g, D, sD, 0, 0)
    ensures 2 * cR + 2 * cD > g.vs
  {
    AllPositive(er, ed, draws, g);
    RightCursor(er, ed, draws, g, sR, cR, 2, 4);
    DownCursor(er, ed, draws, g, sD, cD, 0, 4);
  }

  /** When every draw is 1, a cursor that splits se[R] at 1 has passed the
      two open right slots u and w. */
  lemma RightCursor(er: seq<bool>, ed: seq<bool>, draws: seq<int>, g: Net, s: seq<int>, c: int, u: int, w: int)
    requires g.Sized() && |er| == |ed| == g.vs && |draws| >= SlotsBefore(er, ed, |er|)
    requires forall i :: 0 <= i < |draws| ==> draws[i] == 1
    requires forall v :: 0 <= v < g.vs ==> g.epn[R][v] == DrawR(er, ed, draws, v)
    requires 0 <= u < g.vs && 0 <= w < g.vs && u != w && er[u] && er[w]
    requires Perm(s, g.vs) && Split(g, R, s, c, 1)
    ensures c >= 2
  {
    UnitDraws(er, ed, draws, u);
    UnitDraws(er, ed, draws, w);
    TwoBefore(g, R, s, c, u, w);
  }

  /** The same for se[D] and the open down slots u and w. */
  lemma DownCursor(er: seq<bool>, ed: seq<bool>, draws: seq<int>, g: Net, s: seq<int>, c: int, u: int, w: int)
    requires g.Sized() && |er| == |ed| == g.vs && |draws| >= SlotsBefore(er, ed, |er|)
    requires forall i :: 0 <= i < |draws| ==> draws[i] == 1
    requires forall v :: 0 <= v < g.vs ==> g.epn[D][v] == DrawD(er, ed, draws, v)
    requires 0 <= u < g.vs && 0 <= w < g.vs && u != w && ed[u] && ed[w]
    requires Perm(s, g.vs) && Split(g, D, s, c, 1)
    ensures c >= 2
  {
    UnitDraws(er, ed, draws, u);
    UnitDraws(er, ed, draws, w);
    TwoBefore(g, D, s, c, u, w);
  }

  /** Two different vertices whose slots are on at p sit before the cursor
      that splits s at p. */
  lemma TwoBefore(g: Net, d: int, s: seq<int>, c: int, u: int, w: int)
    requires Split(g, d, s, c, 1) && u in s && w in s && u != w
    requires g.epn[d][u] <= 1 && g.epn[d][w] <= 1
    ensures c >= 2
  {
    var i :| 0 <= i < |s| && s[i] == u;
    var j :| 0 <= j < |s| && s[j] == w;
    assert i < c && j < c;
  }

  /** The slots of the diamond of radius 1 that hold an edge with skip 0:
      right at vertices 2 and 4, down at vertices 0 and 4. */
  lemma RightSlots(r: nat)
    requires r == 1
    ensures Vs(r) == |OpenR(r)| == |OpenD(r, 0)| == 5 && OpenR(r)[2] && OpenR(r)[4]
  {
    RightOpen(r, 2, -1, 0);
    RightOpen(r, 4, 0, 0);
  }

  lemma DownSlots(r: nat)
    requires r == 1
    ensures |OpenD(r, 0)| == 5 && OpenD(r, 0)[0] && OpenD(r, 0)[4]
  {
    assert OpenD(r, 0)[0] by {
      DownOpen(r, 0, 0, 1);
    }
    assert OpenD(r, 0)[4] by {
      DownOpen(r, 4, 0, 0);
    }
  }

  lemma RightOpen(r: nat, v: int, x: int, y: int)
    requires r == 1 && (v, x, y) in [(2, -1, 0), (4, 0, 0)]
    ensures IsVid(r, v) && EligibleR(r, v)
  {
    SmallVertex(r, v, x, y);
  }

  lemma DownOpen(r: nat, v: int, x: int, y: int)
    requires r == 1 && (v, x, y) in [(0, 0, 1), (4, 0, 0)]
    ensures IsVid(r, v) && EligibleD(r, 0, v)
  {
    SmallVertex(r, v, x, y);
    assert IsNotAt(r, D, v);
    JRemOne(X(r, v) + Y(r, v));
    assert JRem(X(r, v) + Y(r, v), 0 + 1) == 0;
  }

  /** In the diamond of radius 1, vertex 0 is at (0, 1), vertex 2 at
      (-1, 0) and vertex 4, the one inner vertex, at the origin. */
  lemma SmallVertex(r: nat, v: int, x: int, y: int)
    requires r == 1 && (v, x, y) in [(0, 0, 1), (2, -1, 0), (4, 0, 0)]
    ensures IsVid(r, v) && X(r, v) == x && Y(r, v) == y
  {
    XYVidAt(1, x, y);
    assert VidAt(1, x, y) == v;
  }

  /** With skip 0 every down slot away from the border holds an edge. */
  lemma JRemOne(a: int)
    ensures JRem(a, 1) == 0
  {
  }

  /** When every draw is 1, no right or down slot is on at threshold 0. */
  lemma AllPositive(er: seq<bool>, ed: seq<bool>, draws: seq<int>, g: Net)
    requires g.Sized() && |er| == |ed| == g.vs && |draws| >= SlotsBefore(er, ed, |er|)
    requires forall i :: 0 <= i < |draws| ==> draws[i] == 1
    requires forall v :: 0 <= v < g.vs ==>
      g.epn[R][v] == DrawR(er, ed, draws, v) && g.epn[D][v] == DrawD(er, ed, draws, v)
    ensures forall v :: 0 <= v < g.vs ==> g.epn[R][v] > 0 && g.epn[D][v] > 0
  {
    forall v | 0 <= v < g.vs
      ensures g.epn[R][v] > 0 && g.epn[D][v] > 0
    {
      UnitDraws(er, ed, draws, v);
    }
  }

  /** When every draw is 1, an open slot holds 1 and a closed one MAX_VALUE. */
  lemma UnitDraws(er: seq<bool>, ed: seq<bool>, draws: seq<int>, v: int)
    requires |er| == |ed| && 0 <= v < |er| && |draws| >= SlotsBefore(er, ed, |er|)
    requires forall i :: 0 <= i < |draws| ==> draws[i] == 1
    ensures DrawR(er, ed, draws, v) == (if er[v] then 1 else MAX_VALUE)
    ensures DrawD(er, ed, draws, v) == (if ed[v] then 1 else MAX_VALUE)
  {
    SlotsBeforeMono(er, ed, v + 1, |er|);
  }
}
