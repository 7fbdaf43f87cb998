/** Graph.java: the diamond lattice with its coordinate tables, its neighbour
    tables and the per-direction edge thresholds (edge probability
    numerators, epn), plus the current threshold pn. */
module Graphs {
  import opened Lattice
  import opened Wrappers

  /** A right slot holds an edge exactly when the vertex is not at the right border. */
  predicate EligibleR(r: nat, v: int)
    requires r >= 1 && IsVid(r, v)
  {
    IsNotAt(r, R, v)
  }

  /** A down slot holds an edge when the vertex is not at the lower border and
      x + y is a multiple of skip + 1, checked with Java's `%`. */
  predicate EligibleD(r: nat, skip: nat, v: int)
    requires r >= 1 && IsVid(r, v)
  {
    IsNotAt(r, D, v) && JRem(X(r, v) + Y(r, v), skip + 1) == 0
  }

  /** Which right / down slots hold an edge, vertex by vertex. */
  function OpenR(r: nat): (s: seq<bool>)
    requires r >= 1
    ensures |s| == Vs(r) && forall v :: 0 <= v < Vs(r) ==> s[v] == EligibleR(r, v)
  {
    seq(Vs(r), v requires 0 <= v < Vs(r) => EligibleR(r, v))
  }

  function OpenD(r: nat, skip: nat): (s: seq<bool>)
    requires r >= 1
    ensures |s| == Vs(r) && forall v :: 0 <= v < Vs(r) ==> s[v] == EligibleD(r, skip, v)
  {
    seq(Vs(r), v requires 0 <= v < Vs(r) => EligibleD(r, skip, v))
  }

  /** Number of thresholds drawn for the vertices below v when the open right
      slots are er and the open down slots ed, in the order Graph.init draws
      them. */
  function SlotsBefore(er: seq<bool>, ed: seq<bool>, v: int): nat
    requires |er| == |ed| && 0 <= v <= |er|
  {
    if v == 0 then 0
    else SlotsBefore(er, ed, v - 1) + (if er[v - 1] then 1 else 0) + (if ed[v - 1] then 1 else 0)
  }

  lemma {:induction false} SlotsBeforeMono(er: seq<bool>, ed: seq<bool>, v: int, w: int)
    requires |er| == |ed| && 0 <= v <= w <= |er|
    ensures SlotsBefore(er, ed, v) <= SlotsBefore(er, ed, w)
    decreases w - v
  {
    if v < w {
      SlotsBeforeMono(er, ed, v, w - 1);
    }
  }

  /** What Graph.init stores in the right slot of v: the next draw when the
      slot is open, MAX_VALUE otherwise. */
  function DrawR(er: seq<bool>, ed: seq<bool>, draws: seq<int>, v: int): int
    requires |er| == |ed| && 0 <= v < |er| && |draws| >= SlotsBefore(er, ed, |er|)
  {
    SlotsBeforeMono(er, ed, v + 1, |er|);
    if er[v] then draws[SlotsBefore(er, ed, v)] else MAX_VALUE
  }

  /** The same for the down slot, which draws after the right slot. */
  function DrawD(er: seq<bool>, ed: seq<bool>, draws: seq<int>, v: int): int
    requires |er| == |ed| && 0 <= v < |er| && |draws| >= SlotsBefore(er, ed, |er|)
  {
    SlotsBeforeMono(er, ed, v + 1, |er|);
    if ed[v] then draws[SlotsBefore(er, ed, v) + (if er[v] then 1 else 0)] else MAX_VALUE
  }

  /** Java's `%` is zero exactly for multiples, whatever the sign. */
  lemma JRemZero(a: int, b: int)
    requires b > 0
    ensures JRem(a, b) == 0 <==> a % b == 0
  {
    if a < 0 {
      var n := -a;
      var q, m := n / b, n % b;
      var q', m' := a / b, a % b;
      assert n == q * b + m && a == q' * b + m';
      if m == 0 {
        assert a == (-q) * b + 0;
        DivModUnique(-q, 0, b);
      }
      if m' == 0 {
        assert n == (-q') * b + 0;
        DivModUnique(-q', 0, b);
      }
    }
  }

  /** The coordinates of one vertex, computed with Java's / and % as in the
      loop of initXy. */
  method CoordsOf(r: nat, outer: int, vid: int) returns (x: int, y: int)
    requires r >= 1 && IsVid(r, vid) && outer == Outer(r)
    ensures x == X(r, vid) && y == Y(r, vid)
  {
    var isInner := vid / outer;
    var idx := vid - isInner * outer;
    var cols := r + 1 - isInner;
    JavaCoords(r, vid);
    var xArr, yArr := idx % cols, idx / cols;
    x := xArr - yArr;
    y := cols - xArr - yArr - 1;
  }

  /** Fills ax and xy (initXy, and the identical loop of the constructor). */
  method InitXy(r: nat, vs: int, ax: array2<int>, xy: array2<int>)
    requires r >= 1 && vs == Vs(r)
    requires ax.Length0 == 2 && ax.Length1 == vs
    requires xy.Length0 == 2 * r + 1 && xy.Length1 == 2 * r + 1 && ax != xy
    modifies ax, xy
    ensures forall v :: 0 <= v < vs ==> ax[0, v] == X(r, v) && ax[1, v] == Y(r, v)
    ensures forall x, y :: 0 <= x <= 2 * r && 0 <= y <= 2 * r && InDiamond(r, x - r, y - r) ==>
      xy[x, y] == VidAt(r, x - r, y - r)
    ensures forall x, y :: 0 <= x <= 2 * r && 0 <= y <= 2 * r && !InDiamond(r, x - r, y - r) ==>
      xy[x, y] == old(xy[x, y])
  {
    var outer := r + 1;
    outer := outer * outer;
    for vid := 0 to vs
      invariant forall v :: 0 <= v < vid ==> ax[0, v] == X(r, v) && ax[1, v] == Y(r, v)
      invariant forall v :: 0 <= v < vid ==>
        (InDiamond(r, X(r, v), Y(r, v)) && xy[X(r, v) + r, Y(r, v) + r] == v)
      invariant forall x, y :: 0 <= x <= 2 * r && 0 <= y <= 2 * r && !InDiamond(r, x - r, y - r) ==>
        xy[x, y] == old(xy[x, y])
    {
      PlaceVertex(r, outer, ax, xy, vid);
    }
    XyFromCoords(r, xy);
  }

  /** One round of the loop of initXy: vertex vid gets its coordinates and is
      stored at its point. */
  method PlaceVertex(r: nat, outer: int, ax: array2<int>, xy: array2<int>, vid: int)
    requires r >= 1 && outer == Outer(r) && 0 <= vid < Vs(r)
    requires ax.Length0 == 2 && ax.Length1 == Vs(r)
    requires xy.Length0 == 2 * r + 1 && xy.Length1 == 2 * r + 1 && ax != xy
    requires forall v :: 0 <= v < vid ==> ax[0, v] == X(r, v) && ax[1, v] == Y(r, v)
    requires forall v :: 0 <= v < vid ==>
      (InDiamond(r, X(r, v), Y(r, v)) && xy[X(r, v) + r, Y(r, v) + r] == v)
    modifies ax, xy
    ensures forall v :: 0 <= v <= vid ==> ax[0, v] == X(r, v) && ax[1, v] == Y(r, v)
    ensures forall v :: 0 <= v <= vid ==>
      (InDiamond(r, X(r, v), Y(r, v)) && xy[X(r, v) + r, Y(r, v) + r] == v)
    ensures forall x, y :: 0 <= x <= 2 * r && 0 <= y <= 2 * r && !InDiamond(r, x - r, y - r) ==>
      xy[x, y] == old(xy[x, y])
  {
    var x, y := CoordsOf(r, outer, vid);
    ax[0, vid] := x;
    ax[1, vid] := y;
    VidAtXY(r, vid);
    EarlierElsewhere(r, vid);
    xy[x + r, y + r] := vid;
  }

  /** The vertices before vid sit at other points than vid. */
  lemma EarlierElsewhere(r: nat, vid: int)
    requires r >= 1 && IsVid(r, vid)
    ensures forall w :: 0 <= w < vid ==> X(r, w) != X(r, vid) || Y(r, w) != Y(r, vid)
  {
    forall w | 0 <= w < vid
      ensures X(r, w) != X(r, vid) || Y(r, w) != Y(r, vid)
    {
      CoordsDistinct(r, w, vid);
    }
  }

  /** Once every vertex is stored at its own point, xy inverts (X, Y). */
  lemma XyFromCoords(r: nat, xy: array2<int>)
    requires r >= 1 && xy.Length0 == 2 * r + 1 && xy.Length1 == 2 * r + 1
    requires forall v :: 0 <= v < Vs(r) ==>
      (InDiamond(r, X(r, v), Y(r, v)) && xy[X(r, v) + r, Y(r, v) + r] == v)
    ensures forall x, y :: 0 <= x <= 2 * r && 0 <= y <= 2 * r && InDiamond(r, x - r, y - r) ==>
      xy[x, y] == VidAt(r, x - r, y - r)
  {
    forall x, y | 0 <= x <= 2 * r && 0 <= y <= 2 * r && InDiamond(r, x - r, y - r)
      ensures xy[x, y] == VidAt(r, x - r, y - r)
    {
      XYVidAt(r, x - r, y - r);
    }
  }

  /** Graph.isNotAt evaluated on the coordinate table. */
  predicate NotAtIn(ax: array2<int>, r: nat, dir: int, v: int)
    reads ax
    requires ax.Length0 == 2 && 0 <= v < ax.Length1
  {
    NotAtXY(r, dir, ax[0, v], ax[1, v])
  }

  /** initDirCacheVars(dir): row dir of the neighbour table, -1 at the border. */
  method InitDirCacheVars(r: nat, vs: int, ax: array2<int>, xy: array2<int>, next: array2<int>, dir: int)
    requires r >= 1 && vs == Vs(r) && IsDir(dir)
    requires ax.Length0 == 2 && ax.Length1 == vs
    requires xy.Length0 == 2 * r + 1 && xy.Length1 == 2 * r + 1
    requires next.Length0 == 4 && next.Length1 == vs && next != ax && next != xy
    requires forall v :: 0 <= v < vs ==> ax[0, v] == X(r, v) && ax[1, v] == Y(r, v)
    requires forall x, y :: 0 <= x <= 2 * r && 0 <= y <= 2 * r && InDiamond(r, x - r, y - r) ==>
      xy[x, y] == VidAt(r, x - r, y - r)
    modifies next
    ensures forall v :: 0 <= v < vs ==> next[dir, v] == Nb(r, v, dir)
    ensures forall d, v :: 0 <= d < 4 && d != dir && 0 <= v < vs ==> next[d, v] == old(next[d, v])
  {
    for vid := 0 to vs
      invariant forall v :: 0 <= v < vid ==> next[dir, v] == Nb(r, v, dir)
      invariant forall d, v :: 0 <= d < 4 && d != dir && 0 <= v < vs ==> next[d, v] == old(next[d, v])
    {
      LinkVertex(r, ax, xy, next, dir, vid);
    }
  }

  /** One round of the loop of initDirCacheVars: the neighbour of vid in
      direction dir, looked up through xy. */
  method LinkVertex(r: nat, ax: array2<int>, xy: array2<int>, next: array2<int>, dir: int, vid: int)
    requires r >= 1 && IsDir(dir) && 0 <= vid < Vs(r)
    requires ax.Length0 == 2 && ax.Length1 == Vs(r)
    requires xy.Length0 == 2 * r + 1 && xy.Length1 == 2 * r + 1
    requires next.Length0 == 4 && next.Length1 == Vs(r) && next != ax && next != xy
    requires ax[0, vid] == X(r, vid) && ax[1, vid] == Y(r, vid)
    requires forall x, y :: 0 <= x <= 2 * r && 0 <= y <= 2 * r && InDiamond(r, x - r, y - r) ==>
      xy[x, y] == VidAt(r, x - r, y - r)
    modifies next
    ensures next[dir, vid] == Nb(r, vid, dir)
    ensures forall d, v :: 0 <= d < 4 && 0 <= v < Vs(r) && (d != dir || v != vid) ==>
      next[d, v] == old(next[d, v])
  {
    OffsetsAgree(dir);
    VidAtXY(r, vid);
    if NotAtIn(ax, r, dir, vid) {
      NotAtStaysInside(r, dir, X(r, vid), Y(r, vid));
      var x, y := ax[0, vid] + r - JRem(dir - 1, 2), ax[1, vid] + r - JRem(2 - dir, 2);
      assert x - r == X(r, vid) + DX(dir) && y - r == Y(r, vid) + DY(dir);
      next[dir, vid] := xy[x, y];
    } else {
      next[dir, vid] := -1;
    }
  }

  /** The first loop of the Graph constructor: INIT in every right / down
      slot that can hold an edge, MAX_VALUE in the others. */
  method MarkSlots(r: nat, skip: nat, ax: array2<int>, epn: array2<int>)
    requires r >= 1 && ax.Length0 == 2 && ax.Length1 == Vs(r)
    requires epn.Length0 == 4 && epn.Length1 == Vs(r) && epn != ax
    requires forall v :: 0 <= v < Vs(r) ==> ax[0, v] == X(r, v) && ax[1, v] == Y(r, v)
    modifies epn
    ensures forall v :: 0 <= v < Vs(r) ==>
      epn[R, v] == (if EligibleR(r, v) then INIT else MAX_VALUE) &&
      epn[D, v] == (if EligibleD(r, skip, v) then INIT else MAX_VALUE)
  {
    for vid := 0 to Vs(r)
      invariant forall v :: 0 <= v < vid ==>
        epn[R, v] == (if EligibleR(r, v) then INIT else MAX_VALUE) &&
        epn[D, v] == (if EligibleD(r, skip, v) then INIT else MAX_VALUE)
    {
      epn[R, vid] := if NotAtIn(ax, r, R, vid) then INIT else MAX_VALUE;
      epn[D, vid] := if NotAtIn(ax, r, D, vid) && JRem(ax[0, vid] + ax[1, vid], skip + 1) == 0
                     then INIT else MAX_VALUE;
    }
  }

  /** The first loop of Graph.init: every right / down slot that holds an
      edge (its value is not MAX_VALUE) takes the next draw. */
  method DrawSlots(er: seq<bool>, ed: seq<bool>, div: int, draws: seq<int>, epn: array2<int>)
    requires epn.Length0 == 4 && epn.Length1 == |er| == |ed|
    requires |draws| >= SlotsBefore(er, ed, |er|)
    requires forall i :: 0 <= i < |draws| ==> 0 <= draws[i] <= div < MAX_VALUE
    requires forall v :: 0 <= v < |er| ==>
      (epn[R, v] == MAX_VALUE <==> !er[v]) && (epn[D, v] == MAX_VALUE <==> !ed[v])
    modifies epn
    ensures forall v :: 0 <= v < |er| ==>
      epn[R, v] == DrawR(er, ed, draws, v) && epn[D, v] == DrawD(er, ed, draws, v)
    ensures forall v :: 0 <= v < |er| ==>
      (epn[R, v] == MAX_VALUE <==> !er[v]) && (epn[D, v] == MAX_VALUE <==> !ed[v]) &&
      (er[v] ==> 0 <= epn[R, v] <= div) && (ed[v] ==> 0 <= epn[D, v] <= div)
    ensures forall v :: 0 <= v < |er| ==> epn[L, v] == old(epn[L, v]) && epn[U, v] == old(epn[U, v])
  {
    var k := 0;
    for vid := 0 to |er|
      invariant k == SlotsBefore(er, ed, vid)
      invariant forall v :: 0 <= v < vid ==>
        epn[R, v] == DrawR(er, ed, draws, v) && epn[D, v] == DrawD(er, ed, draws, v)
      invariant forall v :: vid <= v < |er| ==> epn[R, v] == old(epn[R, v]) && epn[D, v] == old(epn[D, v])
      invariant forall v :: 0 <= v < |er| ==> epn[L, v] == old(epn[L, v]) && epn[U, v] == old(epn[U, v])
    {
      SlotsBeforeMono(er, ed, vid + 1, |er|);
      if epn[R, vid] != MAX_VALUE {
        epn[R, vid] := draws[k];
        k := k + 1;
      }
      if epn[D, vid] != MAX_VALUE {
        epn[D, vid] := draws[k];
        k := k + 1;
      }
    }
    forall v | 0 <= v < |er|
      ensures (er[v] ==> 0 <= epn[R, v] <= div) && (ed[v] ==> 0 <= epn[D, v] <= div)
      ensures (epn[R, v] == MAX_VALUE <==> !er[v]) && (epn[D, v] == MAX_VALUE <==> !ed[v])
    {
      SlotsBeforeMono(er, ed, v + 1, |er|);
      assert epn[R, v] == DrawR(er, ed, draws, v) && epn[D, v] == DrawD(er, ed, draws, v);
    }
  }

  /** Copies the right and down thresholds into the left and up slots of the
      neighbours (the second loop of the constructor and of init). */
  method CopyLeftUp(r: nat, vs: int, ax: array2<int>, next: array2<int>, epn: array2<int>)
    requires r >= 1 && vs == Vs(r)
    requires ax.Length0 == 2 && ax.Length1 == vs
    requires next.Length0 == 4 && next.Length1 == vs
    requires epn.Length0 == 4 && epn.Length1 == vs && epn != ax && epn != next
    requires forall v :: 0 <= v < vs ==> ax[0, v] == X(r, v) && ax[1, v] == Y(r, v)
    requires forall d, v :: 0 <= d < 4 && 0 <= v < vs ==> next[d, v] == Nb(r, v, d)
    modifies epn
    ensures forall v :: 0 <= v < vs ==> epn[R, v] == old(epn[R, v]) && epn[D, v] == old(epn[D, v])
    ensures forall v :: 0 <= v < vs ==>
      epn[L, v] == (if IsNotAt(r, L, v) then epn[R, Nb(r, v, L)] else MAX_VALUE)
    ensures forall v :: 0 <= v < vs ==>
      epn[U, v] == (if IsNotAt(r, U, v) then epn[D, Nb(r, v, U)] else MAX_VALUE)
  {
    for vid := 0 to vs
      invariant forall v :: 0 <= v < vs ==> epn[R, v] == old(epn[R, v]) && epn[D, v] == old(epn[D, v])
      invariant forall v :: 0 <= v < vid ==>
        epn[L, v] == (if IsNotAt(r, L, v) then epn[R, Nb(r, v, L)] else MAX_VALUE)
      invariant forall v :: 0 <= v < vid ==>
        epn[U, v] == (if IsNotAt(r, U, v) then epn[D, Nb(r, v, U)] else MAX_VALUE)
    {
      NbSpec(r, vid, L);
      NbSpec(r, vid, U);
      epn[L, vid] := if NotAtIn(ax, r, L, vid) then epn[R, next[L, vid]] else MAX_VALUE;
      epn[U, vid] := if NotAtIn(ax, r, U, vid) then epn[D, next[U, vid]] else MAX_VALUE;
    }
  }

  ghost predicate TableShapes(r: nat, ax: array2<int>, xy: array2<int>, next: array2<int>)
  {
    r >= 1 && ax.Length0 == 2 && ax.Length1 == Vs(r) &&
    xy.Length0 == 2 * r + 1 && xy.Length1 == 2 * r + 1 &&
    next.Length0 == 4 && next.Length1 == Vs(r)
  }

  /** The cached tables agree with the lattice geometry: ax holds the
      coordinates, xy the vertex at each point of the diamond (0 elsewhere),
      next the neighbours. */
  ghost predicate TablesOk(r: nat, ax: array2<int>, xy: array2<int>, next: array2<int>)
    reads ax, xy, next
    requires TableShapes(r, ax, xy, next)
  {
    (forall v :: 0 <= v < Vs(r) ==> ax[0, v] == X(r, v) && ax[1, v] == Y(r, v)) &&
    (forall x, y :: 0 <= x <= 2 * r && 0 <= y <= 2 * r ==>
      xy[x, y] == if InDiamond(r, x - r, y - r) then VidAt(r, x - r, y - r) else 0) &&
    (forall d, v {:trigger Nb(r, v, d)} :: 0 <= d < 4 && 0 <= v < Vs(r) ==> next[d, v] == Nb(r, v, d))
  }

  /** A right or down slot value: not drawn yet, or drawn from [0, div]. */
  ghost predicate SlotValue(div: int, e: int)
  {
    e == INIT || 0 <= e <= div
  }

  /** The threshold tables: MAX_VALUE exactly in the slots without an edge,
      and every left / up slot mirrors the right / down slot of its neighbour. */
  ghost predicate ThresholdsOk(r: nat, skip: nat, div: int, epn: array2<int>)
    reads epn
    requires r >= 1 && epn.Length0 == 4 && epn.Length1 == Vs(r)
  {
    (forall v {:trigger EligibleR(r, v)} :: 0 <= v < Vs(r) ==>
      (epn[R, v] == MAX_VALUE <==> !EligibleR(r, v)) &&
      (epn[R, v] != MAX_VALUE ==> SlotValue(div, epn[R, v]))) &&
    (forall v {:trigger EligibleD(r, skip, v)} :: 0 <= v < Vs(r) ==>
      (epn[D, v] == MAX_VALUE <==> !EligibleD(r, skip, v)) &&
      (epn[D, v] != MAX_VALUE ==> SlotValue(div, epn[D, v]))) &&
    (forall v {:trigger Nb(r, v, L)} :: 0 <= v < Vs(r) ==>
      epn[L, v] == (if IsNotAt(r, L, v) then epn[R, Nb(r, v, L)] else MAX_VALUE)) &&
    (forall v {:trigger Nb(r, v, U)} :: 0 <= v < Vs(r) ==>
      epn[U, v] == (if IsNotAt(r, U, v) then epn[D, Nb(r, v, U)] else MAX_VALUE))
  }

  /** The tables Graph.init leaves: drawn right / down slots exactly where
      an edge can be, and left / up slots copied from them. */
  lemma DrawnThresholds(r: nat, skip: nat, div: int, epn: array2<int>)
    requires r >= 1 && epn.Length0 == 4 && epn.Length1 == Vs(r)
    requires forall v :: 0 <= v < Vs(r) ==>
      (epn[R, v] == MAX_VALUE <==> !OpenR(r)[v]) && (epn[D, v] == MAX_VALUE <==> !OpenD(r, skip)[v]) &&
      (OpenR(r)[v] ==> 0 <= epn[R, v] <= div) && (OpenD(r, skip)[v] ==> 0 <= epn[D, v] <= div)
    requires forall v :: 0 <= v < Vs(r) ==>
      epn[L, v] == (if IsNotAt(r, L, v) then epn[R, Nb(r, v, L)] else MAX_VALUE)
    requires forall v :: 0 <= v < Vs(r) ==>
      epn[U, v] == (if IsNotAt(r, U, v) then epn[D, Nb(r, v, U)] else MAX_VALUE)
    ensures ThresholdsOk(r, skip, div, epn)
  {
    forall v | 0 <= v < Vs(r)
      ensures (epn[R, v] == MAX_VALUE <==> !EligibleR(r, v)) && (epn[D, v] == MAX_VALUE <==> !EligibleD(r, skip, v))
      ensures epn[R, v] != MAX_VALUE ==> SlotValue(div, epn[R, v])
      ensures epn[D, v] != MAX_VALUE ==> SlotValue(div, epn[D, v])
    {
      assert OpenR(r)[v] == EligibleR(r, v) && OpenD(r, skip)[v] == EligibleD(r, skip, v);
    }
  }

  /** The coordinate and neighbour tables of the constructor. */
  method BuildTables(r: nat) returns (ax: array2<int>, xy: array2<int>, next: array2<int>)
    requires r >= 1
    ensures fresh(ax) && fresh(xy) && fresh(next)
    ensures TableShapes(r, ax, xy, next) && TablesOk(r, ax, xy, next)
  {
    var n := Vs(r);
    ax := new int[2, n];
    xy := new int[2 * r + 1, 2 * r + 1]((i, j) => 0);
    InitXy(r, n, ax, xy);
    next := new int[4, n];
    InitDirCacheVars(r, n, ax, xy, next, R);
    InitDirCacheVars(r, n, ax, xy, next, D);
    InitDirCacheVars(r, n, ax, xy, next, L);
    InitDirCacheVars(r, n, ax, xy, next, U);
  }

  /** The lattice as the shortest-path engines see it: vs vertices, the
      root, and for direction d and vertex v the threshold epn[d][v] and the
      neighbour next[d][v]. */
  datatype Net = Net(vs: int, root: int, epn: seq<seq<int>>, next: seq<seq<int>>)
  {
    /** A row per direction and a column per vertex, the root is a vertex,
        and there are fewer vertices than INIT. */
    ghost predicate Sized()
    {
      |epn| == 4 && |next| == 4 &&
      (forall d :: 0 <= d < 4 ==> |epn[d]| == vs && |next[d]| == vs) &&
      0 <= root < vs < INIT
    }

    /** d and u index both tables. */
    predicate Slot(d: int, u: int)
    {
      0 <= d < |epn| && 0 <= u < |epn[d]| && d < |next| && u < |next[d]|
    }

    /** A slot whose threshold is below MAX_VALUE leads to another vertex,
        whose opposite slot leads back with the same threshold, and two such
        slots of one vertex lead to different vertices. */
    ghost predicate Linked()
    {
      Sized() &&
      (forall v, d {:trigger next[d][v]} :: 0 <= v < vs && IsDir(d) && epn[d][v] < MAX_VALUE ==>
        0 <= next[d][v] < vs && next[d][v] != v) &&
      (forall v, d {:trigger next[Opp(d)][next[d][v]]} ::
        0 <= v < vs && IsDir(d) && epn[d][v] < MAX_VALUE ==> next[Opp(d)][next[d][v]] == v) &&
      (forall v, d {:trigger epn[Opp(d)][next[d][v]]} ::
        0 <= v < vs && IsDir(d) && epn[d][v] < MAX_VALUE ==> epn[Opp(d)][next[d][v]] == epn[d][v]) &&
      (forall v, d, e {:trigger next[d][v], next[e][v]} ::
        0 <= v < vs && IsDir(d) && IsDir(e) && d != e && epn[d][v] < MAX_VALUE && epn[e][v] < MAX_VALUE
        ==> next[d][v] != next[e][v])
    }
  }

  class Graph {
    const r: nat
    const vs: int
    const skip: nat
    const from: int
    const div: int
    const root: int
    /** epn[d, v]: threshold of the edge from v in direction d; MAX_VALUE if none. */
    const epn: array2<int>
    /** ax[0, v], ax[1, v]: the coordinates of v. */
    const ax: array2<int>
    /** xy[x + r, y + r]: the vertex at (x, y); 0 outside the diamond. */
    const xy: array2<int>
    /** next[d, v]: the neighbour of v in direction d, or -1. */
    const next: array2<int>
    /** The current probability numerator. */
    var pn: int

    /** The threshold and neighbour tables have a row per direction and a
        column per vertex, the root is a vertex, and there are fewer vertices
        than INIT (so a hop count never reaches the sentinels). */
    ghost predicate Sized()
    {
      epn.Length0 == 4 && epn.Length1 == vs && next.Length0 == 4 && next.Length1 == vs &&
      0 <= root < vs < INIT
    }

    /** Parameters and array shapes. */
    ghost predicate Shape()
    {
      Sized() && r >= 1 && vs == Vs(r) && 1 <= div < INIT && root == Root(r) &&
      ax.Length0 == 2 && ax.Length1 == vs && xy.Length0 == 2 * r + 1 && xy.Length1 == 2 * r + 1 &&
      epn != ax && epn != xy && epn != next && ax != xy && ax != next && xy != next
    }

    /** The cached tables agree with the lattice geometry. */
    ghost predicate Tables()
      reads ax, xy, next
      requires Shape()
    {
      TablesOk(r, ax, xy, next)
    }

    ghost predicate Thresholds()
      reads epn
      requires Shape()
    {
      ThresholdsOk(r, skip, div, epn)
    }

    ghost predicate Valid()
      reads epn, ax, xy, next
    {
      Shape() && Tables() && Thresholds()
    }

    /** The tables seen only through thresholds and neighbours: a slot whose
        threshold is below MAX_VALUE leads to another vertex, whose opposite
        slot leads back with the same threshold, and two such slots of one
        vertex lead to different vertices. */
    ghost predicate Linked()
      reads epn, next
    {
      Sized() &&
      (forall v, d {:trigger next[d, v]} :: 0 <= v < vs && IsDir(d) && epn[d, v] < MAX_VALUE ==>
        0 <= next[d, v] < vs && next[d, v] != v) &&
      (forall v, d {:trigger next[Opp(d), next[d, v]]} ::
        0 <= v < vs && IsDir(d) && epn[d, v] < MAX_VALUE ==> next[Opp(d), next[d, v]] == v) &&
      (forall v, d {:trigger epn[Opp(d), next[d, v]]} ::
        0 <= v < vs && IsDir(d) && epn[d, v] < MAX_VALUE ==> epn[Opp(d), next[d, v]] == epn[d, v]) &&
      (forall v, d, e {:trigger next[d, v], next[e, v]} ::
        0 <= v < vs && IsDir(d) && IsDir(e) && d != e && epn[d, v] < MAX_VALUE && epn[e, v] < MAX_VALUE
        ==> next[d, v] != next[e, v])
    }

    /** Builds the lattice of radius r: coordinates, neighbours, and INIT in
        every slot that can hold an edge (Graph.java, the constructor). */
    constructor (r: nat, skip: nat, from: int, div: int)
      requires r >= 1 && Vs(r) < INIT && 1 <= div < INIT
      ensures Valid() && fresh(epn) && fresh(ax) && fresh(xy) && fresh(next)
      ensures this.r == r && this.skip == skip && this.from == from && this.div == div
      ensures vs == Vs(r) && root == Root(r) && pn == 0
      ensures forall v :: 0 <= v < vs ==>
        epn[R, v] == (if EligibleR(r, v) then INIT else MAX_VALUE) &&
        epn[D, v] == (if EligibleD(r, skip, v) then INIT else MAX_VALUE)
    {
      var n := Vs(r);
      var ax0, xy0, nx := BuildTables(r);
      RootAtOrigin(r);
      var rt := xy0[0 + r, 0 + r];
      var e := new int[4, n];
      MarkSlots(r, skip, ax0, e);
      CopyLeftUp(r, n, ax0, nx, e);
      assert ThresholdsOk(r, skip, div, e);
      this.r, this.vs, this.skip, this.from, this.div := r, n, skip, from, div;
      epn, ax, xy, next, root := e, ax0, xy0, nx, rt;
      pn := 0;
    }

    /** Graph.init(seed).  The generator's draws are the input `draws`; each
        right / down slot with an edge takes the next draw, right before down,
        vertex by vertex. */
    method Init(draws: seq<int>)
      requires Valid()
      requires |draws| >= SlotsBefore(OpenR(r), OpenD(r, skip), vs)
      requires forall i :: 0 <= i < |draws| ==> 0 <= draws[i] <= div
      modifies this`pn, epn
      ensures Valid() && pn == from
      ensures forall v :: 0 <= v < vs ==>
        epn[R, v] == DrawR(OpenR(r), OpenD(r, skip), draws, v) &&
        epn[D, v] == DrawD(OpenR(r), OpenD(r, skip), draws, v)
    {
      pn := from;
      DrawSlots(OpenR(r), OpenD(r, skip), div, draws, epn);
      CopyLeftUp(r, vs, ax, next, epn);
      assert Thresholds() by {
        DrawnThresholds(r, skip, div, epn);
      }
    }

    /** vid(x, y): the table lookup; 0 for a point outside the diamond. */
    function Vid(x: int, y: int): (v: int)
      reads epn, ax, xy, next
      requires Valid() && -(r as int) <= x <= r && -(r as int) <= y <= r
      ensures InDiamond(r, x, y) ==> IsVid(r, v) && X(r, v) == x && Y(r, v) == y
      ensures !InDiamond(r, x, y) ==> v == 0
    {
      if InDiamond(r, x, y) then XYVidAt(r, x, y); xy[x + r, y + r]
      else xy[x + r, y + r]
    }

    /** update(pn): records the threshold and changes nothing else. */
    method Update(p: int)
      modifies this`pn
      ensures pn == p
    {
      pn := p;
    }

    /** The edge from u in direction d is on at threshold p. */
    ghost predicate Active(p: int, u: int, d: int)
      reads epn
      requires Shape() && 0 <= u < vs && IsDir(d)
    {
      epn[d, u] <= p
    }

    /** have(dir, vid).  When pn < MAX_VALUE an enabled direction always leads
        to a real neighbour. */
    function Have(dir: int, vid: int): (b: bool)
      reads this, epn, ax, xy, next
      requires Valid() && IsDir(dir) && 0 <= vid < vs
      ensures b == Active(pn, vid, dir)
      ensures b && pn < MAX_VALUE ==> IsNotAt(r, dir, vid) && Next(vid, dir) != -1
    {
      EnabledHasNeighbour(pn, vid, dir);
      NextSpec(vid, dir);
      epn[dir, vid] <= pn
    }

    /** isEdgeEnabled(src, dir): the threshold of the slot against pn.  On
        linked tables an enabled slot below the MAX_VALUE threshold leads to
        another vertex, so the caller may index dists with next(src, dir). */
    function IsEdgeEnabled(src: int, dir: int): (b: bool)
      reads this, epn, next
      requires Sized() && IsDir(dir) && 0 <= src < vs
      ensures b <==> epn[dir, src] <= pn
      ensures Linked() && b && pn < MAX_VALUE ==> 0 <= Next(src, dir) < vs && Next(src, dir) != src
    {
      Epn(src, dir) <= Pn()
    }

    /** isEdgeEnabled(src, dir) is the test of have(dir, src), and an enabled
        direction leads to a vertex. */
    lemma EnabledIsHave(src: int, dir: int)
      requires Valid() && IsDir(dir) && 0 <= src < vs
      ensures IsEdgeEnabled(src, dir) == Have(dir, src)
      ensures IsEdgeEnabled(src, dir) && pn < MAX_VALUE ==> IsVid(r, Next(src, dir))
    {
      NbSpec(r, src, dir);
      if IsEdgeEnabled(src, dir) && pn < MAX_VALUE {
        EnabledHasNeighbour(pn, src, dir);
      }
    }

    /** The row g.epn[dir]: the thresholds of every vertex in direction dir. */
    function EpnRow(dir: int): (row: seq<int>)
      reads epn
      requires Sized() && IsDir(dir)
      ensures |row| == vs && forall v :: 0 <= v < vs ==> row[v] == epn[dir, v]
    {
      seq(vs, v reads epn requires 0 <= v < vs => epn[dir, v])
    }

    function Epn(vid: int, dir: int): int
      reads epn
      requires Sized() && IsDir(dir) && 0 <= vid < vs
    {
      epn[dir, vid]
    }

    function Pn(): int
      reads this
    {
      pn
    }

    /** isNotAt(dir, vid) on the coordinate table. */
    function IsNotAtDir(dir: int, vid: int): (b: bool)
      reads epn, ax, xy, next
      requires Valid() && IsDir(dir) && 0 <= vid < vs
      ensures b == IsNotAt(r, dir, vid)
      ensures b <==> NotAtXY(r, dir, X(r, vid), Y(r, vid))
    {
      NotAtIn(ax, r, dir, vid)
    }

    /** next(vid, dir): the neighbour table; a slot with an edge leads to
        another vertex. */
    function Next(vid: int, dir: int): (w: int)
      reads epn, next
      requires Sized() && IsDir(dir) && 0 <= vid < vs
      ensures Linked() && epn[dir, vid] < MAX_VALUE ==> 0 <= w < vs && w != vid
    {
      next[dir, vid]
    }

    /** next(vid, dir) is -1 exactly at the border, and otherwise the vertex
        one step away in direction dir. */
    lemma NextSpec(vid: int, dir: int)
      requires Valid() && IsDir(dir) && 0 <= vid < vs
      ensures Next(vid, dir) == -1 <==> !IsNotAtDir(dir, vid)
      ensures Next(vid, dir) != -1 ==>
        IsVid(r, Next(vid, dir)) &&
        X(r, Next(vid, dir)) == X(r, vid) + DX(dir) && Y(r, Next(vid, dir)) == Y(r, vid) + DY(dir)
    {
      NbSpec(r, vid, dir);
    }

    function GetX(vid: int): (x: int)
      reads epn, ax, xy, next
      requires Valid() && 0 <= vid < vs
      ensures x == X(r, vid) && InDiamond(r, X(r, vid), Y(r, vid))
      ensures Vid(X(r, vid), Y(r, vid)) == vid
    {
      VidAtXY(r, vid);
      ax[0, vid]
    }

    function GetY(vid: int): (y: int)
      reads epn, ax, xy, next
      requires Valid() && 0 <= vid < vs
      ensures y == Y(r, vid) && InDiamond(r, X(r, vid), Y(r, vid))
      ensures Vid(X(r, vid), Y(r, vid)) == vid
    {
      VidAtXY(r, vid);
      ax[1, vid]
    }

    /** dir(src, dst): the first direction whose neighbour is dst; None where
        the source throws IllegalArgumentException. */
    method Dir(src: int, dst: int) returns (res: Option<int>)
      requires Valid() && 0 <= src < vs
      ensures res.Some? ==>
        (IsDir(res.value) && next[res.value, src] == dst &&
         forall e :: 0 <= e < res.value ==> next[e, src] != dst)
      ensures res.None? <==> forall e :: 0 <= e < 4 ==> next[e, src] != dst
    {
      for dir := 0 to 4
        invariant forall e :: 0 <= e < dir ==> next[e, src] != dst
      {
        if next[dir, src] == dst {
          return Some(dir);
        }
      }
      return None;
    }

    // ------------------------------------------------------------ findGreater

    /** The first position at or after `pos` whose vertex has a threshold
        above val in direction dir, or |s| if there is none. */
    ghost function FirstAbove(s: seq<int>, dir: int, pos: int, val: int): (k: int)
      reads epn
      requires Sized() && IsDir(dir) && 0 <= pos <= |s|
      requires forall i :: 0 <= i < |s| ==> 0 <= s[i] < vs
      ensures pos <= k <= |s|
      decreases |s| - pos
    {
      if pos == |s| then |s|
      else if epn[dir, s[pos]] > val then pos
      else FirstAbove(s, dir, pos + 1, val)
    }

    /** s is ordered by ascending threshold in direction dir. */
    ghost predicate SortedBy(s: seq<int>, dir: int)
      reads epn
      requires Sized() && IsDir(dir)
    {
      (forall i :: 0 <= i < |s| ==> 0 <= s[i] < vs) &&
      forall i, j :: 0 <= i <= j < |s| ==> epn[dir, s[i]] <= epn[dir, s[j]]
    }

    /** FirstAbove is the least position k >= pos with k == |s| or a threshold
        above val; every position in between has its threshold at most val. */
    lemma {:induction false} FirstAboveSpec(s: seq<int>, dir: int, pos: int, val: int)
      requires Sized() && IsDir(dir) && 0 <= pos <= |s|
      requires forall i :: 0 <= i < |s| ==> 0 <= s[i] < vs
      ensures var k := FirstAbove(s, dir, pos, val);
        pos <= k <= |s| && (k < |s| ==> epn[dir, s[k]] > val) &&
        forall j :: pos <= j < k ==> epn[dir, s[j]] <= val
      decreases |s| - pos
    {
      if pos < |s| && epn[dir, s[pos]] <= val {
        FirstAboveSpec(s, dir, pos + 1, val);
      }
    }

    /** Any position with the property of FirstAboveSpec is FirstAbove. */
    lemma {:induction false} FirstAboveIs(s: seq<int>, dir: int, pos: int, val: int, k: int)
      requires Sized() && IsDir(dir) && 0 <= pos <= k <= |s|
      requires forall i :: 0 <= i < |s| ==> 0 <= s[i] < vs
      requires k < |s| ==> epn[dir, s[k]] > val
      requires forall j :: pos <= j < k ==> epn[dir, s[j]] <= val
      ensures FirstAbove(s, dir, pos, val) == k
      decreases k - pos
    {
      if pos < k {
        FirstAboveIs(s, dir, pos + 1, val, k);
      }
    }

    /** On a sorted sequence, every position from FirstAbove on is above val. */
    lemma FirstAboveSorted(s: seq<int>, dir: int, pos: int, val: int)
      requires Sized() && IsDir(dir) && 0 <= pos <= |s| && SortedBy(s, dir)
      ensures forall j :: 0 <= j < |s| && FirstAbove(s, dir, pos, val) <= j ==> epn[dir, s[j]] > val
    {
      FirstAboveSpec(s, dir, pos, val);
    }

    /** What the answer depends on: only the positions from `pos` on. */
    lemma {:induction false} FirstAboveSuffix(s: seq<int>, dir: int, pos: int, val: int)
      requires Sized() && IsDir(dir) && 0 <= pos <= |s|
      requires forall i :: 0 <= i < |s| ==> 0 <= s[i] < vs
      ensures FirstAbove(s, dir, pos, val) == pos + FirstAbove(s[pos..], dir, 0, val)
    {
      var t := s[pos..];
      FirstAboveSpec(s, dir, pos, val);
      var k := FirstAbove(s, dir, pos, val);
      FirstAboveIs(t, dir, 0, val, k - pos);
    }

    /** findGreater(a, dir, from, val): a binary search, resumable from
        `pos`, over an array sorted by threshold. */
    method FindGreater(a: array<int>, dir: int, pos: int, val: int) returns (res: int)
      requires Sized() && IsDir(dir)
      requires a.Length > 0 && 0 <= pos < a.Length && SortedBy(a[..], dir)
      ensures res == FirstAbove(a[..], dir, pos, val)
      ensures pos <= res <= a.Length
    {
      var lo := pos;
      var hi := a.Length - 1;
      if epn[dir, a[hi]] <= val {
        FirstAboveIs(a[..], dir, pos, val, a.Length);
        return hi + 1;
      }
      var mid := (lo + hi) / 2;
      while lo < hi
        invariant pos <= lo <= hi < a.Length && mid == (lo + hi) / 2
        invariant epn[dir, a[hi]] > val
        invariant (forall j :: pos <= j < lo ==> epn[dir, a[j]] <= val)
        decreases hi - lo
      {
        if epn[dir, a[mid]] <= val {
          lo := mid + 1;
        } else if mid > lo && epn[dir, a[mid - 1]] > val {
          hi := mid - 1;
        } else {
          break;
        }
        mid := (lo + hi) / 2;
      }
      FirstAboveIs(a[..], dir, pos, val, mid);
      res := mid;
    }

    // ------------------------------------------------------------ invariants

    /** Both directions of an edge have the same threshold: the slot of v in
        direction d mirrors the slot of next(v, d) in the opposite direction. */
    lemma EdgeSymmetric(v: int, d: int)
      requires Valid() && 0 <= v < vs && IsDir(d) && IsNotAt(r, d, v)
      ensures IsVid(r, Nb(r, v, d)) && IsNotAt(r, Opp(d), Nb(r, v, d))
      ensures Nb(r, Nb(r, v, d), Opp(d)) == v
      ensures epn[Opp(d), Nb(r, v, d)] == epn[d, v]
    {
      NbBack(r, v, d);
    }

    /** A slot whose threshold is below MAX_VALUE belongs to a real edge. */
    lemma EnabledHasNeighbour(p: int, v: int, d: int)
      requires Valid() && 0 <= v < vs && IsDir(d)
      ensures epn[d, v] <= p < MAX_VALUE ==> IsNotAt(r, d, v)
    {
      var w := Nb(r, v, d);
      if d == R {
        assert EligibleR(r, v) == IsNotAt(r, R, v);
      } else if d == D {
        assert EligibleD(r, skip, v) ==> IsNotAt(r, D, v);
      }
    }

    /** There is no edge across the border: such a slot holds MAX_VALUE. */
    lemma BorderIsMax(v: int, d: int)
      requires Valid() && 0 <= v < vs && IsDir(d) && !IsNotAt(r, d, v)
      ensures epn[d, v] == MAX_VALUE
    {
      var w := Nb(r, v, d);
      if d == R {
        assert !EligibleR(r, v);
      } else if d == D {
        assert !EligibleD(r, skip, v);
      }
    }

    /** An edge that is on at a threshold p below MAX_VALUE, read off the
        tables: it leads to a vertex, and that vertex's opposite slot leads
        back with the same threshold. */
    lemma TableEdge(p: int, v: int, d: int)
      requires Valid() && 0 <= v < vs && IsDir(d) && epn[d, v] <= p < MAX_VALUE
      ensures 0 <= next[d, v] < vs && IsDir(Opp(d))
      ensures next[Opp(d), next[d, v]] == v && epn[Opp(d), next[d, v]] == epn[d, v]
    {
      EnabledHasNeighbour(p, v, d);
      EdgeSymmetric(v, d);
    }

    /** The edges of one vertex lead to different vertices, none of them itself. */
    lemma TableDistinct(p: int, v: int, d: int, e: int)
      requires Valid() && 0 <= v < vs && IsDir(d) && IsDir(e) && d != e
      requires epn[d, v] <= p < MAX_VALUE && epn[e, v] <= p
      ensures next[d, v] != next[e, v] && next[d, v] != v
    {
      EnabledHasNeighbour(p, v, d);
      EnabledHasNeighbour(p, v, e);
      NbDistinct(r, v, d, e);
    }

    /** The tables as a Net value. */
    ghost function View(): (n: Net)
      reads epn, next
      requires Sized()
      ensures n.vs == vs && n.root == root && n.Sized()
      ensures forall d, v :: 0 <= d < 4 && 0 <= v < vs ==> n.epn[d][v] == epn[d, v] && n.next[d][v] == next[d, v]
    {
      Net(vs, root,
          seq(4, d requires 0 <= d < 4 reads epn => seq(vs, v requires 0 <= v < vs reads epn => epn[d, v])),
          seq(4, d requires 0 <= d < 4 reads next => seq(vs, v requires 0 <= v < vs reads next => next[d, v])))
    }

    /** Linked tables give a linked Net. */
    lemma ViewLinked()
      requires Linked()
      ensures View().Linked()
    {
      var n := View();
      forall v, d | 0 <= v < vs && IsDir(d) && n.epn[d][v] < MAX_VALUE
        ensures 0 <= n.next[d][v] < vs && n.next[d][v] != v
        ensures n.next[Opp(d)][n.next[d][v]] == v && n.epn[Opp(d)][n.next[d][v]] == n.epn[d][v]
      {
        assert next[Opp(d), next[d, v]] == v;
      }
    }

    /** A valid lattice is linked. */
    lemma ValidIsLinked()
      requires Valid()
      ensures Linked()
    {
      forall v, d | 0 <= v < vs && IsDir(d) && epn[d, v] < MAX_VALUE
        ensures 0 <= next[d, v] < vs && next[d, v] != v
        ensures next[Opp(d), next[d, v]] == v && epn[Opp(d), next[d, v]] == epn[d, v]
      {
        TableEdge(epn[d, v], v, d);
        EnabledHasNeighbour(epn[d, v], v, d);
        NextSpec(v, d);
        var w := Next(v, d);
        assert X(r, w) != X(r, v) || Y(r, w) != Y(r, v);
      }
      forall v, d, e | 0 <= v < vs && IsDir(d) && IsDir(e) && d != e &&
        epn[d, v] < MAX_VALUE && epn[e, v] < MAX_VALUE
        ensures next[d, v] != next[e, v]
      {
        var p := if epn[d, v] < epn[e, v] then epn[e, v] else epn[d, v];
        TableDistinct(p, v, d, e);
      }
    }

    /** The root is the vertex at the origin. */
    lemma RootIsOrigin()
      requires Valid()
      ensures 0 <= root < vs && X(r, root) == 0 && Y(r, root) == 0
      ensures Vid(0, 0) == root
    {
      RootAtOrigin(r);
    }
  }
}
