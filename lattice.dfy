/** Geometry of the diamond lattice: vertex ids, their (x, y) coordinates,
    the border tests and the four neighbour offsets.  Everything here is the
    pure arithmetic that Graph.java caches in its ax, xy and next tables. */
module Lattice {

  const MAX_VALUE: int := 0x7fff_ffff
  /** Threshold of an edge that exists but has not been drawn yet. */
  const INIT: int := MAX_VALUE - 1

  /** Directions, in the order of Graph.java. */
  const R: int := 0
  const D: int := 1
  const L: int := 2
  const U: int := 3

  predicate IsDir(d: int) { 0 <= d < 4 }

  function Abs(a: int): int { if a < 0 then -a else a }

  /** Java's `%`: the remainder takes the sign of the dividend. */
  function JRem(a: int, b: int): int
    requires b > 0
  {
    if a >= 0 then a % b else -((-a) % b)
  }

  /** Quotient and remainder of non-negative operands, by repeated
      subtraction; QuotRem shows they are Java's / and %. */
  function Quot(i: nat, c: nat): nat
    requires c > 0
    decreases i
  {
    if i < c then 0 else 1 + Quot(i - c, c)
  }

  function Rem(i: nat, c: nat): nat
    requires c > 0
    decreases i
  {
    if i < c then i else Rem(i - c, c)
  }

  function Outer(r: nat): nat { (r + 1) * (r + 1) }
  function Inner(r: nat): nat { r * r }
  /** Number of vertices of the diamond of radius r. */
  function Vs(r: nat): nat { Outer(r) + Inner(r) }

  predicate InDiamond(r: nat, x: int, y: int) { Abs(x) + Abs(y) <= r }

  predicate IsVid(r: nat, v: int) { 0 <= v < Vs(r) }

  /** 0 for the outer grid of (r+1)^2 ids, 1 for the inner grid of r^2 ids. */
  function Part(r: nat, v: int): int
    requires r >= 1 && IsVid(r, v)
  {
    if v < Outer(r) then 0 else 1
  }

  function Cols(r: nat, v: int): int
    requires r >= 1 && IsVid(r, v)
  {
    r + 1 - Part(r, v)
  }

  function Idx(r: nat, v: int): nat
    requires r >= 1 && IsVid(r, v)
  {
    PartIs(r, v);
    v - Part(r, v) * Outer(r)
  }

  /** Column xa and row ya of v in its grid. */
  function ColOf(r: nat, v: int): nat
    requires r >= 1 && IsVid(r, v)
  {
    PartIs(r, v);
    Rem(Idx(r, v), Cols(r, v))
  }

  function RowOf(r: nat, v: int): nat
    requires r >= 1 && IsVid(r, v)
  {
    PartIs(r, v);
    Quot(Idx(r, v), Cols(r, v))
  }

  /** Coordinates of vertex v (Graph.java, the loop of initXy). */
  function X(r: nat, v: int): int
    requires r >= 1 && IsVid(r, v)
  {
    ColOf(r, v) - RowOf(r, v)
  }

  function Y(r: nat, v: int): int
    requires r >= 1 && IsVid(r, v)
  {
    Cols(r, v) - ColOf(r, v) - RowOf(r, v) - 1
  }

  /** The vertex at (x, y): the inverse of (X, Y) written out.  The parity of
      r - x - y tells the outer grid from the inner one. */
  function VidAt(r: nat, x: int, y: int): int
    requires r >= 1 && InDiamond(r, x, y)
  {
    var s := x + y;
    var t := x - y;
    if (r - s) % 2 == 0 then ((r - s) / 2) * (r + 1) + (t + r) / 2
    else Outer(r) + ((r - 1 - s) / 2) * r + (t + r - 1) / 2
  }

  function Root(r: nat): int
    requires r >= 1
  {
    VidAt(r, 0, 0)
  }

  /** Graph.isNotAt on coordinates: the step in direction d stays inside. */
  predicate NotAtXY(r: nat, d: int, x: int, y: int)
  {
    if d == R then x < r - Abs(y)
    else if d == D then y > Abs(x) - r
    else if d == L then x > Abs(y) - r
    else if d == U then y < r - Abs(x)
    else false
  }

  predicate IsNotAt(r: nat, d: int, v: int)
    requires r >= 1 && IsVid(r, v)
  {
    NotAtXY(r, d, X(r, v), Y(r, v))
  }

  /** The neighbour offsets: R = (x+1, y), D = (x, y-1), L = (x-1, y), U = (x, y+1). */
  function DX(d: int): int { if d == R then 1 else if d == L then -1 else 0 }
  function DY(d: int): int { if d == D then -1 else if d == U then 1 else 0 }

  /** The opposite direction: R <-> L, D <-> U. */
  function Opp(d: int): int
    requires IsDir(d)
  {
    (d + 2) % 4
  }

  /** next[d][v] as initDirCacheVars computes it; -1 at the border. */
  function Nb(r: nat, v: int, d: int): (n: int)
    requires r >= 1 && IsVid(r, v) && IsDir(d)
    ensures if IsNotAt(r, d, v) then IsVid(r, n) else n == -1
  {
    if IsNotAt(r, d, v) then
      VidAtXY(r, v);
      NotAtStaysInside(r, d, X(r, v), Y(r, v));
      XYVidAt(r, X(r, v) + DX(d), Y(r, v) + DY(d));
      VidAt(r, X(r, v) + DX(d), Y(r, v) + DY(d))
    else -1
  }

  // ---------------------------------------------------------------- lemmas

  /** initDirCacheVars subtracts (dir - 1) % 2 and (2 - dir) % 2 with Java's
      truncating `%`; those are exactly the offsets DX and DY. */
  lemma {:induction false} OffsetsAgree(d: int)
    requires IsDir(d)
    ensures -JRem(d - 1, 2) == DX(d) && -JRem(2 - d, 2) == DY(d)
  {
    if d == R {
      assert JRem(-1, 2) == -(1 % 2) == -1;
    } else if d == U {
      assert JRem(-1, 2) == -1;
    }
  }

  lemma NotAtStaysInside(r: nat, d: int, x: int, y: int)
    requires r >= 1 && InDiamond(r, x, y) && NotAtXY(r, d, x, y)
    ensures InDiamond(r, x + DX(d), y + DY(d))
  {
  }

  /** A step outward from a vertex that is not at the border in direction d
      can be walked back in direction Opp(d). */
  lemma NotAtBack(r: nat, d: int, x: int, y: int)
    requires r >= 1 && IsDir(d) && InDiamond(r, x, y) && NotAtXY(r, d, x, y)
    ensures NotAtXY(r, Opp(d), x + DX(d), y + DY(d))
    ensures DX(Opp(d)) == -DX(d) && DY(Opp(d)) == -DY(d)
  {
  }

  lemma DivModUnique(q: int, m: int, c: int)
    requires c > 0 && 0 <= m < c
    ensures (q * c + m) / c == q && (q * c + m) % c == m
  {
    var n := q * c + m;
    var q' := n / c;
    var m' := n % c;
    assert n == q' * c + m';
    assert 0 <= m' < c;
    if q' > q {
      assert q' * c >= (q + 1) * c by { MulMono(q + 1, q', c); }
      assert false;
    } else if q' < q {
      assert q * c >= (q' + 1) * c by { MulMono(q' + 1, q, c); }
      assert false;
    }
  }

  lemma OddHalf(n: int)
    requires n % 2 != 0
    ensures n % 2 == 1 && n - 1 == 2 * ((n - 1) / 2)
  {
    assert n == 2 * (n / 2) + n % 2;
    DivModUnique(n / 2, 0, 2);
    assert n - 1 == 2 * (n / 2) + 0;
  }

  lemma MulMono(a: int, b: int, c: int)
    requires a <= b && c >= 0
    ensures a * c <= b * c
  {
    assert b * c - a * c == (b - a) * c;
  }

  /** Repeated subtraction computes the quotient and the remainder. */
  lemma {:induction false} QuotRem(i: nat, c: nat)
    requires c > 0
    ensures Quot(i, c) == i / c && Rem(i, c) == i % c
    ensures i == Quot(i, c) * c + Rem(i, c) && Rem(i, c) < c
    decreases i
  {
    if i < c {
      DivModUnique(0, i, c);
    } else {
      QuotRem(i - c, c);
      DivModUnique(Quot(i - c, c) + 1, Rem(i - c, c), c);
    }
  }

  /** The outer grid holds the ids below (r+1)^2, the inner one the rest
      (Part is Java's vid / outer). */
  lemma PartIs(r: nat, v: int)
    requires r >= 1 && IsVid(r, v)
    ensures v < Outer(r) ==> Part(r, v) == 0
    ensures v >= Outer(r) ==> Part(r, v) == 1
    ensures Part(r, v) == v / Outer(r)
    ensures 0 <= v - Part(r, v) * Outer(r) && Cols(r, v) >= 1
  {
    var o := Outer(r);
    assert Inner(r) < o by {
      assert o == r * r + 2 * r + 1;
    }
    if v < o {
      DivModUnique(0, v, o);
    } else {
      DivModUnique(1, v - o, o);
    }
  }

  /** The coordinates as initXy computes them, with Java's / and %. */
  lemma JavaCoords(r: nat, v: int)
    requires r >= 1 && IsVid(r, v)
    ensures var isInner := v / Outer(r); var idx := v - isInner * Outer(r);
      var cols := r + 1 - isInner;
      cols >= 1 && idx >= 0 && isInner == Part(r, v) &&
      X(r, v) == idx % cols - idx / cols &&
      Y(r, v) == cols - idx % cols - idx / cols - 1
  {
    PartIs(r, v);
    QuotRem(Idx(r, v), Cols(r, v));
  }

  lemma AbsSum(x: int, y: int, r: int)
    requires -r <= x + y <= r && -r <= x - y <= r
    ensures Abs(x) + Abs(y) <= r
  {
  }

  /** The parts of a vertex: row ya, column xa of its grid. */
  lemma Decompose(r: nat, v: int)
    requires r >= 1 && IsVid(r, v)
    ensures var c := Cols(r, v);
      c >= 1 && ColOf(r, v) < c && RowOf(r, v) < c && Idx(r, v) == RowOf(r, v) * c + ColOf(r, v)
      && (Part(r, v) == 0 ==> c == r + 1) && (Part(r, v) == 1 ==> c == r)
  {
    PartIs(r, v);
    var c := Cols(r, v);
    var i := Idx(r, v);
    assert 0 <= i < c * c;
    QuotRem(i, c);
    var ya := RowOf(r, v);
    assert i == ya * c + ColOf(r, v);
    if ya >= c {
      MulMono(c, ya, c);
      assert false;
    }
  }

  /** Every vertex lies in the diamond, and VidAt inverts (X, Y). */
  lemma VidAtXY(r: nat, v: int)
    requires r >= 1 && IsVid(r, v)
    ensures InDiamond(r, X(r, v), Y(r, v))
    ensures VidAt(r, X(r, v), Y(r, v)) == v
  {
    Decompose(r, v);
    PartIs(r, v);
    var c := Cols(r, v);
    var i := Idx(r, v);
    var xa, ya := ColOf(r, v), RowOf(r, v);
    var x, y := X(r, v), Y(r, v);
    assert x + y == c - 1 - 2 * ya;
    assert x - y == 2 * xa - c + 1;
    AbsSum(x, y, r);
    var s, t := x + y, x - y;
    if Part(r, v) == 0 {
      assert r - s == 2 * ya;
      assert (r - s) % 2 == 0 && (r - s) / 2 == ya;
      assert (t + r) / 2 == xa;
    } else {
      assert r - s == 2 * ya + 1;
      assert (r - s) % 2 == 1;
      assert (r - 1 - s) / 2 == ya;
      assert (t + r - 1) / 2 == xa;
    }
  }

  /** VidAt maps the diamond into the ids, and (X, Y) inverts it. */
  lemma XYVidAt(r: nat, x: int, y: int)
    requires r >= 1 && InDiamond(r, x, y)
    ensures IsVid(r, VidAt(r, x, y))
    ensures X(r, VidAt(r, x, y)) == x && Y(r, VidAt(r, x, y)) == y
  {
    if (r - (x + y)) % 2 == 0 {
      XYVidAtOuter(r, x, y);
    } else {
      XYVidAtInner(r, x, y);
    }
  }

  lemma XYVidAtOuter(r: nat, x: int, y: int)
    requires r >= 1 && InDiamond(r, x, y) && (r - (x + y)) % 2 == 0
    ensures IsVid(r, VidAt(r, x, y))
    ensures X(r, VidAt(r, x, y)) == x && Y(r, VidAt(r, x, y)) == y
  {
    var s, t := x + y, x - y;
    var v := VidAt(r, x, y);
    var ya, xa := (r - s) / 2, (t + r) / 2;
    assert r - s == 2 * ya;
    assert t + r == 2 * xa;
    assert 0 <= ya <= r && 0 <= xa <= r;
    assert v == ya * (r + 1) + xa;
    MulMono(ya, r, r + 1);
    assert r * (r + 1) + r < (r + 1) * (r + 1);
    assert v < Outer(r);
    PartIs(r, v);
    assert Part(r, v) == 0 && Cols(r, v) == r + 1 && Idx(r, v) == v;
    GridPos(r, v, ya, xa);
    assert ColOf(r, v) - RowOf(r, v) == xa - ya;
  }

  /** Row and column of a vertex whose grid index is ya * cols + xa. */
  lemma GridPos(r: nat, v: int, ya: int, xa: int)
    requires r >= 1 && IsVid(r, v) && 0 <= xa < Cols(r, v) && 0 <= ya
    requires Idx(r, v) == ya * Cols(r, v) + xa
    ensures ColOf(r, v) == xa && RowOf(r, v) == ya
  {
    var c := Cols(r, v);
    DivModUnique(ya, xa, c);
    QuotRem(Idx(r, v), c);
  }

  lemma XYVidAtInner(r: nat, x: int, y: int)
    requires r >= 1 && InDiamond(r, x, y) && (r - (x + y)) % 2 != 0
    ensures IsVid(r, VidAt(r, x, y))
    ensures X(r, VidAt(r, x, y)) == x && Y(r, VidAt(r, x, y)) == y
  {
    var s, t := x + y, x - y;
    var v := VidAt(r, x, y);
    var ya, xa := (r - 1 - s) / 2, (t + r - 1) / 2;
    var ri: int := r;
    OddHalf(r - s);
    assert s < ri && -ri < s && -ri <= t <= ri;
    assert r - 1 - s == 2 * ya;
    assert t + r - 1 == 2 * xa by {
      assert t + r - 1 == (r - 1 - s) + 2 * x;
    }
    assert 0 <= ya <= r - 1 && 0 <= xa <= r - 1;
    MulMono(ya, r - 1, r);
    assert ya * r + xa < Inner(r) by {
      assert (r - 1) * r + r == r * r;
    }
    assert v == Outer(r) + (ya * r + xa);
    MulMono(0, ya, r);
    PartIs(r, v);
    assert Part(r, v) == 1 && Cols(r, v) == r;
    assert Idx(r, v) == ya * r + xa;
    GridPos(r, v, ya, xa);
  }

  /** The vertex ids are in bijection with the lattice points of the diamond. */
  lemma VidAtInjective(r: nat, x1: int, y1: int, x2: int, y2: int)
    requires r >= 1 && InDiamond(r, x1, y1) && InDiamond(r, x2, y2)
    requires VidAt(r, x1, y1) == VidAt(r, x2, y2)
    ensures x1 == x2 && y1 == y2
  {
    XYVidAt(r, x1, y1);
    XYVidAt(r, x2, y2);
  }

  /** Different vertices sit at different points. */
  lemma CoordsDistinct(r: nat, v: int, w: int)
    requires r >= 1 && IsVid(r, v) && IsVid(r, w) && v != w
    ensures X(r, v) != X(r, w) || Y(r, v) != Y(r, w)
  {
    VidAtXY(r, v);
    VidAtXY(r, w);
  }

  lemma RootAtOrigin(r: nat)
    requires r >= 1
    ensures IsVid(r, Root(r)) && X(r, Root(r)) == 0 && Y(r, Root(r)) == 0
  {
    XYVidAt(r, 0, 0);
  }

  /** next(v, d) is -1 exactly at the border; otherwise it is the vertex one
      step away in direction d. */
  lemma {:induction false} NbSpec(r: nat, v: int, d: int)
    requires r >= 1 && IsVid(r, v) && IsDir(d)
    ensures Nb(r, v, d) == -1 <==> !IsNotAt(r, d, v)
    ensures IsNotAt(r, d, v) ==>
      IsVid(r, Nb(r, v, d)) &&
      X(r, Nb(r, v, d)) == X(r, v) + DX(d) && Y(r, Nb(r, v, d)) == Y(r, v) + DY(d)
  {
    VidAtXY(r, v);
    if IsNotAt(r, d, v) {
      NotAtStaysInside(r, d, X(r, v), Y(r, v));
      XYVidAt(r, X(r, v) + DX(d), Y(r, v) + DY(d));
    }
  }

  /** Stepping in direction d and then in Opp(d) returns to the start. */
  lemma {:induction false} NbBack(r: nat, v: int, d: int)
    requires r >= 1 && IsVid(r, v) && IsDir(d) && IsNotAt(r, d, v)
    ensures IsVid(r, Nb(r, v, d))
    ensures IsNotAt(r, Opp(d), Nb(r, v, d)) && Nb(r, Nb(r, v, d), Opp(d)) == v
  {
    NbSpec(r, v, d);
    VidAtXY(r, v);
    var w := Nb(r, v, d);
    NotAtBack(r, d, X(r, v), Y(r, v));
    NbSpec(r, w, Opp(d));
    VidAtXY(r, Nb(r, w, Opp(d)));
    VidAtInjective(r, X(r, Nb(r, w, Opp(d))), Y(r, Nb(r, w, Opp(d))), X(r, v), Y(r, v));
  }

  /** The four neighbours of a vertex are four different vertices. */
  lemma {:induction false} NbDistinct(r: nat, v: int, d: int, e: int)
    requires r >= 1 && IsVid(r, v) && IsDir(d) && IsDir(e) && d != e
    requires IsNotAt(r, d, v) && IsNotAt(r, e, v)
    ensures Nb(r, v, d) != Nb(r, v, e) && Nb(r, v, d) != v
  {
    NbSpec(r, v, d);
    NbSpec(r, v, e);
  }
}
