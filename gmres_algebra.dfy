/**
  The scalar side of restarted GMRES: the layout of the Hessenberg work area, the Givens
  rotations that reduce the Hessenberg matrix to triangular form, the residual estimate they
  carry, the convergence tolerance, the clamped basis batch size and the length of the
  residual history. Everything here is a pure value; the solver context in module Gmres uses
  these definitions as the specification of its in-place code.
 */
module GmresAlgebra {

  // ---------------------------------------------------------------------------------------
  // Work-area layout (KSPiGMRESSetUp)
  // ---------------------------------------------------------------------------------------

  /** The five scalar regions carved out of the one allocation. */
  datatype Region = HH | HES | RS | CC | SS

  /** Offsets (in doubles) of each region inside the block, and the block's size. */
  datatype Layout = Layout(hhOrigin: nat, hesOrigin: nat, rsOrigin: nat, ccOrigin: nat,
                           ssOrigin: nat, size: nat)

  /** Number of doubles the set-up routine gives each region for restart length maxK (gmres.c:71-74). */
  function RegionLength(maxK: nat, r: Region): nat
  {
    match r
    case HH => (maxK + 2) * (maxK + 1)
    case HES => (maxK + 1) * (maxK + 1)
    case RS => maxK + 2
    case CC => maxK + 1
    case SS => maxK + 1
  }

  function Origin(l: Layout, r: Region): nat
  {
    match r
    case HH => l.hhOrigin
    case HES => l.hesOrigin
    case RS => l.rsOrigin
    case CC => l.ccOrigin
    case SS => l.ssOrigin
  }

  /** Offset p of the block belongs to region r. */
  predicate InRegion(l: Layout, maxK: nat, r: Region, p: int)
  {
    Origin(l, r) <= p < Origin(l, r) + RegionLength(maxK, r)
  }

  /** The offsets computed by the set-up routine: each region starts where the previous ends. */
  function WorkspaceLayout(maxK: nat): (l: Layout)
  {
    var hh := (maxK + 2) * (maxK + 1);
    var hes := (maxK + 1) * (maxK + 1);
    var rs := maxK + 2;
    var cc := maxK + 1;
    var size := hh + hes + rs + 2 * cc;
    Layout(0, hh, hh + hes, hh + hes + rs, hh + hes + rs + cc, size)
  }

  /**
    The regions tile the block: they are disjoint, each lies inside the block, every offset
    of the block lies in one of them, and their lengths add up to the allocated size.
   */
  lemma LayoutTiles(maxK: nat)
    ensures var l := WorkspaceLayout(maxK);
      && (forall r: Region :: Origin(l, r) + RegionLength(maxK, r) <= l.size)
      && (forall r1: Region, r2: Region, p: int ::
            r1 != r2 && InRegion(l, maxK, r1, p) ==> !InRegion(l, maxK, r2, p))
      && (forall p :: 0 <= p < l.size ==>
            InRegion(l, maxK, HH, p) || InRegion(l, maxK, HES, p) || InRegion(l, maxK, RS, p) ||
            InRegion(l, maxK, CC, p) || InRegion(l, maxK, SS, p))
      && l.size == RegionLength(maxK, HH) + RegionLength(maxK, HES) + RegionLength(maxK, RS) +
                   RegionLength(maxK, CC) + RegionLength(maxK, SS)
  {
  }

  // ---------------------------------------------------------------------------------------
  // Givens rotations (GMRESUpdateHessenberg)
  // ---------------------------------------------------------------------------------------

  datatype Rotation = Rotation(c: real, s: real)

  predicate Unit(c: real, s: real)
  {
    c * c + s * s == 1.0
  }

  lemma QuotientSquares(h: real, h1: real, t: real)
    requires t > 0.0 && t * t == h * h + h1 * h1
    ensures (h / t) * (h / t) + (h1 / t) * (h1 / t) == 1.0
    ensures (h / t) * h + (h1 / t) * h1 == t
  {
    var c, s := h / t, h1 / t;
    assert c * t == h && s * t == h1;
    assert (c * c + s * s) * (t * t) == h * h + h1 * h1;
    assert (c * h + s * h1) * t == t * t;
  }

  /**
    The new rotation for a column whose diagonal entry is h and sub-diagonal entry h1, given
    t = sqrt(h^2 + h1^2) > 0. It is orthogonal, maps (h, h1) to (t, 0), and so leaves t on the
    diagonal.
   */
  function Givens(h: real, h1: real, t: real): (g: Rotation)
    requires t > 0.0 && t * t == h * h + h1 * h1
    ensures Unit(g.c, g.s)
    ensures g.c * h + g.s * h1 == t
    ensures g.c * h1 - g.s * h == 0.0
  {
    QuotientSquares(h, h1, t);
    Rotation(h / t, h1 / t)
  }

  /**
    The scalar work after the new rotation is found: the rotation itself, the new diagonal
    entry c h + s h1, and the rotated residual pair (c r, -s r) for r = RS(it).
   */
  datatype GivensUpdate = GivensUpdate(c: real, s: real, diag: real, top: real, next: real)

  /**
    What the update for a column with diagonal entry h and sub-diagonal entry h1, and for
    RS(it) = r, promises: the rotation is orthogonal, it maps (h, h1) to (diag, 0) where diag
    is the positive length of (h, h1), and the residual pair (top, next) = (c r, -s r) keeps
    the squared length of r with |next| <= |r|.
   */
  predicate IsGivensUpdate(h: real, h1: real, r: real, u: GivensUpdate)
  {
    && Unit(u.c, u.s)
    && u.diag > 0.0 && u.diag * u.diag == h * h + h1 * h1
    && u.c * h + u.s * h1 == u.diag && u.c * h1 - u.s * h == 0.0
    && u.top == u.c * r && u.next == -(u.s * r)
    && u.top * u.top + u.next * u.next == r * r
    && Abs(u.next) <= Abs(r)
  }

  /**
    The new rotation applied to the column's last two entries and to RS(it), for
    t = sqrt(h^2 + h1^2) > 0. The source stores c h + s h1 on the diagonal, which Givens
    shows to be t.
   */
  function GivensApply(h: real, h1: real, t: real, r: real): (u: GivensUpdate)
    requires t > 0.0 && t * t == h * h + h1 * h1
    ensures IsGivensUpdate(h, h1, r, u) && u.diag == t
  {
    var g := Givens(h, h1, t);
    UpdateOfRotation(h, h1, t, r, g.c, g.s);
    GivensUpdate(g.c, g.s, t, g.c * r, -(g.s * r))
  }

  /** A rotation that maps (h, h1) to (t, 0) yields an update with the promised properties. */
  lemma UpdateOfRotation(h: real, h1: real, t: real, r: real, c: real, s: real)
    requires t > 0.0 && t * t == h * h + h1 * h1
    requires Unit(c, s) && c * h + s * h1 == t && c * h1 - s * h == 0.0
    ensures IsGivensUpdate(h, h1, r, GivensUpdate(c, s, t, c * r, -(s * r)))
  {
    ResidualPair(c, s, r);
  }

  /** The rotated residual pair keeps the squared length and does not grow in its last entry. */
  lemma ResidualPair(c: real, s: real, r: real)
    requires Unit(c, s)
    ensures (c * r) * (c * r) + (-(s * r)) * (-(s * r)) == r * r
    ensures Abs(-(s * r)) <= Abs(r)
  {
    assert (c * r) * (c * r) + (s * r) * (s * r) == (c * c + s * s) * (r * r);
    assert s * s <= 1.0;
    SquareBound(s, r);
  }

  /** Apply the rotation (c, s) to rows r and r+1 of a column. */
  function Rotate(col: seq<real>, c: real, s: real, r: nat): (res: seq<real>)
    requires r + 1 < |col|
    ensures |res| == |col|
    ensures res[r] == c * col[r] + s * col[r + 1] && res[r + 1] == c * col[r + 1] - s * col[r]
    ensures forall i :: 0 <= i < |col| && i != r && i != r + 1 ==> res[i] == col[i]
  {
    col[r := c * col[r] + s * col[r + 1]][r + 1 := c * col[r + 1] - s * col[r]]
  }

  /** Apply the stored rotations 0 .. m-1, in that order, to a column. */
  function ApplyRotations(col: seq<real>, cs: seq<real>, sn: seq<real>, m: nat): (res: seq<real>)
    requires m < |col| && m <= |cs| && m <= |sn|
    ensures |res| == |col|
  {
    if m == 0 then col
    else Rotate(ApplyRotations(col, cs, sn, m - 1), cs[m - 1], sn[m - 1], m - 1)
  }

  /** The rotations touch only rows 0 .. m of the column. */
  lemma {:induction false} ApplyRotationsKeepsTail(col: seq<real>, cs: seq<real>, sn: seq<real>, m: nat, i: nat)
    requires m < |col| && m <= |cs| && m <= |sn|
    requires m < i < |col|
    ensures ApplyRotations(col, cs, sn, m)[i] == col[i]
  {
    if m > 0 {
      ApplyRotationsKeepsTail(col, cs, sn, m - 1, i);
    }
  }

  /** A unit rotation keeps the sum of squares of the two rows it mixes. */
  lemma RotateKeepsPair(c: real, s: real, a: real, b: real)
    requires Unit(c, s)
    ensures (c * a + s * b) * (c * a + s * b) + (c * b - s * a) * (c * b - s * a) == a * a + b * b
  {
    assert (c * a + s * b) * (c * a + s * b) + (c * b - s * a) * (c * b - s * a)
        == (c * c + s * s) * (a * a + b * b);
  }

  /**
    The next rotation (c, s) applied to a right-hand side whose last entry is r and whose
    new entry below it is still zero: rows r and r+1 become (c r, -s r).
   */
  function RotateLast(p: seq<real>, c: real, s: real): (g: seq<real>)
    requires |p| > 0
    ensures |g| == |p| + 1
  {
    ReplaceLast(p, RotTop(c, p[|p| - 1]), RotNext(s, p[|p| - 1]))
  }

  /** What the rotation (c, s) leaves in row j when row j holds r and row j+1 zero. */
  function RotTop(c: real, r: real): real
  {
    c * r
  }

  /** What the rotation (c, s) leaves in row j+1 when row j holds r and row j+1 zero. */
  function RotNext(s: real, r: real): real
  {
    -(s * r)
  }

  /** The last entry of p replaced by the two entries a and b. */
  function ReplaceLast(p: seq<real>, a: real, b: real): (g: seq<real>)
    requires |p| > 0
    ensures |g| == |p| + 1
  {
    p[..|p| - 1] + [a, b]
  }

  /**
    The right-hand side of the least-squares problem after the rotations cs, sn: the vector
    (res0, 0, ..., 0) of length |cs| + 1 with rotation j applied to rows j and j+1 in order,
    which is how the cycle fills RS.
   */
  function RotatedRhs(res0: real, cs: seq<real>, sn: seq<real>): (g: seq<real>)
    requires |cs| == |sn|
    ensures |g| == |cs| + 1
    decreases |cs|
  {
    if |cs| == 0 then [res0]
    else RotateLast(RotatedRhs(res0, cs[..|cs| - 1], sn[..|cs| - 1]), cs[|cs| - 1], sn[|cs| - 1])
  }

  /** One more rotation rotates the last entry into a new one. */
  lemma RotatedRhsExtend(res0: real, cs: seq<real>, sn: seq<real>, c: real, s: real)
    requires |cs| == |sn|
    ensures RotatedRhs(res0, cs + [c], sn + [s]) == RotateLast(RotatedRhs(res0, cs, sn), c, s)
  {
    assert (cs + [c])[..|cs|] == cs;
    assert (sn + [s])[..|sn|] == sn;
  }

  /**
    RotatedRhs is the first unit column scaled by res0, padded with zeros, after the same
    rotations ApplyRotations applies to the columns of HH: the first j of them leave
    RotatedRhs of the first j rotations followed by zeros.
   */
  lemma {:induction false} RotatedRhsIsRotatedColumn(res0: real, cs: seq<real>, sn: seq<real>, len: nat, j: nat)
    requires |cs| == |sn| && j <= |cs| && |cs| < len
    ensures ApplyRotations([res0] + seq(len - 1, _ => 0.0), cs, sn, j)
              == RotatedRhs(res0, cs[..j], sn[..j]) + seq(len - 1 - j, _ => 0.0)
  {
    var col := [res0] + seq(len - 1, _ => 0.0);
    if j == 0 {
      assert RotatedRhs(res0, cs[..0], sn[..0]) == [res0];
    } else {
      var m := j - 1;
      RotatedRhsIsRotatedColumn(res0, cs, sn, len, m);
      var prev := ApplyRotations(col, cs, sn, m);
      var p := RotatedRhs(res0, cs[..m], sn[..m]);
      assert prev == p + seq(len - 1 - m, _ => 0.0);
      assert (cs[..j])[..m] == cs[..m] && (sn[..j])[..m] == sn[..m];
      var g := RotatedRhs(res0, cs[..j], sn[..j]);
      assert g == RotateLast(p, cs[m], sn[m]);
      var rot := Rotate(prev, cs[m], sn[m], m);
      assert prev[m] == p[m] && prev[m + 1] == 0.0;
      var want := g + seq(len - 1 - j, _ => 0.0);
      assert |rot| == |want|;
      forall i | 0 <= i < |rot|
        ensures rot[i] == want[i]
      {
        if i < m {
          assert rot[i] == prev[i] == p[i];
        } else if i > m + 1 {
          assert rot[i] == prev[i] == 0.0;
        }
      }
    }
  }

  function Sq(x: real): real
  {
    x * x
  }

  /** The sum of the squares of the entries. */
  function SumSq(v: seq<real>): real
  {
    if |v| == 0 then 0.0 else SumSq(v[..|v| - 1]) + Sq(v[|v| - 1])
  }

  /** Appending an entry adds its square. */
  lemma SumSqSnoc(v: seq<real>, x: real)
    ensures SumSq(v + [x]) == SumSq(v) + Sq(x)
  {
    assert (v + [x])[..|v|] == v;
  }

  /** Replacing the last entry by two whose squares add up to its square keeps the sum. */
  lemma SumSqReplaceLast(p: seq<real>, a: real, b: real)
    requires |p| > 0 && Sq(a) + Sq(b) == Sq(p[|p| - 1])
    ensures SumSq(ReplaceLast(p, a, b)) == SumSq(p)
  {
    var front := p[..|p| - 1];
    assert front + [a, b] == (front + [a]) + [b];
    SumSqSnoc(front + [a], b);
    SumSqSnoc(front, a);
  }

  /** A rotation of the last entry that keeps its square keeps the sum of squares. */
  lemma SumSqRotateLastIf(p: seq<real>, c: real, s: real)
    requires |p| > 0 && Sq(RotTop(c, p[|p| - 1])) + Sq(RotNext(s, p[|p| - 1])) == Sq(p[|p| - 1])
    ensures SumSq(RotateLast(p, c, s)) == SumSq(p)
  {
    SumSqReplaceLast(p, RotTop(c, p[|p| - 1]), RotNext(s, p[|p| - 1]));
  }

  /** A unit rotation of the last entry into a new one keeps the sum of squares. */
  lemma SumSqRotateLast(p: seq<real>, c: real, s: real)
    requires |p| > 0 && Unit(c, s)
    ensures SumSq(RotateLast(p, c, s)) == SumSq(p)
  {
    ResidualPair(c, s, p[|p| - 1]);
    SumSqRotateLastIf(p, c, s);
  }

  /**
    Unit rotations keep the length of the right-hand side: the squares of the rotated
    entries add up to res0^2, the square of the initial residual norm.
   */
  lemma {:induction false} RotatedRhsKeepsNorm(res0: real, cs: seq<real>, sn: seq<real>)
    requires |cs| == |sn| && forall j :: 0 <= j < |cs| ==> Unit(cs[j], sn[j])
    ensures SumSq(RotatedRhs(res0, cs, sn)) == Sq(res0)
  {
    if |cs| == 0 {
      assert RotatedRhs(res0, cs, sn) == [] + [res0];
      SumSqSnoc([], res0);
    } else {
      RotatedRhsKeepsNorm(res0, cs[..|cs| - 1], sn[..|cs| - 1]);
      SumSqRotateLast(RotatedRhs(res0, cs[..|cs| - 1], sn[..|cs| - 1]), cs[|cs| - 1], sn[|cs| - 1]);
    }
  }

  lemma SquareBound(s: real, r: real)
    requires s * s <= 1.0
    ensures Abs(-(s * r)) <= Abs(r)
  {
    assert Abs(s) * Abs(s) == s * s;
    assert Abs(s) <= 1.0;
    assert Abs(-(s * r)) == Abs(s) * Abs(r);
  }

  function Abs(x: real): real
  {
    if x < 0.0 then -x else x
  }

  // ---------------------------------------------------------------------------------------
  // Happy breakdown (GMREScycle)
  // ---------------------------------------------------------------------------------------

  /** A double that is either an ordinary number or NaN. */
  datatype Bound = Finite(value: real) | NotANumber

  /**
    The happy-breakdown bound min(epsabs |HH(it,it) / RS(it)|, haptol) with IEEE division:
    for RS(it) == 0 the quotient is infinite, so the bound is haptol, unless HH(it,it) is
    zero as well, when the quotient is NaN and so is the bound.
   */
  function HappyBound(epsabs: real, haptol: real, hdiag: real, rsit: real): (b: Bound)
    requires epsabs > 0.0 && haptol > 0.0
    ensures rsit != 0.0 ==> b.Finite? && b.value <= haptol && b.value <= epsabs * Abs(hdiag / rsit)
    ensures rsit != 0.0 ==> b.value == haptol || b.value == epsabs * Abs(hdiag / rsit)
    ensures rsit == 0.0 ==> (b.Finite? <==> hdiag != 0.0) && (b.Finite? ==> b.value == haptol)
    ensures b.Finite? ==> b.value >= 0.0
  {
    if rsit != 0.0 then
      var q := epsabs * Abs(hdiag / rsit);
      Finite(if q > haptol then haptol else q)
    else if hdiag != 0.0 then Finite(haptol)
    else NotANumber
  }

  /** The new basis vector is rescaled by 1/tt only when tt > hapbnd; a NaN bound compares false. */
  predicate Rescales(tt: real, b: Bound)
  {
    b.Finite? && tt > b.value
  }

  /** A rescaled vector has a positive norm, so the division by tt is defined. */
  lemma RescaleDividesByPositive(tt: real, epsabs: real, haptol: real, hdiag: real, rsit: real)
    requires epsabs > 0.0 && haptol > 0.0
    requires Rescales(tt, HappyBound(epsabs, haptol, hdiag, rsit))
    ensures tt > 0.0
  {
  }

  // ---------------------------------------------------------------------------------------
  // Back substitution (BuildGmresSoln)
  // ---------------------------------------------------------------------------------------

  /** The partial row product a[lo] x[lo] + ... + a[hi-1] x[hi-1]. */
  function Dot(a: seq<real>, x: seq<real>, lo: nat, hi: nat): real
    requires hi <= |a| && hi <= |x|
    decreases hi
  {
    if hi <= lo then 0.0 else Dot(a, x, lo, hi - 1) + a[hi - 1] * x[hi - 1]
  }

  /** Splitting off the first term of the product. */
  lemma {:induction false} DotHead(a: seq<real>, x: seq<real>, lo: nat, hi: nat)
    requires lo < hi <= |a| && hi <= |x|
    ensures Dot(a, x, lo, hi) == a[lo] * x[lo] + Dot(a, x, lo + 1, hi)
    decreases hi
  {
    if lo + 1 < hi {
      DotHead(a, x, lo, hi - 1);
    }
  }

  /** The product reads only the entries lo .. hi-1 of x. */
  lemma {:induction false} DotFrame(a: seq<real>, x: seq<real>, y: seq<real>, lo: nat, hi: nat)
    requires hi <= |a| && hi <= |x| && hi <= |y|
    requires forall j :: lo <= j < hi ==> x[j] == y[j]
    ensures Dot(a, x, lo, hi) == Dot(a, y, lo, hi)
    decreases hi
  {
    if lo < hi {
      DotFrame(a, x, y, lo, hi - 1);
    }
  }

  /**
    Rows lo .. hi-1 of the upper-triangular system with rows `rows` and right-hand side b
    hold for y: rows[r][r] y[r] + ... + rows[r][hi-1] y[hi-1] == b[r].
   */
  ghost predicate Solves(rows: seq<seq<real>>, y: seq<real>, b: seq<real>, lo: nat, hi: nat)
  {
    forall r :: lo <= r < hi ==>
      r < |rows| && r < |b| && hi <= |rows[r]| && hi <= |y| && Dot(rows[r], y, r, hi) == b[r]
  }

  /** The first step of the back substitution: nrs[last] = RS(last) / HH(last,last). */
  lemma LastRow(rows: seq<seq<real>>, b: seq<real>, after: seq<real>, last: nat)
    requires last < |rows| && last < |rows[last]| && last < |b| && rows[last][last] != 0.0
    requires after == b[last := b[last] / rows[last][last]]
    ensures Solves(rows, after, b, last, last + 1)
  {
    assert Dot(rows[last], after, last, last) == 0.0;
  }

  /**
    One step of the back substitution: once nrs[k] := tt / HH(k,k) with
    tt = RS(k) - (HH(k,k+1) nrs[k+1] + ...), rows k .. hi-1 all hold.
   */
  lemma BackStep(rows: seq<seq<real>>, b: seq<real>, before: seq<real>, after: seq<real>,
                 k: nat, hi: nat, tt: real)
    requires k < hi <= |rows| && hi <= |before| && |b| == |before|
    requires forall r :: 0 <= r < hi ==> hi <= |rows[r]|
    requires rows[k][k] != 0.0 && before[k] == b[k]
    requires Solves(rows, before, b, k + 1, hi)
    requires tt == before[k] - Dot(rows[k], before, k + 1, hi)
    requires after == before[k := tt / rows[k][k]]
    ensures Solves(rows, after, b, k, hi)
  {
    SolvedRow(rows[k], before, after, k, hi, tt, b[k]);
    forall r | k < r < hi
      ensures Dot(rows[r], after, r, hi) == b[r]
    {
      DotFrame(rows[r], before, after, r, hi);
    }
  }

  /**
    After nrs[k] := tt / HH(k,k) with tt = RS(k) - (HH(k,k+1) nrs[k+1] + ...), row k of the
    triangular system holds.
   */
  lemma SolvedRow(row: seq<real>, before: seq<real>, after: seq<real>, k: nat, hi: nat, tt: real, rhs: real)
    requires k < hi <= |row| && hi <= |before| && |after| == |before|
    requires row[k] != 0.0
    requires after == before[k := tt / row[k]]
    requires tt == rhs - Dot(row, before, k + 1, hi)
    ensures Dot(row, after, k, hi) == rhs
  {
    DotHead(row, after, k, hi);
    DotFrame(row, before, after, k + 1, hi);
    assert row[k] * after[k] == tt;
  }

  // ---------------------------------------------------------------------------------------
  // Work-vector batches (GMRESGetNewVectors)
  // ---------------------------------------------------------------------------------------

  /** Total number of vectors in the recorded batches. */
  function Total(batches: seq<int>): int
  {
    if |batches| == 0 then 0 else Total(batches[..|batches| - 1]) + batches[|batches| - 1]
  }

  lemma TotalAppend(batches: seq<int>, x: int)
    ensures Total(batches + [x]) == Total(batches) + x
  {
    assert (batches + [x])[..|batches|] == batches;
  }

  /**
    A log that held prefix + [x0] and then grew to prefix + counts + [x], where counts is
    empty (and x is x0) or starts with x0: the old log is its prefix, and the entries from
    x0 on are counts + [x].
   */
  lemma RestartLogTail(prefix: seq<int>, counts: seq<int>, x: int, x0: int)
    requires counts == [] ==> x == x0
    requires counts != [] ==> counts[0] == x0
    ensures (prefix + counts + [x])[..|prefix| + 1] == prefix + [x0]
    ensures (prefix + counts + [x])[|prefix|..] == counts + [x]
  {
  }

  /**
    A log log0 that grew by one entry to log1 and then on to log: log0 is a prefix of log,
    and the entries added to log0 are those from the last entry of log1 on.
   */
  lemma LogGrows(log0: seq<int>, log1: seq<int>, log: seq<int>)
    requires |log1| == |log0| + 1 && log1[..|log0|] == log0
    requires |log| >= |log1| && log[..|log1|] == log1
    ensures log[..|log0|] == log0 && log[|log0|..] == log[|log1| - 1..]
  {
    assert log[..|log0|] == log[..|log1|][..|log0|];
  }

  // ---------------------------------------------------------------------------------------
  // Convergence (GMREScycle start-up and KSPiGMRESDefaultConverged)
  // ---------------------------------------------------------------------------------------

  /** ttol = max(atol, rtol * ||r0||), computed on the first cycle of a solve. */
  function TargetTolerance(atol: real, rtol: real, resNorm: real): (ttol: real)
    ensures ttol >= atol && ttol >= rtol * resNorm
    ensures ttol == atol || ttol == rtol * resNorm
  {
    var rt := rtol * resNorm;
    if atol > rt then atol else rt
  }

  /** The default test: the residual estimate is at most the cached target ttol. */
  predicate DefaultConverged(rnorm: real, ttol: real)
  {
    rnorm <= ttol
  }

  /**
    The residual estimates of a cycle's steps: no estimate exceeds its predecessor, and
    every estimate before the last failed the default test (otherwise the loop would have
    stopped there).
   */
  predicate Progress(resids: seq<real>, ttol: real)
  {
    forall j :: 0 <= j < |resids| - 1 ==> resids[j + 1] <= resids[j] && !DefaultConverged(resids[j], ttol)
  }

  /** A step taken after a failed test, whose estimate x does not grow, keeps the progress. */
  lemma ProgressExtend(resids: seq<real>, ttol: real, x: real)
    requires |resids| > 0 && Progress(resids, ttol)
    requires !DefaultConverged(resids[|resids| - 1], ttol) && x <= resids[|resids| - 1]
    ensures Progress(resids + [x], ttol)
  {
  }

  /**
    With the target of the first cycle, the default test passes exactly when the residual
    meets the absolute tolerance or the relative one.
   */
  lemma ConvergedIffEitherTolerance(rnorm: real, atol: real, rtol: real, resNorm: real)
    ensures DefaultConverged(rnorm, TargetTolerance(atol, rtol, resNorm))
            <==> rnorm <= atol || rnorm <= rtol * resNorm
  {
  }

  // ---------------------------------------------------------------------------------------
  // Basis growth (GMRESGetNewVectors)
  // ---------------------------------------------------------------------------------------

  /**
    Number of new basis vectors to allocate starting at VV(at): the batch size delta, cut back
    so that the batch ends at the last slot of the table of `total` slots.
   */
  function BatchSize(delta: nat, at: nat, offset: nat, total: nat): (nalloc: int)
    requires at + offset <= total
    ensures 0 <= nalloc <= delta
    ensures at + offset + nalloc <= total
    ensures nalloc == delta || at + offset + nalloc == total
  {
    if at + offset + delta >= total then total - at - offset else delta
  }

  /** Vector operations charged to a cycle of `it` steps: 3 + it (3 + (it - 1)). */
  function VectorOps(it: nat): int
  {
    3 + it * (3 + (it - 1))
  }

  // ---------------------------------------------------------------------------------------
  // Residual history length (GMREScycle, end of cycle)
  // ---------------------------------------------------------------------------------------

  /**
    The history length as the source computes it after a cycle that brought the iteration
    count to n: hist_len when hist_len < n, otherwise n + 1.
   */
  function ResActSizeAsWritten(histLen: int, n: nat): int
  {
    if histLen < n then histLen else n + 1
  }

  /**
    When the buffer holds exactly n entries (hist_len == n), the entry of index n is not
    stored, yet the reported length is n + 1: one more than the buffer holds.
   */
  lemma ResActSizeAsWrittenOverruns(n: nat)
    ensures ResActSizeAsWritten(n, n) == n + 1
    ensures ResActSizeAsWritten(n, n) > n
  {
  }

  /**
    The intended history length: entries 0 .. n are defined, but only those below hist_len
    are stored, so the length is the smaller of hist_len and n + 1.
   */
  function ResActSize(histLen: int, n: nat): (size: int)
    ensures size <= histLen && size <= n + 1
    ensures size == histLen || size == n + 1
  {
    if histLen <= n then histLen else n + 1
  }

  /** The corrected length counts exactly the indices 0 .. n that fit in the buffer. */
  lemma ResActSizeCountsStored(histLen: int, n: nat, i: int)
    requires 0 <= histLen
    ensures 0 <= i < ResActSize(histLen, n) <==> 0 <= i <= n && i < histLen
  {
  }
}
