/**
  The restarted GMRES engine of a KSP context: one object holding the generic Krylov
  settings the engine reads and the private GMRES context it owns (the Hessenberg work
  area, the table of basis-vector slots and its batch bookkeeping). Vectors are values of
  dimension n; the operator, the preconditioner, the norm and the square root come in as
  Vectors.Kernels, the orthogonalisation plug-in as a function-valued field.
 */
module Gmres {
  import opened Vectors
  import opened GmresAlgebra

  /** GMRES_DELTA_DIRECTIONS: basis vectors obtained per batch. */
  const DeltaDirections: nat := 5
  /** GMRES_DEFAULT_MAXK: default restart length. */
  const DefaultMaxK: nat := 10
  /** Vectors obtained by set-up when the basis is not preallocated. */
  const InitialBatch: nat := 5

  /** The Krylov method a KSP context is currently set to. */
  datatype KspMethod = KspGmres | KspOther

  /** A slot of the vector table: empty, or holding a vector. */
  datatype Slot = Empty | Filled(v: Vector)

  /** Result of an orthogonalisation: the coefficients HH(0..it, it) and the new direction. */
  datatype Projection = Projection(coeffs: seq<real>, w: Vector)

  /**
    Outcome of a cycle or a solve: the integer the source returns, or an arithmetic fault
    where the source would divide zero by zero and carry on with NaN.
   */
  datatype Status = Code(code: int) | ArithFault

  /** The orthogonalisation plug-in: project w against the basis. */
  type Orthog = (seq<Vector>, Vector) -> Projection

  /** What the engine relies on from an orthogonalisation routine. */
  ghost predicate OrthogShape(f: Orthog)
  {
    forall basis, w :: |f(basis, w).coeffs| == |basis| && |f(basis, w).w| == |w|
  }

  /** MATOP: the preconditioned operator, A B^-1 for right and B^-1 A for left preconditioning. */
  function MatOp(k: Kernels, rightPre: bool, v: Vector): (w: Vector)
    requires k.Valid()
    ensures |w| == |v|
    ensures w == if rightPre then k.op(k.pc(v)) else k.pc(k.op(v))
  {
    if rightPre then k.op(k.pc(v)) else k.pc(k.op(v))
  }

  /** The vectors held by a run of filled slots. */
  function SlotVectors(slots: seq<Slot>): (vs: seq<Vector>)
    requires forall i :: 0 <= i < |slots| ==> slots[i].Filled?
    ensures |vs| == |slots| && forall i :: 0 <= i < |slots| ==> vs[i] == slots[i].v
  {
    seq(|slots|, i requires 0 <= i < |slots| && slots[i].Filled? => slots[i].v)
  }

  /** Column j of a matrix, rows 0 .. m-1. */
  ghost function ColumnTop(h: array2<real>, j: nat, m: nat): (col: seq<real>)
    reads h
    requires m <= h.Length0 && j < h.Length1
    ensures |col| == m && forall i :: 0 <= i < m ==> col[i] == h[i, j]
  {
    seq(m, i requires 0 <= i < m reads h => h[i, j])
  }

  /** Columns 0 .. m-1 of a Hessenberg matrix, column j with its rows 0 .. j+1. */
  ghost function Columns(h: array2<real>, m: nat): (cols: seq<seq<real>>)
    reads h
    requires m + 1 <= h.Length0 && m <= h.Length1
    ensures |cols| == m
  {
    if m == 0 then [] else Columns(h, m - 1) + [ColumnTop(h, m - 1, m + 1)]
  }

  /** Column j of the first m columns holds the entries h[0, j] .. h[j + 1, j]. */
  lemma {:induction false} ColumnsAt(h: array2<real>, m: nat)
    requires m + 1 <= h.Length0 && m <= h.Length1
    ensures forall j :: 0 <= j < m ==> Columns(h, m)[j] == ColumnTop(h, j, j + 2)
  {
    if m > 0 {
      ColumnsAt(h, m - 1);
    }
  }

  /** A snapshot whose entries agree with the matrix is its first m columns. */
  lemma {:induction false} ColumnsFrom(h: array2<real>, m: nat, cols: seq<seq<real>>)
    requires m + 1 <= h.Length0 && m <= h.Length1
    requires |cols| == m && forall j :: 0 <= j < m ==> |cols[j]| == j + 2
    requires forall i, j :: 0 <= j < m && 0 <= i < j + 2 ==> cols[j][i] == h[i, j]
    ensures Columns(h, m) == cols
  {
    if m > 0 {
      ColumnsFrom(h, m - 1, cols[..m - 1]);
      assert ColumnTop(h, m - 1, m + 1) == cols[m - 1];
      assert cols == cols[..m - 1] + [cols[m - 1]];
    }
  }

  /** Row r of a matrix. */
  ghost function Row(h: array2<real>, r: nat): (row: seq<real>)
    reads h
    requires r < h.Length0
    ensures |row| == h.Length1 && forall j :: 0 <= j < h.Length1 ==> row[j] == h[r, j]
  {
    seq(h.Length1, j requires 0 <= j < h.Length1 reads h => h[r, j])
  }

  class GmresKsp {
    // Generic KSP settings the engine reads.
    const n: nat
    const rhs: Vector
    const rightPre: bool
    const guessZero: bool
    const rtol: real
    const atol: real
    const maxIt: int
    const residualHistory: array?<real>
    const resHistSize: int
    var kspType: KspMethod
    var vecSol: Vector
    var ttol: real
    var nmatop: int
    var nvectors: int
    var resActSize: int

    // The private GMRES context.
    const vecOffset: nat
    const haptol: real
    const epsabs: real
    const qPreallocate: bool
    const deltaAllocate: nat
    var maxK: nat
    var orthog: Orthog
    var lastIt: int
    var layout: Layout
    var hh: array2<real>
    var hes: array2<real>
    var rs: array<real>
    var cc: array<real>
    var ss: array<real>
    var vecs: array<Slot>
    var mworkAlloc: array<int>
    var vvAllocated: nat
    var nworkAlloc: nat
    var binvf: Vector
    /** The iterations of every cycle run so far, in order. */
    ghost var cycleLog: seq<int>

    /** Facts that hold from creation on. */
    ghost predicate Valid()
      reads this`vecSol, this`binvf, this`orthog
    {
      && 3 <= vecOffset <= 4
      && haptol > 0.0 && epsabs > 0.0 && deltaAllocate >= 1
      && |rhs| == n && |vecSol| == n && |binvf| == n
      && OrthogShape(orthog)
      && (residualHistory != null ==> resHistSize <= residualHistory.Length)
    }

    /**
      The work area has the sizes of its five regions for the current restart length (the
      offsets of the regions in the one block are WorkspaceLayout(max_k), which SetUp
      records in `layout`).
     */
    ghost predicate WorkAreaReady()
      reads this`maxK, this`hh, this`hes, this`rs, this`cc, this`ss
    {
      && hh.Length0 == maxK + 2 && hh.Length1 == maxK + 1
      && hes.Length0 == maxK + 1 && hes.Length1 == maxK + 1
      && rs.Length == maxK + 2 && cc.Length == maxK + 1 && ss.Length == maxK + 1
      && rs != cc && rs != ss && cc != ss && hh != hes
      && residualHistory != rs && residualHistory != cc && residualHistory != ss
    }

    /**
      The slot table has VEC_OFFSET + 2 + max_k entries, the first vvAllocated slots hold
      vectors of dimension n, and the recorded batches account for every one of them.
     */
    ghost predicate SlotsReady()
      reads this`maxK, this`vecs, this`mworkAlloc, this`nworkAlloc, this`vvAllocated, vecs, mworkAlloc
    {
      && vecs.Length == vecOffset + 2 + maxK && mworkAlloc.Length == vecs.Length
      && 1 <= nworkAlloc && nworkAlloc + 4 <= vvAllocated <= vecs.Length
      && Total(mworkAlloc[..nworkAlloc]) == vvAllocated
      && (forall i :: 0 <= i < vvAllocated ==> vecs[i].Filled? && |vecs[i].v| == n)
    }

    /** The diagonal entries HH(0,0) .. HH(m-1,m-1) are non-zero. */
    ghost predicate NonzeroDiagonal(m: nat)
      reads this`hh, hh
    {
      m <= hh.Length0 && m <= hh.Length1 && forall j :: 0 <= j < m ==> hh[j, j] != 0.0
    }

    /** Set-up has run for the current restart length. */
    ghost predicate Ready()
      reads this`maxK, this`hh, this`hes, this`rs, this`cc, this`ss
      reads this`vecs, this`mworkAlloc, this`nworkAlloc, this`vvAllocated, vecs, mworkAlloc
    {
      WorkAreaReady() && SlotsReady()
    }

    /** VEC_VV(0) .. VEC_VV(m-1): the first m basis vectors. */
    function Basis(m: nat): (b: seq<Vector>)
      reads this`vecs, vecs
      requires vecOffset + m <= vecs.Length
      requires forall i :: vecOffset <= i < vecOffset + m ==> vecs[i].Filled?
      ensures |b| == m && forall i :: 0 <= i < m ==> b[i] == vecs[vecOffset + i].v
    {
      SlotVectors(vecs[vecOffset..vecOffset + m])
    }

    /**
      KSPiGMRESCreate on a context whose generic settings are given: the method becomes
      GMRES with the default happy-breakdown tolerances, batch size and restart length.
     */
    constructor (n: nat, rhs: Vector, x0: Vector, rightPre: bool, guessZero: bool,
                 rtol: real, atol: real, maxIt: int, history: array?<real>, histSize: int,
                 vecOffset: nat, basicOrthog: Orthog)
      requires |rhs| == n && |x0| == n && 3 <= vecOffset <= 4
      requires OrthogShape(basicOrthog)
      requires history != null ==> histSize <= history.Length
      ensures Valid()
      ensures kspType == KspGmres && orthog == basicOrthog
      ensures haptol == 1.0e-8 && epsabs == 1.0e-8 && !qPreallocate
      ensures deltaAllocate == DeltaDirections && maxK == DefaultMaxK
      ensures this.n == n && this.rhs == rhs && vecSol == x0 && this.vecOffset == vecOffset
      ensures this.rightPre == rightPre && this.guessZero == guessZero
      ensures this.rtol == rtol && this.atol == atol && this.maxIt == maxIt
      ensures residualHistory == history && resHistSize == histSize
      ensures nmatop == 0 && nvectors == 0 && cycleLog == []
    {
      this.n := n;
      this.rhs := rhs;
      this.rightPre := rightPre;
      this.guessZero := guessZero;
      this.rtol := rtol;
      this.atol := atol;
      this.maxIt := maxIt;
      residualHistory := history;
      resHistSize := histSize;
      this.vecOffset := vecOffset;
      haptol := 1.0e-8;
      epsabs := 1.0e-8;
      qPreallocate := false;
      deltaAllocate := DeltaDirections;
      kspType := KspGmres;
      vecSol := x0;
      ttol := 0.0;
      nmatop := 0;
      nvectors := 0;
      resActSize := 0;
      maxK := DefaultMaxK;
      orthog := basicOrthog;
      lastIt := -1;
      layout := WorkspaceLayout(0);
      hh := new real[0, 0];
      hes := new real[0, 0];
      rs := new real[0];
      cc := new real[0];
      ss := new real[0];
      vecs := new Slot[0];
      mworkAlloc := new int[0];
      vvAllocated := 0;
      nworkAlloc := 0;
      cycleLog := [];
      binvf := Zeros(n);
    }

    /** KSPGMRESSetRestart: changes the restart length of a GMRES context, ignored otherwise. */
    method SetRestart(newMaxK: nat)
      requires Valid()
      modifies this`maxK
      ensures Valid()
      ensures maxK == if kspType == KspGmres then newMaxK else old(maxK)
    {
      if kspType != KspGmres {
        return;
      }
      maxK := newMaxK;
    }

    /** KSPGMRESSetOrthogRoutine: installs the routine on a GMRES context, ignored otherwise. */
    method SetOrthogRoutine(f: Orthog)
      requires Valid() && OrthogShape(f)
      modifies this`orthog
      ensures Valid()
      ensures orthog == if kspType == KspGmres then f else old(orthog)
    {
      if kspType == KspGmres {
        orthog := f;
      }
    }

    /**
      KSPiGMRESSetUp: allocates the work area in five regions laid out as WorkspaceLayout,
      the slot table of VEC_OFFSET + 2 + max_k entries, and the first batch of vectors:
      the whole table when preallocating, five vectors otherwise.
     */
    method SetUp()
      requires Valid()
      modifies this`layout, this`hh, this`hes, this`rs, this`cc, this`ss, this`vecs,
               this`mworkAlloc, this`vvAllocated, this`nworkAlloc
      ensures Valid() && Ready() && layout == WorkspaceLayout(maxK)
      ensures fresh(hh) && fresh(hes) && fresh(rs) && fresh(cc) && fresh(ss)
      ensures fresh(vecs) && fresh(mworkAlloc)
      ensures vvAllocated == if qPreallocate then vecOffset + 2 + maxK else InitialBatch
      ensures nworkAlloc == 1 && mworkAlloc[0] == vvAllocated
      ensures forall i :: 0 <= i < vecs.Length ==>
                vecs[i] == if i < vvAllocated then Filled(Zeros(n)) else Empty
    {
      AllocateWorkArea();
      AllocateSlots();
    }

    /** The work-area half of set-up. */
    method AllocateWorkArea()
      modifies this`layout, this`hh, this`hes, this`rs, this`cc, this`ss
      ensures WorkAreaReady() && layout == WorkspaceLayout(maxK)
      ensures fresh(hh) && fresh(hes) && fresh(rs) && fresh(cc) && fresh(ss)
    {
      var m1, m2, r, c, sn := NewWorkArea(maxK);
      layout, hh, hes, rs, cc, ss := WorkspaceLayout(maxK), m1, m2, r, c, sn;
    }

    /** The slot-table half of set-up: the table and its first batch. */
    method AllocateSlots()
      requires Valid()
      modifies this`vecs, this`mworkAlloc, this`vvAllocated, this`nworkAlloc
      ensures SlotsReady()
      ensures fresh(vecs) && fresh(mworkAlloc)
      ensures vvAllocated == if qPreallocate then vecOffset + 2 + maxK else InitialBatch
      ensures nworkAlloc == 1 && mworkAlloc[0] == vvAllocated
      ensures forall i :: 0 <= i < vecs.Length ==>
                vecs[i] == if i < vvAllocated then Filled(Zeros(n)) else Empty
    {
      var total := vecOffset + 2 + maxK;
      var firstBatch := if qPreallocate then total else InitialBatch;
      var slots, batches := NewSlotTable(total, firstBatch, n);
      vecs, mworkAlloc, vvAllocated, nworkAlloc := slots, batches, firstBatch, 1;
    }

    /**
      GMRESGetNewVectors(at): obtains a batch of new vectors into the slots from
      VEC_VV(at) on. The batch has delta_allocate vectors, cut back so that it ends at the
      last slot of the table; an empty batch changes nothing.
     */
    method GetNewVectors(at: nat)
      requires Valid() && Ready()
      requires vvAllocated == at + vecOffset
      modifies this`vvAllocated, this`nworkAlloc, vecs, mworkAlloc
      ensures Valid() && Ready()
      ensures var nalloc := BatchSize(deltaAllocate, at, vecOffset, vecs.Length);
        && vvAllocated == old(vvAllocated) + nalloc
        && nworkAlloc == (if nalloc == 0 then old(nworkAlloc) else old(nworkAlloc) + 1)
        && (nalloc > 0 ==> mworkAlloc[old(nworkAlloc)] == nalloc)
        && (forall i :: 0 <= i < mworkAlloc.Length && i != old(nworkAlloc) ==>
              mworkAlloc[i] == old(mworkAlloc[i]))
        && (forall i :: 0 <= i < vecs.Length ==>
              vecs[i] == if at + vecOffset <= i < at + vecOffset + nalloc
                         then Filled(Zeros(n)) else old(vecs[i]))
    {
      var nalloc := deltaAllocate;
      if at + vecOffset + nalloc >= vecs.Length {
        nalloc := vecs.Length - at - vecOffset;
      }
      if nalloc == 0 {
        return;
      }
      FillSlots(at + vecOffset, nalloc);
      RecordBatch(nalloc);
    }

    /** Slots from .. from+count-1 of the table receive new vectors; the others are kept. */
    method FillSlots(from: nat, count: nat)
      requires from + count <= vecs.Length
      modifies vecs
      ensures forall i :: 0 <= i < vecs.Length ==>
                vecs[i] == if from <= i < from + count then Filled(Zeros(n)) else old(vecs[i])
    {
      var k := 0;
      while k < count
        modifies vecs
        invariant 0 <= k <= count
        invariant forall i :: 0 <= i < vecs.Length ==>
                    vecs[i] == if from <= i < from + k then Filled(Zeros(n)) else old(vecs[i])
      {
        vecs[from + k] := Filled(Zeros(n));
        k := k + 1;
      }
    }

    /** The batch bookkeeping: nalloc more vectors, recorded as batch number nwork_alloc. */
    method RecordBatch(nalloc: nat)
      requires nworkAlloc < mworkAlloc.Length
      modifies this`vvAllocated, this`nworkAlloc, mworkAlloc
      ensures vvAllocated == old(vvAllocated) + nalloc && nworkAlloc == old(nworkAlloc) + 1
      ensures mworkAlloc[..nworkAlloc] == old(mworkAlloc[..nworkAlloc]) + [nalloc]
      ensures Total(mworkAlloc[..nworkAlloc]) == old(Total(mworkAlloc[..nworkAlloc])) + nalloc
      ensures forall i :: 0 <= i < mworkAlloc.Length && i != old(nworkAlloc) ==>
                mworkAlloc[i] == old(mworkAlloc[i])
    {
      ghost var batches := mworkAlloc[..nworkAlloc];
      vvAllocated := vvAllocated + nalloc;
      mworkAlloc[nworkAlloc] := nalloc;
      nworkAlloc := nworkAlloc + 1;
      assert mworkAlloc[..nworkAlloc] == batches + [nalloc];
      TotalAppend(batches, nalloc);
    }

    /**
      The first half of GMRESUpdateHessenberg(it): the stored rotations 0 .. it-1 are applied,
      in order, to the new column it of HH. Nothing else changes.
     */
    method RotateColumn(it: nat)
      requires it + 1 < hh.Length0 && it < hh.Length1 && it <= cc.Length && it <= ss.Length
      modifies hh
      ensures forall i :: 0 <= i < it + 2 ==>
                hh[i, it] == ApplyRotations(old(ColumnTop(hh, it, it + 2)), cc[..it], ss[..it], it)[i]
      ensures forall i, j :: 0 <= i < hh.Length0 && 0 <= j < hh.Length1 && (j != it || i > it + 1) ==>
                hh[i, j] == old(hh[i, j])
      ensures Columns(hh, it) == old(Columns(hh, it))
    {
      ghost var cols := Columns(hh, it);
      ColumnsAt(hh, it);
      ghost var col0 := ColumnTop(hh, it, it + 2);
      ghost var cs, sn := cc[..it], ss[..it];
      var j := 0;
      while j < it
        modifies hh
        invariant 0 <= j <= it
        invariant forall i :: 0 <= i < it + 2 ==> hh[i, it] == ApplyRotations(col0, cs, sn, j)[i]
        invariant forall i, l :: 0 <= i < hh.Length0 && 0 <= l < hh.Length1 && (l != it || i > it + 1) ==>
                    hh[i, l] == old(hh[i, l])
      {
        ghost var prev := ApplyRotations(col0, cs, sn, j);
        var c, s, a, b := cc[j], ss[j], hh[j, it], hh[j + 1, it];
        NextRotation(col0, cs, sn, j, c, s);
        RotateEntries(prev, c, s, j, a, b);
        hh[j, it] := c * a + s * b;
        hh[j + 1, it] := c * b - s * a;
        j := j + 1;
      }
      ColumnsFrom(hh, it, cols);
    }

    /**
      GMRESUpdateHessenberg(it): applies the stored rotations 0 .. it-1, in order, to the
      new column it of HH; then computes the rotation that zeroes HH(it+1,it) against
      HH(it,it), stores it in CC(it), SS(it), applies it to RS(it), RS(it+1) and to the
      diagonal entry, and returns |RS(it+1)|. Nothing else changes. A zero norm t, where the
      source divides 0 by 0, is reported as a fault before anything but the column changes.
     */
    method UpdateHessenberg(it: nat, k: Kernels) returns (res: real, fault: bool)
      requires WorkAreaReady() && k.Valid() && it < maxK + 1
      modifies hh, cc, ss, rs
      ensures var col := ApplyRotations(old(ColumnTop(hh, it, it + 2)), cc[..it], ss[..it], it);
        var o := PlaneRotation(k, col[it], col[it + 1], old(rs[it]));
        && (forall i :: 0 <= i < it ==> hh[i, it] == col[i])
        && hh[it + 1, it] == col[it + 1] == old(hh[it + 1, it])
        && fault == o.None?
        && (fault ==> hh[it, it] == col[it])
        && (o.Some? ==>
              && cc[it] == o.value.c && ss[it] == o.value.s && hh[it, it] == o.value.diag
              && rs[it] == o.value.top && rs[it + 1] == o.value.next && res == Abs(o.value.next))
      ensures forall i, j :: 0 <= i < hh.Length0 && 0 <= j < hh.Length1 && (j != it || i > it + 1) ==>
                hh[i, j] == old(hh[i, j])
      ensures forall j :: 0 <= j < cc.Length && (fault || j != it) ==> cc[j] == old(cc[j])
      ensures forall j :: 0 <= j < ss.Length && (fault || j != it) ==> ss[j] == old(ss[j])
      ensures forall i :: 0 <= i < rs.Length && (fault || (i != it && i != it + 1)) ==> rs[i] == old(rs[i])
      ensures Columns(hh, it) == old(Columns(hh, it))
    {
      ghost var col0 := ColumnTop(hh, it, it + 2);
      RotateColumn(it);
      ApplyRotationsKeepsTail(col0, cc[..it], ss[..it], it, it + 1);
      ghost var cs, sn := cc[..it], ss[..it];
      res, fault := NewRotation(it, k);
      assert cs == cc[..it] && sn == ss[..it];
    }

    /**
      GMRESUpdateHessenberg(it) on a column whose diagonal entries to the left are non-zero,
      seen from the right-hand side: unless it faults, the new rotation CC(it), SS(it) is a
      unit one, it turns RS(it) into the pair RS(it), RS(it+1) while RS(0..it-1) and the
      earlier rotations are kept, |RS(it+1)| is returned and is no larger than |RS(it)|
      was, and HH(it,it) becomes non-zero.
     */
    method Eliminate(it: nat, k: Kernels) returns (res: real, fault: bool)
      requires WorkAreaReady() && k.Valid() && it < maxK && NonzeroDiagonal(it)
      modifies hh, cc, ss, rs
      ensures cc[..it] == old(cc[..it]) && ss[..it] == old(ss[..it])
      ensures !fault ==> rs[..it + 2] == RotateLast(old(rs[..it + 1]), cc[it], ss[it]) && Unit(cc[it], ss[it])
      ensures !fault ==> res == Abs(rs[it + 1]) && res <= Abs(old(rs[it])) && NonzeroDiagonal(it + 1)
      ensures !fault ==> Triangularised(old(ColumnTop(hh, it, it + 2)), ColumnTop(hh, it, it + 2),
                                        cc[..it + 1], ss[..it + 1])
      ensures forall i, j :: 0 <= i < hh.Length0 && 0 <= j < hh.Length1 && (j != it || i > it + 1) ==>
                hh[i, j] == old(hh[i, j])
      ensures Columns(hh, it) == old(Columns(hh, it))
    {
      ghost var before, col0 := rs[..], ColumnTop(hh, it, it + 2);
      res, fault := UpdateHessenberg(it, k);
      if !fault {
        RotatedPair(before, rs[..], it, cc[it], ss[it]);
        assert cc[..it + 1][..it] == cc[..it] && ss[..it + 1][..it] == ss[..it];
        assert ColumnTop(hh, it, it + 2)[..it] == ApplyRotations(col0, cc[..it], ss[..it], it)[..it];
      }
    }

    /**
      The second half of GMRESUpdateHessenberg(it): with h = HH(it,it) and h1 = HH(it+1,it),
      t = sqrt(h^2 + h1^2); CC(it) = h/t and SS(it) = h1/t form a unit rotation that maps
      (h, h1) to (t, 0); it is applied to RS(it), RS(it+1) and to HH(it,it), and |RS(it+1)|
      is returned. When t is zero nothing changes and a fault is reported.
     */
    method NewRotation(it: nat, k: Kernels) returns (res: real, fault: bool)
      requires WorkAreaReady() && k.Valid() && it < maxK + 1
      modifies hh, cc, ss, rs
      ensures var o := PlaneRotation(k, old(hh[it, it]), old(hh[it + 1, it]), old(rs[it]));
        && fault == o.None?
        && (o.Some? ==>
              && cc[it] == o.value.c && ss[it] == o.value.s && hh[it, it] == o.value.diag
              && rs[it] == o.value.top && rs[it + 1] == o.value.next && res == Abs(o.value.next))
      ensures forall i, j :: 0 <= i < hh.Length0 && 0 <= j < hh.Length1 && (fault || i != it || j != it) ==>
                hh[i, j] == old(hh[i, j])
      ensures forall j :: 0 <= j < cc.Length && (fault || j != it) ==> cc[j] == old(cc[j])
      ensures forall j :: 0 <= j < ss.Length && (fault || j != it) ==> ss[j] == old(ss[j])
      ensures forall i :: 0 <= i < rs.Length && (fault || (i != it && i != it + 1)) ==> rs[i] == old(rs[i])
      ensures Columns(hh, it) == old(Columns(hh, it))
    {
      ghost var cols := Columns(hh, it);
      ColumnsAt(hh, it);
      var o := PlaneRotation(k, hh[it, it], hh[it + 1, it], rs[it]);
      if o.None? {
        return 0.0, true;
      }
      fault := false;
      var u := o.value;
      cc[it] := u.c;
      ss[it] := u.s;
      rs[it + 1] := u.next;
      rs[it] := u.top;
      hh[it, it] := u.diag;
      res := Abs(u.next);
      ColumnsFrom(hh, it, cols);
    }

    /**
      BuildGmresSoln with nrs = RS and the solution vector as both source and destination,
      as the cycle calls it: for last < 0 nothing is done; otherwise back substitution
      overwrites RS(0..last) with the solution y of the triangular system
      HH(0..last, 0..last) y = RS(0..last), TEMP becomes the correction
      y0 VEC_VV(0) + ... + y_last VEC_VV(last), and the solution vector receives the
      correction, passed through B^-1 first under right preconditioning.
     */
    method BuildSoln(last: int, k: Kernels)
      requires Valid() && Ready() && k.Valid() && last <= maxK
      requires vvAllocated >= vecOffset + last + 1
      requires forall j :: 0 <= j <= last ==> hh[j, j] != 0.0
      modifies this`vecSol, rs
      ensures Valid() && Ready()
      ensures last < 0 ==> vecSol == old(vecSol) && rs[..] == old(rs[..])
      ensures last >= 0 ==>
                && Corrected(last + 1, old(rs[..]), old(vecSol), k)
                && (forall i :: last < i < rs.Length ==> rs[i] == old(rs[i]))
      ensures last >= 0 ==> (ArnoldiSteps(last + 1, k) <==> old(ArnoldiSteps(last + 1, k)))
      ensures cc[..] == old(cc[..]) && ss[..] == old(ss[..])
    {
      assert rs != cc && rs != ss;
      if last < 0 {
        return;
      }
      BackSolve(last);
      var correction := LinComb(Basis(last + 1), rs[..], last + 1, n);
      if rightPre {
        vecSol := Axpy(1.0, k.pc(correction), vecSol);
      } else {
        vecSol := Axpy(1.0, correction, vecSol);
      }
    }

    /**
      The back substitution of BuildGmresSoln: RS(0..last) is overwritten, from the bottom
      row up, with the solution y of the upper-triangular system HH(0..last, 0..last) y =
      RS(0..last); the entries of RS after last are kept.
     */
    method BackSolve(last: nat)
      requires WorkAreaReady() && last <= maxK
      requires forall j :: 0 <= j <= last ==> hh[j, j] != 0.0
      modifies rs
      ensures Solves(Rows(hh, last + 1), rs[..], old(rs[..]), 0, last + 1)
      ensures forall i :: last < i < rs.Length ==> rs[i] == old(rs[i])
    {
      ghost var rows := Rows(hh, last + 1);
      ghost var b := rs[..];
      rs[last] := rs[last] / hh[last, last];
      ghost var y := b[last := b[last] / rows[last][last]];
      assert rs[..] == y;
      LastRow(rows, b, y, last);
      var ii := 1;
      while ii <= last
        modifies rs
        invariant 1 <= ii <= last + 1
        invariant rs[..] == y && |y| == |b|
        invariant Solves(rows, y, b, last + 1 - ii, last + 1)
        invariant forall r :: 0 <= r < |y| && (r <= last - ii || last < r) ==> y[r] == b[r]
      {
        var kk := last - ii;
        var tt := RowRemainder(kk, last);
        rs[kk] := tt / hh[kk, kk];
        ghost var next := y[kk := tt / rows[kk][kk]];
        BackStep(rows, b, y, next, kk, last + 1, tt);
        y := next;
        assert rs[..] == y;
        ii := ii + 1;
      }
    }

    /**
      The inner loop of the back substitution: RS(k) minus HH(k,k+1) nrs[k+1] + ... +
      HH(k,last) nrs[last].
     */
    method RowRemainder(kk: nat, last: nat) returns (tt: real)
      requires WorkAreaReady() && kk < last <= maxK
      ensures tt == rs[kk] - Dot(Row(hh, kk), rs[..], kk + 1, last + 1)
    {
      ghost var row, x := Row(hh, kk), rs[..];
      tt := rs[kk];
      var j := kk + 1;
      while j <= last
        invariant kk + 1 <= j <= last + 1
        invariant tt == rs[kk] - Dot(row, x, kk + 1, j)
      {
        tt := tt - hh[kk, j] * rs[j];
        j := j + 1;
      }
    }

    /**
      The residual of x as GMRESResidual forms it: BINVF - A x under right preconditioning,
      BINVF - B^-1 A x under left.
     */
    ghost function ResidualOf(k: Kernels, x: Vector): (r: Vector)
      reads this`binvf
      requires k.Valid() && |x| == n && |binvf| == n
      ensures |r| == n
    {
      Axpy(-1.0, if rightPre then k.op(x) else k.pc(k.op(x)), binvf)
    }

    /**
      GMRESResidual: TEMP becomes A x under right preconditioning and B^-1 A x under left,
      and VEC_VV(0) the preconditioned residual BINVF - TEMP.
     */
    method Residual(k: Kernels)
      requires Valid() && Ready() && k.Valid()
      modifies vecs
      ensures Ready()
      ensures vecs[vecOffset] == Filled(ResidualOf(k, vecSol))
      ensures forall i :: 0 <= i < vecs.Length && i != vecOffset ==> vecs[i] == old(vecs[i])
    {
      var temp;
      if rightPre {
        temp := k.op(vecSol);
      } else {
        temp := MatOp(k, false, vecSol);
      }
      Place(vecOffset, Axpy(-1.0, temp, binvf));
    }

    /**
      Lines 200-217 of one GMRES step: more basis vectors are obtained when VEC_VV(it+1)
      has no slot yet, VEC_VV(it+1) becomes MATOP applied to VEC_VV(it), the
      orthogonalisation plug-in projects it against VEC_VV(0..it) and leaves its
      coefficients in rows 0 .. it of column it of HH and HES, the norm tt of the remainder
      goes to HH(it+1,it) and HES(it+1,it), and the remainder is divided by tt only when tt
      exceeds the happy-breakdown bound. Columns other than it keep their entries.
     */
    method Arnoldi(it: nat, k: Kernels) returns (tt: real)
      requires Valid() && Ready() && k.Valid()
      requires it < maxK && vvAllocated >= it + vecOffset + 1
      modifies this`vvAllocated, this`nworkAlloc, vecs, mworkAlloc, hh, hes
      ensures Ready() && vvAllocated >= it + vecOffset + 2
      ensures var p := orthog(old(Basis(it + 1)), MatOp(k, rightPre, old(vecs[vecOffset + it].v)));
        && tt == k.norm(p.w)
        && (forall j :: 0 <= j <= it ==> hh[j, it] == p.coeffs[j] && hes[j, it] == p.coeffs[j])
        && hh[it + 1, it] == tt && hes[it + 1, it] == tt
        && vecs[vecOffset + it + 1] ==
             Filled(if Rescales(tt, HappyBound(epsabs, haptol, p.coeffs[it], rs[it]))
                    then Scale(1.0 / tt, p.w) else p.w)
      ensures forall i :: 0 <= i <= vecOffset + it ==> vecs[i] == old(vecs[i])
      ensures forall i, j :: 0 <= i < hh.Length0 && 0 <= j < hh.Length1 && (j != it || i > it + 1) ==>
                hh[i, j] == old(hh[i, j])
      ensures forall i, j :: 0 <= i < hes.Length0 && 0 <= j < hes.Length1 && (j != it || i > it + 1) ==>
                hes[i, j] == old(hes[i, j])
      ensures vecs[vecOffset..vecOffset + it + 1] == old(vecs[vecOffset..vecOffset + it + 1])
      ensures Columns(hh, it) == old(Columns(hh, it)) && Columns(hes, it) == old(Columns(hes, it))
      ensures Projected(k, orthog, rightPre, Basis(it + 1), vecs[vecOffset + it + 1].v, ColumnTop(hes, it, it + 2))
    {
      Expand(it);
      tt := Project(it, k);
    }

    /**
      Lines 204-217 of one GMRES step, once VEC_VV(it+1) has a slot: the orthogonalisation
      plug-in, the norm tt, column it of HH and HES, and VEC_VV(it+1), rescaled by 1/tt only
      when tt exceeds the happy-breakdown bound. VEC_VV(0..it) and the other columns are kept.
     */
    method Project(it: nat, k: Kernels) returns (tt: real)
      requires Valid() && Ready() && k.Valid()
      requires it < maxK && vvAllocated >= it + vecOffset + 2
      modifies vecs, hh, hes
      ensures Ready()
      ensures var p := orthog(old(Basis(it + 1)), MatOp(k, rightPre, old(vecs[vecOffset + it].v)));
        && tt == k.norm(p.w)
        && (forall j :: 0 <= j <= it ==> hh[j, it] == p.coeffs[j] && hes[j, it] == p.coeffs[j])
        && hh[it + 1, it] == tt && hes[it + 1, it] == tt
        && vecs[vecOffset + it + 1] ==
             Filled(if Rescales(tt, HappyBound(epsabs, haptol, p.coeffs[it], rs[it]))
                    then Scale(1.0 / tt, p.w) else p.w)
      ensures forall i :: 0 <= i <= vecOffset + it ==> vecs[i] == old(vecs[i])
      ensures forall i, j :: 0 <= i < hh.Length0 && 0 <= j < hh.Length1 && (j != it || i > it + 1) ==>
                hh[i, j] == old(hh[i, j])
      ensures forall i, j :: 0 <= i < hes.Length0 && 0 <= j < hes.Length1 && (j != it || i > it + 1) ==>
                hes[i, j] == old(hes[i, j])
      ensures vecs[vecOffset..vecOffset + it + 1] == old(vecs[vecOffset..vecOffset + it + 1])
      ensures Columns(hh, it) == old(Columns(hh, it)) && Columns(hes, it) == old(Columns(hes, it))
      ensures Projected(k, orthog, rightPre, Basis(it + 1), vecs[vecOffset + it + 1].v, ColumnTop(hes, it, it + 2))
    {
      ghost var slots := vecs[vecOffset..vecOffset + it + 1];
      var basis := Basis(it + 1);
      var p := orthog(basis, MatOp(k, rightPre, vecs[vecOffset + it].v));
      tt := k.norm(p.w);
      StoreColumn(it, p.coeffs, tt);
      var hapbnd := HappyBound(epsabs, haptol, hh[it, it], rs[it]);
      Place(vecOffset + it + 1, if Rescales(tt, hapbnd) then Scale(1.0 / tt, p.w) else p.w);
      assert vecs[vecOffset..vecOffset + it + 1] == slots;
    }

    /**
      The slot of VEC_VV(it+1) is made to hold a vector: GMRESGetNewVectors(it+1) runs when
      vv_allocated <= it + VEC_OFFSET + 1. The slots up to VEC_VV(it) are kept.
     */
    method Expand(it: nat)
      requires Valid() && Ready()
      requires it < maxK && vvAllocated >= it + vecOffset + 1
      modifies this`vvAllocated, this`nworkAlloc, vecs, mworkAlloc
      ensures Ready() && vvAllocated >= it + vecOffset + 2
      ensures forall i :: 0 <= i <= vecOffset + it ==> vecs[i] == old(vecs[i])
      ensures vecs[vecOffset..vecOffset + it + 1] == old(vecs[vecOffset..vecOffset + it + 1])
    {
      if vvAllocated <= it + vecOffset + 1 {
        GetNewVectors(it + 1);
      }
      assert vecs[vecOffset..vecOffset + it + 1] == old(vecs[vecOffset..vecOffset + it + 1]);
    }

    /** RS(i) receives x; the other entries of RS are kept. */
    method PutResidual(i: nat, x: real)
      requires WorkAreaReady() && i < rs.Length
      modifies rs
      ensures WorkAreaReady() && rs[i] == x
      ensures forall j :: 0 <= j < rs.Length && j != i ==> rs[j] == old(rs[j])
    {
      rs[i] := x;
    }

    /** Slot i, one of the allocated ones, receives the vector w; the other slots are kept. */
    method Place(i: nat, w: Vector)
      requires SlotsReady() && i < vvAllocated && |w| == n
      modifies vecs
      ensures SlotsReady()
      ensures vecs[i] == Filled(w)
      ensures forall j :: 0 <= j < vecs.Length && j != i ==> vecs[j] == old(vecs[j])
    {
      vecs[i] := Filled(w);
    }

    /**
      What the orthogonalisation plug-in and the norm leave in column it: the coefficients
      HH(j,it) = HES(j,it) for rows j = 0 .. it and the norm tt in row it+1.
     */
    method StoreColumn(it: nat, coeffs: seq<real>, tt: real)
      requires WorkAreaReady() && it < maxK && |coeffs| == it + 1
      modifies hh, hes
      ensures forall j :: 0 <= j <= it ==> hh[j, it] == coeffs[j] && hes[j, it] == coeffs[j]
      ensures hh[it + 1, it] == tt && hes[it + 1, it] == tt
      ensures forall i, j :: 0 <= i < hh.Length0 && 0 <= j < hh.Length1 && (j != it || i > it + 1) ==>
                hh[i, j] == old(hh[i, j])
      ensures forall i, j :: 0 <= i < hes.Length0 && 0 <= j < hes.Length1 && (j != it || i > it + 1) ==>
                hes[i, j] == old(hes[i, j])
      ensures ColumnTop(hes, it, it + 2) == coeffs + [tt]
      ensures Columns(hh, it) == old(Columns(hh, it)) && Columns(hes, it) == old(Columns(hes, it))
    {
      ghost var hhCols, hesCols := Columns(hh, it), Columns(hes, it);
      ColumnsAt(hh, it);
      ColumnsAt(hes, it);
      var j := 0;
      while j <= it
        modifies hh, hes
        invariant 0 <= j <= it + 1
        invariant forall r :: 0 <= r < j ==> hh[r, it] == coeffs[r] && hes[r, it] == coeffs[r]
        invariant forall r, l :: 0 <= r < hh.Length0 && 0 <= l < hh.Length1 && (l != it || r >= j) ==>
                    hh[r, l] == old(hh[r, l])
        invariant forall r, l :: 0 <= r < hes.Length0 && 0 <= l < hes.Length1 && (l != it || r >= j) ==>
                    hes[r, l] == old(hes[r, l])
      {
        hh[j, it] := coeffs[j];
        hes[j, it] := coeffs[j];
        j := j + 1;
      }
      hh[it + 1, it] := tt;
      hes[it + 1, it] := tt;
      assert ColumnTop(hes, it, it + 2) == coeffs + [tt];
      ColumnsFrom(hh, it, hhCols);
      ColumnsFrom(hes, it, hesCols);
    }

    /**
      The history buffer holds, at every index i = itsSoFar + j with j < upto and i below
      hist_len, the estimate resids[j]; every other entry is as in h0.
     */
    ghost predicate Logged(h0: seq<real>, itsSoFar: nat, resids: seq<real>, upto: nat)
      reads residualHistory
    {
      residualHistory != null ==>
        && |h0| == residualHistory.Length && upto <= |resids|
        && forall i :: 0 <= i < residualHistory.Length ==>
             residualHistory[i] ==
               if itsSoFar <= i < itsSoFar + upto && i < resHistSize then resids[i - itsSoFar] else h0[i]
    }

    /** The contents of the history buffer, empty when there is none. */
    ghost function History(): seq<real>
      reads residualHistory
    {
      if residualHistory != null then residualHistory[..] else []
    }

    /** nres[i] = res when nres is present and i < hist_len; otherwise nothing is written. */
    method LogResidual(i: nat, res: real, ghost h0: seq<real>, ghost itsSoFar: nat, ghost resids: seq<real>)
      requires Valid() && |resids| > 0 && i == itsSoFar + |resids| - 1 && res == resids[|resids| - 1]
      requires Logged(h0, itsSoFar, resids, |resids| - 1)
      modifies residualHistory
      ensures Logged(h0, itsSoFar, resids, |resids|)
    {
      if residualHistory != null && resHistSize > i {
        residualHistory[i] := res;
      }
    }

    /** An untouched buffer records no estimate. */
    lemma LoggedNone(h0: seq<real>, itsSoFar: nat, resids: seq<real>)
      requires h0 == History()
      ensures Logged(h0, itsSoFar, resids, 0)
    {
    }

    /** Appending an estimate keeps what the buffer records for the earlier ones. */
    lemma LoggedExtend(h0: seq<real>, itsSoFar: nat, resids: seq<real>, x: real, upto: nat)
      requires Logged(h0, itsSoFar, resids, upto)
      ensures Logged(h0, itsSoFar, resids + [x], upto)
    {
    }

    /**
      One pass of the loop of GMREScycle: the Arnoldi step followed by
      GMRESUpdateHessenberg(it). Unless the rotation faults, the new rotation CC(it), SS(it)
      is a unit one, it turns RS(it) into the pair RS(it), RS(it+1) while RS(0..it-1) and the
      earlier rotations are kept, the new residual estimate is |RS(it+1)|, no larger than
      |RS(it)| was, and the new diagonal entry HH(it,it) is non-zero; the diagonal entries
      of the earlier columns are kept.
     */
    method Step(it: nat, k: Kernels) returns (res: real, fault: bool)
      requires Valid() && Ready() && k.Valid()
      requires it < maxK && vvAllocated >= it + vecOffset + 1
      modifies this`vvAllocated, this`nworkAlloc, vecs, mworkAlloc, hh, hes, rs, cc, ss
      ensures Ready() && vvAllocated >= it + vecOffset + 2
      ensures cc[..it] == old(cc[..it]) && ss[..it] == old(ss[..it])
      ensures !fault ==> rs[..it + 2] == RotateLast(old(rs[..it + 1]), cc[it], ss[it]) && Unit(cc[it], ss[it])
      ensures !fault ==> res == Abs(rs[it + 1]) && res <= Abs(old(rs[it])) && hh[it, it] != 0.0
      requires NonzeroDiagonal(it)
      ensures !fault ==> NonzeroDiagonal(it + 1)
      ensures var p := orthog(old(Basis(it + 1)), MatOp(k, rightPre, old(vecs[vecOffset + it].v)));
        && (forall j :: 0 <= j <= it ==> hes[j, it] == p.coeffs[j])
        && hes[it + 1, it] == k.norm(p.w)
        && vecs[vecOffset + it + 1] ==
             Filled(if Rescales(hes[it + 1, it], HappyBound(epsabs, haptol, p.coeffs[it], old(rs[it])))
                    then Scale(1.0 / hes[it + 1, it], p.w) else p.w)
      ensures forall i :: 0 <= i <= vecOffset + it ==> vecs[i] == old(vecs[i])
      ensures forall i, j :: 0 <= i < hh.Length0 && 0 <= j < hh.Length1 && (j != it || i > it + 1) ==>
                hh[i, j] == old(hh[i, j])
      ensures forall i, j :: 0 <= i < hes.Length0 && 0 <= j < hes.Length1 && (j != it || i > it + 1) ==>
                hes[i, j] == old(hes[i, j])
      ensures vecs[vecOffset..vecOffset + it + 1] == old(vecs[vecOffset..vecOffset + it + 1])
      ensures Columns(hh, it) == old(Columns(hh, it)) && Columns(hes, it) == old(Columns(hes, it))
      ensures !fault ==> ArnoldiColumn(k, orthog, rightPre, Basis(it + 1), vecs[vecOffset + it + 1].v,
                                       ColumnTop(hes, it, it + 2), ColumnTop(hh, it, it + 2),
                                       cc[..it + 1], ss[..it + 1])
    {
      var tt := Arnoldi(it, k);
      assert ColumnTop(hh, it, it + 2) == ColumnTop(hes, it, it + 2);
      res, fault := Eliminate(it, k);
    }

    /**
      The state the loop of GMREScycle keeps after `it` steps: set-up holds and VEC_VV(it)
      has a slot, the estimates so far are `resids` with res = |RS(it)| the last, the
      diagonal entries of the first it columns are non-zero, the history holds the
      estimates of the first it steps, and RS(0..it) is the right-hand side (res0, 0, ..., 0)
      rotated by the unit rotations CC(0..it-1), SS(0..it-1), res0 being resids[0].
     */
    ghost predicate Running(it: nat, itsSoFar: nat, res: real, resids: seq<real>, h0: seq<real>)
      reads this`maxK, this`hh, this`hes, this`rs, this`cc, this`ss
      reads this`vecs, this`mworkAlloc, this`nworkAlloc, this`vvAllocated, vecs, mworkAlloc
      reads rs, cc, ss, hh, residualHistory
    {
      && Ready() && vvAllocated >= it + vecOffset + 1 && it <= maxK
      && |resids| == it + 1 && res == resids[it] && res == Abs(rs[it])
      && NonzeroDiagonal(it) && Logged(h0, itsSoFar, resids, it)
      && Rotated(resids[0], it, rs[..])
    }

    /**
      g(0..m) is the right-hand side (res0, 0, ..., 0) rotated by CC(0..m-1), SS(0..m-1),
      which are unit rotations.
     */
    ghost predicate Rotated(res0: real, m: nat, g: seq<real>)
      reads this`cc, this`ss, cc, ss
    {
      RotatedPrefix(res0, m, g, cc[..], ss[..])
    }

    /**
      The first m columns of HES and HH, the rotations CC(0..m-1), SS(0..m-1) and the basis
      VEC_VV(0..m) are those of m Arnoldi steps (ArnoldiPrefix).
     */
    ghost predicate ArnoldiSteps(m: nat, k: Kernels)
      reads this`orthog, this`vecs, vecs, this`hh, hh, this`hes, hes, this`cc, cc, this`ss, ss
      requires k.Valid()
    {
      && vecOffset + m + 1 <= vecs.Length && m + 1 <= hh.Length0 && m <= hh.Length1
      && m + 1 <= hes.Length0 && m <= hes.Length1 && m <= cc.Length && m <= ss.Length
      && ArnoldiPrefix(k, orthog, rightPre, vecs[vecOffset..vecOffset + m + 1], Columns(hes, m), Columns(hh, m),
                       cc[..m], ss[..m])
    }

    /** Before the first step, with VEC_VV(0) in place, no column has been built yet. */
    lemma ArnoldiStart(k: Kernels)
      requires Ready() && k.Valid() && vvAllocated >= vecOffset + 1
      ensures ArnoldiSteps(0, k)
    {
      assert Columns(hes, 0) == [] && Columns(hh, 0) == [];
    }

    /**
      A step, seen from the loop: what Step promises about the residual pair and the
      diagonal, and, unless the rotation faults, one more Arnoldi column on top of those
      the earlier steps built.
     */
    method Extend(it: nat, k: Kernels) returns (res: real, fault: bool)
      requires Valid() && Ready() && k.Valid()
      requires it < maxK && vvAllocated >= it + vecOffset + 1
      requires NonzeroDiagonal(it) && ArnoldiSteps(it, k)
      modifies this`vvAllocated, this`nworkAlloc, vecs, mworkAlloc, hh, hes, rs, cc, ss
      ensures Ready() && vvAllocated >= it + vecOffset + 2
      ensures cc[..it] == old(cc[..it]) && ss[..it] == old(ss[..it])
      ensures !fault ==> rs[..it + 2] == RotateLast(old(rs[..it + 1]), cc[it], ss[it]) && Unit(cc[it], ss[it])
      ensures !fault ==> res == Abs(rs[it + 1]) && res <= Abs(old(rs[it]))
      ensures !fault ==> NonzeroDiagonal(it + 1) && ArnoldiSteps(it + 1, k)
      ensures vecs[vecOffset] == old(vecs[vecOffset])
    {
      ghost var slots, hesCols, hhCols := vecs[vecOffset..vecOffset + it + 1], Columns(hes, it), Columns(hh, it);
      res, fault := Step(it, k);
      assert vecs[vecOffset] == slots[0];
      if !fault {
        assert vecs[vecOffset..vecOffset + it + 2] == slots + [vecs[vecOffset + it + 1]];
        assert Columns(hes, it + 1) == hesCols + [ColumnTop(hes, it, it + 2)];
        assert Columns(hh, it + 1) == hhCols + [ColumnTop(hh, it, it + 2)];
        assert cc[..it + 1][..it] == cc[..it] && ss[..it + 1][..it] == ss[..it];
        PrefixGrows(k, orthog, rightPre, slots, vecs[vecOffset + it + 1], hesCols, ColumnTop(hes, it, it + 2),
                    hhCols, ColumnTop(hh, it, it + 2), cc[..it + 1], ss[..it + 1]);
      }
    }

    /**
      The body of the loop of GMREScycle: the current estimate res = |RS(it)| is stored in
      the history when it + itsSoFar is below hist_len, then a step is taken. Unless it
      faults, the new estimate is no larger and the loop state holds for it + 1 steps.
     */
    method Pass(it: nat, itsSoFar: nat, res: real, ghost h0: seq<real>, ghost resids: seq<real>, k: Kernels)
      returns (next: real, fault: bool)
      requires Valid() && k.Valid() && it < maxK && Running(it, itsSoFar, res, resids, h0)
      requires ArnoldiSteps(it, k)
      modifies this`vvAllocated, this`nworkAlloc, vecs, mworkAlloc, hh, hes, rs, cc, ss, residualHistory
      ensures Ready() && vvAllocated >= it + vecOffset + 1 && Logged(h0, itsSoFar, resids, it + 1)
      ensures !fault ==> next <= res && Running(it + 1, itsSoFar, next, resids + [next], h0)
      ensures !fault ==> ArnoldiSteps(it + 1, k)
      ensures vecs[vecOffset] == old(vecs[vecOffset])
    {
      assert residualHistory != cc && residualHistory != ss;
      LogResidual(it + itsSoFar, res, h0, itsSoFar, resids);
      ghost var cs, sn, before := cc[..], ss[..], rs[..];
      next, fault := Extend(it, k);
      if !fault {
        LoggedExtend(h0, itsSoFar, resids, next, it + 1);
        assert cc[..][..it] == cs[..it] && ss[..][..it] == sn[..it];
        RotatedPrefixStep(resids[0], it, before, rs[..], cs, cc[..], sn, ss[..]);
      }
    }

    /**
      The invariant of the loop of GMREScycle: the loop state after `its` steps, the first
      estimate res0, the step count within max_it, the estimates so far decreasing and
      unconverged, and `converged` telling whether the default test passes on res.
     */
    ghost predicate Looping(its: nat, itsSoFar: nat, res: real, resids: seq<real>, h0: seq<real>,
                            res0: real, converged: bool, k: Kernels)
      reads this`maxK, this`hh, this`hes, this`rs, this`cc, this`ss, this`ttol, this`orthog
      reads this`vecs, this`mworkAlloc, this`nworkAlloc, this`vvAllocated, vecs, mworkAlloc
      reads rs, cc, ss, hh, hes, residualHistory
      requires k.Valid()
    {
      && Running(its, itsSoFar, res, resids, h0) && ArnoldiSteps(its, k)
      && resids[0] == res0 && (its > 0 ==> itsSoFar + its <= maxIt)
      && Progress(resids, ttol) && converged == DefaultConverged(res, ttol)
    }

    /**
      One round of the loop of GMREScycle, entered while the default test fails and both
      max_k and max_it leave room: a pass, after which, unless it faults, the loop state
      holds for one more step.
     */
    method Advance(its: nat, itsSoFar: nat, res: real, ghost h0: seq<real>, ghost resids: seq<real>,
                   ghost res0: real, k: Kernels)
      returns (its': nat, res': real, converged': bool, fault: bool, ghost resids': seq<real>)
      requires Valid() && k.Valid() && Looping(its, itsSoFar, res, resids, h0, res0, false, k)
      requires its < maxK && its + itsSoFar < maxIt
      modifies this`vvAllocated, this`nworkAlloc, vecs, mworkAlloc, hh, hes, rs, cc, ss, residualHistory
      ensures Ready() && (fault ==> its' == its && res' == res && resids' == resids && !converged')
      ensures vvAllocated >= its + vecOffset + 1 && Logged(h0, itsSoFar, resids, its + 1)
      ensures !fault ==> its' == its + 1 && Looping(its', itsSoFar, res', resids', h0, res0, converged', k)
      ensures maxK == old(maxK) && ttol == old(ttol) && vecs[vecOffset] == old(vecs[vecOffset])
    {
      its', res', converged', resids' := its, res, false, resids;
      var next;
      next, fault := Pass(its, itsSoFar, res, h0, resids, k);
      if !fault {
        ProgressExtend(resids, ttol, next);
        its', res', resids' := its + 1, next, resids + [next];
        converged' := DefaultConverged(res', ttol);
      }
    }

    /** Before the first pass of the loop, with no step taken, the loop state holds. */
    lemma LoopingStart(itsSoFar: nat, res0: real, k: Kernels)
      requires Valid() && Ready() && k.Valid()
      requires vvAllocated >= vecOffset + 1 && res0 == rs[0] && res0 >= 0.0
      ensures Looping(0, itsSoFar, res0, [res0], History(), res0, DefaultConverged(res0, ttol), k)
    {
      RotatedStart(res0, rs[..], cc[..], ss[..]);
      ArnoldiStart(k);
    }

    /**
      The loop of GMREScycle, entered with the residual estimate res0 = |RS(0)|. Each pass
      first stores the current estimate in the history when its index it + itsSoFar is
      below hist_len, then takes a step. The loop stops when the default test passes, when
      it reaches max_k, or when it + itsSoFar reaches max_it; a faulting step stops it too.
      `resids` is the sequence of estimates, one per step, and never increases. Without a
      fault, RS(0..its) ends as (res0, 0, ..., 0) rotated by the unit rotations of the steps,
      and the steps are Arnoldi steps from VEC_VV(0), which the loop keeps.
     */
    method Iterate(itsSoFar: nat, res0: real, k: Kernels)
      returns (its: nat, res: real, converged: bool, fault: bool, ghost resids: seq<real>)
      requires Valid() && Ready() && k.Valid()
      requires vvAllocated >= vecOffset + 1 && res0 == rs[0] && res0 >= 0.0
      modifies this`vvAllocated, this`nworkAlloc, vecs, mworkAlloc, hh, hes, rs, cc, ss, residualHistory
      ensures Valid() && Ready() && vvAllocated >= its + vecOffset + 1 && its <= maxK
      ensures |resids| == its + 1 && resids[0] == res0 && res == resids[its]
      ensures its > 0 ==> itsSoFar + its <= maxIt
      ensures Progress(resids, ttol)
      ensures converged == DefaultConverged(res, ttol)
      ensures !fault ==> Running(its, itsSoFar, res, resids, old(History()))
      ensures !fault ==> ArnoldiSteps(its, k)
      ensures vecs[vecOffset] == old(vecs[vecOffset])
      ensures !fault ==> converged || its == maxK || itsSoFar + its >= maxIt
      ensures fault ==> !converged && its < maxK && itsSoFar + its < maxIt
      ensures Logged(old(History()), itsSoFar, resids, if fault then its + 1 else its)
    {
      ghost var h0, v0 := History(), vecs[vecOffset];
      its, res, fault := 0, res0, false;
      resids := [res0];
      LoopingStart(itsSoFar, res0, k);
      converged := DefaultConverged(res, ttol);
      while !converged && its < maxK && its + itsSoFar < maxIt
        invariant Looping(its, itsSoFar, res, resids, h0, res0, converged, k)
        invariant vecs[vecOffset] == v0
        decreases maxK - its
      {
        its, res, converged, fault, resids := Advance(its, itsSoFar, res, h0, resids, res0, k);
        if fault {
          return;
        }
      }
    }

    /**
      The bookkeeping after the loop of GMREScycle: the operator and vector-operation
      counts, the final estimate in the history (stored when its index is below hist_len),
      the history length, and the index of the last column for GMRESBuildSolution.
     */
    method RecordCycle(its: nat, itsSoFar: nat, res: real, ghost h0: seq<real>, ghost resids: seq<real>,
                       ghost k: Kernels)
      requires Valid() && Ready() && k.Valid() && |resids| == its + 1 && res == resids[its]
      requires Logged(h0, itsSoFar, resids, its)
      modifies this`nmatop, this`nvectors, this`resActSize, this`lastIt, residualHistory
      ensures Valid() && Ready()
      ensures nmatop == old(nmatop) + its && nvectors == old(nvectors) + VectorOps(its)
      ensures resActSize == if residualHistory != null then ResActSize(resHistSize, itsSoFar + its)
                            else old(resActSize)
      ensures lastIt == its - 1
      ensures Logged(h0, itsSoFar, resids, its + 1)
      ensures its <= maxK ==> (ArnoldiSteps(its, k) <==> old(ArnoldiSteps(its, k)))
      ensures cc[..] == old(cc[..]) && ss[..] == old(ss[..])
    {
      assert residualHistory != cc && residualHistory != ss;
      Count(its, itsSoFar);
      LogResidual(its + itsSoFar, res, h0, itsSoFar, resids);
    }

    /**
      The counters after a cycle of `its` steps: its more operator applications, the
      vector operations of VectorOps(its), the history length when a history is kept, and
      the index of the last step.
     */
    method Count(its: nat, itsSoFar: nat)
      modifies this`nmatop, this`nvectors, this`resActSize, this`lastIt
      ensures nmatop == old(nmatop) + its && nvectors == old(nvectors) + VectorOps(its)
      ensures resActSize == if residualHistory != null then ResActSize(resHistSize, itsSoFar + its)
                            else old(resActSize)
      ensures lastIt == its - 1
    {
      nmatop := nmatop + its;
      nvectors := nvectors + VectorOps(its);
      if residualHistory != null {
        resActSize := ResActSize(resHistSize, itsSoFar + its);
      }
      lastIt := its - 1;
    }

    /**
      After a cycle of m > 0 steps: RS(0..m-1) holds the solution y of the triangular
      system HH(0..m-1, 0..m-1) y = g(0..m-1), and the solution vector is x0 plus the
      correction y0 VEC_VV(0) + ... + y(m-1) VEC_VV(m-1), passed through B^-1 first under
      right preconditioning.
     */
    ghost predicate Corrected(m: nat, g: seq<real>, x0: Vector, k: Kernels)
      reads this`vecSol, this`hh, this`rs, this`vecs, hh, rs, vecs
      requires k.Valid()
    {
      && m <= hh.Length0 && |g| == rs.Length && m <= rs.Length && |x0| == n
      && vecOffset + m <= vecs.Length
      && (forall i :: vecOffset <= i < vecOffset + m ==> vecs[i].Filled? && |vecs[i].v| == n)
      && Solves(Rows(hh, m), rs[..], g, 0, m)
      && var c := LinComb(Basis(m), rs[..], m, n);
         vecSol == Axpy(1.0, if rightPre then k.pc(c) else c, x0)
    }

    /**
      The end of GMREScycle once the loop has stopped without a fault after `its` steps with
      final estimate res: the bookkeeping, then, when a step was taken, the solution update
      from the triangular system, solved against g, the RS the loop left. The cycle returns 0
      when no step was taken or the last test passed, 1 otherwise.
     */
    method Conclude(its: nat, itsSoFar: nat, res: real, converged: bool,
                    ghost h0: seq<real>, ghost resids: seq<real>, k: Kernels)
      returns (status: Status, ghost g: seq<real>)
      requires Valid() && k.Valid() && Running(its, itsSoFar, res, resids, h0) && ArnoldiSteps(its, k)
      modifies this`nmatop, this`nvectors, this`resActSize, this`lastIt, this`vecSol, residualHistory, rs
      ensures Valid() && Ready() && ArnoldiSteps(its, k) && vecs[vecOffset] == old(vecs[vecOffset])
      ensures nmatop == old(nmatop) + its && nvectors == old(nvectors) + VectorOps(its)
      ensures resActSize == if residualHistory != null then ResActSize(resHistSize, itsSoFar + its)
                            else old(resActSize)
      ensures Logged(h0, itsSoFar, resids, its + 1)
      ensures status == Code(if its == 0 || converged then 0 else 1)
      ensures its == 0 ==> vecSol == old(vecSol)
      ensures g == old(rs[..]) && Rotated(resids[0], its, g)
      ensures its > 0 ==> Corrected(its, g, old(vecSol), k) && Abs(g[its]) == res
    {
      RecordCycle(its, itsSoFar, res, h0, resids, k);
      g := rs[..];
      if its == 0 {
        return Code(0), g;
      }
      BuildSoln(its - 1, k);
      status := Code(if converged then 0 else 1);
    }

    /**
      The start of GMREScycle: res_norm, the norm of VEC_VV(0), goes to RS(0). Unless it is
      zero, VEC_VV(0) is divided by it and, on the first cycle of a solve, the target
      ttol = max(atol, rtol res_norm) is set; with a zero norm nothing else changes.
     */
    method Start(restart: bool, k: Kernels) returns (resNorm: real)
      requires Valid() && Ready() && k.Valid()
      modifies this`ttol, this`lastIt, rs, vecs
      ensures Valid() && Ready() && resNorm == k.norm(old(vecs[vecOffset].v)) && rs[0] == resNorm
      ensures resNorm == 0.0 ==> vecs[..] == old(vecs[..]) && ttol == old(ttol)
      ensures resNorm != 0.0 ==>
                && vecs[vecOffset] == Filled(Scale(1.0 / resNorm, old(vecs[vecOffset].v)))
                && (forall i :: 0 <= i < vecs.Length && i != vecOffset ==> vecs[i] == old(vecs[i]))
                && ttol == if restart then old(ttol) else TargetTolerance(atol, rtol, resNorm)
    {
      var v0 := vecs[vecOffset].v;
      resNorm := k.norm(v0);
      PutResidual(0, resNorm);
      if resNorm == 0.0 {
        return;
      }
      Place(vecOffset, Scale(1.0 / resNorm, v0));
      if !restart {
        ttol := TargetTolerance(atol, rtol, resNorm);
      }
      lastIt := -1;
    }

    /**
      GMREScycle(itsSoFar, restart): one restart cycle, with the initial residual in
      VEC_VV(0). Its norm res_norm goes to RS(0); when it is zero the cycle does nothing
      and returns 0 with no iterations. Otherwise VEC_VV(0) is normalised, the target ttol
      = max(atol, rtol res_norm) is set on the first cycle of a solve only, and the loop
      runs. After the loop the counters, the history and its length are recorded and, when
      at least one step was taken, the solution is updated from the triangular system: the
      cycle returns 0 when the final estimate passed the test and 1 otherwise. `resids` is
      the sequence of residual estimates, of which the history receives those whose index
      is below hist_len, and `g` the RS the back substitution solves against: the vector
      (res_norm, 0, ..., 0) rotated by the unit rotations CC, SS of the cycle's steps. The
      basis the update combines is that of the cycle's Arnoldi steps (ArnoldiSteps), started
      from the initial residual divided by res_norm in VEC_VV(0).
     */
    method Cycle(itsSoFar: nat, restart: bool, k: Kernels)
      returns (its: nat, status: Status, ghost resids: seq<real>, ghost g: seq<real>)
      requires Valid() && Ready() && k.Valid()
      modifies this`ttol, this`nmatop, this`nvectors, this`resActSize, this`vecSol, this`lastIt,
               this`vvAllocated, this`nworkAlloc, vecs, mworkAlloc, hh, hes, rs, cc, ss, residualHistory
      ensures Valid() && Ready()
      ensures |resids| == its + 1 && resids[0] == k.norm(old(vecs[vecOffset].v))
      ensures its <= maxK && (its > 0 ==> itsSoFar + its <= maxIt)
      ensures Progress(resids, ttol)
      ensures ttol == if resids[0] != 0.0 && !restart then TargetTolerance(atol, rtol, resids[0]) else old(ttol)
      ensures resids[0] == 0.0 ==> its == 0 && status == Code(0) && vecs[..] == old(vecs[..])
      ensures status.Code? ==> status.code == if its == 0 || DefaultConverged(resids[its], ttol) then 0 else 1
      ensures status.Code? && resids[0] != 0.0 ==>
                DefaultConverged(resids[its], ttol) || its == maxK || itsSoFar + its >= maxIt
      ensures status.ArithFault? ==> its < maxK && itsSoFar + its < maxIt
      ensures status.Code? && its > 0 ==> Corrected(its, g, old(vecSol), k) && Abs(g[its]) == resids[its]
      ensures status.Code? ==> Rotated(resids[0], its, g)
      ensures status.Code? && resids[0] != 0.0 ==>
                ArnoldiSteps(its, k) && vecs[vecOffset] == Filled(Scale(1.0 / resids[0], old(vecs[vecOffset].v)))
      ensures status.ArithFault? || its == 0 ==> vecSol == old(vecSol)
      ensures status.Code? && resids[0] != 0.0 ==>
                && nmatop == old(nmatop) + its && nvectors == old(nvectors) + VectorOps(its)
                && resActSize == if residualHistory != null then ResActSize(resHistSize, itsSoFar + its)
                                 else old(resActSize)
      ensures status.ArithFault? || resids[0] == 0.0 ==>
                nmatop == old(nmatop) && nvectors == old(nvectors) && resActSize == old(resActSize)
      ensures Logged(old(History()), itsSoFar, resids, if resids[0] == 0.0 then 0 else its + 1)
    {
      var resNorm := Start(restart, k);
      if resNorm == 0.0 {
        resids, g := [resNorm], rs[..];
        RotatedStart(resNorm, g, cc[..], ss[..]);
        LoggedNone(History(), itsSoFar, resids);
        return 0, Code(0), resids, g;
      }
      its, status, resids, g := Run(itsSoFar, resNorm, k);
    }

    /**
      The loop of GMREScycle and what follows it, once VEC_VV(0) has been normalised and
      RS(0) holds the nonzero residual norm res0: the steps, then, unless a step faulted,
      the bookkeeping and the solution update, which leaves VEC_VV(0) and the Arnoldi steps
      the loop built as they were.
     */
    method Run(itsSoFar: nat, res0: real, k: Kernels)
      returns (its: nat, status: Status, ghost resids: seq<real>, ghost g: seq<real>)
      requires Valid() && Ready() && k.Valid()
      requires vvAllocated >= vecOffset + 1 && res0 == rs[0] && res0 >= 0.0
      modifies this`nmatop, this`nvectors, this`resActSize, this`vecSol, this`lastIt,
               this`vvAllocated, this`nworkAlloc, vecs, mworkAlloc, hh, hes, rs, cc, ss, residualHistory
      ensures Valid() && Ready()
      ensures |resids| == its + 1 && resids[0] == res0
      ensures its <= maxK && (its > 0 ==> itsSoFar + its <= maxIt)
      ensures Progress(resids, ttol)
      ensures status.Code? ==> status.code == if its == 0 || DefaultConverged(resids[its], ttol) then 0 else 1
      ensures status.Code? ==> DefaultConverged(resids[its], ttol) || its == maxK || itsSoFar + its >= maxIt
      ensures status.ArithFault? ==> its < maxK && itsSoFar + its < maxIt
      ensures status.Code? && its > 0 ==> Corrected(its, g, old(vecSol), k) && Abs(g[its]) == resids[its]
      ensures status.Code? ==> Rotated(res0, its, g)
      ensures status.Code? ==> ArnoldiSteps(its, k) && vecs[vecOffset] == old(vecs[vecOffset])
      ensures status.ArithFault? || its == 0 ==> vecSol == old(vecSol)
      ensures status.Code? ==>
                && nmatop == old(nmatop) + its && nvectors == old(nvectors) + VectorOps(its)
                && resActSize == if residualHistory != null then ResActSize(resHistSize, itsSoFar + its)
                                 else old(resActSize)
      ensures status.ArithFault? ==>
                nmatop == old(nmatop) && nvectors == old(nvectors) && resActSize == old(resActSize)
      ensures Logged(old(History()), itsSoFar, resids, its + 1)
    {
      ghost var h0 := History();
      var res, converged, fault;
      its, res, converged, fault, resids := Iterate(itsSoFar, res0, k);
      g := rs[..];
      if fault {
        return its, ArithFault, resids, g;
      }
      status, g := Conclude(its, itsSoFar, res, converged, h0, resids, k);
    }

    /**
      KSPiGMRESSolve: BINVF becomes B^-1 b under left preconditioning and b under right;
      VEC_VV(0) the initial residual (BINVF itself for a zero initial guess). Cycles run
      until one returns 0, each restart adding its iterations to itcount and recomputing
      the residual. The count returned is the sum of the iterations of the cycles the call
      ran, as they are recorded in `cycleLog`, and it never exceeds max_it.
     */
    method Solve(k: Kernels) returns (outIts: int, status: Status)
      requires Valid() && Ready() && k.Valid()
      modifies this`binvf, this`ttol, this`nmatop, this`nvectors, this`resActSize, this`vecSol,
               this`lastIt, this`vvAllocated, this`nworkAlloc, this`cycleLog, vecs, mworkAlloc, hh, hes,
               rs, cc, ss, residualHistory
      ensures Valid() && Ready()
      ensures binvf == if rightPre then rhs else k.pc(rhs)
      ensures status == Code(0) || status == ArithFault
      ensures |cycleLog| > |old(cycleLog)| && cycleLog[..|old(cycleLog)|] == old(cycleLog)
      ensures status == Code(0) ==>
                outIts == Total(cycleLog[|old(cycleLog)|..]) && 0 <= outIts && (outIts > 0 ==> outIts <= maxIt)
    {
      ghost var log0 := cycleLog;
      var its, st;
      ghost var resids, g;
      its, st, resids, g := FirstCycle(k);
      ghost var log1 := cycleLog;
      ghost var broke;
      outIts, status, broke := Restarts(its, st, k);
      LogGrows(log0, log1, cycleLog);
    }

    /**
      The start of KSPiGMRESSolve: BINVF becomes B^-1 b under left preconditioning and b
      under right; VEC_VV(0) the initial residual, or BINVF itself for a zero initial guess;
      then the first cycle runs from zero iterations without restart, with the estimates
      `resids` and the right-hand side g it ends with. Its iterations are appended to
      `cycleLog`. Its first estimate is the norm of the initial residual, ttol is the target
      it sets, the estimates decrease until the test passes, the status tells whether it
      converged, and a normal end leaves the solution corrected by the triangular solve
      against g, the initial residual norm rotated by the cycle's unit rotations.
     */
    method FirstCycle(k: Kernels) returns (its: nat, st: Status, ghost resids: seq<real>, ghost g: seq<real>)
      requires Valid() && Ready() && k.Valid()
      modifies this`binvf, this`ttol, this`nmatop, this`nvectors, this`resActSize, this`vecSol,
               this`lastIt, this`vvAllocated, this`nworkAlloc, this`cycleLog, vecs, mworkAlloc, hh, hes,
               rs, cc, ss, residualHistory
      ensures Valid() && Ready()
      ensures binvf == if rightPre then rhs else k.pc(rhs)
      ensures cycleLog == old(cycleLog) + [its]
      ensures |resids| == its + 1 && Progress(resids, ttol)
      ensures resids[0] == k.norm(if guessZero then binvf else ResidualOf(k, old(vecSol)))
      ensures ttol == if resids[0] != 0.0 then TargetTolerance(atol, rtol, resids[0]) else old(ttol)
      ensures st == Code(0) || st == Code(1) || st == ArithFault
      ensures st.Code? ==> st.code == if its == 0 || DefaultConverged(resids[its], ttol) then 0 else 1
      ensures st == Code(1) ==> its > 0
      ensures st.Code? && its > 0 ==> its <= maxIt
      ensures st.ArithFault? || its == 0 ==> vecSol == old(vecSol)
    {
      Prepare(k);
      its, st, resids, g := Cycle(0, false, k);
      cycleLog := cycleLog + [its];
    }

    /**
      BINVF becomes B^-1 b under left preconditioning and b under right, and VEC_VV(0) the
      initial residual BINVF - TEMP (Residual), or BINVF itself when the initial guess is
      zero; no other slot changes.
     */
    method Prepare(k: Kernels)
      requires Valid() && Ready() && k.Valid()
      modifies this`binvf, vecs
      ensures Valid() && Ready()
      ensures binvf == if rightPre then rhs else k.pc(rhs)
      ensures vecs[vecOffset] == Filled(if guessZero then binvf else ResidualOf(k, vecSol))
      ensures forall i :: 0 <= i < vecs.Length && i != vecOffset ==> vecs[i] == old(vecs[i])
    {
      if !rightPre {
        binvf := k.pc(rhs);
      } else {
        binvf := rhs;
      }
      if !guessZero {
        Residual(k);
      } else {
        Place(vecOffset, binvf);
      }
    }

    /**
      The restart loop of KSPiGMRESSolve, entered with the iterations and the status of the
      first cycle, whose iterations are the last entry of `cycleLog`: while the last cycle
      returned 1, its iterations are added to itcount, the residual is recomputed and
      another cycle runs from itcount; once a cycle returns 0 its iterations are added too.
      The returned count is the sum of the iterations of the first cycle and of every
      cycle run here. The source would also leave the loop once itcount exceeds max_it and
      then add the last cycle's iterations a second time; `broke` records that exit, and it
      never happens, because a cycle stops at max_it.
     */
    method Restarts(its0: nat, st0: Status, k: Kernels) returns (outIts: int, status: Status, ghost broke: bool)
      requires Valid() && Ready() && k.Valid()
      requires |cycleLog| > 0 && cycleLog[|cycleLog| - 1] == its0
      requires st0 == Code(0) || st0 == Code(1) || st0 == ArithFault
      requires st0 == Code(1) ==> its0 > 0
      requires st0.Code? && its0 > 0 ==> its0 <= maxIt
      modifies this`ttol, this`nmatop, this`nvectors, this`resActSize, this`vecSol,
               this`lastIt, this`vvAllocated, this`nworkAlloc, this`cycleLog, vecs, mworkAlloc, hh, hes,
               rs, cc, ss, residualHistory
      ensures Valid() && Ready() && !broke
      ensures status == Code(0) || status == ArithFault
      ensures |cycleLog| >= |old(cycleLog)| && cycleLog[..|old(cycleLog)|] == old(cycleLog)
      ensures st0 == Code(0) ==> status == Code(0) && outIts == its0 && cycleLog == old(cycleLog)
      ensures st0 == ArithFault ==> status == ArithFault && cycleLog == old(cycleLog)
      ensures status == Code(0) ==>
                outIts == Total(cycleLog[|old(cycleLog)| - 1..]) && 0 <= outIts && (outIts > 0 ==> outIts <= maxIt)
    {
      ghost var prefix := cycleLog[..|cycleLog| - 1];
      ghost var counts: seq<int> := [];
      var its, st := its0, st0;
      var itcount := 0;
      broke := false;
      while st == Code(1)
        invariant Valid() && Ready()
        invariant Restarting(prefix, counts, its0, st0, itcount, its, st)
        decreases maxIt - itcount
      {
        TotalAppend(counts, its);
        assert prefix + counts + [its] == prefix + (counts + [its]);
        counts := counts + [its];
        itcount := itcount + its;
        var stop;
        ghost var resids;
        its, st, stop, resids := Restart(itcount, its, k);
        if stop {
          broke := true;
          break;
        }
      }
      RestartLogTail(prefix, counts, its, its0);
      if st == ArithFault {
        return itcount, ArithFault, broke;
      }
      TotalAppend(counts, its);
      itcount := itcount + its;
      return itcount, Code(0), broke;
    }

    /**
      The state of the restart loop of KSPiGMRESSolve: `cycleLog` is prefix followed by the
      iterations `counts` already added to itcount, the first of which is its0, and the
      iterations its of the last cycle, whose status is st; itcount stays within max_it,
      and so does itcount + its after a cycle that did not fault.
     */
    ghost predicate Restarting(prefix: seq<int>, counts: seq<int>, its0: nat, st0: Status, itcount: int,
                               its: nat, st: Status)
      reads this`cycleLog
    {
      && cycleLog == prefix + counts + [its]
      && 0 <= itcount == Total(counts) && (itcount > 0 ==> itcount <= maxIt)
      && (st == Code(0) || st == Code(1) || st == ArithFault)
      && (st == Code(1) ==> its > 0)
      && (st.Code? && its > 0 ==> itcount + its <= maxIt)
      && (counts == [] ==> its == its0 && st == st0)
      && (counts != [] ==> counts[0] == its0)
      && (st0 != Code(1) ==> counts == [])
    }

    /**
      The body of the restart loop of KSPiGMRESSolve once itcount has been updated: the
      residual of the current solution is recomputed into VEC_VV(0); the loop stops if
      itcount exceeds max_it, keeping the previous cycle's iterations prevIts, and otherwise
      runs a restarted cycle from itcount, whose iterations are appended to `cycleLog`.
     */
    method Restart(itcount: int, prevIts: nat, k: Kernels)
      returns (its: nat, st: Status, stop: bool, ghost resids: seq<real>)
      requires Valid() && Ready() && k.Valid() && 0 <= itcount
      modifies this`ttol, this`nmatop, this`nvectors, this`resActSize, this`vecSol,
               this`lastIt, this`vvAllocated, this`nworkAlloc, this`cycleLog, vecs, mworkAlloc, hh, hes,
               rs, cc, ss, residualHistory
      ensures Valid() && Ready()
      ensures stop <==> itcount > maxIt
      ensures stop ==> its == prevIts && st == Code(1) && cycleLog == old(cycleLog)
      ensures !stop ==> cycleLog == old(cycleLog) + [its]
      ensures !stop ==> st == Code(0) || st == Code(1) || st == ArithFault
      ensures !stop ==> (st == Code(1) ==> its > 0) && (st.Code? && its > 0 ==> itcount + its <= maxIt)
      ensures stop ==> vecs[vecOffset] == Filled(ResidualOf(k, old(vecSol))) && vecSol == old(vecSol)
      ensures !stop ==> |resids| == its + 1 && resids[0] == k.norm(ResidualOf(k, old(vecSol)))
      ensures !stop ==> Progress(resids, ttol)
    {
      Residual(k);
      if itcount > maxIt {
        return prevIts, Code(1), true, [];
      }
      ghost var g;
      stop := false;
      its, st, resids, g := Cycle(itcount, true, k);
      cycleLog := cycleLog + [its];
    }
  }

  /**
    The projection half of one Arnoldi column, basis being VEC_VV(0..j): the plug-in's
    coefficients for MATOP VEC_VV(j) followed by the norm of the remainder are the HES
    column, and next, VEC_VV(j+1), is the remainder, divided by that norm unless the
    happy-breakdown test left it as it is.
   */
  ghost predicate Projected(k: Kernels, orthog: Orthog, rightPre: bool, basis: seq<Vector>, next: Vector,
                            hesCol: seq<real>)
    requires k.Valid() && |basis| >= 1 && |hesCol| == |basis| + 1
  {
    var j := |basis| - 1;
    var p := orthog(basis, MatOp(k, rightPre, basis[j]));
    && hesCol == p.coeffs + [k.norm(p.w)]
    && (next == p.w || (hesCol[j + 1] != 0.0 && next == Scale(1.0 / hesCol[j + 1], p.w)))
  }

  /**
    The elimination half of column j: above the diagonal the HH column is the HES column
    rotated by the earlier rotations (cs, sn)[..j], HH(j+1,j) keeps the norm, and the new
    rotation (cs[j], sn[j]) maps the rotated pair at rows j, j+1 to (HH(j,j), 0), which
    makes HH upper triangular once HH(j+1,j) is left out.
   */
  ghost predicate Triangularised(hesCol: seq<real>, hhCol: seq<real>, cs: seq<real>, sn: seq<real>)
    requires |hesCol| >= 2 && |hhCol| == |hesCol| && |cs| == |hesCol| - 1 && |sn| == |hesCol| - 1
  {
    var j := |hesCol| - 2;
    var col := ApplyRotations(hesCol, cs[..j], sn[..j], j);
    && hhCol[..j] == col[..j] && hhCol[j + 1] == hesCol[j + 1]
    && cs[j] * col[j] + sn[j] * col[j + 1] == hhCol[j]
    && cs[j] * col[j + 1] - sn[j] * col[j] == 0.0
  }

  /** One column of the Arnoldi process with its Givens rotation: both halves. */
  ghost predicate ArnoldiColumn(k: Kernels, orthog: Orthog, rightPre: bool, basis: seq<Vector>, next: Vector,
                                hesCol: seq<real>, hhCol: seq<real>, cs: seq<real>, sn: seq<real>)
    requires k.Valid()
    requires |basis| >= 1 && |hesCol| == |basis| + 1 && |hhCol| == |basis| + 1
    requires |cs| == |basis| && |sn| == |basis|
  {
    Projected(k, orthog, rightPre, basis, next, hesCol) && Triangularised(hesCol, hhCol, cs, sn)
  }

  /**
    Column j of the Arnoldi steps held in slots, hesCols, hhCols, cs and sn: both columns
    have j + 2 entries and they form the Arnoldi column built from VEC_VV(0..j).
   */
  ghost predicate StepColumn(k: Kernels, orthog: Orthog, rightPre: bool, slots: seq<Slot>,
                             hesCols: seq<seq<real>>, hhCols: seq<seq<real>>, cs: seq<real>, sn: seq<real>, j: int)
    requires k.Valid()
  {
    && 0 <= j < |hesCols| && |slots| == |hesCols| + 1 && |hhCols| == |hesCols|
    && |cs| == |hesCols| && |sn| == |hesCols| && (forall i :: 0 <= i <= j + 1 ==> slots[i].Filled?)
    && |hesCols[j]| == j + 2 && |hhCols[j]| == j + 2
    && ArnoldiColumn(k, orthog, rightPre, SlotVectors(slots[..j + 1]), slots[j + 1].v,
                     hesCols[j], hhCols[j], cs[..j + 1], sn[..j + 1])
  }

  /**
    m Arnoldi steps: slots holds VEC_VV(0..m), hesCols and hhCols the first m columns of HES
    and HH, and cs, sn the rotations CC(0..m-1), SS(0..m-1); every column j is the Arnoldi
    column built from VEC_VV(0..j).
   */
  ghost predicate ArnoldiPrefix(k: Kernels, orthog: Orthog, rightPre: bool, slots: seq<Slot>,
                                hesCols: seq<seq<real>>, hhCols: seq<seq<real>>, cs: seq<real>, sn: seq<real>)
    requires k.Valid()
  {
    && |slots| == |hesCols| + 1 && |hhCols| == |hesCols| && |cs| == |hesCols| && |sn| == |hesCols|
    && (forall i :: 0 <= i < |slots| ==> slots[i].Filled?)
    && forall j :: 0 <= j < |hesCols| ==> StepColumn(k, orthog, rightPre, slots, hesCols, hhCols, cs, sn, j)
  }

  /** Column j of m steps is still an Arnoldi column once more steps follow. */
  lemma ColumnKept(k: Kernels, orthog: Orthog, rightPre: bool, slots: seq<Slot>, slots': seq<Slot>,
                   hesCols: seq<seq<real>>, hesCols': seq<seq<real>>, hhCols: seq<seq<real>>,
                   hhCols': seq<seq<real>>, cs: seq<real>, sn: seq<real>, j: nat)
    requires k.Valid() && ArnoldiPrefix(k, orthog, rightPre, slots, hesCols, hhCols, cs, sn)
    requires j < |hesCols| <= |hesCols'| && |hhCols'| == |hesCols'| && |slots'| == |hesCols'| + 1
    requires slots'[..|slots|] == slots && hesCols'[..|hesCols|] == hesCols && hhCols'[..|hhCols|] == hhCols
    ensures slots'[..j + 1] == slots[..j + 1] && slots'[j + 1] == slots[j + 1]
    ensures hesCols'[j] == hesCols[j] && hhCols'[j] == hhCols[j]
  {
    assert slots'[..j + 1] == slots'[..|slots|][..j + 1];
    assert slots'[j + 1] == slots'[..|slots|][j + 1];
    assert hesCols'[j] == hesCols'[..|hesCols|][j] && hhCols'[j] == hhCols'[..|hhCols|][j];
  }

  /** One more Arnoldi column on top of m steps makes m + 1 steps. */
  lemma PrefixGrows(k: Kernels, orthog: Orthog, rightPre: bool, slots: seq<Slot>, slot: Slot,
                    hesCols: seq<seq<real>>, hesCol: seq<real>,
                    hhCols: seq<seq<real>>, hhCol: seq<real>, cs: seq<real>, sn: seq<real>)
    requires k.Valid() && |cs| == |hesCols| + 1 && |sn| == |hesCols| + 1
    requires ArnoldiPrefix(k, orthog, rightPre, slots, hesCols, hhCols, cs[..|hesCols|], sn[..|hesCols|])
    requires slot.Filled? && |hesCol| == |slots| + 1 && |hhCol| == |slots| + 1
    requires ArnoldiColumn(k, orthog, rightPre, SlotVectors(slots), slot.v, hesCol, hhCol, cs, sn)
    ensures ArnoldiPrefix(k, orthog, rightPre, slots + [slot], hesCols + [hesCol], hhCols + [hhCol], cs, sn)
  {
    var m := |hesCols|;
    var slots', hesCols', hhCols' := slots + [slot], hesCols + [hesCol], hhCols + [hhCol];
    assert slots'[..m + 1] == slots && hesCols'[..m] == hesCols && hhCols'[..m] == hhCols;
    forall j | 0 <= j < m + 1
      ensures StepColumn(k, orthog, rightPre, slots', hesCols', hhCols', cs, sn, j)
    {
      if j < m {
        assert StepColumn(k, orthog, rightPre, slots, hesCols, hhCols, cs[..m], sn[..m], j);
        ColumnKept(k, orthog, rightPre, slots, slots', hesCols, hesCols', hhCols, hhCols',
                   cs[..m], sn[..m], j);
        assert cs[..j + 1] == cs[..m][..j + 1] && sn[..j + 1] == sn[..m][..j + 1];
      } else {
        assert slots'[m + 1] == slot && hesCols'[m] == hesCol && hhCols'[m] == hhCol;
        assert cs[..m + 1] == cs && sn[..m + 1] == sn;
      }
    }
    assert forall i :: 0 <= i < |slots'| ==> slots'[i].Filled?;
  }

  /**
    The rotation GMRESUpdateHessenberg computes for diagonal entry h, sub-diagonal entry h1
    and RS(it) = r, with t = sqrt(h^2 + h1^2): none when h and h1 are both zero (then t is
    zero and the source divides 0 by 0); otherwise the rotation (h/t, h1/t) with the
    rotated diagonal and residual pair, which satisfy IsGivensUpdate.
   */
  function PlaneRotation(k: Kernels, h: real, h1: real, r: real): (o: Option<GivensUpdate>)
    requires k.Valid()
    ensures o.None? <==> h == 0.0 && h1 == 0.0
    ensures o.Some? ==> IsGivensUpdate(h, h1, r, o.value)
  {
    if h == 0.0 && h1 == 0.0 then None
    else
      PairRoot(k, h, h1);
      Some(GivensApply(h, h1, k.sqrt(h * h + h1 * h1), r))
  }

  /**
    The slot table of a freshly set-up context: `total` slots of which the first
    `firstBatch` hold the vectors of the first batch, and the batch record [firstBatch].
   */
  method NewSlotTable(total: nat, firstBatch: nat, n: nat) returns (slots: array<Slot>, batches: array<int>)
    requires 1 <= firstBatch <= total
    ensures fresh(slots) && fresh(batches)
    ensures slots.Length == total && batches.Length == total && batches[0] == firstBatch
    ensures Total(batches[..1]) == firstBatch
    ensures forall i :: 0 <= i < total ==> slots[i] == if i < firstBatch then Filled(Zeros(n)) else Empty
  {
    slots := new Slot[total](_ => Empty);
    batches := new int[total];
    batches[0] := firstBatch;
    var zero := Zeros(n);
    var k := 0;
    while k < firstBatch
      modifies slots
      invariant 0 <= k <= firstBatch
      invariant forall i :: 0 <= i < k ==> slots[i] == Filled(zero)
      invariant forall i :: k <= i < total ==> slots[i] == Empty
    {
      slots[k] := Filled(zero);
      k := k + 1;
    }
    assert batches[..1] == [] + [firstBatch];
    TotalAppend([], firstBatch);
  }

  /** The five regions of the work area for restart length maxK, each a fresh array. */
  method NewWorkArea(maxK: nat) returns (hh: array2<real>, hes: array2<real>, rs: array<real>,
                                         cc: array<real>, ss: array<real>)
    ensures fresh(hh) && fresh(hes) && fresh(rs) && fresh(cc) && fresh(ss)
    ensures hh.Length0 == maxK + 2 && hh.Length1 == maxK + 1
    ensures hes.Length0 == maxK + 1 && hes.Length1 == maxK + 1
    ensures rs.Length == maxK + 2 && cc.Length == maxK + 1 && ss.Length == maxK + 1
    ensures rs != cc && rs != ss && cc != ss && hh != hes
  {
    hh := new real[maxK + 2, maxK + 1];
    hes := new real[maxK + 1, maxK + 1];
    rs := new real[maxK + 2];
    cc := new real[maxK + 1];
    ss := new real[maxK + 1];
  }

  /** One more step of the rotation loop: row j and j+1 of the column become the rotated pair. */
  lemma NextRotation(col: seq<real>, cs: seq<real>, sn: seq<real>, j: nat, c: real, s: real)
    requires j + 1 < |col| && j < |cs| && j < |sn| && cs[j] == c && sn[j] == s
    ensures var prev := ApplyRotations(col, cs, sn, j);
      ApplyRotations(col, cs, sn, j + 1) == Rotate(prev, c, s, j)
  {
  }

  /**
    g(0..m) is the right-hand side (res0, 0, ..., 0) rotated by cs(0..m-1), sn(0..m-1),
    which are unit rotations.
   */
  ghost predicate RotatedPrefix(res0: real, m: nat, g: seq<real>, cs: seq<real>, sn: seq<real>)
  {
    && m < |g| && m <= |cs| && m <= |sn|
    && g[..m + 1] == RotatedRhs(res0, cs[..m], sn[..m])
    && forall j :: 0 <= j < m ==> Unit(cs[j], sn[j])
  }

  /** Before any rotation the right-hand side is (res0). */
  lemma RotatedStart(res0: real, g: seq<real>, cs: seq<real>, sn: seq<real>)
    requires |g| > 0 && g[0] == res0
    ensures RotatedPrefix(res0, 0, g, cs, sn)
  {
    assert g[..1] == [res0];
  }

  /**
    One step of the cycle keeps RotatedPrefix: the earlier rotations are kept, the new one
    is a unit rotation, and it rotates the last entry of the right-hand side into a new one.
   */
  lemma RotatedPrefixStep(res0: real, m: nat, before: seq<real>, after: seq<real>,
                          cs0: seq<real>, cs1: seq<real>, sn0: seq<real>, sn1: seq<real>)
    requires RotatedPrefix(res0, m, before, cs0, sn0)
    requires m + 1 < |after| && m < |cs1| && m < |sn1|
    requires cs1[..m] == cs0[..m] && sn1[..m] == sn0[..m] && Unit(cs1[m], sn1[m])
    requires after[..m + 2] == RotateLast(before[..m + 1], cs1[m], sn1[m])
    ensures RotatedPrefix(res0, m + 1, after, cs1, sn1)
  {
    RotatedRhsExtend(res0, cs0[..m], sn0[..m], cs1[m], sn1[m]);
    assert cs1[..m + 1] == cs0[..m] + [cs1[m]];
    assert sn1[..m + 1] == sn0[..m] + [sn1[m]];
    forall j | 0 <= j < m
      ensures Unit(cs1[j], sn1[j])
    {
      assert cs1[j] == cs1[..m][j] == cs0[j];
      assert sn1[j] == sn1[..m][j] == sn0[j];
    }
  }

  /**
    RS after the new rotation: rows it and it+1 hold (c r, -s r) for the old RS(it) = r, and
    the rows above are kept, so the first it + 2 entries are RotateLast of the first it + 1.
   */
  lemma RotatedPair(before: seq<real>, after: seq<real>, it: nat, c: real, s: real)
    requires it + 1 < |before| == |after|
    requires after[it] == RotTop(c, before[it]) && after[it + 1] == RotNext(s, before[it])
    requires forall i :: 0 <= i < it ==> after[i] == before[i]
    ensures after[..it + 2] == RotateLast(before[..it + 1], c, s)
  {
    assert before[..it + 1][..it] == before[..it];
    assert before[..it + 1][it] == before[it];
    assert RotateLast(before[..it + 1], c, s) == before[..it] + [RotTop(c, before[it]), RotNext(s, before[it])];
  }

  /** The two entries a rotation changes, stated for the values held in rows r and r+1. */
  lemma RotateEntries(col: seq<real>, c: real, s: real, r: nat, a: real, b: real)
    requires r + 1 < |col| && col[r] == a && col[r + 1] == b
    ensures Rotate(col, c, s, r)[r] == c * a + s * b
    ensures Rotate(col, c, s, r)[r + 1] == c * b - s * a
  {
  }

  lemma SquarePos(x: real)
    requires x != 0.0
    ensures x * x > 0.0
  {
    if x < 0.0 {
      assert x * x == (-x) * (-x);
    }
  }

  /** x * x is never negative. */
  lemma SquareNonneg(x: real)
    ensures !(x * x < 0.0)
  {
    if x < 0.0 {
      assert x * x == (-x) * (-x);
    }
  }

  /** A column with a non-zero entry among h, h1 has a positive h^2 + h1^2. */
  lemma NonzeroPair(h: real, h1: real)
    requires h != 0.0 || h1 != 0.0
    ensures h * h + h1 * h1 > 0.0
  {
    SquareNonneg(h);
    SquareNonneg(h1);
    if h != 0.0 {
      SquarePos(h);
    } else {
      SquarePos(h1);
    }
  }

  /** For a column with a non-zero entry, t = sqrt(h^2 + h1^2) is positive with t^2 = h^2 + h1^2. */
  lemma PairRoot(k: Kernels, h: real, h1: real)
    requires k.Valid() && (h != 0.0 || h1 != 0.0)
    ensures k.sqrt(h * h + h1 * h1) > 0.0
    ensures k.sqrt(h * h + h1 * h1) * k.sqrt(h * h + h1 * h1) == h * h + h1 * h1
  {
    NonzeroPair(h, h1);
  }


  /** Rows 0 .. m-1 of a matrix, as a value. */
  ghost function Rows(h: array2<real>, m: nat): (rows: seq<seq<real>>)
    reads h
    requires m <= h.Length0
    ensures |rows| == m && forall r :: 0 <= r < m ==> rows[r] == Row(h, r)
  {
    seq(m, r requires 0 <= r < m reads h => Row(h, r))
  }
}
