/**
  Vectors of the solver's working space, as values of a fixed dimension, and the
  collaborators the Krylov engine consumes but does not implement: the linear operator,
  the preconditioner, the Euclidean norm and the square root used by the Givens update.
  It also holds the optional value both solvers use.
 */
module Vectors {

  type Vector = seq<real>

  /** A value that may be absent: a null pointer, or an operation with no result. */
  datatype Option<T> = None | Some(value: T)

  /** VecSet(0, v): the zero vector of dimension n. */
  function Zeros(n: nat): (z: Vector)
    ensures |z| == n
    ensures forall i :: 0 <= i < n ==> z[i] == 0.0
  {
    seq(n, i => 0.0)
  }

  /** VecScale(a, x): x scaled by a, entry by entry. */
  function Scale(a: real, x: Vector): (r: Vector)
    ensures |r| == |x|
    ensures forall i :: 0 <= i < |x| ==> r[i] == a * x[i]
  {
    seq(|x|, i requires 0 <= i < |x| => a * x[i])
  }

  /** VecAXPY(a, x, y): y + a x. */
  function Axpy(a: real, x: Vector, y: Vector): (r: Vector)
    requires |x| == |y|
    ensures |r| == |y|
    ensures forall i :: 0 <= i < |y| ==> r[i] == y[i] + a * x[i]
  {
    seq(|y|, i requires 0 <= i < |y| => y[i] + a * x[i])
  }

  ghost predicate AllOfDim(vs: seq<Vector>, n: nat)
  {
    forall j :: 0 <= j < |vs| ==> |vs[j]| == n
  }

  /** The combination coef[0] vs[0] + ... + coef[m-1] vs[m-1] of the first m basis vectors. */
  function LinComb(vs: seq<Vector>, coef: seq<real>, m: nat, n: nat): (r: Vector)
    requires m <= |vs| && m <= |coef|
    requires AllOfDim(vs, n)
    ensures |r| == n
    decreases m
  {
    if m == 0 then Zeros(n)
    else Axpy(coef[m - 1], vs[m - 1], LinComb(vs, coef, m - 1, n))
  }

  /** The combination reads only the first m coefficients. */
  lemma {:induction false} LinCombPrefix(vs: seq<Vector>, c1: seq<real>, c2: seq<real>, m: nat, n: nat)
    requires m <= |vs| && m <= |c1| && m <= |c2|
    requires AllOfDim(vs, n)
    requires forall j :: 0 <= j < m ==> c1[j] == c2[j]
    ensures LinComb(vs, c1, m, n) == LinComb(vs, c2, m, n)
  {
    if m > 0 {
      LinCombPrefix(vs, c1, c2, m - 1, n);
    }
  }

  /**
    The external operations the engine calls. `op` is the linear operator A (MatMult),
    `pc` the preconditioner B^-1 (PCApply), `norm` the Euclidean norm (VecNorm) and `sqrt`
    the square root of the C library, of which the engine only takes roots of positive
    numbers. Only the facts the engine relies on are required of them.
   */
  datatype Kernels = Kernels(
    op: Vector -> Vector,
    pc: Vector -> Vector,
    norm: Vector -> real,
    sqrt: real -> real)
  {
    ghost predicate Valid()
    {
      && (forall v :: |op(v)| == |v|)
      && (forall v :: |pc(v)| == |v|)
      && (forall v :: norm(v) >= 0.0)
      && (forall x :: x > 0.0 ==> sqrt(x) > 0.0 && sqrt(x) * sqrt(x) == x)
    }
  }
}
