/**
  The value-level rules of the nonlinear-solver context: problem classes and the calls
  each admits, error kinds, the PETSC_DEFAULT convention of the tolerance setter, the
  order of the checks SNESSetUp makes, the trust-region step-scaling rule, and the
  monitor-destroy calls SNESDestroy makes.
 */
module SnesRules {
  import opened Vectors

  /** Opaque identity of a user object: a vector, a matrix, a routine or a context. */
  type Handle = nat

  /** SNESProblemType: the two problem classes SNESCreate accepts, and any other value. */
  datatype ProblemType = NonlinearEquations | UnconstrainedMinimization | OtherType(code: int)

  /** The error class an operation raises (SETERRQ). */
  datatype ErrorKind =
    | ArgWrong        // PETSC_ERR_ARG_WRONG: the call is for the other problem class
    | ArgOutOfRange   // PETSC_ERR_ARG_OUTOFRANGE
    | ArgWrongState   // PETSC_ERR_ARG_WRONGSTATE: something must be set first
    | ArgIdentical    // PETSC_ERR_ARG_IDN: two arguments must differ
    | ArgBadPointer   // PETSC_ERR_ARG_BADPTR: a required pointer is null
    | Unsupported     // PETSC_ERR_SUP
    | Unspecified     // SETERRQ(1, ...)

  /** What a state-changing operation returns: 0, or an error. */
  datatype Outcome = Success | Failure(kind: ErrorKind)

  /** What a query returns: the values it writes through its out-pointers, or an error. */
  datatype Result<T> = Value(value: T) | Error(kind: ErrorKind)

  /** PETSC_DEFAULT: an argument of SNESSetTolerances that leaves its field as it is. */
  const PetscDefault: int := -2

  /** SNES_CONVERGED_ITERATING: the reason of a context that has not stopped. */
  const ConvergedIterating: int := 0

  /** MAXSNESMONITORS: the capacity of the monitor registry. */
  const MaxMonitors: nat := 5

  /** The calls guarded by the problem class: those for equations and those for minimization. */
  predicate Admits(cls: ProblemType, forEquations: bool)
  {
    if forEquations then cls == NonlinearEquations else cls == UnconstrainedMinimization
  }

  /** The class guard of the guarded setters and getters: ArgWrong for the other class. */
  function Guard(cls: ProblemType, forEquations: bool): (o: Outcome)
    ensures o == Success <==> Admits(cls, forEquations)
    ensures o != Success ==> o == Failure(ArgWrong)
  {
    if forEquations && cls != NonlinearEquations then Failure(ArgWrong)
    else if !forEquations && cls != UnconstrainedMinimization then Failure(ArgWrong)
    else Success
  }

  /** A call guarded for one class is refused for the other: no class admits both kinds. */
  lemma GuardsExclusive(cls: ProblemType)
    ensures Guard(cls, true) == Success ==> Guard(cls, false) == Failure(ArgWrong)
    ensures cls.OtherType? ==> Guard(cls, true) == Failure(ArgWrong) && Guard(cls, false) == Failure(ArgWrong)
  {
  }

  // ---------------------------------------------------------------------------------
  // Tolerances
  // ---------------------------------------------------------------------------------

  /** The convergence parameters SNESSetTolerances writes and SNESGetTolerances reads. */
  datatype Tolerances = Tolerances(atol: real, rtol: real, stol: real, maxIts: int, maxFuncs: int)

  /** An argument of SNESSetTolerances replaces its field unless it equals PETSC_DEFAULT. */
  function Pick(arg: real, current: real): real
  {
    if arg != PetscDefault as real then arg else current
  }

  /** The same rule for the integer arguments. */
  function PickInt(arg: int, current: int): int
  {
    if arg != PetscDefault then arg else current
  }

  /** SNESSetTolerances on the parameters t: each argument replaces its field unless it is PETSC_DEFAULT. */
  function SetTolerances(t: Tolerances, atol: real, rtol: real, stol: real, maxIt: int, maxF: int): Tolerances
  {
    Tolerances(Pick(atol, t.atol), Pick(rtol, t.rtol), Pick(stol, t.stol),
               PickInt(maxIt, t.maxIts), PickInt(maxF, t.maxFuncs))
  }

  /**
    Setting then reading back: a field whose argument was not PETSC_DEFAULT holds exactly
    that argument, and every other field is the one it had before.
   */
  lemma SetTolerancesRoundTrip(t: Tolerances, atol: real, rtol: real, stol: real, maxIt: int, maxF: int)
    ensures var u := SetTolerances(t, atol, rtol, stol, maxIt, maxF);
      && u.atol == (if atol == -2.0 then t.atol else atol)
      && u.rtol == (if rtol == -2.0 then t.rtol else rtol)
      && u.stol == (if stol == -2.0 then t.stol else stol)
      && u.maxIts == (if maxIt == -2 then t.maxIts else maxIt)
      && u.maxFuncs == (if maxF == -2 then t.maxFuncs else maxF)
  {
  }

  /** Passing PETSC_DEFAULT everywhere changes nothing. */
  lemma SetTolerancesAllDefault(t: Tolerances)
    ensures SetTolerances(t, -2.0, -2.0, -2.0, -2, -2) == t
  {
  }

  /** Setting the same arguments twice is the same as setting them once. */
  lemma SetTolerancesIdempotent(t: Tolerances, atol: real, rtol: real, stol: real, maxIt: int, maxF: int)
    ensures var u := SetTolerances(t, atol, rtol, stol, maxIt, maxF);
      SetTolerances(u, atol, rtol, stol, maxIt, maxF) == u
  {
  }

  // ---------------------------------------------------------------------------------
  // Set-up validation
  // ---------------------------------------------------------------------------------

  /**
    What SNESSetUp finds missing, in the order it checks, once the solution vector has
    been recorded: for equations the function vector, the function routine, the Jacobian
    matrix, then that the function vector is not the solution vector; for minimization the
    gradient vector, the gradient routine, the minimization routine and the Hessian matrix;
    any other class is out of range.
   */
  function SetUpCheck(cls: ProblemType, vecFunc: Option<Handle>, computeFunction: Option<Handle>,
                      computeUmFunction: Option<Handle>, jacobian: Option<Handle>, vecSol: Handle): (e: Option<ErrorKind>)
    ensures e.Some? && cls.OtherType? ==> e.value == ArgOutOfRange
    ensures e.Some? && !cls.OtherType? ==> e.value == ArgWrongState || e.value == ArgIdentical
  {
    match cls
    case NonlinearEquations =>
      if vecFunc.None? then Some(ArgWrongState)
      else if computeFunction.None? then Some(ArgWrongState)
      else if jacobian.None? then Some(ArgWrongState)
      else if vecFunc == Some(vecSol) then Some(ArgIdentical)
      else None
    case UnconstrainedMinimization =>
      if vecFunc.None? then Some(ArgWrongState)
      else if computeFunction.None? then Some(ArgWrongState)
      else if computeUmFunction.None? then Some(ArgWrongState)
      else if jacobian.None? then Some(ArgWrongState)
      else None
    case OtherType(_) => Some(ArgOutOfRange)
  }

  /** Exactly when set-up passes its checks, both directions, stated per class. */
  lemma SetUpCheckPasses(cls: ProblemType, vecFunc: Option<Handle>, computeFunction: Option<Handle>,
                         computeUmFunction: Option<Handle>, jacobian: Option<Handle>, vecSol: Handle)
    ensures SetUpCheck(cls, vecFunc, computeFunction, computeUmFunction, jacobian, vecSol).None? <==>
      || (cls == NonlinearEquations && vecFunc.Some? && computeFunction.Some? && jacobian.Some?
          && vecFunc.value != vecSol)
      || (cls == UnconstrainedMinimization && vecFunc.Some? && computeFunction.Some?
          && computeUmFunction.Some? && jacobian.Some?)
  {
  }

  /** The function vector may equal the solution vector under minimization, never under equations. */
  lemma SetUpRejectsAliasOnlyForEquations(cls: ProblemType, v: Handle, f: Handle, um: Option<Handle>, j: Handle)
    requires !cls.OtherType?
    ensures SetUpCheck(cls, Some(v), Some(f), um, Some(j), v) == Some(ArgIdentical) <==> cls == NonlinearEquations
  {
  }

  // ---------------------------------------------------------------------------------
  // Trust-region step scaling
  // ---------------------------------------------------------------------------------

  /**
    SNESScaleStep_Private given the norm of the step y, the trust-region size delta and
    the function norm fnorm: the factor y is scaled by (none when it is kept), the
    predicted function norm gpnorm and the step length ynorm.
   */
  datatype StepScaling = StepScaling(factor: Option<real>, gpnorm: real, ynorm: real)

  function ScaleRule(norm: real, delta: real, fnorm: real): (s: StepScaling)
    requires delta >= 0.0
  {
    if norm > delta then
      var ratio := delta / norm;
      StepScaling(Some(ratio), (1.0 - ratio) * fnorm, delta)
    else
      StepScaling(None, 0.0, norm)
  }

  /**
    The step never leaves the trust region and is no longer than it was: ynorm <= delta
    and ynorm <= |y|, the step is scaled exactly when it was longer than delta, and then
    by a factor below 1 that is zero exactly when delta is.
   */
  lemma ScaleRuleBounds(norm: real, delta: real, fnorm: real)
    requires delta >= 0.0
    ensures var s := ScaleRule(norm, delta, fnorm);
      && s.ynorm <= delta && s.ynorm <= norm
      && (s.factor.Some? <==> norm > delta)
      && (s.factor.Some? ==> 0.0 <= s.factor.value < 1.0 && s.factor.value * norm == delta)
      && (s.factor.Some? ==> (s.factor.value == 0.0 <==> delta == 0.0))
  {
    if norm > delta {
      var ratio := delta / norm;
      assert ratio * norm == delta;
      if delta > 0.0 {
        DivLess(delta, norm);
      }
    }
  }

  /**
    The predicted norm: zero inside the trust region; outside it lies between 0 and fnorm
    when fnorm >= 0, and is zero only when fnorm is.
   */
  lemma ScaleRulePrediction(norm: real, delta: real, fnorm: real)
    requires delta >= 0.0 && fnorm >= 0.0
    ensures var s := ScaleRule(norm, delta, fnorm);
      && 0.0 <= s.gpnorm <= fnorm
      && (s.gpnorm == 0.0 <==> norm <= delta || fnorm == 0.0)
  {
    if norm > delta {
      if delta > 0.0 {
        DivLess(delta, norm);
      }
      var ratio := delta / norm;
      ScaleFactorBounds(1.0 - ratio, fnorm);
    }
  }

  /** 0 < a / b < 1 for 0 < a < b. */
  lemma DivLess(a: real, b: real)
    requires 0.0 < a < b
    ensures 0.0 < a / b < 1.0
  {
    var rest := (b - a) / b;
    assert rest > 0.0;
    assert a / b + rest == 1.0;
  }

  /** c f lies in [0, f] for c in (0, 1] and f >= 0, and is zero only when f is. */
  lemma ScaleFactorBounds(c: real, f: real)
    requires 0.0 < c <= 1.0 && f >= 0.0
    ensures 0.0 <= c * f <= f
    ensures c * f == 0.0 <==> f == 0.0
  {
    assert c * f <= 1.0 * f;
  }

  // ---------------------------------------------------------------------------------
  // Monitors
  // ---------------------------------------------------------------------------------

  /** One registered monitor: the routine, its destroy routine and its context. */
  datatype Monitor = Monitor(routine: Handle, destroy: Option<Handle>, context: Option<Handle>)

  /** A destroy routine called on a monitor context. */
  datatype DestroyCall = DestroyCall(routine: Handle, context: Option<Handle>)

  /**
    The calls the last loop of SNESDestroy makes, in order: for each registered monitor
    that has a destroy routine, that routine on the monitor's context.
   */
  function DestroyCalls(ms: seq<Monitor>): seq<DestroyCall>
  {
    if ms == [] then []
    else
      var last := ms[|ms| - 1];
      DestroyCalls(ms[..|ms| - 1]) + (if last.destroy.Some? then [DestroyCall(last.destroy.value, last.context)] else [])
  }

  /**
    Every call is a monitor's own destroy routine on its own context, one call per monitor
    that has one and none for the others, in registration order: call j belongs to a
    monitor at an index no smaller than j.
   */
  lemma {:induction false} DestroyCallsSound(ms: seq<Monitor>)
    ensures |DestroyCalls(ms)| <= |ms|
    ensures forall j :: 0 <= j < |DestroyCalls(ms)| ==>
      exists i :: j <= i < |ms| && ms[i].destroy == Some(DestroyCalls(ms)[j].routine)
                 && ms[i].context == DestroyCalls(ms)[j].context
  {
    if ms != [] {
      var init := ms[..|ms| - 1];
      DestroyCallsSound(init);
      var calls := DestroyCalls(ms);
      forall j | 0 <= j < |calls|
        ensures exists i :: j <= i < |ms| && ms[i].destroy == Some(calls[j].routine)
                            && ms[i].context == calls[j].context
      {
        if j < |DestroyCalls(init)| {
          var i :| j <= i < |init| && init[i].destroy == Some(DestroyCalls(init)[j].routine)
                   && init[i].context == DestroyCalls(init)[j].context;
          assert ms[i] == init[i];
        } else {
          assert ms[|ms| - 1].destroy == Some(calls[j].routine);
        }
      }
    }
  }

  /** Every monitor with a destroy routine gets exactly one call: the count matches. */
  lemma {:induction false} DestroyCallsCount(ms: seq<Monitor>)
    ensures |DestroyCalls(ms)| == |set i | 0 <= i < |ms| && ms[i].destroy.Some?|
  {
    if ms != [] {
      var init := ms[..|ms| - 1];
      DestroyCallsCount(init);
      var before := set i | 0 <= i < |init| && init[i].destroy.Some?;
      var now := set i | 0 <= i < |ms| && ms[i].destroy.Some?;
      if ms[|ms| - 1].destroy.Some? {
        assert now == before + {|ms| - 1};
      } else {
        assert now == before;
      }
    }
  }
}
