/**
  The nonlinear-solver context (SNES): the configuration and state the interface routines
  read and write. User routines, vectors, matrices and contexts are opaque handles; a
  routine is "called" by the model only where the source's effect of the call on the
  context is visible (the function counter, the monitor destroy loop).
 */
module Snes {
  import opened Vectors
  import opened SnesRules

  /** What the constructor of a registered solver type installs in the context. */
  datatype Implementation = Implementation(solve: Handle, setup: Option<Handle>, destroy: Handle)

  /** SNESGetJacobian: the matrix, the preconditioning matrix, the context and the routine. */
  datatype JacobianSetting = JacobianSetting(
    matrix: Option<Handle>, preconditioner: Option<Handle>, context: Option<Handle>, routine: Option<Handle>)

  /** SNESGetFunction and SNESGetGradient: the vector, the context and the routine. */
  datatype FunctionSetting = FunctionSetting(vector: Option<Handle>, context: Option<Handle>, routine: Option<Handle>)

  /** SNESGetConvergenceHistory: the residual array, the iteration array and the entries used. */
  datatype HistorySetting = HistorySetting(residuals: Option<Handle>, iterations: Option<Handle>, length: int)

  class SnesContext {
    const methodClass: ProblemType
    const sles: Handle
    const monitors: array<Monitor>
    var numberMonitors: nat

    var maxIts: int
    var maxFuncs: int
    var norm: real
    var rtol: real
    var atol: real
    var xtol: real
    var ttol: real
    var trunctol: real
    var deltatol: real
    var fmin: real
    var fc: real

    var nfuncs: int
    var nfailures: int
    var linearIts: int

    var computeFunction: Option<Handle>
    var vecFunc: Option<Handle>
    var vecFuncAlways: Option<Handle>
    var funP: Option<Handle>
    var computeUmFunction: Option<Handle>
    var umfunP: Option<Handle>
    var computeJacobian: Option<Handle>
    var jacP: Option<Handle>
    var jacobian: Option<Handle>
    var jacobianPre: Option<Handle>
    var mfshell: Option<Handle>
    var vecSol: Option<Handle>
    var vecSolAlways: Option<Handle>

    var converged: Option<Handle>
    var cnvP: Option<Handle>
    var reason: int
    var convHist: Option<Handle>
    var convHistIts: Option<Handle>
    var convHistLen: int
    var convHistMax: int
    var convHistReset: bool

    var typeName: Option<string>
    var solve: Option<Handle>
    var setup: Option<Handle>
    var destroy: Option<Handle>
    var setMethodCalled: bool
    var setupCalled: bool
    var kspEwconv: bool

    var refct: int
    var destroyed: bool

    /** The monitor registry has its fixed capacity and the class is one SNESCreate accepts. */
    ghost predicate Valid()
      reads this`numberMonitors
    {
      monitors.Length == MaxMonitors && numberMonitors <= MaxMonitors && !methodClass.OtherType?
    }

    /** The registered monitors, in registration order. */
    ghost function Monitors(): seq<Monitor>
      reads this`numberMonitors, monitors
      requires numberMonitors <= monitors.Length
    {
      monitors[..numberMonitors]
    }

    /**
      The context SNESCreate returns for a problem class it accepts: at most 50 iterations
      and 10000 function evaluations, rtol = xtol = 1e-8, atol = 1e-10 for minimization and
      1e-50 for equations, ttol = 0, deltatol = 1e-12, fmin = -1e30, every counter zero, no
      monitor, no history and reset on, reason SNES_CONVERGED_ITERATING, one reference.
      The fields SNESCreate does not assign start null or zero.
     */
    constructor (cls: ProblemType, sles: Handle)
      requires cls == NonlinearEquations || cls == UnconstrainedMinimization
      ensures Valid() && methodClass == cls && this.sles == sles
      ensures maxIts == 50 && maxFuncs == 10000 && norm == 0.0
      ensures rtol == 1.0e-8 && ttol == 0.0 && xtol == 1.0e-8 && trunctol == 1.0e-12
      ensures atol == if cls == UnconstrainedMinimization then 1.0e-10 else 1.0e-50
      ensures nfuncs == 0 && nfailures == 0 && linearIts == 0 && numberMonitors == 0
      ensures computeUmFunction.None? && umfunP.None? && fc == 0.0
      ensures deltatol == 1.0e-12 && fmin == -1.0e30
      ensures !setMethodCalled && !setupCalled && !kspEwconv
      ensures convHistLen == 0 && convHistMax == 0 && convHist.None? && convHistIts.None? && convHistReset
      ensures reason == ConvergedIterating
      ensures computeFunction.None? && vecFunc.None? && computeJacobian.None? && jacobian.None?
      ensures solve.None? && setup.None? && destroy.None? && typeName.None? && mfshell.None?
      ensures refct == 1 && !destroyed
      ensures fresh(monitors)
    {
      methodClass := cls;
      this.sles := sles;
      monitors := new Monitor[MaxMonitors](_ => Monitor(0, None, None));
      numberMonitors := 0;
      maxIts := 50;
      maxFuncs := 10000;
      norm := 0.0;
      if cls == UnconstrainedMinimization {
        rtol := 1.0e-8;
        ttol := 0.0;
        atol := 1.0e-10;
      } else {
        rtol := 1.0e-8;
        ttol := 0.0;
        atol := 1.0e-50;
      }
      xtol := 1.0e-8;
      trunctol := 1.0e-12;
      nfuncs := 0;
      nfailures := 0;
      linearIts := 0;
      computeUmFunction := None;
      umfunP := None;
      fc := 0.0;
      deltatol := 1.0e-12;
      fmin := -1.0e30;
      setMethodCalled := false;
      setupCalled := false;
      kspEwconv := false;
      convHistLen := 0;
      convHistMax := 0;
      convHist := None;
      convHistIts := None;
      convHistReset := true;
      reason := ConvergedIterating;
      computeFunction, vecFunc, vecFuncAlways, funP := None, None, None, None;
      computeJacobian, jacP, jacobian, jacobianPre := None, None, None, None;
      mfshell, vecSol, vecSolAlways := None, None, None;
      converged, cnvP := None, None;
      typeName, solve, setup, destroy := None, None, None, None;
      refct := 1;
      destroyed := false;
    }

    // -------------------------------------------------------------------------------
    // Function, gradient, minimization function, Jacobian and Hessian
    // -------------------------------------------------------------------------------

    /** SNESSetFunction: for equations only; records the routine, the vector r and the context. */
    method SetFunction(r: Handle, func: Option<Handle>, ctx: Option<Handle>) returns (o: Outcome)
      modifies this`computeFunction, this`vecFunc, this`vecFuncAlways, this`funP
      ensures o == Guard(methodClass, true)
      ensures o == Success ==> GetFunction() == Value(FunctionSetting(Some(r), ctx, func)) && vecFunc == Some(r)
      ensures o != Success ==> unchanged(this)
    {
      o := Guard(methodClass, true);
      if o != Success {
        return;
      }
      computeFunction := func;
      vecFunc, vecFuncAlways := Some(r), Some(r);
      funP := ctx;
    }

    /** SNESGetFunction: for equations only; the vector, the context and the routine. */
    function GetFunction(): (r: Result<FunctionSetting>)
      reads this
      ensures r.Error? <==> methodClass != NonlinearEquations
      ensures r.Error? ==> r.kind == ArgWrong
    {
      if methodClass != NonlinearEquations then Error(ArgWrong)
      else Value(FunctionSetting(vecFuncAlways, funP, computeFunction))
    }

    /**
      SNESComputeFunction: for equations only, where the routine must have been set; each
      evaluation adds one to nfuncs.
     */
    method ComputeFunction() returns (o: Outcome)
      requires methodClass == NonlinearEquations ==> computeFunction.Some?
      modifies this`nfuncs
      ensures o == Guard(methodClass, true)
      ensures nfuncs == if o == Success then old(nfuncs) + 1 else old(nfuncs)
    {
      o := Guard(methodClass, true);
      if o != Success {
        return;
      }
      nfuncs := nfuncs + 1;
    }

    /** SNESSetMinimizationFunction: for minimization only; records the routine and the context. */
    method SetMinimizationFunction(func: Option<Handle>, ctx: Option<Handle>) returns (o: Outcome)
      modifies this`computeUmFunction, this`umfunP
      ensures o == Guard(methodClass, false)
      ensures o == Success ==> computeUmFunction == func && umfunP == ctx
      ensures o != Success ==> unchanged(this)
    {
      o := Guard(methodClass, false);
      if o != Success {
        return;
      }
      computeUmFunction := func;
      umfunP := ctx;
    }

    /** SNESComputeMinimizationFunction: for minimization only; each evaluation adds one to nfuncs. */
    method ComputeMinimizationFunction() returns (o: Outcome)
      requires methodClass == UnconstrainedMinimization ==> computeUmFunction.Some?
      modifies this`nfuncs
      ensures o == Guard(methodClass, false)
      ensures nfuncs == if o == Success then old(nfuncs) + 1 else old(nfuncs)
    {
      o := Guard(methodClass, false);
      if o != Success {
        return;
      }
      nfuncs := nfuncs + 1;
    }

    /** SNESGetMinimizationFunction: for minimization only; the last value fc and the context. */
    function GetMinimizationFunction(): (r: Result<(real, Option<Handle>)>)
      reads this
      ensures r.Error? <==> methodClass != UnconstrainedMinimization
      ensures r.Error? ==> r.kind == ArgWrong
    {
      if methodClass != UnconstrainedMinimization then Error(ArgWrong) else Value((fc, umfunP))
    }

    /** SNESSetGradient: for minimization only; the gradient takes the place of the function. */
    method SetGradient(r: Handle, func: Option<Handle>, ctx: Option<Handle>) returns (o: Outcome)
      modifies this`computeFunction, this`vecFunc, this`vecFuncAlways, this`funP
      ensures o == Guard(methodClass, false)
      ensures o == Success ==> GetGradient() == Value(FunctionSetting(Some(r), ctx, None)) && vecFunc == Some(r)
      ensures o == Success ==> computeFunction == func
      ensures o != Success ==> unchanged(this)
    {
      o := Guard(methodClass, false);
      if o != Success {
        return;
      }
      computeFunction := func;
      vecFunc, vecFuncAlways := Some(r), Some(r);
      funP := ctx;
    }

    /** SNESGetGradient: for minimization only; the vector and the context (no routine). */
    function GetGradient(): (r: Result<FunctionSetting>)
      reads this
      ensures r.Error? <==> methodClass != UnconstrainedMinimization
      ensures r.Error? ==> r.kind == ArgWrong
      ensures r.Value? ==> r.value.routine.None?
    {
      if methodClass != UnconstrainedMinimization then Error(ArgWrong)
      else Value(FunctionSetting(vecFuncAlways, funP, None))
    }

    /**
      SNESComputeGradient: for minimization only. It calls the gradient routine and, unlike
      the function and minimization-function evaluations, does not count it: nothing in the
      context changes.
     */
    method ComputeGradient() returns (o: Outcome)
      requires methodClass == UnconstrainedMinimization ==> computeFunction.Some?
      ensures o == Guard(methodClass, false)
    {
      o := Guard(methodClass, false);
    }

    /**
      SNESComputeJacobian (forEquations) and SNESComputeHessian: guarded by the class; the
      user routine is called only when one is set, and nothing in the context changes.
     */
    method ComputeJacobian(forEquations: bool) returns (o: Outcome, called: bool)
      ensures o == Guard(methodClass, forEquations)
      ensures called <==> o == Success && computeJacobian.Some?
    {
      o := Guard(methodClass, forEquations);
      if o != Success {
        return o, false;
      }
      if computeJacobian.None? {
        return Success, false;
      }
      called := true;
    }

    /**
      SNESSetJacobian (forEquations) and SNESSetHessian: guarded by the class; record the
      routine, its context and the two matrices. SNESSetHessian validates both matrices
      before anything else, so a missing one is a bad pointer there whatever the class;
      SNESSetJacobian accepts missing matrices.
     */
    method SetJacobian(forEquations: bool, a: Option<Handle>, b: Option<Handle>,
                       func: Option<Handle>, ctx: Option<Handle>) returns (o: Outcome)
      modifies this`computeJacobian, this`jacP, this`jacobian, this`jacobianPre
      ensures o == if !forEquations && (a.None? || b.None?) then Failure(ArgBadPointer)
                   else Guard(methodClass, forEquations)
      ensures o == Success ==>
                && GetJacobian(forEquations) == Value(JacobianSetting(a, b, ctx, if forEquations then func else None))
                && jacobian == a && computeJacobian == func
      ensures o != Success ==> unchanged(this)
    {
      if !forEquations && (a.None? || b.None?) {
        return Failure(ArgBadPointer);
      }
      o := Guard(methodClass, forEquations);
      if o != Success {
        return;
      }
      computeJacobian := func;
      jacP := ctx;
      jacobian := a;
      jacobianPre := b;
    }

    /**
      SNESGetJacobian (forEquations) and SNESGetHessian: guarded by the class; the matrices,
      the context and, for the Jacobian only, the routine (SNESGetHessian returns none).
     */
    function GetJacobian(forEquations: bool): (r: Result<JacobianSetting>)
      reads this
      ensures r.Error? <==> !Admits(methodClass, forEquations)
      ensures r.Error? ==> r.kind == ArgWrong
      ensures r.Value? && !forEquations ==> r.value.routine.None?
    {
      if Guard(methodClass, forEquations) != Success then Error(ArgWrong)
      else Value(JacobianSetting(jacobian, jacobianPre, jacP, if forEquations then computeJacobian else None))
    }

    /**
      SNESGetFunctionNorm (forEquations) and SNESGetGradientNorm: the last norm, for the
      matching class only (the other class is a wrong-state error).
     */
    function GetNorm(forEquations: bool): (r: Result<real>)
      reads this`norm
      ensures r.Error? <==> !Admits(methodClass, forEquations)
      ensures r.Error? ==> r.kind == ArgWrongState
    {
      if Admits(methodClass, forEquations) then Value(norm) else Error(ArgWrongState)
    }

    // -------------------------------------------------------------------------------
    // Tolerances, monitors, convergence test and history
    // -------------------------------------------------------------------------------

    /** SNESGetTolerances: atol, rtol, stol (the field xtol), max_its, max_funcs. */
    function GetTolerances(): (t: Tolerances)
      reads this`atol, this`rtol, this`xtol, this`maxIts, this`maxFuncs
      ensures t.atol == atol && t.rtol == rtol && t.stol == xtol
      ensures t.maxIts == maxIts && t.maxFuncs == maxFuncs
    {
      Tolerances(atol, rtol, xtol, maxIts, maxFuncs)
    }

    /** SNESSetTolerances: each argument that is not PETSC_DEFAULT replaces its field. */
    method SetTolerances(atol: real, rtol: real, stol: real, maxIt: int, maxF: int)
      modifies this`atol, this`rtol, this`xtol, this`maxIts, this`maxFuncs
      ensures GetTolerances() == SnesRules.SetTolerances(old(GetTolerances()), atol, rtol, stol, maxIt, maxF)
    {
      if atol != PetscDefault as real {
        this.atol := atol;
      }
      if rtol != PetscDefault as real {
        this.rtol := rtol;
      }
      if stol != PetscDefault as real {
        xtol := stol;
      }
      if maxIt != PetscDefault {
        maxIts := maxIt;
      }
      if maxF != PetscDefault {
        maxFuncs := maxF;
      }
    }

    /** SNESSetTrustRegionTolerance: deltatol := tol. */
    method SetTrustRegionTolerance(tol: real)
      modifies this`deltatol
      ensures deltatol == tol
    {
      deltatol := tol;
    }

    /** SNESSetMinimizationFunctionTolerance: fmin := ftol, whatever the class. */
    method SetMinimizationFunctionTolerance(ftol: real)
      modifies this`fmin
      ensures fmin == ftol
    {
      fmin := ftol;
    }

    /**
      SNESSetMonitor: appends (routine, destroy routine, context) to the registry; with
      MAXSNESMONITORS monitors already registered it is out of range and nothing changes.
     */
    method SetMonitor(func: Handle, mctx: Option<Handle>, monitorDestroy: Option<Handle>) returns (o: Outcome)
      requires Valid()
      modifies this`numberMonitors, monitors
      ensures Valid()
      ensures o == Failure(ArgOutOfRange) <==> old(numberMonitors) == MaxMonitors
      ensures o == Success || o == Failure(ArgOutOfRange)
      ensures o == Success ==> Monitors() == old(Monitors()) + [Monitor(func, monitorDestroy, mctx)]
      ensures o != Success ==> Monitors() == old(Monitors())
    {
      if numberMonitors >= MaxMonitors {
        return Failure(ArgOutOfRange);
      }
      monitors[numberMonitors] := Monitor(func, monitorDestroy, mctx);
      numberMonitors := numberMonitors + 1;
      o := Success;
    }

    /** SNESClearMonitor: the registry becomes empty. */
    method ClearMonitor()
      requires Valid()
      modifies this`numberMonitors
      ensures Valid() && Monitors() == []
    {
      numberMonitors := 0;
    }

    /** SNESSetConvergenceTest: records the test routine and its context. */
    method SetConvergenceTest(func: Option<Handle>, cctx: Option<Handle>)
      modifies this`converged, this`cnvP
      ensures converged == func && cnvP == cctx
    {
      converged := func;
      cnvP := cctx;
    }

    /**
      SNESSetConvergenceHistory: records the arrays, their capacity na and the reset flag;
      a null residual array with na != 0 is a bad pointer and changes nothing.
     */
    method SetConvergenceHistory(a: Option<Handle>, its: Option<Handle>, na: int, reset: bool) returns (o: Outcome)
      modifies this`convHist, this`convHistIts, this`convHistMax, this`convHistReset
      ensures o == Success <==> na == 0 || a.Some?
      ensures o != Success ==> o == Failure(ArgBadPointer) && unchanged(this)
      ensures o == Success ==> convHist == a && convHistIts == its && convHistMax == na && convHistReset == reset
      ensures o == Success ==> GetConvergenceHistory() == HistorySetting(a, its, old(GetConvergenceHistory()).length)
    {
      if na != 0 && a.None? {
        return Failure(ArgBadPointer);
      }
      convHist := a;
      convHistIts := its;
      convHistMax := na;
      convHistReset := reset;
      o := Success;
    }

    /** SNESGetConvergenceHistory: the arrays and the number of entries used (not the capacity). */
    function GetConvergenceHistory(): (h: HistorySetting)
      reads this`convHist, this`convHistIts, this`convHistLen
      ensures h.residuals == convHist && h.iterations == convHistIts
      ensures h.length == convHistLen
    {
      HistorySetting(convHist, convHistIts, convHistLen)
    }

    // -------------------------------------------------------------------------------
    // Set-up, solve, type and destruction
    // -------------------------------------------------------------------------------

    /**
      The -snes_mf_operator option of SNESSetUp: a new matrix-free operator replaces the
      Jacobian (the preconditioning matrix stays); a class other than the two is unsupported.
     */
    method UseMatrixFreeOperator(shell: Handle) returns (o: Outcome)
      modifies this`mfshell, this`jacobian
      ensures mfshell == Some(shell) && jacobian == Some(shell)
      ensures o == Success <==> !methodClass.OtherType?
      ensures o != Success ==> o == Failure(Unsupported)
    {
      mfshell := Some(shell);
      jacobian := Some(shell);
      if methodClass.OtherType? {
        return Failure(Unsupported);
      }
      o := Success;
    }

    /**
      The -snes_mf option of SNESSetUp: a new matrix-free matrix becomes both the Jacobian
      (or Hessian) and its preconditioning matrix, computed by the matrix-free routine with
      the function context; a class other than the two is unsupported.
     */
    method UseMatrixFree(shell: Handle, mfRoutine: Handle) returns (o: Outcome)
      modifies this`mfshell, this`computeJacobian, this`jacP, this`jacobian, this`jacobianPre
      ensures mfshell == Some(shell)
      ensures o == Success <==> !methodClass.OtherType?
      ensures o != Success ==> o == Failure(Unsupported) && jacobian == old(jacobian)
      ensures o == Success ==> jacobian == Some(shell) && jacobianPre == Some(shell)
                               && computeJacobian == Some(mfRoutine) && jacP == funP
    {
      mfshell := Some(shell);
      if methodClass.OtherType? {
        return Failure(Unsupported);
      }
      o := SetJacobian(methodClass == NonlinearEquations, Some(shell), Some(shell), Some(mfRoutine), funP);
    }

    /**
      SNESSetUp(x): x becomes the solution vector first; then the matrix-free options
      apply; then the checks of SetUpCheck run on the resulting state. Only when all pass
      (and the type's set-up routine, if any, has run) is the context marked set up.
     */
    method SetUp(x: Handle, mfOperator: bool, mf: bool, operatorShell: Handle, shell: Handle, mfRoutine: Handle)
      returns (o: Outcome)
      modifies this`vecSol, this`vecSolAlways, this`mfshell, this`computeJacobian, this`jacP,
               this`jacobian, this`jacobianPre, this`setupCalled
      ensures vecSol == Some(x) && vecSolAlways == Some(x)
      ensures methodClass.OtherType? ==> o == Failure(if mfOperator || mf then Unsupported else ArgOutOfRange)
      ensures !methodClass.OtherType? ==>
                o == (match SetUpCheck(methodClass, vecFunc, computeFunction, computeUmFunction, jacobian, x)
                      case None => Success
                      case Some(e) => Failure(e))
      ensures !methodClass.OtherType? && mf ==> jacobian == Some(shell) && jacobianPre == Some(shell)
      ensures !methodClass.OtherType? && mfOperator && !mf ==> jacobian == Some(operatorShell)
      ensures !mfOperator && !mf ==> jacobian == old(jacobian)
      ensures setupCalled == (old(setupCalled) || o == Success)
    {
      vecSol, vecSolAlways := Some(x), Some(x);
      if mfOperator {
        o := UseMatrixFreeOperator(operatorShell);
        if o != Success {
          return;
        }
      }
      if mf {
        o := UseMatrixFree(shell, mfRoutine);
        if o != Success {
          return;
        }
      }
      var e := SetUpCheck(methodClass, vecFunc, computeFunction, computeUmFunction, jacobian, x);
      if e.Some? {
        return Failure(e.value);
      }
      setupCalled := true;
      o := Success;
    }

    /**
      SNESSolve(x), up to the call of the type's solve routine: with no type set it fails;
      set-up runs on the first solve (and its failure is returned), otherwise x just
      becomes the solution vector; the history length restarts at 0 when the reset flag is
      on; the function, linear-iteration and failure counters restart at 0.
     */
    method Solve(x: Handle, mfOperator: bool, mf: bool, operatorShell: Handle, shell: Handle, mfRoutine: Handle)
      returns (o: Outcome)
      modifies this`vecSol, this`vecSolAlways, this`mfshell, this`computeJacobian, this`jacP,
               this`jacobian, this`jacobianPre, this`setupCalled, this`convHistLen,
               this`nfuncs, this`linearIts, this`nfailures
      ensures solve.None? ==> o == Failure(Unspecified) && unchanged(this)
      ensures o == Success ==> && solve.Some? && setupCalled && vecSol == Some(x) && vecSolAlways == Some(x)
                               && nfuncs == 0 && linearIts == 0 && nfailures == 0
                               && convHistLen == if convHistReset then 0 else old(convHistLen)
      ensures o != Success ==> nfuncs == old(nfuncs) && convHistLen == old(convHistLen)
      ensures old(setupCalled) && solve.Some? ==> o == Success
    {
      if solve.None? {
        return Failure(Unspecified);
      }
      if !setupCalled {
        o := SetUp(x, mfOperator, mf, operatorShell, shell, mfRoutine);
        if o != Success {
          return;
        }
      } else {
        vecSol, vecSolAlways := Some(x), Some(x);
      }
      if convHistReset {
        convHistLen := 0;
      }
      nfuncs, linearIts, nfailures := 0, 0, 0;
      o := Success;
    }

    /**
      SNESSetType(t) with the registered types: nothing happens when the context already
      has type t. Otherwise, if set up, the current type's destroy routine runs first
      (`destroyedOld`), even when t then turns out to be unknown, which is an error. A
      known t installs its routines, records the name and marks the type as set. The
      set-up flag is left as it was.
     */
    method SetType(t: string, registry: map<string, Implementation>) returns (o: Outcome, destroyedOld: bool)
      requires setupCalled && typeName != Some(t) ==> destroy.Some?
      modifies this`solve, this`setup, this`destroy, this`typeName, this`setMethodCalled
      ensures destroyedOld <==> old(typeName) != Some(t) && setupCalled
      ensures old(typeName) == Some(t) ==> o == Success && unchanged(this)
      ensures old(typeName) != Some(t) ==> (o == Success <==> t in registry)
      ensures old(typeName) != Some(t) && t !in registry ==> o == Failure(Unspecified) && unchanged(this)
      ensures old(typeName) != Some(t) && t in registry ==>
                && typeName == Some(t) && setMethodCalled
                && solve == Some(registry[t].solve) && setup == registry[t].setup
                && destroy == Some(registry[t].destroy)
      ensures setupCalled == old(setupCalled)
    {
      if typeName == Some(t) {
        return Success, false;
      }
      destroyedOld := setupCalled;
      if t !in registry {
        return Failure(Unspecified), destroyedOld;
      }
      var impl := registry[t];
      solve, setup, destroy := Some(impl.solve), impl.setup, Some(impl.destroy);
      typeName := Some(t);
      setMethodCalled := true;
      o := Success;
    }

    /**
      SNESDestroy: drops one reference; while references remain nothing else happens.
      The last one destroys the context, calling each registered monitor's destroy routine
      on its context, in registration order.
     */
    method Destroy() returns (calls: seq<DestroyCall>)
      requires Valid()
      modifies this`refct, this`destroyed
      ensures refct == old(refct) - 1
      ensures refct > 0 ==> calls == [] && destroyed == old(destroyed)
      ensures refct <= 0 ==> destroyed && calls == DestroyCalls(Monitors())
    {
      refct := refct - 1;
      if refct > 0 {
        return [];
      }
      calls := [];
      var i := 0;
      while i < numberMonitors
        invariant 0 <= i <= numberMonitors
        invariant calls == DestroyCalls(monitors[..i])
      {
        assert monitors[..i + 1][..i] == monitors[..i];
        if monitors[i].destroy.Some? {
          calls := calls + [DestroyCall(monitors[i].destroy.value, monitors[i].context)];
        }
        i := i + 1;
      }
      destroyed := true;
    }
  }

  /**
    SNESCreate: only the two problem classes are accepted; any other is out of range and
    no context is made.
   */
  method Create(cls: ProblemType, sles: Handle) returns (o: Outcome, snes: SnesContext?)
    ensures o == Success <==> cls == NonlinearEquations || cls == UnconstrainedMinimization
    ensures o != Success ==> o == Failure(ArgOutOfRange) && snes == null
    ensures o == Success ==> snes != null && fresh(snes) && snes.Valid() && snes.methodClass == cls
                             && snes.maxIts == 50 && snes.maxFuncs == 10000 && snes.nfuncs == 0
  {
    if cls != UnconstrainedMinimization && cls != NonlinearEquations {
      return Failure(ArgOutOfRange), null;
    }
    snes := new SnesContext(cls, sles);
    o := Success;
  }

  /** The norm scales with non-negative factors. */
  ghost predicate Homogeneous(k: Kernels)
  {
    forall c: real, v: Vector {:trigger k.norm(Scale(c, v))} :: c >= 0.0 ==> k.norm(Scale(c, v)) == c * k.norm(v)
  }

  /**
    SNESScaleStep_Private: with ||y|| > delta the step y is scaled in place by
    delta/||y||, ynorm = delta and gpnorm = (1 - delta/||y||) fnorm; otherwise y is kept,
    gpnorm = 0 and ynorm = ||y||, as ScaleRule states.
   */
  method ScaleStep(y: array<real>, fnorm: real, delta: real, k: Kernels) returns (gpnorm: real, ynorm: real)
    requires k.Valid() && delta >= 0.0
    modifies y
    ensures var s := ScaleRule(k.norm(old(y[..])), delta, fnorm);
      && gpnorm == s.gpnorm && ynorm == s.ynorm
      && y[..] == if s.factor.Some? then Scale(s.factor.value, old(y[..])) else old(y[..])
  {
    var nrm := k.norm(y[..]);
    if nrm > delta {
      var ratio := delta / nrm;
      gpnorm := (1.0 - ratio) * fnorm;
      ghost var before := y[..];
      forall i | 0 <= i < y.Length {
        y[i] := ratio * y[i];
      }
      assert forall i :: 0 <= i < y.Length ==> y[..][i] == Scale(ratio, before)[i];
      assert y[..] == Scale(ratio, before);
      ynorm := delta;
    } else {
      gpnorm := 0.0;
      ynorm := nrm;
    }
  }

  /**
    With a homogeneous norm the step ScaleStep leaves has exactly the length ynorm it
    reports, so it lies in the trust region.
   */
  lemma ScaledStepLength(v: Vector, delta: real, fnorm: real, k: Kernels)
    requires k.Valid() && Homogeneous(k) && delta >= 0.0
    ensures var s := ScaleRule(k.norm(v), delta, fnorm);
      var w := if s.factor.Some? then Scale(s.factor.value, v) else v;
      k.norm(w) == s.ynorm <= delta
  {
    var s := ScaleRule(k.norm(v), delta, fnorm);
    ScaleRuleBounds(k.norm(v), delta, fnorm);
    if s.factor.Some? {
      assert k.norm(Scale(s.factor.value, v)) == s.factor.value * k.norm(v);
    }
  }
}
