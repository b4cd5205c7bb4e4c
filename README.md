# Restarted GMRES and the SNES context, in Dafny

This project models two parts of an early PETSc:

- **The restarted GMRES solver** (`src/sles/ksp/impls/gmres/gmres.c`). The model covers:
  - the creation defaults and `KSPGMRESSetRestart`;
  - the set-up, which splits one work block into the five regions HH, HES, RS, CC and SS and builds a table of basis-vector slots;
  - slot growth in clamped batches (`GMRESGetNewVectors`);
  - the Givens-rotation update of the Hessenberg column (`GMRESUpdateHessenberg`);
  - back substitution and solution assembly (`BuildGmresSoln`);
  - the cycle (`GMREScycle`) and the restart driver (`KSPiGMRESSolve`), including their counters and the residual history.
- **The nonlinear-solver context** (`src/snes/interface/snes.c`). The model covers:
  - the creation defaults;
  - the class guards, under which calls made for the other problem class fail and change nothing;
  - the tolerance setters with the `PETSC_DEFAULT` sentinel;
  - the bounded monitor registry;
  - set-up validation and the matrix-free options;
  - the resets done when a solve starts;
  - the type switch;
  - reference-counted destruction;
  - the trust-region step scaling.

The Arnoldi process is stated on values: `Gmres.ArnoldiColumn` says that one column of HES and the next basis vector are the projection of MATOP times the last basis vector (`Projected`), and that the matching column of HH is that column with every rotation so far applied and its last entry annihilated (`Triangularised`). `GmresKsp.ArnoldiSteps` says that this holds for each of the first m columns, over the slots VEC_VV(0..m) and CC, SS; the cycle's loop keeps it.

Both sources are imperative, so both contexts are Dafny classes whose methods change fields and arrays in place.

Vectors are values (`seq<real>`) of one fixed dimension. The operator A, the preconditioner B^-1, the vector norm and the C library `sqrt` are function-valued parameters (`Vectors.Kernels`). `Kernels.Valid` holds the few facts the engine relies on about them:
- they preserve length;
- the norm is non-negative;
- the root of a positive number is positive and squares back to it.

The orthogonalisation plug-in is a function-typed field of the GMRES context. It returns the projection coefficients and the remainder; the engine writes the coefficients into HH and HES.

Arithmetic is over `real`. Where the C code would divide 0 by 0 (a zero column in the rotation), the model reports an `ArithFault` instead of producing NaN.

In SNES, every user routine, vector, matrix and context is an opaque `Handle`; a null pointer is `None`.

Modules:

- `Vectors` (vectors.dfy): vector operations as functions, the external kernels, and `Option`.
- `GmresAlgebra` (gmres_algebra.dfy): the scalar rules of GMRES. These are:
  - the work-area layout;
  - the rotations and their composition;
  - the happy-breakdown bound;
  - the triangular system;
  - the target tolerance and the default test;
  - the batch size, the operation count and the history length.
- `Gmres` (gmres.dfy): the class `GmresKsp` with the set-up, the cycle and the restart driver.
- `SnesRules` (snes_rules.dfy): the value-level rules of SNES. These are:
  - the class guard;
  - the tolerance update;
  - the set-up checks;
  - the step-scaling rule;
  - the order of the monitor destroy calls.
- `Snes` (snes.dfy): the class `SnesContext`, `Create` and `ScaleStep`.

Where the code and its comments disagree, the model follows the code, except for the history length of the finding below:
- the comment of `SNESSetTolerances` (snes.c:1422) gives 1000 as the default `max_funcs`, while `SNESCreate` sets 10000 (snes.c:562);
- the comment at gmres.c:84-85 speaks of "4 + max_k + 1" slots, while the table has `VEC_OFFSET + 2 + max_k` (gmres.c:86-88).

`SNESSetType` does not clear `setupcalled` after destroying the old type's data (snes.c:1989-1992). The model keeps that.

## Model

| member | source | states |
|---|---|---|
| Vectors.LinCombPrefix | src/sles/ksp/impls/gmres/gmres.c:369 | the combination of the first m basis vectors depends only on the first m coefficients |
| GmresAlgebra.LayoutTiles | src/sles/ksp/impls/gmres/gmres.c:70-82 | the regions HH ((max_k+2)(max_k+1)), HES ((max_k+1)^2), RS (max_k+2), CC and SS (max_k+1 each) do not overlap, lie inside the block, cover every offset of it, and their lengths add up to the allocated size |
| GmresAlgebra.QuotientSquares | src/sles/ksp/impls/gmres/gmres.c:421-426 | with t^2 = h^2 + h1^2 and t > 0: (h/t)^2 + (h1/t)^2 = 1 and (h/t) h + (h1/t) h1 = t |
| GmresAlgebra.Givens | src/sles/ksp/impls/gmres/gmres.c:421-423 | c = h/t and s = h1/t form a unit rotation that maps (h, h1) to (t, 0) |
| GmresAlgebra.GivensApply | src/sles/ksp/impls/gmres/gmres.c:421-426 | the new rotation leaves t on the diagonal, and the residual pair (c r, -s r) keeps the squared length of r with abs(next) <= abs(r) |
| GmresAlgebra.UpdateOfRotation | src/sles/ksp/impls/gmres/gmres.c:421-426 | any unit rotation mapping (h, h1) to (t, 0) gives an update with those properties |
| GmresAlgebra.ResidualPair | src/sles/ksp/impls/gmres/gmres.c:424-425 | RS(it)^2 + RS(it+1)^2 after the rotation equals RS(it)^2 before it, and abs(RS(it+1)) <= abs of the old RS(it) |
| GmresAlgebra.SquareBound | src/sles/ksp/impls/gmres/gmres.c:424-427 | s^2 <= 1 gives abs(-s r) <= abs(r): the returned estimate never exceeds the previous one |
| GmresAlgebra.RotateKeepsPair | src/sles/ksp/impls/gmres/gmres.c:408-413 | a unit rotation keeps a^2 + b^2 of the pair (a, b) it turns into (c a + s b, c b - s a) |
| GmresAlgebra.ApplyRotations | src/sles/ksp/impls/gmres/gmres.c:408-413 | the stored rotations applied in order 0 .. m-1 keep the column's sequence length (the number of entries, not the Euclidean norm) |
| GmresAlgebra.ApplyRotationsKeepsTail | src/sles/ksp/impls/gmres/gmres.c:408-413 | rotations 0 .. m-1 leave the rows below m untouched |
| GmresAlgebra.RotatedRhsExtend | src/sles/ksp/impls/gmres/gmres.c:424-425 | one more rotation (c, s) of the right-hand side replaces its last entry r by the pair (c r, -s r) and keeps the entries before it |
| GmresAlgebra.RotatedRhsIsRotatedColumn | src/sles/ksp/impls/gmres/gmres.c:408-413 | the right-hand side built rotation by rotation is the vector (res_norm, 0, ..., 0) with the same rotations applied in order as GMRESUpdateHessenberg applies to the columns of HH, the entries below staying zero |
| GmresAlgebra.SumSqRotateLast | src/sles/ksp/impls/gmres/gmres.c:424-425 | a unit rotation of the last entry keeps the sum of squares of the vector |
| GmresAlgebra.RotatedRhsKeepsNorm | src/sles/ksp/impls/gmres/gmres.c:424-425 | unit rotations keep the sum of squares of the right-hand side at res_norm^2, so abs(RS(it)) never exceeds res_norm |
| GmresAlgebra.HappyBound | src/sles/ksp/impls/gmres/gmres.c:216-217 | hapbnd = min(epsabs abs(HH(it,it)/RS(it)), haptol); with RS(it) = 0 it is haptol (infinite quotient), or NaN when HH(it,it) is 0 too |
| GmresAlgebra.RescaleDividesByPositive | src/sles/ksp/impls/gmres/gmres.c:216-220 | when the test tt > hapbnd passes, tt > 0, so the division 1/tt is defined |
| GmresAlgebra.DotHead | src/sles/ksp/impls/gmres/gmres.c:362 | the row product splits off its first term |
| GmresAlgebra.DotFrame | src/sles/ksp/impls/gmres/gmres.c:362 | the row product reads only the entries lo .. hi-1 of nrs |
| GmresAlgebra.LastRow | src/sles/ksp/impls/gmres/gmres.c:358 | nrs[it] = RS(it)/HH(it,it) solves the last row |
| GmresAlgebra.BackStep | src/sles/ksp/impls/gmres/gmres.c:359-364 | each step of the back substitution extends the rows that hold from k+1 .. it to k .. it |
| GmresAlgebra.SolvedRow | src/sles/ksp/impls/gmres/gmres.c:361-363 | nrs[k] = (RS(k) - sum of HH(k,j) nrs[j] for j > k) / HH(k,k) makes row k hold |
| GmresAlgebra.TotalAppend | src/sles/ksp/impls/gmres/gmres.c:282-290 | adding a cycle's iterations to the list adds them to the total |
| GmresAlgebra.RestartLogTail | src/sles/ksp/impls/gmres/gmres.c:282-290 | the log of cycles after the restart loop keeps the entries before it, and from the first cycle on it holds the cycles added to itcount followed by the last one |
| GmresAlgebra.LogGrows | src/sles/ksp/impls/gmres/gmres.c:266-290 | the cycles a solve adds to the log are those from its first cycle on, and the earlier entries are kept |
| GmresAlgebra.TargetTolerance | src/sles/ksp/impls/gmres/gmres.c:187-190 | ttol = max(atol, rtol res_norm): at least both, and equal to one of them |
| GmresAlgebra.ConvergedIffEitherTolerance | src/sles/ksp/impls/gmres/gmres.c:477-481 | with the first cycle's target, rnorm <= ttol holds exactly when rnorm <= atol or rnorm <= rtol res_norm |
| GmresAlgebra.ProgressExtend | src/sles/ksp/impls/gmres/gmres.c:193-229 | a step taken after a failed test with a non-growing estimate keeps the estimates non-increasing and all but the last failing the test |
| GmresAlgebra.BatchSize | src/sles/ksp/impls/gmres/gmres.c:438-442 | nalloc starts at delta_allocate and is cut back so that it + VEC_OFFSET + nalloc never exceeds vecs_allocated; it is delta_allocate or ends exactly at the last slot |
| GmresAlgebra.ResActSizeAsWrittenOverruns | src/sles/ksp/impls/gmres/gmres.c:233-236 | as written, with hist_len == it + itsSoFar the reported history length is one more than the buffer holds |
| GmresAlgebra.ResActSize | src/sles/ksp/impls/gmres/gmres.c:233-236 | the corrected length min(hist_len, it + itsSoFar + 1) is at most both, and equal to one of them |
| GmresAlgebra.ResActSizeCountsStored | src/sles/ksp/impls/gmres/gmres.c:233-236 | the corrected length counts exactly the indices 0 .. it + itsSoFar that fit in the buffer |
| Gmres.PlaneRotation | src/sles/ksp/impls/gmres/gmres.c:421-427 | no rotation exactly when h and h1 are both zero (0/0 in the source); otherwise an orthogonal rotation to (t, 0) with t > 0 and a residual pair that keeps its length |
| Gmres.RotatedStart | src/sles/ksp/impls/gmres/gmres.c:176 | RS(0) = res_norm is the right-hand side rotated by no rotation |
| Gmres.RotatedPair | src/sles/ksp/impls/gmres/gmres.c:424-425 | writing (c RS(it), -s RS(it)) into RS(it), RS(it+1) extends RS(0..it) by that rotation |
| Gmres.RotatedPrefixStep | src/sles/ksp/impls/gmres/gmres.c:193-228 | a step that keeps the earlier rotations and adds a unit one extends the rotated right-hand side in RS by one entry |
| Gmres.NewSlotTable | src/sles/ksp/impls/gmres/gmres.c:86-110 | the fresh slot table holds vectors in exactly its first batch, whose size is recorded as batch 0 |
| Gmres.NewWorkArea | src/sles/ksp/impls/gmres/gmres.c:70-82 | the five regions have their lengths for max_k and are distinct arrays |
| Gmres.NextRotation | src/sles/ksp/impls/gmres/gmres.c:408-413 | one more pass of the rotation loop applies rotation j to the column rotated by 0 .. j-1 |
| Gmres.RotateEntries | src/sles/ksp/impls/gmres/gmres.c:409-412 | the two rotated entries, as the loop body writes them through hh and hh+1 |
| Gmres.PairRoot | src/sles/ksp/impls/gmres/gmres.c:421 | for a column with a non-zero entry, t = sqrt(h^2 + h1^2) is positive and squares back |
| Gmres.GmresKsp.constructor | src/sles/ksp/impls/gmres/gmres.c:528-554 | KSPiGMRESCreate: method GMRES, haptol = epsabs = 1e-8, no preallocation, batches of 5, max_k = 10, the basic orthogonalisation |
| Gmres.GmresKsp.SetRestart | src/sles/ksp/impls/gmres/gmres.c:467-475 | max_k changes on a GMRES context only |
| Gmres.GmresKsp.SetOrthogRoutine | src/sles/ksp/impls/gmres/gmres.c:520-527 | the orthogonalisation routine changes on a GMRES context only |
| Gmres.GmresKsp.SetUp | src/sles/ksp/impls/gmres/gmres.c:63-112 | the work area laid out as WorkspaceLayout(max_k); VEC_OFFSET + 2 + max_k slots; a first batch of the whole table when preallocating, else 5; one batch recorded |
| Gmres.GmresKsp.AllocateWorkArea | src/sles/ksp/impls/gmres/gmres.c:70-82 | the five fresh regions sized for max_k |
| Gmres.GmresKsp.AllocateSlots | src/sles/ksp/impls/gmres/gmres.c:86-110 | vv_allocated, nwork_alloc = 1 and mwork_alloc[0], with exactly the first vv_allocated slots filled |
| Gmres.GmresKsp.GetNewVectors | src/sles/ksp/impls/gmres/gmres.c:432-453 | vv_allocated grows by nalloc = BatchSize; exactly slots it+VEC_OFFSET .. it+VEC_OFFSET+nalloc-1 are filled; nwork_alloc grows by one and mwork_alloc records nalloc; nalloc = 0 changes nothing |
| Gmres.GmresKsp.FillSlots | src/sles/ksp/impls/gmres/gmres.c:450-451 | exactly slots from .. from+count-1 are filled, the others kept |
| Gmres.GmresKsp.RecordBatch | src/sles/ksp/impls/gmres/gmres.c:446-452 | the batch is appended to the batch record and the total grows by nalloc |
| Gmres.GmresKsp.RotateColumn | src/sles/ksp/impls/gmres/gmres.c:402-413 | column it becomes ApplyRotations of its old top it+2 entries under CC(0..it-1), SS(0..it-1); every other entry of HH is kept |
| Gmres.GmresKsp.UpdateHessenberg | src/sles/ksp/impls/gmres/gmres.c:396-428 | the rotated column, then CC(it), SS(it), HH(it,it), RS(it), RS(it+1) from PlaneRotation, returning abs(RS(it+1)); nothing else changes; a zero pair is a fault |
| Gmres.GmresKsp.Eliminate | src/sles/ksp/impls/gmres/gmres.c:396-428 | unless it faults: the new rotation is a unit one, RS(0..it+1) is RS(0..it) with it applied to the last entry, earlier rotations are kept, abs(RS(it+1)) <= abs(RS(it)) is returned, HH(it,it) != 0, and column it of HH is its old top it+2 entries with all it+1 rotations applied and row it+1 kept (`Triangularised`); only HH, RS, CC and SS change, and the earlier columns of HH are kept |
| Gmres.GmresKsp.NewRotation | src/sles/ksp/impls/gmres/gmres.c:421-427 | the new rotation stored in CC(it), SS(it), applied to RS and the diagonal; only those entries change |
| Gmres.GmresKsp.BuildSoln | src/sles/ksp/impls/gmres/gmres.c:343-392 | for it < 0 nothing changes; otherwise RS(0..it) solves the triangular system, and the solution is the old one plus the correction, passed through B^-1 under right preconditioning; CC, SS and `ArnoldiSteps` are untouched |
| Gmres.GmresKsp.BackSolve | src/sles/ksp/impls/gmres/gmres.c:358-364 | sum over j = k..it of HH(k,j) nrs[j] = RS(k) for every 0 <= k <= it; RS after it kept |
| Gmres.GmresKsp.RowRemainder | src/sles/ksp/impls/gmres/gmres.c:361-362 | tt = RS(k) minus the row product over k+1 .. it |
| Gmres.GmresKsp.Residual | src/sles/ksp/impls/gmres/gmres.c:117-138 | VEC_VV(0) = BINVF - A x (right) or BINVF - B^-1 A x (left), through MATOP = B^-1 A on the left; other slots kept |
| Gmres.GmresKsp.Arnoldi | src/sles/ksp/impls/gmres/gmres.c:200-220 | VEC_VV(it+1) gets a slot, the projection coefficients go to column it of HH and HES, tt = norm of the remainder to row it+1, and the remainder is divided by tt exactly when tt > hapbnd; the slots up to VEC_VV(it) and the earlier columns of HH and HES are kept, and column it of HES with VEC_VV(it+1) is the projection of MATOP VEC_VV(it) on the basis (`Projected`) |
| Gmres.GmresKsp.Project | src/sles/ksp/impls/gmres/gmres.c:204-217 | with the slot already there: the same column and next-vector facts as Arnoldi, with only VEC_VV(it+1), HH and HES changed |
| Gmres.GmresKsp.Expand | src/sles/ksp/impls/gmres/gmres.c:200-203 | after it, VEC_VV(it+1) has a slot, and the slots up to VEC_VV(it) are kept |
| Gmres.GmresKsp.PutResidual | src/sles/ksp/impls/gmres/gmres.c:177 | RS(i) = x, other entries kept |
| Gmres.GmresKsp.Place | src/sles/ksp/impls/gmres/gmres.c:134-135 | one slot receives a vector, the others are kept |
| Gmres.GmresKsp.StoreColumn | src/sles/ksp/impls/gmres/gmres.c:207-213 | HH(j,it) = HES(j,it) = coefficient j for j <= it, and tt in row it+1; other entries of both arrays kept, so the earlier columns are unchanged |
| Gmres.GmresKsp.LogResidual | src/sles/ksp/impls/gmres/gmres.c:195 | nres[i] = res only when the history exists and i < hist_len |
| Gmres.GmresKsp.LoggedNone | src/sles/ksp/impls/gmres/gmres.c:180-183 | an untouched history records no estimate |
| Gmres.GmresKsp.LoggedExtend | src/sles/ksp/impls/gmres/gmres.c:195 | appending an estimate keeps what the history records |
| Gmres.GmresKsp.Step | src/sles/ksp/impls/gmres/gmres.c:200-226 | column it of HES holds the projection coefficients and its norm, VEC_VV(it+1) is the remainder, divided by HES(it+1,it) exactly when the happy-breakdown test passes; the slots up to VEC_VV(it) and the earlier columns of HH and HES are kept; unless it faults: the new rotation is a unit one that turns RS(it) into RS(it), RS(it+1) with the earlier rotations and RS(0..it-1) kept, the new estimate is abs(RS(it+1)) <= abs(RS(it)), HH(it,it) != 0, and the new column satisfies `ArnoldiColumn` |
| Gmres.GmresKsp.Extend | src/sles/ksp/impls/gmres/gmres.c:200-226 | one Arnoldi step keeps `ArnoldiSteps`: if the first it columns of HES and HH, VEC_VV(0..it) and CC, SS are an Arnoldi prefix, then without a fault so are it+1 of them; VEC_VV(0) is kept |
| Gmres.GmresKsp.ArnoldiStart | src/sles/ksp/impls/gmres/gmres.c:172-185 | with VEC_VV(0) filled, the empty factorisation is an Arnoldi prefix |
| Gmres.PrefixGrows | src/sles/ksp/impls/gmres/gmres.c:200-226 | an Arnoldi prefix followed by a column that satisfies `ArnoldiColumn` for it is a prefix one longer |
| Gmres.ColumnsAt | src/sles/ksp/impls/gmres/gmres.c:207-213 | column j of the first m Hessenberg columns is h[0..j+1, j] |
| Gmres.ColumnsFrom | src/sles/ksp/impls/gmres/gmres.c:207-213 | the first m Hessenberg columns, top j+2 entries each, are exactly the given sequences when their entries agree |
| Gmres.GmresKsp.Pass | src/sles/ksp/impls/gmres/gmres.c:195-228 | one loop pass stores the estimate in the history and keeps the loop state, including the rotated right-hand side in RS and the Arnoldi prefix (`ArnoldiSteps`), with a non-increasing estimate, and VEC_VV(0) kept |
| Gmres.GmresKsp.Advance | src/sles/ksp/impls/gmres/gmres.c:193-228 | one round of the loop keeps its invariant: the loop state, the Arnoldi prefix, the estimates non-increasing and unconverged, and the test result on the new estimate; VEC_VV(0) is kept |
| Gmres.GmresKsp.Iterate | src/sles/ksp/impls/gmres/gmres.c:193-229 | it <= max_k, it + itsSoFar <= max_it when a step was taken, non-increasing estimates, the stop condition (converged, max_k or max_it), the history entries below hist_len, and without a fault RS(0..it) is (res_norm, 0, ..., 0) rotated by the unit rotations of the steps and the first it columns of HES and HH with VEC_VV(0..it) are an Arnoldi prefix (`ArnoldiSteps`); VEC_VV(0) is kept |
| Gmres.GmresKsp.LoopingStart | src/sles/ksp/impls/gmres/gmres.c:172-193 | before the first pass, with RS(0) = res_norm, the loop invariant holds for zero steps: the history untouched, RS(0) the unrotated right-hand side, and the empty Arnoldi prefix |
| Gmres.GmresKsp.RecordCycle | src/sles/ksp/impls/gmres/gmres.c:230-241 | nmatop += it, nvectors += 3 + it (3 + (it-1)), the final estimate to the history, res_act_size and the last index; CC, SS and `ArnoldiSteps` are untouched |
| Gmres.GmresKsp.Count | src/sles/ksp/impls/gmres/gmres.c:230-236 | the operator and vector-operation counters, res_act_size and the last index |
| Gmres.GmresKsp.Conclude | src/sles/ksp/impls/gmres/gmres.c:230-257 | the counters, then for it > 0 the solution update: the triangular solve against g, the RS the loop left, whose last entry is the final estimate and which is the rotated right-hand side; HES, HH, the basis and CC, SS keep the loop's `ArnoldiSteps`; the cycle returns 0 for it = 0 or when converged, 1 otherwise |
| Gmres.GmresKsp.Start | src/sles/ksp/impls/gmres/gmres.c:172-191 | RS(0) = res_norm; a zero norm changes nothing else; otherwise VEC_VV(0) is normalised and ttol is set only when not restarting |
| Gmres.GmresKsp.Cycle | src/sles/ksp/impls/gmres/gmres.c:159-258 | GMREScycle: a zero initial norm returns 0 with no iterations; otherwise the bounds, the non-increasing estimates, the return code !converged (0 when it = 0), the counters, the history, and the solution update by the triangular solve against the right-hand side (res_norm, 0, ..., 0) rotated by the cycle's unit rotations; for a non-zero initial norm that ends without a fault, VEC_VV(0) is the initial residual divided by res_norm and HES, HH, VEC_VV(0..it), CC, SS are the cycle's it Arnoldi steps (`ArnoldiSteps`), so the update is built from the Krylov basis of the initial residual |
| Gmres.GmresKsp.Run | src/sles/ksp/impls/gmres/gmres.c:193-257 | the loop and its epilogue for a non-zero initial norm, with the same promises as Cycle: VEC_VV(0) is kept and, without a fault, `ArnoldiSteps` holds for the it steps the solution update uses |
| Gmres.GmresKsp.Solve | src/sles/ksp/impls/gmres/gmres.c:260-292 | BINVF = B^-1 b (left) or b (right); the count returned is the sum of the iterations of the cycles the call ran, as appended to the cycle log, and never exceeds max_it |
| Gmres.GmresKsp.FirstCycle | src/sles/ksp/impls/gmres/gmres.c:266-282 | the first cycle after preparing BINVF and the residual: its iterations are logged, its first estimate is the norm of the initial residual, ttol is set from it, the estimates decrease until the test passes, the status tells whether it converged, and a cycle returning 1 did at least one iteration |
| Gmres.GmresKsp.Prepare | src/sles/ksp/impls/gmres/gmres.c:269-280 | BINVF, and VEC_VV(0) = BINVF for a zero guess or the residual otherwise; other slots kept |
| Gmres.GmresKsp.Restarts | src/sles/ksp/impls/gmres/gmres.c:282-291 | the restart loop returns the sum of the first cycle's iterations and those of every cycle it ran, as logged, <= max_it; the break, after which the last cycle would be counted twice, never happens |
| Gmres.GmresKsp.Restart | src/sles/ksp/impls/gmres/gmres.c:283-286 | the residual of the current solution is recomputed into VEC_VV(0); the loop stops exactly when itcount > max_it, keeping the previous cycle's iterations and the solution; otherwise a restarted cycle, logged, stays within max_it, and its first estimate is the norm of that residual with the later ones non-increasing |
| SnesRules.Guard | src/snes/interface/snes.c:667-669 | success exactly for the matching problem class, PETSC_ERR_ARG_WRONG otherwise |
| SnesRules.GuardsExclusive | src/snes/interface/snes.c:767-769 | no class passes both the equations guard and the minimization guard, and an unknown class passes neither |
| SnesRules.SetTolerancesRoundTrip | src/snes/interface/snes.c:1434-1438 | each field takes its argument unless the argument is PETSC_DEFAULT, when it is kept |
| SnesRules.SetTolerancesAllDefault | src/snes/interface/snes.c:1434-1438 | all-default arguments change nothing |
| SnesRules.SetTolerancesIdempotent | src/snes/interface/snes.c:1434-1438 | setting the same tolerances twice is the same as once |
| SnesRules.SetUpCheck | src/snes/interface/snes.c:1319-1346 | an unknown class is out of range; otherwise any failure is a wrong-state or identical-argument error |
| SnesRules.SetUpCheckPasses | src/snes/interface/snes.c:1319-1346 | set-up passes exactly when, for equations, the function vector, the routine and the Jacobian are set and the function vector differs from the solution; for minimization, the vector, the gradient routine, the minimization routine and the Hessian are set |
| SnesRules.SetUpRejectsAliasOnlyForEquations | src/snes/interface/snes.c:1325-1327 | a function vector equal to the solution vector is rejected for equations and accepted for minimization |
| SnesRules.ScaleRuleBounds | src/snes/interface/snes.c:1869-1879 | ynorm <= delta and ynorm <= norm; the step is scaled exactly when norm > delta, by a factor in [0, 1) with factor norm = delta, which is 0 exactly when delta = 0 |
| SnesRules.ScaleRulePrediction | src/snes/interface/snes.c:1870-1878 | with fnorm >= 0: 0 <= gpnorm <= fnorm, and gpnorm = 0 exactly when the step is inside the region or fnorm = 0 |
| SnesRules.DestroyCallsSound | src/snes/interface/snes.c:1385-1389 | each destroy call comes from a registered monitor with that destroy routine and context, no earlier in the list |
| SnesRules.DestroyCallsCount | src/snes/interface/snes.c:1385-1389 | one call per monitor that has a destroy routine |
| Snes.Create | src/snes/interface/snes.c:547-621 | an unknown problem class is out of range and no context is made; otherwise a fresh valid context with the defaults |
| Snes.SnesContext.constructor | src/snes/interface/snes.c:555-597 | the defaults: max_its 50, max_funcs 10000, rtol = xtol = 1e-8, atol 1e-10 (minimization) or 1e-50 (equations), deltatol 1e-12, fmin -1e30, counters and monitors zero, history off with reset on, reason CONVERGED_ITERATING |
| Snes.SnesContext.SetFunction | src/snes/interface/snes.c:661-674 | equations only; SNESGetFunction then returns the vector, the context and the routine; the wrong class changes nothing |
| Snes.SnesContext.GetFunction | src/snes/interface/snes.c:2149-2161 | an error exactly for the wrong class |
| Snes.SnesContext.ComputeFunction | src/snes/interface/snes.c:707-726 | equations only; nfuncs grows by exactly one per evaluation |
| Snes.SnesContext.SetMinimizationFunction | src/snes/interface/snes.c:763-773 | minimization only; records the routine and the context; the wrong class changes nothing |
| Snes.SnesContext.ComputeMinimizationFunction | src/snes/interface/snes.c:806-824 | minimization only; nfuncs grows by exactly one |
| Snes.SnesContext.GetMinimizationFunction | src/snes/interface/snes.c:2228-2240 | an error exactly for the wrong class |
| Snes.SnesContext.SetGradient | src/snes/interface/snes.c:861-874 | minimization only; SNESGetGradient then returns the vector and the context; the wrong class changes nothing |
| Snes.SnesContext.GetGradient | src/snes/interface/snes.c:2189-2200 | an error exactly for the wrong class; no routine is returned |
| Snes.SnesContext.ComputeGradient | src/snes/interface/snes.c:907-925 | minimization only; no counter changes |
| Snes.SnesContext.ComputeJacobian | src/snes/interface/snes.c:962-984 | guarded by the class; the user routine is called exactly when one is set |
| Snes.SnesContext.SetJacobian | src/snes/interface/snes.c:1091-1108 | guarded by the class; SNESGetJacobian then returns the matrices, the context and the routine; the wrong class changes nothing. For minimization it is SNESSetHessian (snes.c:1187-1203): a missing matrix is a bad pointer whatever the class, and SNESGetHessian then returns the matrices and the context but no routine |
| Snes.SnesContext.GetJacobian | src/snes/interface/snes.c:1131-1143 | an error exactly for the wrong class; for minimization it is SNESGetHessian (snes.c:1227-1237), which returns no routine |
| Snes.SnesContext.GetNorm | src/snes/interface/snes.c:350-360 | the norm for the matching class, a wrong-state error otherwise |
| Snes.SnesContext.GetTolerances | src/snes/interface/snes.c:1467-1477 | atol, rtol, stol read from the field xtol, max_its and max_funcs |
| Snes.SnesContext.SetTolerances | src/snes/interface/snes.c:1430-1440 | the tolerances become SetTolerances of the old ones |
| Snes.SnesContext.SetTrustRegionTolerance | src/snes/interface/snes.c:1499-1505 | deltatol = tol |
| Snes.SnesContext.SetMinimizationFunctionTolerance | src/snes/interface/snes.c:1532-1538 | fmin = ftol |
| Snes.SnesContext.SetMonitor | src/snes/interface/snes.c:1629-1641 | appends (routine, destroy, context); with MAXSNESMONITORS registered it is out of range and changes nothing |
| Snes.SnesContext.ClearMonitor | src/snes/interface/snes.c:1667-1673 | the registry becomes empty |
| Snes.SnesContext.SetConvergenceTest | src/snes/interface/snes.c:1708-1715 | records the test and its context |
| Snes.SnesContext.SetConvergenceHistory | src/snes/interface/snes.c:1780-1790 | records the arrays, the capacity and the reset flag, which SNESGetConvergenceHistory then returns with the number of entries used unchanged; a null array with na != 0 is a bad pointer and changes nothing |
| Snes.SnesContext.GetConvergenceHistory | src/snes/interface/snes.c:1823-1831 | the two arrays and the number of entries used, conv_hist_len, not the capacity |
| Snes.SnesContext.UseMatrixFreeOperator | src/snes/interface/snes.c:1278-1297 | the new operator becomes mfshell and the Jacobian; an unknown class is unsupported |
| Snes.SnesContext.UseMatrixFree | src/snes/interface/snes.c:1298-1318 | the new matrix becomes the Jacobian and its preconditioner with the matrix-free routine and the function context; an unknown class is unsupported |
| Snes.SnesContext.SetUp | src/snes/interface/snes.c:1267-1350 | x becomes the solution vector; then the matrix-free options; then success exactly when SetUpCheck passes on the resulting state; setupcalled is set only on success |
| Snes.SnesContext.Solve | src/snes/interface/snes.c:1910-1932 | no type is an error; set-up runs only when not yet done; conv_hist_len resets only with the reset flag; nfuncs, linear_its and nfailures become 0 |
| Snes.SnesContext.SetType | src/snes/interface/snes.c:1977-2009 | nothing happens when the type already matches; otherwise the old type is destroyed if set up, an unknown type is an error, a known one installs its routines and name; setupcalled is kept |
| Snes.SnesContext.Destroy | src/snes/interface/snes.c:1369-1393 | the reference count drops by one; only the last reference destroys, calling the monitors' destroy routines in order |
| Snes.ScaleStep | src/snes/interface/snes.c:1857-1881 | gpnorm, ynorm and the new y are those of ScaleRule for the old norm of y |
| Snes.ScaledStepLength | src/snes/interface/snes.c:1869-1879 | with a homogeneous norm the step left in y has length exactly ynorm <= delta |

## Left out

- The operator A, the preconditioner B^-1, `VecNorm` and `sqrt` are the parameters `op`, `pc`, `norm` and `sqrt` of `Kernels`, with the contracts in `Kernels.Valid`. Their implementations, and the parallel layout of vectors, are not part of this model. `VecSet`, `VecScale`, `VecAXPY` and `BasicMultiMaxpy` are the functions `Zeros`, `Scale`, `Axpy` and `LinComb` of `Vectors`.
- Gmres.GmresKsp.BuildSoln: `BasicMultiMaxpy` is declared at gmres.c:59 but defined elsewhere, and its definition is not part of this model. The call `BasicMultiMaxpy(&VEC_VV(0), it, nrs, VEC_TEMP)` at gmres.c:369 is read inclusively: it adds nrs[j] VEC_VV(j) for j = 0 .. it, the it + 1 coefficients the back substitution computes (`LinComb` over last + 1 vectors).
- The orthogonalisation routines of borthog.c are not part of this model. The plug-in is a function field that returns coefficients and a remainder.
- `gmresp.h` is not part of this model. VEC_OFFSET is a constructor parameter between 3 and 4. The slots below VEC_OFFSET are in the table, but the model never reads or writes them: VEC_BINVF is the field `binvf`, and VEC_TEMP and VEC_TEMP_MATOP are local values in `Residual`, `BuildSoln` and `MatOp`.
- The separate destination of `GMRESBuildSolution` (gmres.c:487-503) is not modelled. The model covers only the in-place call from the cycle, where source and destination are the same vector.
- `KSPiGMRESDestroy` and `KSPiGMRESAdjustWork` free memory and are not modelled. `GMRESGetNewVectors` falls off its end without a return value; it is modelled as returning nothing.
- User monitors (`usr_monitor`), logging and the `gmresP->it` copies kept for them are not modelled.
- The convergence test is the default one (`KSPiGMRESDefaultConverged`). A user-installed test is not modelled.
- Gmres.GmresKsp.UpdateHessenberg: a zero pair (h, h1) gives NaN in IEEE arithmetic. The model reports it as the `ArithFault` status instead; floating-point rounding is not modelled.
- Gmres.GmresKsp.Solve: the error returns of the kernels (`CHKERR`) are not modelled.
- Gmres.GmresKsp.Count: res_act_size is the corrected min(hist_len, it + itsSoFar + 1) of the finding below, not the value gmres.c:235-236 computes, which is one more when hist_len == it + itsSoFar. The same holds for the res_act_size stated by `RecordCycle`, `Conclude`, `Run` and `Cycle`; `ResActSizeAsWrittenOverruns` states the value as written.
- Gmres.GmresKsp.FirstCycle: it does not restate the solution update and the rotated right-hand side the first cycle leaves; `Cycle` states them for every cycle, the first included.
- `SNESView`, `SNESSetFromOptions`, the options database, the AMS publishing and the prefix routines are not modelled. The `-snes_mf_operator` and `-snes_mf` options are Boolean inputs to `SetUp` and `Solve`.
- The `FList` registry and `SNESRegisterAll` are a map parameter of `SetType`. The type constructors are not part of this model; each is assumed to install a solve, an optional set-up and a destroy routine.
- The type's own set-up, solve and destroy routines are opaque. `Solve` models `SNESSolve` up to the call of the solve routine. The `-snes_view` option it then reads is not modelled.
- The Eisenstat-Walker context created by `SNESCreate` and its use in `SNESSetUp` are not modelled. `MatSNESMFSetFromOptions`, `SLESCreate` and `SLESDestroy` are not modelled either.
- Plain field accessors with no condition are not modelled: Set/GetApplicationContext, GetIterationNumber, GetNumberUnsuccessfulSteps, GetNumberLinearIterations, GetSLES, GetType, GetSolution, GetSolutionUpdate, GetConvergedReason.
- `PETSC_DEFAULT` (-2) and `MAXSNESMONITORS` (5) come from PETSc headers that are not part of this model.
- The fields `SNESCreate` does not assign start null or zero, as `PetscHeaderCreate` clears the structure. `petschead.h` is not part of this model.
- The three monitor arrays of the SNES structure are one array of records.
- Snes.SnesContext.Destroy: freeing memory and calling the type's destroy routine are not modelled. Only the reference count, the destroyed flag and the monitor destroy calls are modelled.
- Snes.SnesContext.SetType: the type's private data (`snes->data`) is not modelled, so it is not recorded whether the data was freed.
- Snes.SnesContext.ComputeJacobian: the user routine's matrices and the `DIFFERENT_NONZERO_PATTERN` flag are not modelled. The method reports only whether the routine was called.

## Findings

| source | as written | input that shows it | evidently intended | confidence | as-written member | corrected member |
|---|---|---|---|---|---|---|
| src/sles/ksp/impls/gmres/gmres.c:235-236 | `res_act_size = (hist_len < it + itsSoFar) ? hist_len : it + itsSoFar + 1` | hist_len == it + itsSoFar: entry it + itsSoFar is not stored (the guard at line 233 needs hist_len > it + itsSoFar), yet the length reported is hist_len + 1 | min(hist_len, it + itsSoFar + 1), the number of entries actually stored | not executed | GmresAlgebra.ResActSizeAsWrittenOverruns | GmresAlgebra.ResActSizeCountsStored |
