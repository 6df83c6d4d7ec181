# Dafny model of the DISORT solvers, table machinery, smoothing filter and cloud microphysics of EPIC

The project models, over exact reals, five parts of the EPIC atmospheric model.

* **The linear solvers of DISORT.** `c_sgefa` / `c_sgesl` factor and solve a dense system with partial pivoting;
  `c_sgbfa` / `c_sgbsl` do the same inside LINPACK's packed band storage. `Elimination`, `Factorization`, `Triangular`,
  `TransposedSolve` and `Growth` treat the elimination as a sequence of matrices; `Kernels`, `DenseSolver`, `BandSolver` and
  `BandSolve` are the in-place algorithms, proved to compute that sequence in either storage. Stored multipliers stay in
  the row order of the step that made them, as in the code.
* **The radiative-transfer systems built on them.** `TwoStream*` and `Stream*` fill the tridiagonal and the block-band
  system, solve them with the solvers above, and show that a vector solves the system if and only if the intensities it
  gives are continuous at every layer interface and meet both boundary conditions. `SlabReflection` is what the layers of
  a two-stream column reflect, which decides when its system is singular. `CouplingMatrix` and `Eigen*` are the stream
  eigenvalue problem, its reduction and the lift of its eigenvectors. `DeltaScaling`, `DisortSetup`, `TwoStreamSetup` and
  `FieldLevels` are the scaling that comes before and the levels at which the fields are read.
* **Tables.** `HermitePiece`, `Pchip*` and `HuntTable` are monotone cubic interpolation and the hunting search;
  `CompactRule` and `CompactIntegration` the fourth-point integration; `DoubleScatter*` the equal-area inversion of a
  cumulative table.
* **The Savitzky-Golay filter of `gen_t_vs_p.c`.** `Crout*` and `Parity` are its own LU decomposition, with implicit
  scaling, whole-row exchanges and the parity of the permutation; `Polynomials`, `SavitzkyGolay`, `SavitzkyGolayFilter` and
  `TemperatureSmoothing` build the filter and the smoothing loop on it.
* **Cloud microphysics.** `Microphysics*` are the transfers between the five phases of a cell, their shared budgets, and
  whole runs.

## Conventions

* `double` is `real`; rounding is not modelled. `exp`, `sqrt` and the comparison `fcmp` / `c_fcmp` are parameters with the
  laws a proof needs. `fcmp` may call close values equal (`Comparisons.Comparison`); where exactness matters
  it is asked for (`Comparisons.Exact`).
* A C matrix behind an index macro is an `array2<real>` with zero-based indices; a vector is an `array<real>` or a
  one-column `array2<real>`. Ghost parameters of type `Mat` and `Vec` name what the arrays hold, one-based as in the
  macros. Where one routine receives a pointer into an array, the model passes the array and the position.
* A method that changes state is proved against a function on matrices, vectors or phases; the lemmas are about that function.
* Error exits are result values (`CroutLu.Outcome`, `PchipTable.TableCheck`, `SavitzkyGolayFilter.Screening`).

## Results about the code that differ from what it seems to promise

* `info` of `c_sgefa` is no test of singularity: `c_isamax` answers 0 on an all-zero column, the pivot is then read one row
  too high, and a singular matrix can come back with `info` 0 (`SingularInput.SingularityMissed`). It is right exactly
  when the columns before the last are independent, or the last diagonal entry is zero, or some failed search reads a
  zero (`SingularInput.InfoIsRight`); nonsingular matrices are never misjudged. The same holds for `c_sgbfa`.
* With an albedo below 1 the two-stream system can still be singular: exactly when twice the albedo times `cmu` times the
  reflectance of the column is 1 and the bottom is not truncated (`TwoStreamSolvable.NonsingularIffUnbalanced`). The
  reflectance is below 1, so up to twice the albedo times `cmu` equal to 1 this cannot happen.
* In pseudo-spherical geometry `c_solve0` does not set the bottom rows of the right-hand side in two cases. For the mean
  component of a truncated column with a beam the loop over streams is missing, so the rows stay zero and one entry behind
  the system is written (`StreamField.LoopMissing`); for an azimuthal component over a surface that is not Lambertian
  the code warns. `StreamSolver.RhsComplete`, `StreamRows.FilledSystem` and `StreamRows.TruncatedBottomUnset` say what is
  solved instead. `c_intensity_components` has no pseudo-spherical beam source (`StreamSolver.ComponentIsIntensity`).
* Sublimation of cloud ice is limited by the ice but not by the subsaturation, so a cold cell can be carried past
  saturation; `MicrophysicsTheorems.SubsaturationNotCrossed` says exactly when.
* The conversion to rain overspends the cloud liquid of some cell as soon as `ALPHA_RAUT * DT` exceeds 1
  (`MicrophysicsTheorems.FastConversionOverspends`), and never otherwise.

## Model

| member | source | states |
|---|---|---|
| Kernels.Saxpy | src/attic/cdisort.nonscat.c:8935-8984 | adds sa times the first slice to the second, element by element, and touches nothing else, whatever the length modulo four |
| Kernels.Sdot | src/attic/cdisort.nonscat.c:8988-9022 | the unrolled inner product is the sum of the products of the two slices |
| Kernels.Sscal | src/attic/cdisort.nonscat.c:9042-9072 | multiplies every element of the slice and touches nothing else |
| Kernels.Isamax | src/attic/cdisort.nonscat.c:9088-9114 | the position of the first maximum; 0, not a position, on an all-zero slice of more than one element |
| Kernels.FirstMaxIsFirstMaximum | src/attic/cdisort.nonscat.c:9088-9114 | the index found is the first one of largest magnitude, and none is found exactly when every entry is zero |
| Elimination.StepRow | src/attic/cdisort.nonscat.c:8716-8757 | row by row, one elimination step is an exchange followed by adding a multiple of the pivot row |
| Elimination.StepKernel | src/attic/cdisort.nonscat.c:8716-8757 | one elimination step neither gains nor loses kernel vectors |
| Factorization.FailedSearchIsSingular | src/attic/cdisort.nonscat.c:8720-8727 | a pivot search that finds only zeros exhibits a kernel vector of the original matrix |
| Factorization.RegularIffIndependent | src/attic/cdisort.nonscat.c:8716-8757 | the first k pivot searches find a nonzero entry if and only if the first k columns of the matrix are independent |
| Factorization.LastPivotDecides | src/attic/cdisort.nonscat.c:8759-8761 | once all earlier searches succeed, the last diagonal entry is nonzero exactly for a nonsingular matrix |
| Factorization.RegularIffNonsingular | src/attic/cdisort.nonscat.c:8716-8761 | every pivot search finds a nonzero entry if and only if the matrix is nonsingular |
| Factorization.SolutionSolves | src/attic/cdisort.nonscat.c:8816-8839 | for every nonsingular matrix, forward elimination and back substitution with the stored factors and pivots solve A x = y, and the stored diagonal is nonzero |
| TransposedSolve.TransposedSolutionSolves | src/attic/cdisort.nonscat.c:8840-8861 | the same factors, used in the order of the nonzero job, solve the transposed system |
| Growth.MultiplierBound | src/attic/cdisort.nonscat.c:8733-8737 | every stored multiplier has magnitude at most 1, at every later stage |
| Growth.GrowthBound | src/attic/cdisort.nonscat.c:8716-8757 | after k steps every active entry is at most 2 to the power k times the largest initial magnitude |
| DenseSolver.Sgefa | src/attic/cdisort.nonscat.c:8702-8764 | leaves the factors and pivot indices in place for any matrix with a nonzero first column; info is the last zero pivot met; where the columns before the last are independent it is 0 if and only if the matrix is nonsingular |
| DenseSolver.Sgesl | src/attic/cdisort.nonscat.c:8804-8864 | from the factors of a nonsingular matrix: job 0 leaves the x with A x = b in b, any other job the x with transpose(A) x = b |
| SingularInput.InfoIsZero | src/attic/cdisort.nonscat.c:8720-8761 | for every matrix, info is 0 if and only if the last diagonal entry is nonzero and every search that fails before the last step reads a nonzero entry in the row above the diagonal |
| SingularInput.InfoIsRight | src/attic/cdisort.nonscat.c:8720-8761 | info tells singular from nonsingular if and only if the columns before the last are independent, or the last diagonal entry is zero, or some failed search reads a zero |
| SingularInput.SingularityMissed | src/attic/cdisort.nonscat.c:8720-8761 | a concrete singular matrix for which info is 0 |
| SingularInput.BandInfoIsRight | src/attic/cdisort.nonscat.c:8318-8361 | the same for the band code, with the entries that its own steps produce |
| SingularInput.TriangularInfoIsRight | src/attic/cdisort.nonscat.c:8318-8361 | without subdiagonals info of the band code is 0 if and only if the matrix is nonsingular |
| SingularInput.SingularityMissedInBand | src/attic/cdisort.nonscat.c:8318-8361 | a concrete singular band matrix for which info of the band code is 0 |
| BandMatrix.BandStep | src/attic/cdisort.nonscat.c:8318-8356 | one elimination step keeps the band: the pivot is within ml rows and fill-in reaches at most mu columns beyond the pivot row |
| BandMatrix.BandStage | src/attic/cdisort.nonscat.c:8306-8357 | after every step the fill-in stays within ml + mu superdiagonals and every pivot within ml rows of the diagonal |
| BandMatrix.MissedEntry | src/attic/cdisort.nonscat.c:8318-8355 | after a failed search the step exchanges two rows and changes nothing else |
| BandMatrix.BandNextInBand | src/attic/cdisort.nonscat.c:8306-8357 | a step of the band code keeps the storage band and its reach, whether its search succeeds, ends on a zero, or reads one row too high |
| BandSolver.BandFindPivot | src/attic/cdisort.nonscat.c:8318-8325 | the search in the packed column finds the pivot row of the dense elimination |
| BandSolver.BandClear | src/attic/cdisort.nonscat.c:8311-8314 | the lazily zeroed fill-in column destroys no entry that is still in use |
| BandSolver.BandEliminateStep | src/attic/cdisort.nonscat.c:8331-8355 | on the skewed array, exchange, multipliers and column updates are one step of the dense elimination, cut off at the reach |
| BandSolver.BandFactorStep | src/attic/cdisort.nonscat.c:8306-8357 | after step k the unpacked array, the reach and the pivot are those of k steps of elimination within the band |
| BandSolver.BandIsDense | src/attic/cdisort.nonscat.c:8306-8357 | as long as the searches succeed, elimination that stops at the reach is the dense elimination, with the same pivots |
| BandSolver.Sgbfa | src/attic/cdisort.nonscat.c:8275-8364 | on every band matrix, the packed array, the pivots and info end as elimination within the band leaves them; where the columns before the last are independent these are the factors and pivots of the dense elimination, and info is 0 if and only if the matrix is nonsingular |
| BandSolve.Sgbsl | src/attic/cdisort.nonscat.c:8408-8483 | from those packed factors: job 0 leaves the x with A x = b in b, any other job solves the transposed system |
| DeltaScaling.Similarity | src/attic/cdisort.nonscat.c:3500-3512 | scaling leaves thickness times one less albedo times moment unchanged, for every Legendre moment |
| DeltaScaling.RescaledAlbedoRange | src/attic/cdisort.nonscat.c:3500-3507 | the scaled albedo is at least 0 and less than 1 |
| DeltaScaling.AbsorptionInvariant | src/attic/cdisort.nonscat.c:3487-3516 | the absorption optical depth of every level is the same before and after scaling |
| DeltaScaling.CutLayerMeaning | src/attic/cdisort.nonscat.c:3489-3493 | the layer counted is the one in which the absorption optical depth reaches 10, if it does |
| DeltaScaling.DepthOrder | src/attic/cdisort.nonscat.c:3505-3508 | scaled depths do not decrease downwards, and grow exactly where the unscaled ones do |
| DeltaScaling.LevelWithin | src/attic/cdisort.nonscat.c:3577-3580 | a level in a layer stays in it, on a boundary only if it was there |
| DeltaScaling.LevelOrder | src/attic/cdisort.nonscat.c:3570-3582 | levels keep their order, strictly, whatever layers they are placed in |
| DeltaScaling.LevelIndependentOfLayer | src/attic/cdisort.nonscat.c:3570-3582 | a level on interfaces gets the same scaled depth from every layer that holds it |
| DeltaScaling.LevelPlaced | src/attic/cdisort.nonscat.c:3570-3582 | every level between the top and the bottom of the medium is placed in a layer that holds it, before and after scaling |
| DeltaScaling.PlacedAbove | src/attic/cdisort.nonscat.c:3570-3582 | a level is placed in one of the first k layers if and only if it is not below them |
| DisortSetup.ScaleLayers | src/attic/cdisort.nonscat.c:3482-3516 | albedo, thickness, depth, separated fraction and moments of every scaled layer, and the layer count and absorption for the cut-off |
| DisortSetup.PlaceLevels | src/attic/cdisort.nonscat.c:3570-3582 | every level gets the first layer that holds it, else the last, and the depth that goes with it |
| DisortSetup.DisortSet | src/attic/cdisort.nonscat.c:3473-3582 | the parts together, with the decision to cut the medium off and the boundary levels |
| FieldLevels.TwoStreamSingleValued | src/attic/cdisort.nonscat.c:10020-10055 | in a two-stream field both intensities at a depth are the same from every layer that holds it |
| FieldLevels.StreamSingleValued | src/attic/cdisort.nonscat.c:2189-2210 | in a stream field every intensity at a depth is the same from every layer that holds it |
| FieldLevels.TwoStreamLevel | src/attic/cdisort.nonscat.c:10684-10702 | the two-stream intensities at a level do not depend on which of the layers that hold it is used |
| FieldLevels.StreamLevel | src/attic/cdisort.nonscat.c:3570-3582 | nor do the intensities of the streams |
| TwoStreamSetup.ScaledRepresentable | src/attic/cdisort.nonscat.c:10587-10611 | a layer that scatters neither everything nor only straight on leaves the scaling with an albedo below 1 and an asymmetry that either quadrature represents |
| TwoStreamSetup.ScaleLayers | src/attic/cdisort.nonscat.c:10581-10615 | every layer of the two-stream code is scaled with the square of its asymmetry, and can then be represented |
| TwoStreamEigen.ModeOfRoots | src/attic/cdisort.nonscat.c:10160-10164 | KK and RR give a solution of the two-stream equations of the layer |
| TwoStreamEigen.ReflectanceRange | src/attic/cdisort.nonscat.c:10160-10164 | the reflectance of an absorbing layer is above -1 and below 1, and at least 0 if and only if the layer does not scatter or 3 GGPRIM cmu squared is at most 1 |
| TwoStreamEigen.HomogeneousSolutions | src/attic/cdisort.nonscat.c:10156-10164 | every layer gets an eigenvalue and a reflectance that solve its equations, with the reflectance in [0, 1) |
| TwoStreamSetup.ScaledColumnPhysical | src/attic/cdisort.nonscat.c:10156-10164 | what scaling and eigenvalues hand to the solver is a physical column |
| TwoStreamSystem.InterfaceRows | src/attic/cdisort.nonscat.c:10830-10841 | the two combined rows of an interface are equivalent to its two continuity equations when the product of the neighbouring reflectances is not 1 |
| TwoStreamContinuity.InterfaceEquations | src/attic/cdisort.nonscat.c:10830-10886 | both rows of an interface, right-hand sides included, hold if and only if both intensities are continuous there |
| TwoStreamContinuity.SystemIsRadiationField | src/attic/cdisort.nonscat.c:10819-10909 | constants solve the tridiagonal system if and only if the intensities they give are continuous at every interface and meet the top and bottom boundary equations |
| TwoStreamSolver.FillDiagonals | src/attic/cdisort.nonscat.c:10819-10858 | the three diagonals hold the tridiagonal matrix of the system |
| TwoStreamSolver.FillRightHandSide | src/attic/cdisort.nonscat.c:10864-10909 | b holds the right-hand side of the system |
| TwoStreamSolver.PackBand | src/attic/cdisort.nonscat.c:10913-10928 | the packed array holds the tridiagonal matrix with one diagonal on either side and no foreign entries in the band |
| TwoStreamSolver.SolveBoundaryConditions | src/attic/cdisort.nonscat.c:10789-10947 | for a nonsingular system, the constants left in LL are those of a continuous radiation field that meets the boundary equations |
| TwoStreamSolver.Intensities | src/attic/cdisort.nonscat.c:10020-10055 | at every lit level both intensities are those of the radiation field that the constants describe |
| SlabReflection.LayerRelation | src/attic/cdisort.nonscat.c:10819-10858 | without sources the reflectance of the layers above fixes the two constants of a layer up to a factor, and the reflectance below it |
| SlabReflection.SlabReflectanceRange | src/attic/cdisort.nonscat.c:10819-10858 | the reflectance of any stack of physical layers, seen from below, is at least 0 and less than 1 |
| TwoStreamSolvable.KernelIsDarkField | src/attic/cdisort.nonscat.c:10819-10858 | the kernel of the matrix consists of the radiation fields without sources |
| TwoStreamSolvable.NonsingularIffUnbalanced | src/attic/cdisort.nonscat.c:10819-10858 | for any number of physical layers, the system is nonsingular if and only if the bottom is truncated or 2 albedo cmu times the reflectance of the column is not 1 |
| TwoStreamSolvable.TwoStreamNonsingular | src/attic/cdisort.nonscat.c:10819-10858 | in particular it is nonsingular whenever 2 albedo cmu is at most 1 |
| TwoStreamSetup.SolvableForAlbedo | src/attic/cdisort.nonscat.c:10705-10718 | with cmu 0.5 every albedo up to 1 gives a nonsingular system, with cmu squared 1/3 every albedo whose square is at most 3/4 |
| TwoStreamSolvable.BrightSurfaceCanBeSingular | src/attic/cdisort.nonscat.c:10855-10858 | a concrete layer and an albedo below 1 for which the system is singular |
| StreamContinuity.MatrixEntry | src/attic/cdisort.nonscat.c:3763-3860 | every entry of the matrix is what the stretch of its column prescribes for its row and layer |
| StreamField.InterfaceParticular | src/attic/cdisort.nonscat.c:4289-4293 | the right-hand side at an interface is the jump of the particular solution |
| StreamField.BottomParticular | src/attic/cdisort.nonscat.c:4236-4416 | the right-hand side at the surface is reflected particular solution and surface source less the upward particular solution, in both geometries |
| StreamRows.TopRow | src/attic/cdisort.nonscat.c:3794-3812 | a row of the top boundary holds if and only if the downward intensity at the top is the incident one |
| StreamRows.InterfaceRow | src/attic/cdisort.nonscat.c:3763-3789 | a row of an interface holds if and only if that stream is continuous there |
| StreamRows.BottomRow | src/attic/cdisort.nonscat.c:3817-3860 | a row of the bottom boundary holds if and only if the upward intensity there is the reflected and emitted one |
| StreamRows.SystemIsRadiationField | src/attic/cdisort.nonscat.c:3763-3860 | for any number of layers and streams, constants solve the block system if and only if the intensities are continuous at every interface and meet the boundary conditions |
| StreamSolver.SetMatrix | src/attic/cdisort.nonscat.c:3727-3863 | fills exactly the packed band of the block system with 3 nn - 1 diagonals on either side |
| StreamSolver.FillRhs | src/attic/cdisort.nonscat.c:4212-4416 | b holds the right-hand side, in the azimuthal, thermal and beam cases of both geometries; zeros stay in the bottom rows of the two cases that do not set them |
| StreamSolver.RhsComplete | src/attic/cdisort.nonscat.c:4248-4355 | it is the right-hand side of the radiation field if and only if the bottom rows are set, or would hold zeros |
| StreamRows.FilledSystem | src/attic/cdisort.nonscat.c:4212-4416 | with the right-hand side as filled, the system stands for the radiation field or, where the bottom rows are not set, for a homogeneous part that meets a surface without a source |
| StreamRows.TruncatedBottomUnset | src/attic/cdisort.nonscat.c:4349-4354 | a truncated pseudo-spherical column then has its particular solution as upward intensity at the bottom, and is a radiation field if and only if that is zero |
| StreamSolver.SolveMedium | src/attic/cdisort.nonscat.c:4425-4451 | for a nonsingular system, the constants left in LL are those of a continuous field that meets the boundary conditions, the bottom one wherever its rows are set |
| StreamSolver.IntensityComponents | src/attic/cdisort.nonscat.c:2189-2210 | at every lit level and stream, the component is the homogeneous part with plane-parallel beam and thermal source, which in plane-parallel geometry is the intensity of the field |
| StreamSolver.ComponentIsIntensity | src/attic/cdisort.nonscat.c:2203-2208 | it is the intensity if and only if both geometries give the level the same beam source |
| StreamSolver.MeanIntensities | src/attic/cdisort.nonscat.c:2343-2384 | at every lit level and stream, the mean intensity is that of the field, in both geometries |
| EigenTheory.LiftPair | src/attic/cdisort.nonscat.c:4090-4121 | either root of an eigenvalue of the reduced problem gives an eigenpair of the full problem, from half-sums and half-differences |
| CouplingMatrix.FillParity | src/attic/cdisort.nonscat.c:740-746 | the polynomials at the opposite cosines, with alternating sign |
| CouplingMatrix.Reversal | src/attic/cdisort.nonscat.c:4031-4046 | the coupling of two streams is unchanged when both are reversed, and the same whichever one is |
| CouplingMatrix.FillCoupling | src/attic/cdisort.nonscat.c:4031-4038 | the upper half of CC holds the sums over the polynomials from the azimuthal order on |
| CouplingMatrix.PrepareEigenproblem | src/attic/cdisort.nonscat.c:4031-4069 | every entry of CC, the mirrored ones too, is the sum for its two streams, and the reduced matrices and their product are made from it |
| EigenSolver.BuildReduced | src/attic/cdisort.nonscat.c:4039-4069 | from the upper half of CC: sum and difference matrices with their diagonals, the lower half by symmetry, and the product handed to the eigenvalue routine |
| EigenLift.LiftEigenpairs | src/attic/cdisort.nonscat.c:4081-4123 | column c of GC is an eigenvector of the full problem for entry c of KK, for all 2 nn columns, and KK(nn+1-i) = -KK(nn+i) |
| CroutSolver.RowScales | data/Jupiter/gen_t_vs_p.c:507-520 | each scale brings the largest magnitude of its row to 1; a row of zeros is reported |
| CroutSolver.LowerPart | data/Jupiter/gen_t_vs_p.c:530-543 | finishes the column and finds the last row of largest scaled magnitude |
| CroutTheory.ZeroRowIsSingular | data/Jupiter/gen_t_vs_p.c:515-518 | the error exit is taken only for singular matrices |
| CroutTheory.PermutationInverse | data/Jupiter/gen_t_vs_p.c:544-553 | the recorded exchanges compose to a permutation of the rows |
| CroutTheory.PermutedNonsingular | data/Jupiter/gen_t_vs_p.c:544-553 | permuting rows does not change whether a matrix is singular |
| CroutTheory.EmptyColumnIsSingular | data/Jupiter/gen_t_vs_p.c:555-558 | a zero pivot after the choice of the largest means a kernel vector |
| CroutSteps.FactoredNonsingular | data/Jupiter/gen_t_vs_p.c:522-566 | a matrix that factors with a nonzero diagonal is nonsingular |
| Parity.TranspositionFlips | data/Jupiter/gen_t_vs_p.c:544-551 | an exchange of two rows changes the parity of the number of inversions |
| Parity.InterchangeFlips | data/Jupiter/gen_t_vs_p.c:544-553 | a recorded exchange flips the parity of the permutation exactly when it moves something |
| CroutDecompose.FactorColumn | data/Jupiter/gen_t_vs_p.c:522-566 | one column: product of the factors extended by a column of the row-exchanged matrix, sign flipped with the exchange, a zero pivot replaced only if the matrix is singular |
| CroutLu.LuDecompose | data/Jupiter/gen_t_vs_p.c:506-566 | for every matrix: an error for a row of zeros, else L U equals the matrix with rows permuted by index plus the tiny value where a pivot was zero, d is the parity of the permutation, and no warning is given if and only if the matrix is nonsingular |
| CroutSolve.SkippedSum | data/Jupiter/gen_t_vs_p.c:605-612 | skipping the leading zeros of the right-hand side leaves the inner product unchanged |
| CroutSolve.LuBacksub | data/Jupiter/gen_t_vs_p.c:601-622 | leaves in b the solution of the factored system for the right-hand side in permuted order |
| CroutSolve.PermutedSystem | data/Jupiter/gen_t_vs_p.c:601-604 | solving the system with permuted rows and right-hand side solves the system itself |
| CroutSolve.SolveSystem | data/Jupiter/gen_t_vs_p.c:428-435 | decomposition and substitution in sequence leave the solution of m x = y for every nonsingular matrix |
| Polynomials.RootCount | data/Jupiter/gen_t_vs_p.c:409-426 | a polynomial with n coefficients that vanishes at n distinct places is zero |
| SavitzkyGolay.NormalNonsingular | data/Jupiter/gen_t_vs_p.c:414-428 | with at least as many samples as coefficients the normal matrix is nonsingular, so the decomposition never warns |
| SavitzkyGolay.FilterReproduces | data/Jupiter/gen_t_vs_p.c:441-449 | the filter returns exactly the coefficient of any polynomial up to its order |
| SavitzkyGolay.FilterIsFittedCoefficient | data/Jupiter/gen_t_vs_p.c:441-449 | on arbitrary data the filter returns the coefficient of the fitted polynomial |
| SavitzkyGolay.FitIsLeastSquares | data/Jupiter/gen_t_vs_p.c:414-435 | the solution of the normal equations has the least sum of squared residuals of all polynomials of the order |
| SavitzkyGolayFilter.Screen | data/Jupiter/gen_t_vs_p.c:388-407 | the arguments pass if and only if nl and nr are not negative and ld <= m <= nl + nr < np |
| SavitzkyGolayFilter.SumOfPowers | data/Jupiter/gen_t_vs_p.c:415-421 | the sum of the powers over the window, counting the centre for power 0 only |
| SavitzkyGolayFilter.FillNormalMatrix | data/Jupiter/gen_t_vs_p.c:414-426 | the walk along antidiagonals fills every entry of the normal matrix |
| SavitzkyGolayFilter.StoreWeights | data/Jupiter/gen_t_vs_p.c:437-449 | weights at wrap-around positions (np - k) % np, zeros everywhere else in the row |
| SavitzkyGolayFilter.Coefficients | data/Jupiter/gen_t_vs_p.c:361-449 | first inconsistency reported and nothing written, else the row of c holds a filter for the window |
| SavitzkyGolayFilter.FilterMoments | data/Jupiter/gen_t_vs_p.c:441-449 | the weighted sum of k to the power i over the window is 1 for i = ld and 0 for every other i up to m |
| SavitzkyGolayFilter.FilterFits | data/Jupiter/gen_t_vs_p.c:441-449 | the weighted sum of arbitrary data is coefficient ld of its least-squares polynomial |
| TemperatureSmoothing.Smooth | data/Jupiter/gen_t_vs_p.c:268-304 | every level becomes the filtered value of its own window of 31 levels, skewed at the ends |
| TemperatureSmoothing.SmoothedIsLocalFit | data/Jupiter/gen_t_vs_p.c:280-304 | the smoothed value is the value at the level of the quadratic fitted to its window |
| TemperatureSmoothing.QuadraticsPassThrough | data/Jupiter/gen_t_vs_p.c:268-304 | a profile that is quadratic in the level number is unchanged, at the ends too |
| PchipSlopes.Pchst | src/attic/cdisort.nonscat.c:12227-12260 | 1, -1 or 0 as the arguments agree in sign, differ, or one is zero |
| PchipSlopes.InteriorWithin | src/attic/cdisort.nonscat.c:12420-12433 | an interior slope has the sign of both secants, or is zero, and at most three times the magnitude of either |
| PchipSlopes.InteriorIsHarmonicMean | src/attic/cdisort.nonscat.c:12421-12433 | where the secants agree in sign the slope is their weighted harmonic mean |
| PchipSlopes.EndWithin | src/attic/cdisort.nonscat.c:12386-12403 | an end slope has the sign of the near secant, or is zero, and at most three times its magnitude |
| PchipSlopes.ParabolaEnd | src/attic/cdisort.nonscat.c:12386-12389 | without the limiter the end slope is that of the parabola through three points |
| PchipSlopes.SlopesOnLine | src/attic/cdisort.nonscat.c:12386-12456 | on a straight line every slope is its slope |
| PchipTable.CheckPoints | src/attic/cdisort.nonscat.c:12350-12361 | too few points and the first place where the abscissas do not increase are told apart; otherwise they increase |
| PchipTable.SplinePchip | src/attic/cdisort.nonscat.c:12335-12459 | the points stay, every slope is set from its neighbourhood and suits both adjacent secants; on an error nothing changes |
| HermitePiece.SplintIsRise | src/attic/cdisort.nonscat.c:12544-12554 | the nested evaluation is the Hermite cubic in the fraction of the interval |
| HermitePiece.RiseMonotone | src/attic/cdisort.nonscat.c:12544-12554 | with end slopes between 0 and three times a nonnegative secant the cubic never falls |
| PchipInterpolant.PieceMonotone | src/attic/cdisort.nonscat.c:12532-12557 | each piece is monotone |
| PchipInterpolant.PieceInRange | src/attic/cdisort.nonscat.c:12532-12557 | each piece stays between its two ordinates |
| PchipInterpolant.InterpolantMonotone | src/attic/cdisort.nonscat.c:12532-12557 | for ordinates that never fall the interpolant never falls over the whole table, whichever intervals are used |
| PchipInterpolant.InterpolantFalls | src/attic/cdisort.nonscat.c:12532-12557 | for ordinates that never rise the interpolant never rises over the whole table |
| PchipInterpolant.ValueIndependentOfInterval | src/attic/cdisort.nonscat.c:12532-12557 | at any point of the table every interval that holds it gives the same value, ascending or descending |
| HuntTable.HuntUp | src/attic/cdisort.nonscat.c:12116-12135 | the doubling search upwards ends with positions on both sides of x |
| HuntTable.HuntDown | src/attic/cdisort.nonscat.c:12138-12158 | the doubling search downwards ends with positions on both sides of x |
| HuntTable.Bisect | src/attic/cdisort.nonscat.c:12165-12173 | bisection ends with adjacent positions on both sides of x |
| HuntTable.HuntPlaceInTable | src/attic/cdisort.nonscat.c:12056-12177 | for every guess the search ends, the index is in 0..n-2 and the length of its interval is returned; the end intervals take what the comparison puts there, everything else gets an interval that holds it |
| HuntTable.InsideBelowLast | src/attic/cdisort.nonscat.c:12117-12120 | the upward exit that leaves the length unset is never taken |
| HuntTable.InsideAboveFirst | src/attic/cdisort.nonscat.c:12139-12142 | the downward exit that leaves the length unset is never taken |
| HuntTable.ExactBrackets | src/attic/cdisort.nonscat.c:12067-12097 | with an exact comparison every x in range gets an interval that holds it |
| HuntTable.TwoGuesses | src/attic/cdisort.nonscat.c:12056-12176 | the interpolated value does not depend on the guess, for any comparison and any x; it is that of the end interval where the comparison puts x there, else that of an interval that holds x, as it always is with an exact comparison and x in range |
| CompactIntegration.StepExact | src/attic/cdisort.nonscat.c:11316-11331 | the interior step is the exact integral of any cubic through its four points, on any uneven grid |
| CompactIntegration.CompactIntegrate | src/attic/cdisort.nonscat.c:11289-11341 | abscissas and ordinates stay, and every entry is the one before plus the gain of its interval |
| CompactIntegration.CubicsExact | src/attic/cdisort.nonscat.c:11314-11333 | samples of a cubic integrate exactly from the second to the last point but one |
| CompactIntegration.LinesExact | src/attic/cdisort.nonscat.c:11304-11338 | samples of a straight line integrate exactly over the whole table, end steps included |
| DoubleScatter.Advance | src/attic/cdisort.nonscat.c:3101-3104 | the search index only advances, stays in the table and stops at the first interval that reaches the area |
| DoubleScatter.Sign | src/attic/cdisort.nonscat.c:3109-3126 | the shortcuts for equal signs agree with the sign of the interpolated value |
| DoubleScatter.Place | src/attic/cdisort.nonscat.c:3105-3126 | the divisors are nonzero and the piecewise-linear cumulative area at the angle is exactly the area asked for |
| DoubleScatterTheory.DividesInOrder | src/attic/cdisort.nonscat.c:3100-3107 | larger areas are reached at larger angles, whatever intervals they are placed in |
| DoubleScatter.PrepDoubleScatIntegr | src/attic/cdisort.nonscat.c:3061-3140 | for every level: angles rise strictly from -1 to 1, the cumulative area at angle i is exactly (i - 1) df, the flags tell where the function is not positive, and the normalization is set |
| MicrophysicsTheorems.FiniteRatesConserve | src/clouds/epic_microphysics.c:503-531 | the finite-rate transfers leave the sum of the five phases unchanged, for arbitrary closure values |
| MicrophysicsTheorems.FiniteRatesNonnegative | src/clouds/epic_microphysics.c:299-531 | no phase gives more than it has, if ALPHA_RAUT * DT is at most 1 and the thresholds are not negative |
| MicrophysicsTheorems.FastConversionOverspends | src/clouds/epic_microphysics.c:389-398 | if ALPHA_RAUT * DT is above 1, some nonnegative cell ends with negative cloud liquid |
| MicrophysicsTheorems.SaturationGap | src/clouds/epic_microphysics.c:305-498 | the vapor ends above its saturation value by exactly what is left of the supersaturation less what is left of the subsaturation |
| MicrophysicsTheorems.SupersaturationNotCrossed | src/clouds/epic_microphysics.c:305-498 | at or above saturation the vapor never ends below its saturation value |
| MicrophysicsTheorems.SubsaturationNotCrossed | src/clouds/epic_microphysics.c:319-498 | at or below saturation the vapor ends at or below its saturation value if and only if the cell is warm or sublimation of cloud ice stays within the subsaturation |
| MicrophysicsTheorems.ColdSublimationCanCross | src/clouds/epic_microphysics.c:365-376 | a concrete cold cell whose sublimation carries the vapor past saturation |
| MicrophysicsBudgets.CondensationSettles | src/clouds/epic_microphysics.c:308-331 | condensation and evaporation stay within the supersaturation, the subsaturation and the cloud liquid |
| MicrophysicsBudgets.IceSettles | src/clouds/epic_microphysics.c:338-377 | ice initiation and deposition stay within the supersaturation, sublimation within the cloud ice |
| MicrophysicsBudgets.FormationSettles | src/clouds/epic_microphysics.c:389-410 | conversion to rain and snow stays within cloud liquid and cloud ice |
| MicrophysicsBudgets.CollectionSettles | src/clouds/epic_microphysics.c:412-438 | collection by rain and snow stays within what conversion left |
| MicrophysicsBudgets.PrecipitationSettles | src/clouds/epic_microphysics.c:440-498 | rain and snow never both exchange with vapor, and the exchange stays within the budgets and within the precipitation |
| MicrophysicsTheorems.InstantaneousMoves | src/clouds/epic_microphysics.c:164-212 | melting and freezing conserve moisture, leave vapor alone, overspend nothing and move all of a phase or none of it |
| Microphysics.ComputeRates | src/clouds/epic_microphysics.c:276-498 | the rates computed from the running budgets are those of the process-by-process specification |
| Microphysics.FiniteRateProcesses | src/clouds/epic_microphysics.c:221-537 | the row of the cell becomes the transferred phases, its heating changes with the rates, all other cells stay |
| Microphysics.InstantaneousProcesses | src/clouds/epic_microphysics.c:143-219 | the row of the cell becomes the melted or frozen phases, its heating changes with the rates, all other cells stay |
| Microphysics.RestoreMassMin | src/clouds/epic_microphysics.c:589-609 | every phase of every cell is brought up to the floor and otherwise kept |
| Microphysics.CloudMicrophysics | src/clouds/epic_microphysics.c:91-121 | every cell of a layer goes through floor, melting, finite-rate transfers and floor, independently of the others, and its heating changes by that of the two groups of processes |
| MicrophysicsRuns.RestoredFloor | src/clouds/epic_microphysics.c:597-605 | the floor holds for every phase, the total grows by exactly what is added, and with an exact comparison nothing is added where the floor already held |
| MicrophysicsRuns.RunsConserve | src/clouds/epic_microphysics.c:91-121 | after any number of steps from any state every phase is at least the floor and the total is the initial total plus exactly what the floor added, at most ten floors a step from nonnegative phases |

## Left out

- BandSolver.Sgbfa: asks for a nonzero first column when there are subdiagonals and more than one row, like DenseSolver.Sgefa; on a column of zeros the code reads storage that holds no entry.
- DenseSolver.Sgefa: asks for a nonzero first column when there is more than one row, because the code otherwise reads outside the array.
- BandSolve.Sgbsl: stated for the factors of a nonsingular matrix only, like DenseSolver.Sgesl; otherwise the code divides by zero.
- StreamSolver.SolveMedium: asks for a nonsingular block system; that property depends on the scattering kernel and is not proved. The system is factored by `c_sgbfa` directly instead of through `c_sgbco`. A truncated pseudo-spherical column needs room for one entry behind the system, which the code does not make sure of.
- TwoStreamSolver.SolveBoundaryConditions: the sizes of the work arrays are conditions on the caller, as in the source.
- EigenLift.LiftEigenpairs: takes positive eigenvalues and their eigenvectors from the eigenvalue routine, whose iteration is not modelled.
- CouplingMatrix.PrepareEigenproblem: the upper Legendre polynomials and the equal weights on both sides are its input; the recurrence of `c_legendre_poly` and the quadrature are not modelled.
- DisortSetup.DisortSet: asks for a moment of order nstr below 1 and an albedo below 1; the code divides by zero for a moment of 1, and changes an albedo of 1 before the call. `TwoStreamSetup.ScaleLayers` likewise asks for an asymmetry factor strictly between -1 and 1. The transmission of the beam (`EXPBEA`) and the quadrature, which the same function sets, are not part of it.
- TwoStreamEigen.HomogeneousSolutions: the particular solutions that `c_twostr_solns` computes in the same loop are inputs of the system.
- TemperatureSmoothing.Smooth: asks for at least 31 levels, because the code reads outside the profile otherwise.
- MicrophysicsTheorems.FiniteRatesNonnegative: asks for a nonnegative latent-heat term, a positive relative humidity and nonnegative thresholds; the closure formulas themselves (diffusivity, viscosity, gamma function, powers) are arbitrary values.
- Condition estimates (`c_sgbco`, `c_sgeco`): heuristics without a guarantee.
- Rounding, overflow and the value of `EPSILON`.
- Flat column-major addressing: the model indexes by row and column, so the index arithmetic of the macros is not part of it.
- Chapman functions, reflection models of the surface, Planck functions, quadrature and exponential integrals; the pseudo-spherical beam coefficients are inputs.
- The flux, mean-intensity and flux-divergence outputs of `c_twostr_fluxes` and `c_fluxes`, which are sums of the intensities.
- Source terms (`ZZ`, `ZPLK0`, `YB`, `YP`), which are inputs of the systems.
- Relative humidity, lateral boundary exchange and species loops around the microphysics of one layer; terminal velocities.
- Reading, printing and allocation.
