# Verified models of five cores of the repository

A Dafny 4.11 project. `dafny verify dfyconfig.toml` checks all of it. Each part models one core of the repository and
proves what that core is for.

**Poseidon partial rounds.** `Poseidon` gives the partial rounds of the permutation and, symbolically, the affine forms
that track every cell as a function of the inputs and of the S-box outputs so far. `PoseidonCompression` is the program:
nested loops over flattened, row-major arrays that are overwritten in place. The main theorem says that the one matrix
and one offset vector it computes replace all the rounds, for every S-box and every table. Field elements are residues
modulo the Baby Bear prime; the number of cells is a parameter.

**A STARK over a prime field.** `Polynomials`, `PolynomialArithmetic` and `Interpolation` hold the algebra: root counting,
division, Newton interpolation and the inverse of a Vandermonde matrix, its existence and its uniqueness. On top of them
are the evaluation domains (`EvaluationDomains`), mixing, splitting and the FRI rounds (`Fri`) with the number of draws
that hide a high degree (`FriSoundness`), the exact condition under which a round is local (`LocalFold`), the DEEP and
validity quotients (`Quotients`), the six constraints of the Fibonacci trace (`FibonacciTrace`), and the pipeline from
trace to validity block (`StarkDomains`, `StarkConstraints`, `StarkPipeline`). `StarkBatching` and `StarkProof` go on from
there: DEEP quotients, their mix and the commit rounds on that mix, with the exact condition for acceptance and the number
of parameters that can hide a violation. `StarkParameters` shows that the program's own field, generator and shift meet the
hypotheses, and `StarkProgram` that its own trace and constant blocks do. The field is the integers modulo an arbitrary
prime; values are exact integers and congruence is explicit.

**A counting allocator and a field circuit.** `AllocatorCounters` has the five counters as an object and, beside it, the
state machine of any number of threads executing the five atomic instructions of `count_alloc` in any interleaving. The
accesses are relaxed, so a thread's instructions may take effect in any order, except that the peak needs the value the
first one returned. `FieldCircuit` compiles a matrix-vector product into multiply-constant-add gates over the Goldilocks
field and reads the signed integers back, with the exact bound under which that always works.

**The toolchain registry.** `Versions` is Semantic Versioning 2.0.0: text and precedence. `ToolchainPaths` prints and
parses version directory names. `ToolchainModel` is the state machine of recorded defaults and version directories;
`ToolchainRegistry` holds the classes whose methods change them, proved against that state machine. Directory scans take
entries in any order. What the network, the file system and the lock file let happen is a parameter of each operation,
so every failure point is covered.

**Implementations that must agree, and two exact transformations.** `ConvNet` says what the layers of the convolutional
network compute, and `LayerMeaning` what that does to single cells; `NetworkImplementations` has the two implementations,
windows and centres, as loops over arrays, both proved to compute it. `Outline` is the script that splits a generated
function into steps, and `OutlineListing` says what else it writes. `SealEncoding` is the bit and limb arithmetic of the
identity seal.

`Prelude`, `ModArith`, `LinearAlgebra`, `Text` and `Numerals` are shared helpers.

## What the proofs found

- A FRI round agrees with the textbook local form, f(x) and f(-x) combined point by point, only for shift 1 or two points:
  the half domain is every other point, and for another shift those are not the squares. So it does not hold on the
  program's own commitment domain (`ProgramRoundsAreNotLocal`). The coefficient form, u(x) = even(x^2) + x * odd(x^2),
  holds for every shift.
- The recorded peak is the highest value an addition found, because the value before the addition is recorded. It is the
  true maximum exactly when some addition found that, and otherwise lags by up to the largest request.
- A version with two dashes in its text is installed into a directory that reads as another version: 1.0.0-a-b reads as
  1.0.0-a. A version that reads back can still have a second reader: rust 1.0.0-cpp is also read as cpp 1.0.0, which may
  then have two directories. `NewNameKeepsTidyIff` and `HarmlessIff` say exactly which versions are safe.
- A forced reinstall removes the old copy before it looks for the platform's archive and downloads it, and finds out only
  afterwards whether the new directory reads back. It loses the version exactly when the only old copy goes and no new one
  arrives under a name that reads back: 1.0.0-a-b, held in a legacy directory, is lost although removal, download and
  placement succeed.
- An uninstalled version can come back without being installed: after cpp 1.0.0 goes, an install of rust 1.0.0-cpp makes it
  found again. `UninstalledUntilPlaced` says exactly when a version stays away.
- The two DEEP blocks that `didactic_stark.py` holds as constants are evaluations of six coefficients, so the program's own
  run ends in a constant block whatever the parameters.
- Outlining changes the order of statements when an initialised declaration follows a block whose chunk is pending, as in
  the five lines of `OvertakingFile`.
- The control id can be read back from its 254 bits exactly when its little-endian value is below 2^254; 2^254 itself,
  `LostControlId`, is the first that cannot.

## Model

| member | source | states |
|---|---|---|
| Poseidon.CompressionRefinesRounds | risc0/xtask/src/bootstrap_poseidon.rs:160-231 | One S-box chain and one matrix-vector product with the compressed matrix and offset give exactly the state after all partial rounds, for every input, S-box, number of cells and rounds, round constants and MDS matrix |
| Poseidon.SboxRowsAreCausal | risc0/xtask/src/bootstrap_poseidon.rs:188-192 | The row of the S-box of round r is zero from column cells + r on, so the chain of S-box outputs is well defined |
| Poseidon.SboxOutputsFormChain | risc0/xtask/src/bootstrap_poseidon.rs:188-200 | Computing the S-box outputs one after the other solves the equation each of them is defined by over the whole chain |
| Poseidon.FormFollowsRounds | risc0/xtask/src/bootstrap_poseidon.rs:182-221 | After any number of rounds the symbolic form, evaluated at the S-box chain, is the state the plain rounds reach |
| Poseidon.RoundDenotes | risc0/xtask/src/bootstrap_poseidon.rs:184-220 | One symbolic round (add constants, replace cell 0, multiply) follows one plain round (add constants, S-box on cell 0, multiply) |
| Poseidon.MultiplyDenotes | risc0/xtask/src/bootstrap_poseidon.rs:202-220 | Multiplying matrix and offset by the MDS table multiplies the state they stand for |
| Poseidon.SboxRowDenotes | risc0/xtask/src/bootstrap_poseidon.rs:188-192 | The recorded row and offset, over the inputs and the earlier S-box outputs alone, give the S-box input of that round |
| Poseidon.FormIsCausal | risc0/xtask/src/bootstrap_poseidon.rs:194-220 | No cell depends on an S-box output of a later round |
| PoseidonCompression.ComputedConstants.ComputePartialCompression | risc0/xtask/src/bootstrap_poseidon.rs:160-231 | The in-place program leaves the flattened compressed matrix and the offsets in the last two fields and touches nothing else; and for every S-box, every run of partial rounds read off the tables and every S-box chain over those two fields, they give the state after the last round |
| PoseidonCompression.RoundReadsTables | risc0/xtask/src/bootstrap_poseidon.rs:183-221 | A partial round adds constant (half + r) * cells + k to cell k, applies the S-box to cell 0 and multiplies by the MDS table, entry i being the sum over k of mds[i * cells + k] * a[k]; nothing else is a round |
| PoseidonCompression.FlatTablesComputeRounds | risc0/xtask/src/bootstrap_poseidon.rs:160-231 | For every table, S-box, sequence of such rounds and S-box chain, row i of the flattened result gives cell i of the last state |
| PoseidonCompression.RunExists | risc0/xtask/src/bootstrap_poseidon.rs:160-231 | For every input and S-box there are such rounds and such a chain |
| PoseidonCompression.WriteState | risc0/xtask/src/bootstrap_poseidon.rs:222-228 | The rows of the final state complete the result |
| PoseidonCompression.Compress | risc0/xtask/src/bootstrap_poseidon.rs:166-228 | The nested loops over flattened arrays fill every row of the result: S-box rows round by round, the final state at the end |
| PoseidonCompression.CompressRound | risc0/xtask/src/bootstrap_poseidon.rs:183-221 | One pass of the round loop turns the form after r rounds into the form after r + 1, in place, and completes one more result row without disturbing the others |
| PoseidonCompression.InitialForm | risc0/xtask/src/bootstrap_poseidon.rs:174-180 | The starting arrays are the flattened identity and zero offsets |
| PoseidonCompression.AddRoundConstants | risc0/xtask/src/bootstrap_poseidon.rs:184-187 | Each offset gets the constant of its own cell and of the right round in the flattened table |
| PoseidonCompression.WriteRow | risc0/xtask/src/bootstrap_poseidon.rs:188-192 | One row and one offset are copied; all other cells of the result keep their values |
| PoseidonCompression.ReplaceRow0 | risc0/xtask/src/bootstrap_poseidon.rs:193-201 | Row 0 becomes the unit row of the new S-box output with offset 0; the other rows stay |
| PoseidonCompression.MultiplyMatrix | risc0/xtask/src/bootstrap_poseidon.rs:203-213 | The flattened product with the MDS table is computed from the saved copy while the original is being overwritten |
| PoseidonCompression.MultiplyOffset | risc0/xtask/src/bootstrap_poseidon.rs:204-220 | The offsets are multiplied by the MDS table from the saved copy |
| PoseidonCompression.RowsKept | risc0/xtask/src/bootstrap_poseidon.rs:188-192 | Writing one row of the flattened result completes that row and leaves every finished row finished |
| Polynomials.RootCount | risc0/website/static/didactic_stark.py:83-88 | A polynomial with at least as many distinct roots modulo a prime as it has coefficients is zero |
| Polynomials.Identity | risc0/website/static/didactic_stark.py:83-88 | Two polynomials that agree at as many distinct points as they have coefficients have the same coefficients modulo the prime |
| Polynomials.FactorTheorem | risc0/website/static/didactic_stark.py:83-88 | Evaluation at x is evaluation at z plus (x - z) times the synthetic quotient at x |
| Polynomials.EvalIsDot | risc0/website/static/didactic_stark.py:83-88 | The product of coefficients and powers of a point is the value of the polynomial there |
| Polynomials.EvalPadded | risc0/website/static/didactic_stark.py:72-80 | Padding coefficients with zeros does not change the value at any point |
| Interpolation.VandermondeRow | risc0/website/static/didactic_stark.py:38-53 | A row of the evaluation matrix, its powers reduced, times the coefficients is the value at that point modulo the prime |
| Interpolation.InterpolationRoundTrip | risc0/website/static/didactic_stark.py:117-130 | On distinct points the inverse evaluation matrix applied to the evaluations of c gives back exactly the coefficients of c |
| Interpolation.InverseIsLeft | risc0/website/static/didactic_stark.py:117-119 | On distinct points the evaluation matrix has a left inverse modulo the prime |
| Interpolation.LeftInverseIsUnique | risc0/website/static/didactic_stark.py:117-119 | Any matrix a numeric library may return as left inverse is that one modulo the prime |
| Interpolation.InterpolateHits | risc0/website/static/didactic_stark.py:117-130 | The interpolating polynomial takes the given values at the given points |
| EvaluationDomains.FieldReciprocal | risc0/website/static/didactic_stark.py:59-64 | The reciprocal of a non-zero element is a reduced non-zero element whose product with it is 1 |
| EvaluationDomains.EvaluationDomain.constructor | risc0/website/static/didactic_stark.py:22-29 | A domain carries the domains of its even-indexed points, recursively down to one point |
| EvaluationDomains.EvaluationDomain.AsVandermondeMatrix | risc0/website/static/didactic_stark.py:38-46 | The stored matrix holds the i-th power of point j at (j, i) |
| EvaluationDomains.EvaluationDomain.Evaluate | risc0/website/static/didactic_stark.py:48-53 | The commitment is the reduced value of the polynomial at every point, for any coefficient list that fits |
| EvaluationDomains.FromShiftGeneratorSize | risc0/website/static/didactic_stark.py:31-36 | The points are the shift times the successive powers of the generator |
| EvaluationDomains.ShiftedPowerCong | risc0/website/static/didactic_stark.py:31-36 | Point i is the shift times the i-th power of the generator |
| EvaluationDomains.ExtendArray | risc0/website/static/didactic_stark.py:72-80 | The short array is copied to the front of a zero array |
| EvaluationDomains.ShiftedPowersDistinct | risc0/website/static/didactic_stark.py:31-36 | With a non-zero shift and generator the points are distinct exactly when no smaller positive power of the generator than the size is 1 |
| EvaluationDomains.EvensDistinct | risc0/website/static/didactic_stark.py:26-29 | Halving keeps the points of a domain distinct |
| Fri.Mix | risc0/website/static/didactic_stark.py:91-99 | The accumulating loop gives, in every row, the polynomial with the blocks as coefficients evaluated at the parameter |
| Fri.MixedIsSum | risc0/website/static/didactic_stark.py:91-99 | Entry k of the mix is the sum over i of entry k of block i times the i-th power of the parameter |
| Fri.MixingSoundness | risc0/website/static/didactic_stark.py:91-99 | If some block is non-zero in a row, fewer parameters than there are blocks make the mix zero in that row |
| Fri.Split | risc0/website/static/didactic_stark.py:112-143 | The two blocks are the evaluations, over the half domain, of the even and the odd coefficients of the block |
| Fri.CoefficientsOfEvaluations | risc0/website/static/didactic_stark.py:129-130 | Splitting starts from the coefficients the block was evaluated from |
| Fri.EvaluationsOfCoefficients | risc0/website/static/didactic_stark.py:129-143 | Every block of reduced values is the evaluation of the coefficients found for it |
| Fri.FoldRound | risc0/website/static/didactic_stark.py:146-167 | One round takes the evaluations of c to the evaluations, over every other point, of c[2i] + a * c[2i + 1], on any distinct points |
| Fri.FriCommit | risc0/website/static/didactic_stark.py:146-170 | The recursion, reusing and updating the nested domain objects, computes the rounds one after the other |
| Fri.FriFoldsCoefficients | risc0/website/static/didactic_stark.py:146-170 | Any number of rounds takes the evaluations of c to the evaluations of the repeatedly folded coefficients on the repeatedly halved domain |
| Fri.ThreeFolds | risc0/website/static/didactic_stark.py:146-170 | Of three rounds the first parameter weighs the odd places, the second the odd pairs, the third the odd fours of eight coefficients in a row |
| Fri.HalvedPoints | risc0/website/static/didactic_stark.py:26-29 | Point i after k halvings is point 2^k * i of the domain |
| Fri.FriDegree | risc0/website/static/didactic_stark.py:146-170 | k rounds turn a degree bound n into n / 2^k, rounded up |
| FriSoundness.FoldDropsOnce | risc0/website/static/didactic_stark.py:146-167 | Of the parameters modulo the prime at most one folds a polynomial that is not of degree below 2n to one of degree below n, for an even number of coefficients |
| FriSoundness.FriIsSound | risc0/website/static/didactic_stark.py:146-170 | Over k rounds a polynomial that is not of degree below 2^k * n is folded below degree n by at most k * p^(k - 1) of the p^k draws of parameters |
| FriSoundness.SomeDrawShows | risc0/website/static/didactic_stark.py:146-170 | Some draw of zeros and ones does not fold a polynomial that is not of degree below 2^k * n below degree n |
| FriSoundness.FinalBlockConstantIff | risc0/website/static/didactic_stark.py:146-170 | The last block of any number of rounds is constant exactly when the folded coefficients are those of a constant |
| FriSoundness.FinalBlockIsSound | risc0/website/static/didactic_stark.py:146-170 | The evaluations of a polynomial that is not of degree below 2^k end as a constant block for at most k * p^(k - 1) of the p^k draws |
| LocalFold.RoundsAreLocalIff | risc0/website/static/didactic_stark.py:112-143 | For all blocks and parameters a round equals (f(x) + f(-x)) / 2 + a * (f(x) - f(-x)) / (2x) point by point exactly when the domain has two points or its shift is 1 |
| LocalFold.LocalFoldAtSquare | risc0/website/static/didactic_stark.py:123-126 | For every shift the local fold is the folded polynomial at the square of the point |
| LocalFold.OppositePoint | risc0/website/static/didactic_stark.py:31-36 | On a domain of even size whose generator has exactly that order, the point half way round is the negative |
| LocalFold.EvenOdd | risc0/website/static/didactic_stark.py:123-126 | u(x) is even(x^2) + x * odd(x^2) |
| LocalFold.SquareBlockIsNotLocal | risc0/website/static/didactic_stark.py:26-29 | With four points or more and a shift other than 1, the block of X^2 is a counterexample to the local form |
| Quotients.DeepIff | risc0/website/static/didactic_stark.py:102-109 | The DEEP quotient is a block of evaluations of degree one lower exactly when the claimed value is the value of the polynomial at the test point |
| Quotients.ValidityIff | risc0/website/static/didactic_stark.py:545-578 | The quotient by X^n - 1 is a block of low degree exactly when the constraint polynomial vanishes on all n trace points |
| Quotients.ValidityComplete | risc0/website/static/didactic_stark.py:545-578 | When the constraint polynomial vanishes on the n trace points, the quotient has n coefficients fewer than it |
| Quotients.DivisionByZeros | risc0/website/static/didactic_stark.py:553-555 | Dividing by X^n - 1 leaves a remainder with at most n coefficients: value = (x^n - 1) * quotient + remainder |
| Quotients.EvalZerosPoly | risc0/website/static/didactic_stark.py:548-555 | The coefficients -1, 0, ..., 0, 1 evaluate to x^n - 1 |
| FibonacciTrace.ComputeRecursionConstraint | risc0/website/static/didactic_stark.py:412-450 | The loop compares each entry with the next column one computational step before, cyclically, and multiplies by the selector |
| FibonacciTrace.SatisfiedIffRuns | risc0/website/static/didactic_stark.py:343-450 | All six constraint columns vanish modulo an odd prime exactly when rows 0 to m start at (24, 30), add up, take over from one step before and end in 28, whatever the padding holds |
| FibonacciTrace.SatisfiedIffFibonacci | risc0/website/static/didactic_stark.py:343-450 | When a step is one row, that is: the data columns hold the Fibonacci sequence from (24, 30) and its element m + 2 is 28 modulo the prime |
| StarkConstraints.ConstraintIsPoly | risc0/website/static/didactic_stark.py:343-450 | On any domain that steps back by a constant factor a constraint block is the evaluation of a fixed polynomial in the trace polynomials |
| StarkDomains.DomainStepsBack | risc0/website/static/didactic_stark.py:412-427 | An eighth of the rows back on the domain is multiplication by the inverse of the eighth root of unity |
| StarkPipeline.MixedIsPoly | risc0/website/static/didactic_stark.py:472-508 | Mixing the blocks and evaluating the mixed polynomial are the same |
| StarkPipeline.MixedConstraints | risc0/website/static/didactic_stark.py:343-508 | Entry i of the mixed constraints is the sum of the six constraints, spelled out over the trace, in the order of the program and times the powers of the parameter |
| StarkPipeline.ValidityBlockIff | risc0/website/static/didactic_stark.py:343-578 | The committed validity block has low degree exactly when all eight mixed rows of the trace are zero |
| StarkPipeline.Completeness | risc0/website/static/didactic_stark.py:284-578 | The validity block of a trace that satisfies the constraints is the evaluation of seven coefficients, whatever the mixing parameter |
| StarkParameters.ProgramIsValid | risc0/website/static/didactic_stark.py:10-17 | The parameters of the program (97 elements, 32 points, generator 125, the power 96 / 32 of the primitive root 5, and shift 5) satisfy every hypothesis of the theorems about the pipeline |
| StarkParameters.ProgramPipeline | risc0/website/static/didactic_stark.py:284-773 | With the parameters of the program an honest trace has a validity block of seven coefficients and honest claims end constant for every draw, with all 97 constraint and batching parameters; for any other trace at most five constraint parameters give 24 coefficients or fewer, and at most five let some claims pass more than 3 * 97^2 of the 97^3 draws for more than six batching parameters |
| StarkParameters.ProgramRoundsAreNotLocal | risc0/website/static/didactic_stark.py:10-36 | On the commitment domain of the program, 32 points with shift 5, some block and parameter make a round differ from the local form |
| StarkProgram.TraceIsSatisfied | risc0/website/static/didactic_stark.py:193-206 | The trace that the program holds satisfies all six constraints |
| StarkProgram.ConstantBlocks | risc0/website/static/didactic_stark.py:650-720 | The two blocks that the program holds as constants are the evaluations of six coefficients each on its commitment domain, which does not contain the test point 93 |
| StarkProgram.ProgramRun | risc0/website/static/didactic_stark.py:193-773 | The run of the program, with its own trace, claims and constant blocks, ends in a constant block for every constraint, batching and round parameter |
| StarkParameters.ShiftLeavesSubgroup | risc0/website/static/didactic_stark.py:279-284 | A coset whose shift lies outside the group of the generator shares no point with the trace domain |
| StarkPipeline.Soundness | risc0/website/static/didactic_stark.py:284-578 | A trace that breaks any constraint in any row passes with at most five mixing parameters |
| StarkBatching.DeepLowIff | risc0/website/static/didactic_stark.py:101-109 | The DEEP quotient of a block has n coefficients exactly when the claimed value is the value of its polynomial and the block has n + 1 |
| StarkBatching.DeepSource | risc0/website/static/didactic_stark.py:101-109 | A DEEP quotient of n coefficients comes from a block of n + 1, whatever value was claimed |
| StarkBatching.LowDegreeIff | risc0/website/static/didactic_stark.py:590-596 | A block has n coefficients exactly when the high coefficients of its interpolation are zero |
| StarkBatching.MixedEvaluations | risc0/website/static/didactic_stark.py:91-99 | Mixing blocks of evaluations and evaluating the mixed coefficients are the same |
| StarkBatching.MixSeldomLow | risc0/website/static/didactic_stark.py:735-746 | If one block does not have n coefficients, fewer batching parameters than there are blocks mix them to n coefficients |
| StarkBatching.LowBlocksAccepted | risc0/website/static/didactic_stark.py:735-773 | Blocks of eight coefficients end in a constant block after batching and three commit rounds, whatever the parameters |
| StarkBatching.HighBlockRejected | risc0/website/static/didactic_stark.py:735-773 | If one block has more, some batching parameter, among any as many as there are blocks, and some draw of round parameters show it |
| StarkBatching.HighBlockSeldomAccepted | risc0/website/static/didactic_stark.py:735-773 | And fewer batching parameters than there are blocks let more than 3 p^2 of the p^3 draws of round parameters pass |
| StarkProof.DeepBlocksIff | risc0/website/static/didactic_stark.py:590-746 | For every bound n of at least 7 and below the size minus 8, all seven DEEP blocks have n coefficients exactly when the mixed constraints hold on the trace, the five claims are true, and the two given blocks have n |
| StarkProof.BatchedEntry | risc0/website/static/didactic_stark.py:735-746 | Entry i of the batched block is the sum of the seven blocks, each named, times the powers of the batching parameter |
| StarkProof.AlwaysAcceptedIff | risc0/website/static/didactic_stark.py:284-773 | The whole proof, from trace through constraints, DEEP quotients and batching to the commit rounds, ends constant for every batching parameter and every draw exactly when the mixed constraints hold on the trace, every claimed value is true, and the two given blocks have eight coefficients |
| StarkProof.SeldomAccepted | risc0/website/static/didactic_stark.py:590-773 | Otherwise at most six batching parameters let more than 3 p^2 of the p^3 draws of round parameters end constant |
| StarkProof.HonestProof | risc0/website/static/didactic_stark.py:284-773 | For a trace that satisfies the constraints and true claims the mix has seven coefficients and every draw ends constant |
| StarkProof.ProofSoundness | risc0/website/static/didactic_stark.py:284-773 | For a trace that breaks a constraint at most five constraint parameters can be passed with more than six batching parameters, whatever values are claimed at whatever point and whatever the two given blocks are |
| AllocatorCounters.Allocator.Execute | proto-neural-zkp/src/allocator.rs:45-50 | Each atomic instruction changes its own counter only; the first one returns the value it found |
| AllocatorCounters.Allocator.CountAlloc | proto-neural-zkp/src/allocator.rs:42-51 | Alone, the routine adds the size, raises the peak to the value before the addition, and counts one call |
| AllocatorCounters.Allocator.CountDealloc | proto-neural-zkp/src/allocator.rs:53-55 | Only the allocated bytes go down |
| AllocatorCounters.Allocator.CountRealloc | proto-neural-zkp/src/allocator.rs:76-84 | Growing counts the difference as one allocation, shrinking as a deallocation |
| AllocatorCounters.RunKeepsInvariant | proto-neural-zkp/src/allocator.rs:42-85 | Over every interleaving of any number of threads, with relaxed order inside the routine, the counters and the pending work of the threads account for everything requested, freed and called |
| AllocatorCounters.AllocatedIsBalance | proto-neural-zkp/src/allocator.rs:42-55 | At every moment the allocated bytes are the bytes booked minus the bytes freed |
| AllocatorCounters.PeakNeverExceeds | proto-neural-zkp/src/allocator.rs:45-49 | At every moment the recorded peak is at most the highest value an addition found, and that at most the true historical maximum |
| AllocatorCounters.PeakIsHighestFound | proto-neural-zkp/src/allocator.rs:45-49 | With no thread inside the routine the recorded peak is exactly the highest number of allocated bytes that an addition found |
| AllocatorCounters.PeakIsExactIff | proto-neural-zkp/src/allocator.rs:45-49 | With no thread inside the routine the peak is the true maximum exactly when that is 0 or some addition found it |
| AllocatorCounters.MaximumNearFound | proto-neural-zkp/src/allocator.rs:45-49 | In every run the true maximum exceeds the highest value found by at most the largest request |
| AllocatorCounters.OneCall | proto-neural-zkp/src/allocator.rs:42-51 | The five instructions of one call, executed without interruption, change the counters as the routine of the object does and leave the threads as they were |
| AllocatorCounters.AnyOrderCounts | proto-neural-zkp/src/allocator.rs:42-51 | A call may execute its five instructions in any order in which the peak comes after the addition, and alone every such order counts the same |
| AllocatorCounters.ThreadsDoNotBlock | proto-neural-zkp/src/allocator.rs:42-55 | What one thread can do next, no event of another thread takes away |
| AllocatorCounters.TrueMaximumIsMaximum | proto-neural-zkp/src/allocator.rs:45-49 | The true maximum bounds the allocated bytes at every moment and is 0 or one of them |
| AllocatorCounters.QuiescentCounters | proto-neural-zkp/src/allocator.rs:42-85 | With no thread inside the routine: the peak is the highest value found and within the largest request of the true maximum, total - allocated is the sum freed, and total, call count and largest are exact |
| AllocatorCounters.PeakMissesFirstAllocation | proto-neural-zkp/src/allocator.rs:45-49 | The gap is real: one allocation of any size leaves the peak at zero |
| FieldCircuit.ToFieldIsResidue | proto-neural-zkp/src/lib.rs:91-97 | Every 32-bit integer, the smallest included with wrapping negation, maps to its residue |
| FieldCircuit.CircuitBuilder.AddVirtualTargets | proto-neural-zkp/src/lib.rs:171-175 | Fresh input targets are appended; earlier gates stay |
| FieldCircuit.CompileDot | proto-neural-zkp/src/lib.rs:99-120 | For every setting of the inputs, the returned target has the value of the inner product of signed coefficients and inputs modulo the field |
| FieldCircuit.CompileFull | proto-neural-zkp/src/lib.rs:122-145 | Output k computes row k of the coefficient matrix times the input, one output per row, without disturbing earlier gates |
| FieldCircuit.OutputIsResidue | proto-neural-zkp/src/lib.rs:197-203 | With the inputs set to 32-bit integers a computed target is the residue of the integer product |
| FieldCircuit.QuantiserRange | proto-neural-zkp/src/lib.rs:244-247 | Quantised coefficients lie strictly between -2^bits and 2^bits and all of those survive, for shifts up to the sign bit |
| FieldCircuit.QuantiserKeepsResidue | proto-neural-zkp/src/lib.rs:244-247 | A coefficient and its quantised form differ by a multiple of 2^bits, and a quantised form that is not zero has the sign of the coefficient |
| FieldCircuit.RecoveredIff | proto-neural-zkp/src/lib.rs:244-247 | All products can be read back by the centred lift exactly when n * (2^bits - 1) * 2^31 is at most half the field |
| FieldCircuit.OutputRecovered | proto-neural-zkp/src/lib.rs:99-145 | Below that bound, lifting a computed output gives the signed integer product itself |
| FieldCircuit.Build | proto-neural-zkp/src/lib.rs:154-195 | Fresh inputs and then one inner product for each row: the finished circuit computes the matrix whose rows follow one another in the coefficients |
| FieldCircuit.CircuitIsProduct | proto-neural-zkp/src/lib.rs:154-203 | For quantised coefficients below the bound and every 32-bit input, the lifted outputs of a finished circuit are the signed matrix-vector product |
| ConvNet.PatchMaxIsMaximum | proto-neural-zkp/src/layers/maxpool.rs:44-48 | The pooled value bounds every value of the patch and is one of them |
| LayerMeaning.SingleWeight | proto-neural-zkp/src/layers/conv.rs:49-60 | A kernel that is zero but for weight v at (a, b, q) gives at (i, j) v times the cell at (i + a, j + b, q) |
| LayerMeaning.KernelsAdd | proto-neural-zkp/src/layers/conv.rs:49-60 | Convolving with a sum of kernels adds the results, so the single weights determine every convolution |
| LayerMeaning.ConvolutionShape | proto-neural-zkp/src/layers/conv.rs:32-48 | A convolution is defined exactly for an odd kernel that fits a volume of its channels, and shrinks it by the kernel less one |
| LayerMeaning.PoolingTakesMaximum | proto-neural-zkp/src/layers/maxpool.rs:30-53 | Pooled cell (i, j) bounds the cells of the patch at (i * side, j * side) and is one of them |
| LayerMeaning.PoolingShape | proto-neural-zkp/src/layers/maxpool.rs:30-53 | Pooling is defined exactly for a side that divides both dimensions |
| LayerMeaning.ReluKeepsPositive | proto-neural-zkp/src/layers/relu.rs:27-29 | Negative cells become zero and the others stay |
| LayerMeaning.FlattenPlaces | proto-neural-zkp/src/layers/flatten.rs:27-29 | Cell (i, j, k) goes to place i * w * c + j * c + k |
| LayerMeaning.DenseIsAffine | proto-neural-zkp/ref_cnn/vanilla_cnn.py:74-91 | A dense layer maps zero to its biases and a unit vector to a column of weights plus the biases, and is affine |
| LayerMeaning.DenseShape | proto-neural-zkp/ref_cnn/vanilla_cnn.py:74-91 | It is defined exactly for vectors of its number of columns, with a bias for each row |
| LayerMeaning.RunComposes | proto-neural-zkp/src/layers/mod.rs:167-181 | Layers are applied from the first to the last, and an error of one is an error of all |
| NetworkImplementations.ConvolveChannel | proto-neural-zkp/src/layers/conv.rs:49-60 | Window sums enumerated row by row and reshaped land in their own cell of one channel; other channels stay |
| NetworkImplementations.ConvolveByWindows | proto-neural-zkp/src/layers/conv.rs:32-62 | Every output cell is the kernel times the window with that corner |
| NetworkImplementations.ConvolveCentre | proto-neural-zkp/ref_cnn/vanilla_cnn.py:21-26 | All channels at one centre are written, at the centre minus half the kernel, and nothing else |
| NetworkImplementations.ConvolveByCentres | proto-neural-zkp/ref_cnn/vanilla_cnn.py:3-32 | Looping over centres gives the same volume as the windows, errors included |
| NetworkImplementations.SliceWindowSum | proto-neural-zkp/ref_cnn/vanilla_cnn.py:23-26 | Summing over the cut-out patch is summing over the window in place |
| NetworkImplementations.Pool | proto-neural-zkp/src/layers/maxpool.rs:30-53 | The strided in-place loop writes every pooled cell once, or rejects a side that does not divide |
| NetworkImplementations.PoolRow | proto-neural-zkp/ref_cnn/vanilla_cnn.py:56-60 | One strided row of patches fills one output row and leaves the others |
| NetworkImplementations.ReluByOverwrite | proto-neural-zkp/ref_cnn/vanilla_cnn.py:35-42 | Overwriting the negatives of a copy is the maximum with zero |
| NetworkImplementations.FlattenByIteration | proto-neural-zkp/src/layers/flatten.rs:27-29 | Iterating a volume lists rows, then columns, then channels |
| NetworkImplementations.FlattenAt | proto-neural-zkp/ref_cnn/vanilla_cnn.py:67-71 | Cell (i, j, k) sits at i * (w * c) + j * c + k of the flattening |
| NetworkImplementations.FlattenByFormula | proto-neural-zkp/ref_cnn/vanilla_cnn.py:67-71 | Reading each element from its index alone gives the same vector |
| NetworkImplementations.ApplyByWindows | proto-neural-zkp/src/layers/relu.rs:27-29 | A layer of the network computes the layer function or fails where it asserts |
| NetworkImplementations.ApplyReference | proto-neural-zkp/ref_cnn/vanilla_cnn.py:3-91 | A layer of the reference computes the same layer function and fails on the same inputs |
| NetworkImplementations.NeuralNetwork.AddLayer | proto-neural-zkp/src/layers/mod.rs:163-165 | Layers are appended in order |
| NetworkImplementations.NeuralNetwork.ApplyAll | proto-neural-zkp/src/layers/mod.rs:167-181 | For any chain of layers the network computes the common meaning, declines a dimension other than 3, and fails where some layer does |
| NetworkImplementations.RunReference | proto-neural-zkp/ref_cnn/vanilla_cnn.py:100-130 | The reference pipeline over the same layers and input computes the same common meaning |
| Outline.OutlineFunction | risc0/groth16_proof/scripts/outline.py:23-84 | The line loop and the final flush compute the splitter, errors included |
| OutlineListing.HeaderListed | risc0/groth16_proof/scripts/outline.py:30-64 | In the shared header of every accepted file, besides the steps, which are declared from 1 to the last, stand in order the lines outside the function, the opening of the struct, and one field for each declaration |
| OutlineListing.FunctionWritten | risc0/groth16_proof/scripts/outline.py:34-84 | For a file with one function the rewritten one calls every step once, in order; besides, it holds in order the header with its state, the initialisations and the closing line, which a closing call replaces when lines were pending |
| OutlineListing.FunctionHeaded | risc0/groth16_proof/scripts/outline.py:34-40 | The header and the declaration of its state stand first |
| OutlineListing.InitsAssignFields | risc0/groth16_proof/scripts/outline.py:41-48 | In every accepted file every initialisation assigns a declared field |
| OutlineListing.DeclarationReads | risc0/groth16_proof/scripts/outline.py:43-46 | A declaration line is read as its type up to the first space and its name up to the next, without the newlines and semicolons at the end |
| OutlineListing.DeclarationNeedsSpace | risc0/groth16_proof/scripts/outline.py:43-44 | Without a space there is none, and the program fails |
| OutlineListing.HeaderReads | risc0/groth16_proof/scripts/outline.py:34-37 | The function name stands between "void " and the parenthesis |
| OutlineListing.StepsEndEarly | risc0/groth16_proof/scripts/outline.py:50-69 | Every step written before the end has at least the threshold of lines and ends in a closing brace, and after the end of a block what is pending is shorter |
| OutlineListing.LastStep | risc0/groth16_proof/scripts/outline.py:71-84 | What is pending at the end becomes the last step |
| OutlineListing.CountAdds | risc0/groth16_proof/scripts/outline.py:28-70 | Every brace of a line counts |
| Outline.NothingLost | risc0/groth16_proof/scripts/outline.py:50-84 | Every line inside a block ends up in exactly one step, in order, and every call refers to a step that exists |
| Outline.StepsAreBalanced | risc0/groth16_proof/scripts/outline.py:50-84 | For a file with one well-formed function every step is brace-balanced |
| Outline.PreservedIff | risc0/groth16_proof/scripts/outline.py:26-84 | With steps inlined the rewritten function performs the original statements in order exactly when no initialised declaration is met while a chunk is pending |
| Outline.DeclarationsFirstPreserves | risc0/groth16_proof/scripts/outline.py:26-84 | With all initialised declarations before the first block the meaning is preserved for every chunk size |
| Outline.AlwaysPreservedIff | risc0/groth16_proof/scripts/outline.py:26-84 | And only then is it preserved for every chunk size |
| Outline.OvertakingBreaks | risc0/groth16_proof/scripts/outline.py:41-48 | A declaration met while a chunk is pending is executed before the lines that preceded it |
| Outline.OvertakingFile | risc0/groth16_proof/scripts/outline.py:26-84 | A well-formed file of one block, an initialised declaration and a closing brace changes its order for every chunk limit above two lines |
| SealEncoding.JournalBits | boundless/blake3_groth16/src/prove.rs:70-75 | The nested loops give the bits of every byte, most significant first |
| SealEncoding.DigestBitAt | boundless/blake3_groth16/src/prove.rs:70-75 | Bit 8n + i of a digest is bit 7 - i of byte n |
| SealEncoding.DigestRoundTrip | boundless/blake3_groth16/src/prove.rs:70-91 | The bits of a digest determine the digest |
| SealEncoding.ControlIdBits | boundless/blake3_groth16/src/prove.rs:93-101 | Two removals at index 248 drop exactly bits 248 and 249 |
| SealEncoding.ControlIdRecoveredIff | boundless/blake3_groth16/src/prove.rs:93-101 | The 254 bits left give the control id back exactly when its little-endian value is below 2^254 |
| SealEncoding.LostControlId | boundless/blake3_groth16/src/prove.rs:93-101 | The id with only bit 254 set is 2^254, and its 254 bits do not give it back |
| SealEncoding.LimbRoundTrip | boundless/blake3_groth16/src/prove.rs:128-131 | A limb survives hexadecimal and decimal: the decimal numeral has the value of the bytes and no padding |
| SealEncoding.ControlRootLimbs | boundless/blake3_groth16/src/prove.rs:103-117 | The two decimal strings satisfy a1 * 2^128 + a0 = the little-endian value of the root, with both limbs below 2^128 |
| SealEncoding.PowersOfTwo | boundless/blake3_groth16/src/prove.rs:99-115 | The bounds used are 2^128 and 2^254 |
| Numerals.DecimalRoundTrip | boundless/blake3_groth16/src/prove.rs:128-131 | A printed number is a numeral without superfluous zeros and reads as the number |
| Numerals.NumeralRoundTrip | boundless/blake3_groth16/src/prove.rs:128-131 | Such a numeral is the printed form of its value |
| Versions.ParsePrinted | risc0/rzup/src/settings.rs:96-105 | The text stored for a version reads as that version, pre-release and build included |
| Versions.PrintParsed | risc0/rzup/src/settings.rs:96-100 | Text that reads as a version is the printed form of it; nothing else does |
| Versions.VersionIff | risc0/rzup/src/settings.rs:96-100 | A version has numbers of 64 bits and identifiers of letters, digits and dashes, none empty and, in a pre-release, no padded number; nothing else is required |
| Versions.WrittenSo | risc0/rzup/src/settings.rs:96-105 | It is written as three numbers between dots, a pre-release after a dash and a build after a plus sign |
| Versions.VersionOrder | risc0/rzup/src/registry.rs:81-111 | The order of the sorted map, build identifiers included, is total: the two directions agree, ties are equal versions, and order composes |
| Versions.CoreDecides | risc0/rzup/src/registry.rs:110-111 | The major number decides, then the minor, then the patch number, and a pre-release comes before its release, in the order and in the precedence |
| Versions.IdentifiersDecide | risc0/rzup/src/registry.rs:110-111 | Two pre-releases of a release go by their dot-separated identifiers, two builds of a version by theirs; the precedence ties exactly for equal numbers and pre-releases |
| Versions.FirstDifferenceDecides | risc0/rzup/src/registry.rs:110-111 | The first pair of different pre-release identifiers decides the order, whatever follows |
| Versions.FewerIdentifiersFirst | risc0/rzup/src/registry.rs:110-111 | When one list of identifiers starts the other, the shorter one comes first |
| Versions.IdentifiersCompared | risc0/rzup/src/registry.rs:110-111 | Numeric identifiers come before text, and are ordered by value and then by leading zeros; text is ordered by its first different character |
| ToolchainPaths.LegacyRustNameIff | risc0/rzup/src/paths.rs:103-105 | The legacy name r0.<version>-... is read back exactly when the text of the version has no dash |
| ToolchainPaths.LegacyCargoRustName | risc0/rzup/src/paths.rs:106-109 | The legacy name rust_<platform>_r0.<version> is read back for every version and platform |
| ToolchainPaths.LegacyRustHasOneReader | risc0/rzup/src/paths.rs:90-126 | The C++ toolchain reads no such name |
| ToolchainPaths.LegacyCppName | risc0/rzup/src/paths.rs:114-116 | A legacy C++ name <date>-... stands for the version with the numbers of the date, padded or not |
| ToolchainPaths.LegacyCargoCppName | risc0/rzup/src/paths.rs:110-113 | So does c_<platform>_<date>, whatever the platform |
| ToolchainPaths.DateIsVersion | risc0/rzup/src/distribution/mod.rs:135-150 | Three dotted numbers within 64 bits, leading zeros allowed, give the version with those numbers |
| ToolchainPaths.U64Reads | risc0/rzup/src/distribution/mod.rs:135-150 | A number of a date may have a plus sign and leading zeros, up to 64 bits |
| ToolchainPaths.U64ReadsDigits | risc0/rzup/src/distribution/mod.rs:135-150 | Anything but digits is not a number |
| ToolchainPaths.NameReadsBackIff | risc0/rzup/src/components.rs:150-162 | The directory name of a version reads as that version exactly when its text has at most one dash and does not hold the tag of the component, for every component and platform |
| ToolchainPaths.NamesWritten | risc0/rzup/src/components.rs:150-162 | The directory names of version 1.0.0 of every component, and which folder and which component directory each lives in |
| ToolchainPaths.AssetsExist | risc0/rzup/src/components.rs:88-113 | Every component has an archive on every platform, except the debugger and the C++ toolchain, which have one on two |
| ToolchainPaths.TwoDashesMisread | risc0/rzup/src/paths.rs:91-101 | 1.0.0-a-b is a version whose own directory reads as 1.0.0-a |
| ToolchainPaths.ManyDashes | risc0/rzup/src/paths.rs:91-101 | With two dashes in its text a version is read by the first two pieces, and with more its directory is read as nothing |
| ToolchainPaths.NamesAreDistinct | risc0/rzup/src/components.rs:150-162 | Different versions of a component never share a directory name |
| ToolchainPaths.ExtractPrinted | risc0/rzup/src/paths.rs:91-101 | A printed version survives the cut at dashes exactly when it has at most one |
| ToolchainPaths.FirstTag | risc0/rzup/src/paths.rs:117-122 | The first tag found in a name is the printed one unless the version holds the tag itself; a seam never makes one |
| ToolchainPaths.NameReadsAs | risc0/rzup/src/paths.rs:90-126 | Every component of the folder reads from the name of a version exactly what the text of the version gives: the version before the first tag of the reader, or the version as cut at its dashes |
| ToolchainPaths.ForeignReaderIff | risc0/rzup/src/paths.rs:90-126 | Another component of the folder reads the name exactly when the text of the version holds its tag with a readable version before it |
| ToolchainPaths.WellNamedIff | risc0/rzup/src/paths.rs:90-126 | On every supported platform the name is read as that version by its component and by no other of the folder exactly when the text of the version has at most one dash, not the own tag, and no other tag of the folder with a readable version before it |
| ToolchainPaths.CppPreReleaseHasTwoReaders | risc0/rzup/src/paths.rs:90-126 | Every Rust version with pre-release cpp and no build is read back from its directory, and the C++ toolchain reads the same directory as the release |
| ToolchainPaths.PlainIsWellNamed | risc0/rzup/src/paths.rs:90-126 | In particular plain version texts are well named for every component on every supported platform |
| ToolchainPaths.DashlessIsPlain | risc0/rzup/src/paths.rs:90-126 | Releases, and pre-releases and builds without dashes that do not start like a component, are plain |
| ToolchainModel.DefaultIffInstalled | risc0/rzup/src/registry.rs:114-135 | In every state a default exists exactly when a version is installed; it is the recorded version if that is installed, and otherwise no installed version comes after it, in the order of the map or in precedence |
| ToolchainModel.DefaultFailsIff | risc0/rzup/src/registry.rs:114-135 | The lookup fails exactly for an installed C++ toolchain on a platform without an archive of it |
| ToolchainModel.HighestExists | risc0/rzup/src/registry.rs:238-255 | Every non-empty set of installed versions has a highest one |
| ToolchainModel.HighestIsUnique | risc0/rzup/src/registry.rs:238-255 | It is determined by the set |
| ToolchainModel.StepKeepsTidy | risc0/rzup/src/registry.rs:137-295 | Every uninstall, change of default and install under a harmless name (plain, forced, failing at any point) keeps at most one directory per version and one reader per directory |
| ToolchainModel.RunKeepsTidy | risc0/rzup/src/registry.rs:137-295 | So does every run whose installs are under harmless names |
| ToolchainModel.StepFinds | risc0/rzup/src/registry.rs:137-295 | In tidy folders, an operation on one version, under a harmless name if it installs, leaves every other version of every component as found as before; only an install makes a version found; a successful uninstall makes it not found |
| ToolchainModel.AppearsIff | risc0/rzup/src/registry.rs:137-295 | In any state, a version that is not there is found after an operation exactly when that is an install which places a directory whose name reads as the version, whichever version it installs |
| ToolchainModel.AbsentUntilPlaced | risc0/rzup/src/registry.rs:137-295 | Along every run from any state, a version that is not there stays away exactly when no install places such a directory |
| ToolchainModel.UninstalledUntilPlaced | risc0/rzup/src/registry.rs:275-295 | In every run that begins with a successful uninstall, the version is gone and stays away exactly when at most one directory held it and no later install places a name that reads as it |
| ToolchainModel.CppReappears | risc0/rzup/src/registry.rs:178-295 | After cpp 1.0.0 is uninstalled, an install of rust 1.0.0-cpp makes cpp 1.0.0 found again |
| ToolchainModel.DisappearsIff | risc0/rzup/src/paths.rs:73-80 | In any state, an uninstall makes the version disappear exactly when at most one directory held it |
| ToolchainModel.NewNameKeepsTidyIff | risc0/rzup/src/components.rs:257-278 | Installing a version that is not there keeps one directory per version of every component, and one reader per directory, in every folder where they hold, exactly when no component reads its directory name or only its own does, as that version |
| ToolchainModel.HarmlessIff | risc0/rzup/src/paths.rs:90-126 | On every supported platform that is: at most one dash, not the own tag and no readable foreign version in the text of the version, or no reader of the folder makes a version of it |
| ToolchainModel.CppPreReleaseDoubles | risc0/rzup/src/components.rs:257-278 | With cpp 1.0.0 installed, rust 1.0.0-cpp, a name that its own component reads back, leaves two directories that hold cpp 1.0.0 |
| ToolchainModel.NewNameKeepsOneIff | risc0/rzup/src/components.rs:257-278 | For the directories of the installing component alone, one per version is kept in every state exactly when the name reads as that version or as nothing |
| ToolchainModel.InstalledBecomesDefault | risc0/rzup/src/registry.rs:178-229 | A version installed successfully, forced or not, is the default |
| ToolchainModel.InstallDefaults | risc0/rzup/src/registry.rs:178-229 | What is recorded for every component after an install, successful or not: the installed version for its component once it is there and can be looked into; for a home component without a recorded default that version too, after a placement and a first record that succeeded; for a home component with one, and for every other component, what was recorded before. It succeeds exactly when all of that could be written |
| ToolchainModel.MakeDefaultRecords | risc0/rzup/src/registry.rs:137-160 | The same for a change of default, which touches its own component alone |
| ToolchainModel.UninstallDefaults | risc0/rzup/src/registry.rs:257-295 | The same for an uninstall, which moves the defaults that were the removed version, the home component first, to the highest version left, and fails where one of these cannot be written |
| ToolchainModel.LostDirs | risc0/rzup/src/paths.rs:73-88 | An operation removes at most one directory, one of its own version, in an uninstall or a forced install |
| ToolchainModel.UninstallMovesDefaults | risc0/rzup/src/registry.rs:257-295 | After a successful uninstall of a version that at most one directory held and no other component reads, every default that was the removed version, of the component or of one living inside it, becomes the highest version left, and every other default stays |
| ToolchainModel.ForcedReinstallKeepsIff | risc0/rzup/src/components.rs:241-278 | In any state, after a forced reinstall of a version that is there it is still found exactly when the old copy could not be removed, another directory held it too, or the platform has an archive, the download succeeded, and the new name reads back: at most one dash and not the own tag |
| ToolchainModel.FailedReinstallRemoves | risc0/rzup/src/components.rs:257-278 | Otherwise, be it for want of an archive or a download or because the new name reads as another version, the call fails, the version is gone and the recorded defaults stay, even one that names it |
| ToolchainModel.LegacyCopyIsLost | risc0/rzup/src/components.rs:257-278 | Every Rust version whose new name does not read back, held in a legacy directory of a tidy folder, is lost by a forced reinstall in which removal, download and placement succeed |
| ToolchainModel.TwoDashesLost | risc0/rzup/src/components.rs:257-278 | 1.0.0-a-b is such a version |
| ToolchainRegistry.FindVersionDirInner | risc0/rzup/src/paths.rs:26-50 | A scan in any order finds a directory that reads as the version, and misses only if there is none |
| ToolchainRegistry.FindVersionDir | risc0/rzup/src/paths.rs:52-71 | The version directory, or for a C++ toolchain the directory of its archive exactly when it holds one; it fails exactly for a C++ toolchain that is there on a platform without an archive name |
| ToolchainRegistry.CleanupVersion | risc0/rzup/src/paths.rs:73-88 | One directory of the version is removed, if there is any; the other folder is untouched |
| ToolchainRegistry.ListComponentVersions | risc0/rzup/src/registry.rs:77-112 | Scanning in any order and inserting into the sorted map lists every installed version once, newest first, with a directory that holds it; a virtual component lists its parent |
| ToolchainRegistry.InsertKeepsOrder | risc0/rzup/src/registry.rs:81-108 | Insertion keeps the map sorted |
| ToolchainRegistry.InsertHolds | risc0/rzup/src/registry.rs:81-108 | Insertion adds the entry and replaces only an equal version |
| ToolchainRegistry.FindHighestInstalledVersion | risc0/rzup/src/registry.rs:238-255 | The first entry of the list is the highest installed version |
| ToolchainRegistry.Registry.GetDefaultComponentVersion | risc0/rzup/src/registry.rs:114-135 | The lookup returns the recorded default while it is installed, else the highest version, with the place it is at, and fails only where the directory lookup does |
| ToolchainRegistry.Registry.SetDefaultComponentVersion | risc0/rzup/src/registry.rs:137-160 | A version that is installed is recorded even if saving or linking then fails; one that is not changes nothing |
| ToolchainRegistry.Registry.InstallComponent | risc0/rzup/src/registry.rs:178-229 | The branches of an install, forced or not, with every point of failure, follow the state machine |
| ToolchainRegistry.Registry.FindNewDefaultVersion | risc0/rzup/src/registry.rs:257-273 | Only a default equal to the removed version is moved, and only to an installed version |
| ToolchainRegistry.Registry.UninstallComponent | risc0/rzup/src/registry.rs:275-295 | An uninstall removes from the home component and then repairs both defaults, as the state machine says |

## Left out

- Groth16 pairing checks, curve constants, plonky2 proving and verifying, receipts: these live in foreign libraries. A
  `mul_const_add` gate is modelled as the arithmetic it is documented to do, and not how a proof enforces it.
- Floating point: tensors hold exact integers, as the reference draws them. `Normalize` and tolerance tests are not modelled.
- Layer reports: `num_muls`, `num_params`, `output_shape` and the JSON conversions. `MaxPool::output_shape`
  (`maxpool.rs:83`) swaps height and width compared with `apply`, and `conv.rs:82` omits the input channels; the model
  follows `apply`.
- NetworkImplementations.ConvolveByWindows: a kernel larger than the input is a failure; the Rust subtraction underflows
  there, while the reference returns an empty volume for some of those sizes.
- Network results as they are printed, and the input's own number of dimensions: `apply` looks at its `dim` argument only.
- StarkProof.AlwaysAcceptedIff: "ends constant" is about all entries of the block that the last round returns; the program
  prints every other entry of it. The two DEEP blocks it holds as constants are arbitrary blocks, not tied to trace columns
  2 and 3. With an expansion of 2 the bound on the validity block is too close to eight coefficients; the theorem, like
  SeldomAccepted and ProofSoundness, is for an expansion of at least 3.
- The printed FRI query of `didactic_stark.py`, for a domain where the local relation does not hold; the inverse
  number-theoretic transforms, which the model replaces by interpolation over the same points; Merkle commitments; printing.
- Fixed-width numpy integers: values are unbounded before each reduction, so an int64 overflow in a product is not seen.
- The Sage invocation, the scraping of its output and the exporters of `bootstrap_poseidon.rs`: round constants and MDS
  table are arbitrary.
- AllocatorCounters.RunKeepsInvariant: does not model `usize` overflow of the running totals, nor the reset of the peak at
  `lib.rs:253`.
- FieldCircuit.ToFieldIsResidue: the negation of the smallest 32-bit integer wraps, as in a release build; a debug build
  panics there.
- FieldCircuit.CompileFull: an empty input is outside its precondition; the source divides by its length there.
- Outline.OutlineFunction: main and global lines are symbols (a call of step k, a field, ...) rather than the text printed
  for them, and the closing of the struct, always the last line of the shared header, is not listed; the chunk limit 8192 is
  a parameter; files are lists of lines.
- SealEncoding.LimbRoundTrip: only lower-case hexadecimal digits are read, the ones the encoder writes.
- Versions.VersionOrder: the version library is not part of this repository. Builds that tie in precedence are compared
  identifier by identifier, digits by value and then by leading zeros, as that library documents; item 10 of Semantic
  Versioning 2.0.0 gives them no order. Where two installed versions differ in their build alone, this order decides which
  one is listed first and which replaces a removed default. That no installed version has a higher precedence than a
  default chosen as the highest (DefaultIffInstalled) does not depend on it.
- ToolchainPaths.WellNamedIff: the four processor names that the directory parser recognises; another name could hold a tag
  itself.
- Registry downloads, signatures, archives, link contents, lock-file contention between processes, git builds and events:
  outcomes are parameters. Folders hold directories only, no files and no links; a removal that fails part way leaves the
  directory; an empty folder and a missing one are the same. Settings are the in-memory map; loading them back is not modelled.
- Pulumi and TypeScript infrastructure, licence and link checkers, other bootstraps, benchmarks, build scripts, the
  autoscaler, the lock-file tool and the age-range demo: configuration, service code and small command-line programs that
  none of the cores above depends on.
