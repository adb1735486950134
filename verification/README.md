# Verified models of selected Cirq algorithms

This project models, in Dafny, eleven files of the Cirq repository whose behaviour is exact and
unbounded in its input, and proves what that code is for.

| module | what it models |
|---|---|
| `Elimination`, `StabilizerCode`, over `Gf2` | in-place Gaussian elimination over GF(2), the standard form of a stabilizer code, its logical operators, and the reading and printing of Pauli strings |
| `Shor`, `ShorProbability`, over `NumberTheory` | the order-finding loop, the factoring reduction and its chance of success, and the modular exponentiation gate as a permutation of its register |
| `BasicArithmetic`, over `Bits` | the ripple-carry adder and the multiplier as programs of `CNOT` and `TOFFOLI` gates |
| `Hhl`, over `Bits` | the ladder of controlled rotations with its `k ^ (k - 1)` X gates |
| `HiddenShift` | the hidden shift circuit, with exact integer amplitudes |
| `ParallelScheduler` | the log-replay scheduler of the notebook test runner, one worker in place and all workers interleaved |
| `MeasurementKey`, `CircuitOperation`, `CircuitKeys`, `CircuitNesting`, `CircuitOrder`, `CircuitExpansion`, `CircuitRepeat`, `CircuitIds`, `CircuitMaps`, over `Groups` | subcircuit operations: expansion, its order, key summaries, nesting, repetition, ids, and remapping of qubits and keys |
| `BucketPriorityQueue` | the mutable bucket queue against a stable sorted sequence |
| `IonqCodec`, over `Text` | the measurement printer of the IonQ serializer and the parser of the IonQ job |
| `IonqResults`, over `Bits` | endianness, projection on measured qubits, counts, rows and probabilities |

Arrays, queues, workers and result objects that the program updates in place are arrays and classes
here; loops are loops. Each such method is tied to a function or relation of its input, and the
lemmas then prove what the program promises about that function. Circuits, gates, keys and metadata
are values.

## What the proofs settle

- **Elimination.** A call leaves the identity in the pivot block and zeros below it, returns the
  rank of the sub-matrix it was given, keeps the row span up to one permutation of the qubits that
  moves only qubits of the column range, leaves the rows outside its range alone up to that
  permutation, and keeps commuting rows commuting. The two eliminations reach the standard form
  exactly when the generators are independent; commutation is what makes that true. The logical
  operators are then correct, and the only ones of their shape.
- **Reading generators.** The letter Y loses its Z bit: the second branch of the constructor
  (stabilizer_code.py:181) is not reached for it. A generator is read as what it says if and only
  if it has no Y.
- **Order finding** ends for every unit because distinct powers are fewer than the modulus and
  cancellation makes the next power new. The factoring loop returns nothing exactly when no
  candidate root fits and no draw is lucky; the assertion on `y` cannot fail. For every number that
  reaches the loop when the roots are rounded correctly, more than half of the draws are lucky; the
  header of the file quotes at least half from the literature.
- **Modular exponentiation** is documented as unitary. It permutes its register if and only if the
  exponent is zero, the modulus is not positive, or the base is a unit of the modulus.
- **The adder** is right if and only if the carry qubits above the first start clean. The
  multiplier is right, and cleans up, for every register length.
- **The rotation ladder** fires exactly one rotation on every basis state and restores the register.
- **The hidden shift** is found with certainty if and only if the number of qubits is even. With an
  odd number the last qubit is left undetermined. For an arbitrary oracle the final amplitudes are
  given as its Walsh-Hadamard transforms.
- **The scheduler** never fails to find its own record, all workers agree on one schedule, and event
  times are at least the interval apart, over every interleaving.
- **Subcircuit keys.** Keys are compared, as in the program, by their joined text. The key summary
  equals the keys of the expansion if and only if no repetition id in use is empty and, when ids are
  not in use, the count is not zero (or there are no keys at all); over nested operations, all
  summaries are right if and only if every level passes that check. An empty id makes the summary
  report a longer key than the circuit measures (circuit_operation.py:411 tests the id for truth,
  line 335 does not). Two non-empty ids give disjoint keys in every operation if and only if neither,
  followed by `:`, starts the other: the ids `a` and `a:b` can both give the key `a:b:m`, because
  nothing keeps the separator out of an id.
- **Order of an expansion.** Repetition i of operation j stands at place i n + j, through any
  nesting, so measurements come in the order of the ids.
- **Repeating.** `repeat` does not always succeed: its documentation says that the input ids are used
  directly when the operation has none, but a count other than 1, 0 or -1 without ids makes the
  length check fail, and switched-off ids make a plain repeat fail. The exact condition is proved.
  Whenever `repeat` succeeds on an operation that expands, the result expands too and means the
  unrolled operation raised to the power. New ids join to distinct ids with every list of distinct
  old ids if and only if none of them, followed by `-`, starts another.
- **The measurement codec** round-trips whenever the serializer does not raise, provided every
  measurement has a target. The documentation of the serializer speaks of `measurement0` to
  `measurement9`; the code raises above nine entries, and the model follows the code.

## Model

| member | source | states |
|---|---|---|
| Gf2.IndependentIsFullRank | examples/stabilizer_code.py:47-69 | rows are independent exactly when their span has 2 to the number of rows elements, the meaning of full rank |
| Gf2.RankOfPick | examples/stabilizer_code.py:89-95 | permuting columns keeps the rank |
| Gf2.SymplecticSwap | examples/stabilizer_code.py:89-95 | exchanging two qubits in both halves keeps the symplectic product |
| Elimination.OtherHalfIsModular | examples/stabilizer_code.py:94 | `(j + n) % (2 n)` is the column of the same qubit in the other half |
| Elimination.FindPivot | examples/stabilizer_code.py:78-84 | finds the first non-zero entry of the sub-matrix in row-major order, or none if and only if it is zero |
| Elimination.SwapRows | examples/stabilizer_code.py:87 | two rows of the array exchange places, all else unchanged |
| Elimination.SwapQubitColumns | examples/stabilizer_code.py:89-95 | two qubits exchange places in every row, in both halves |
| Elimination.AddRowInPlace | examples/stabilizer_code.py:97-100 | one row becomes its sum with another over GF(2) |
| Elimination.SwapRowsPreserves | examples/stabilizer_code.py:87 | a row exchange keeps span, commutation and the rows outside the range |
| Elimination.SwapQubitsPreserves | examples/stabilizer_code.py:89-95 | a qubit exchange composes with the permutation so far and keeps commutation |
| Elimination.AddRowPreserves | examples/stabilizer_code.py:98-100 | a row addition keeps span and commutation |
| Elimination.EliminateBelow | examples/stabilizer_code.py:97-100 | column j is cleared below its pivot while earlier pivot columns stay cleared |
| Elimination.PivotStep | examples/stabilizer_code.py:75-102 | one round adds a pivot and preserves everything an elimination preserves |
| Elimination.EliminateAbove | examples/stabilizer_code.py:104-112 | one backward round turns one more pivot column into a unit column |
| Elimination.RankOfReduced | examples/stabilizer_code.py:47-114 | the number of pivots is the GF(2) rank of the sub-matrix at entry |
| Elimination.GaussianElimination | examples/stabilizer_code.py:47-114 | reduced form on the range, returned rank is the rank at entry, span kept up to one qubit permutation of the range, other rows only permuted, commutation kept |
| StabilizerCode.LogicalXMeetsUpper | examples/stabilizer_code.py:144-153 | logical X commutes with the upper rows: the block E^T C1^T + C2^T cancels |
| StabilizerCode.LogicalXMeetsLower | examples/stabilizer_code.py:144-153 | logical X commutes with the lower rows |
| StabilizerCode.LogicalZMeetsRow | examples/stabilizer_code.py:155-163 | logical Z commutes with every row |
| StabilizerCode.LogicalXsCommute | examples/stabilizer_code.py:144-153 | the logical Xs commute among themselves |
| StabilizerCode.LogicalZsCommute | examples/stabilizer_code.py:155-163 | the logical Zs commute among themselves |
| StabilizerCode.LogicalXMeetsZ | examples/stabilizer_code.py:144-163 | X_i and Z_j anticommute exactly when i = j |
| StabilizerCode.StandardFormGivesLogicalOperators | examples/stabilizer_code.py:138-164 | for every matrix in standard form the built operators commute with the stabilizer and among themselves, except X_i with Z_i |
| StabilizerCode.LogicalXIsTheOne | examples/stabilizer_code.py:144-153 | X_i is the only vector with no X bits in the first r columns, the i-th unit vector in the last k, and no Z bits from r on, that commutes with every row |
| StabilizerCode.LogicalZIsTheOne | examples/stabilizer_code.py:155-163 | Z_i is the only vector without X bits, with the i-th unit vector last and nothing before it from r on, that commutes with every row |
| StabilizerCode.CommutationClearsRow | examples/stabilizer_code.py:135-136 | a lower row without entries right of column n + r is zero, because it commutes with the first r rows |
| StabilizerCode.EliminationKeepsRank | examples/stabilizer_code.py:135-136 | an elimination on a part of the matrix keeps the rank of the whole |
| StabilizerCode.StandardFormIndependent | examples/stabilizer_code.py:138-142 | rows in standard form are independent |
| StabilizerCode.StandardFormReached | examples/stabilizer_code.py:134-142 | for commuting rows the two eliminations reach the standard form if and only if the rows are independent, and then the second rank is n - k - r |
| StabilizerCode.ComposeRearrangements | examples/stabilizer_code.py:134-136 | two eliminations in a row keep the span up to the composed qubit permutation |
| StabilizerCode.TransferToStandardForm | examples/stabilizer_code.py:117-164 | r is the rank of the X half, the span is kept up to a qubit permutation, and for commuting independent generators the result is a standard form with correct logical operators |
| StabilizerCode.SymplecticIsAnticommutation | examples/stabilizer_code.py:21-42 | two rows have symplectic product 1 exactly when the printed Pauli strings anticommute |
| StabilizerCode.BuildByCode | examples/stabilizer_code.py:21-42 | one string of n letters of I, X, Y, Z per row: X or Y exactly where the X half has a bit, Z or Y exactly where the Z half has one |
| StabilizerCode.BuildMatrix | examples/stabilizer_code.py:168-182 | the loops over the generators raise exactly when a letter has no column, and else write the row of each generator |
| StabilizerCode.PrintsBackIff | examples/stabilizer_code.py:172-182 | a Pauli string is read and printed with X for every Y, so it comes back if and only if it has no Y; the comment in the source promises all four letters |
| NumberTheory.Bezout | examples/shor.py:95 | the greatest common divisor is an integer combination |
| NumberTheory.Cancel | examples/shor.py:98-101 | a unit can be cancelled modulo n |
| NumberTheory.OrderUnique | examples/shor.py:79-102 | the order is unique |
| Shor.DistinctPowersBounded | examples/shor.py:98-101 | pairwise distinct powers of a unit are fewer than n |
| Shor.NextPowerIsNew | examples/shor.py:98-101 | while no power is 1 the next power differs from all earlier ones |
| Shor.NaiveOrderFinder | examples/shor.py:79-102 | raises exactly for x outside [2, n) or not coprime to n; otherwise ends with the least positive r below n with x^r = 1 modulo n |
| Shor.ExactRootDivides | examples/shor.py:276-286 | an exact root of n is a proper divisor |
| Shor.FindFactorOfPrimePower | examples/shor.py:276-286 | returns the first exact root, the lower candidate before the upper, or none if and only if no candidate is one |
| Shor.RoundedRootsFindPowers | examples/shor.py:276-286 | with correctly rounded roots for every exponent that matters, a candidate fits if and only if n is a perfect power |
| Shor.HalfPowerSplits | examples/shor.py:321-326 | for even order 1 < y < n always, and gcd(y - 1, n) is a proper factor if and only if y is not n - 1 |
| Shor.Attempt | examples/shor.py:312-326 | one round returns a proper divisor if and only if the draw is lucky: the factor the draw shares with n, or the one its half power less 1 shares |
| Shor.FindFactor | examples/shor.py:289-327 | a result is a proper divisor: 2, the first exact root, or what the first lucky draw leads to; there is none exactly when n is prime, or odd with no candidate root and no lucky draw |
| ShorProbability.OrderExists | examples/shor.py:98-102 | every unit has an order below n |
| ShorProbability.UnluckyIsClose | examples/shor.py:18-33 | one exponent takes every unlucky unit to 1 or -1 |
| ShorProbability.FarUnit | examples/shor.py:31-34 | for coprime factors above 2 some unit goes to neither |
| ShorProbability.UnluckyAtMostHalf | examples/shor.py:31-36 | at most half of the units are unlucky |
| ShorProbability.MostDrawsSucceed | examples/shor.py:31-36 | for a product of coprime factors above 2, more than half of the draws of one attempt are lucky |
| ShorProbability.TwoPrimesSucceed | examples/shor.py:31-36 | the same for every odd number with two different prime factors |
| ShorProbability.LoopSucceeds | examples/shor.py:305-327 | the same for every number that is neither prime nor even nor a perfect power, which is what reaches the loop |
| Shor.MakeModularExp | examples/shor.py:132-142 | raises exactly when the absolute value of the modulus does not fit the register |
| Shor.ApplyStep | examples/shor.py:162-167 | exponent 0 keeps a value below the modulus, exponent 1 multiplies it by the base modulo the modulus, and each further exponent multiplies once more |
| Shor.ApplyAdds | examples/shor.py:105-130 | applying exponents e1 and e2 is applying e1 + e2 |
| Shor.ApplyInverse | examples/shor.py:162-167 | the inverse base undoes the gate |
| Shor.ApplyInRange | examples/shor.py:162-167 | values from the modulus on are fixed, smaller ones stay below it |
| Shor.CoprimePermutes | examples/shor.py:162-167 | for a unit base the gate is a permutation of the register |
| Shor.SharedFactorCollides | examples/shor.py:162-167 | otherwise two values collide, for any exponent from 1 on |
| Shor.PermutesIff | examples/shor.py:105-130 | the gate is a permutation of its register if and only if the exponent is 0, the modulus is not positive, or gcd(base, modulus) = 1 |
| Bits.ValueConcat | examples/basic_arithmetic.py:204-220 | the value of two adjoining registers |
| BasicArithmetic.DecomposeAdder | examples/basic_arithmetic.py:150-160 | the upward and downward loops emit the nested program |
| BasicArithmetic.RunAdder | examples/basic_arithmetic.py:133-160 | on any state and any carries the program changes only the b qubits, to a xor b xor the incoming carry |
| BasicArithmetic.SumOfBits | examples/basic_arithmetic.py:133-160 | with clean carries the low bits and the carry out hold the sum of the low bits |
| BasicArithmetic.AdderAdds | examples/basic_arithmetic.py:150-160 | with clean carries b becomes a + b + c[0] modulo 2^n, all other qubits unchanged |
| BasicArithmetic.AdderRightIffClean | examples/basic_arithmetic.py:150-160 | the sum is right if and only if c[1], ..., c[n - 1] start at 0 |
| BasicArithmetic.DecomposeMultiplier | examples/basic_arithmetic.py:204-220 | the loops emit load, add and unload for each x qubit |
| BasicArithmetic.RunLoad | examples/basic_arithmetic.py:213-214 | loading writes the shifted y, masked by x_i, into a |
| BasicArithmetic.RoundRestores | examples/basic_arithmetic.py:211-220 | a round changes nothing outside b |
| BasicArithmetic.RoundAdds | examples/basic_arithmetic.py:211-220 | a round adds y shifted by i, masked by x_i, modulo 2^n |
| BasicArithmetic.RunMultiplier | examples/basic_arithmetic.py:204-220 | after k rounds b has gained y times the low k bits of x, everything else as at the start |
| BasicArithmetic.MultiplierMultiplies | examples/basic_arithmetic.py:204-220 | b becomes b + y x modulo 2^n; x, y, a and c are restored |
| Hhl.XorBits | examples/hhl.py:187-188 | the xor used by the ladder is bitwise, also for k - 1 = -1 |
| Hhl.Decompose | examples/hhl.py:183-199 | the nested loops emit the ladder: X gates on register qubits alone, and the rotations 0, 1, ..., N - 1 in order, each controlled by the whole register |
| Hhl.FlipsExactly | examples/hhl.py:190-194 | a step flips register qubit p exactly when the bit of k ^ (k - 1) at its place is set |
| Hhl.LadderShape | examples/hhl.py:183-199 | every X gate of the ladder is on the register, every rotation has all of it as controls, and the rotations come in order |
| Hhl.AgreesWithIndex | examples/hhl.py:183-199 | the register holds k exactly when it agrees with k bit by bit |
| Hhl.MaskStep | examples/hhl.py:187-194 | after the X gates of step k the accumulated mask is the complement of k |
| Hhl.FiresExactlyAt | examples/hhl.py:196-199 | rotation k fires exactly on register value k |
| Hhl.RunLadder | examples/hhl.py:183-199 | after k rotations exactly the one of the register value has fired, if it is below k |
| Hhl.LadderSelects | examples/hhl.py:183-199 | exactly one rotation fires on each basis state and the register is restored |
| HiddenShift.MakeOracleF | examples/hidden_shift_algorithm.py:94-96 | gate i of the oracle is CZ on the qubits 2 i and 2 i + 1, and every gate fits the register |
| HiddenShift.ShiftLayer | examples/hidden_shift_algorithm.py:108 | the loop over the shift raises exactly when a set bit has no qubit, and else puts X on exactly the qubits of the set bits |
| HiddenShift.MakeHsCircuit | examples/hidden_shift_algorithm.py:99-128 | raises exactly when a set shift bit has no qubit; else every gate fits the register if and only if the gates of the oracle do, and for the oracle of f every final amplitude is that of the states agreeing with the shift on the paired qubits |
| HiddenShift.AfterOracle | examples/hidden_shift_algorithm.py:94-96 | the oracle multiplies the amplitude of y by (-1)^f(y) |
| HiddenShift.AfterShiftedOracle | examples/hidden_shift_algorithm.py:103-117 | the shifted oracle gives the phase f(x + s) |
| HiddenShift.SecondLayer | examples/hidden_shift_algorithm.py:119-120 | f is its own Walsh-Hadamard dual: the second layer gives the phase f(y) + s.y, pair by pair |
| HiddenShift.ThirdLayer | examples/hidden_shift_algorithm.py:122-126 | the last layer makes the amplitudes interfere qubit by qubit |
| HiddenShift.FinalAmplitude | examples/hidden_shift_algorithm.py:99-128 | the exact final amplitude of every basis state, for every number of qubits and every shift |
| HiddenShift.FindsShiftIffEven | examples/hidden_shift_algorithm.py:99-128 | only the shift has a non-zero amplitude if and only if the number of qubits is even |
| HiddenShift.LayerSums | examples/hidden_shift_algorithm.py:104 | a layer of Hadamard gates on any amplitudes is the Walsh-Hadamard transform: the sum over all x of (-1)^(y.x) times the amplitude of x |
| HiddenShift.AfterQuery | examples/hidden_shift_algorithm.py:103-114 | for any oracle, the amplitudes after the first query are those the oracle makes of the uniform superposition, read at the shifted state |
| HiddenShift.AnyOracle | examples/hidden_shift_algorithm.py:99-128 | for any oracle, the final amplitudes are the transform of the oracle applied to the transform of the first query |
| ParallelScheduler.Scheduler.Schedule | dev_tools/notebooks/utils.py:152-173 | a call appends one record, stops right after it, never raises, and returns the common event time and the remaining wait |
| ParallelScheduler.AppendStep | dev_tools/notebooks/utils.py:159-161 | an append by any worker keeps the invariant of all workers |
| ParallelScheduler.ReadStep | dev_tools/notebooks/utils.py:164-171 | a replay turn keeps the invariant, never runs off the log, and stops at the worker's newest record |
| ParallelScheduler.RunKeepsInv | dev_tools/notebooks/utils.py:155-173 | the invariant holds over every interleaved run |
| ParallelScheduler.EventTimeGrows | dev_tools/notebooks/utils.py:167 | different events are at least the interval apart |
| ParallelScheduler.EventTimeClosedForm | dev_tools/notebooks/utils.py:167 | the k-th event time is the maximum of (k + 1) interval and all t_j + (k - j) interval |
| ParallelScheduler.ScheduleIsShared | dev_tools/notebooks/utils.py:127-173 | over every run no call fails, all workers agree on one fold of the log, no event is early, and events are spaced |
| ParallelScheduler.EveryCallHasItsEvent | dev_tools/notebooks/utils.py:155-173 | in every run, each record of a worker that is not waiting has exactly one event, returned to that worker |
| CircuitRepeat.DefaultIdsFit | cirq-core/cirq/circuits/circuit_operation.py:45-49 | there are default ids unless the count is 1 or -1; one per repetition, the i-th reading as the number i, distinct, non-empty, free of `:`, and none extends another |
| CircuitOperation.ConstructedIsValid | cirq-core/cirq/circuits/circuit_operation.py:147-171 | what the constructor guarantees of counts and ids |
| CircuitRepeat.ConstructedOperation | cirq-core/cirq/circuits/circuit_operation.py:147-171 | the constructor succeeds exactly for invertible circuits where the count is negative, matching id lists and valid names; it keeps given ids, fills in the default ones, and changes nothing else |
| CircuitKeys.RescopeKeys | cirq-core/cirq/circuits/circuit_operation.py:692-703 | rescoping prefixes every key, through nested subcircuits |
| CircuitKeys.RenameSubKeys | cirq-core/cirq/circuits/circuit_operation.py:790-822 | composing key maps on a subcircuit renames exactly the keys it reports |
| CircuitKeys.RenameKeys | cirq-core/cirq/circuits/circuit_operation.py:403-404 | renaming a circuit renames its set of keys |
| CircuitKeys.RenamePrefixCommute | cirq-core/cirq/value/measurement_key.py:116-136 | prefixing and renaming commute |
| CircuitKeys.InverseKeys | cirq-core/cirq/circuits/circuit_operation.py:401-402 | inverting a circuit keeps its keys |
| CircuitKeys.SingleLoopKeys | cirq-core/cirq/circuits/circuit_operation.py:397-415 | the keys of one loop under an id, renamed first and prefixed after |
| CircuitKeys.LoopPerIdKeys | cirq-core/cirq/circuits/circuit_operation.py:450-457 | the set of keys of the loops of all ids; their order is `CircuitOrder.SubRowAt` |
| CircuitKeys.SummaryOfIds | cirq-core/cirq/circuits/circuit_operation.py:328-345 | prefixing with ids and path and then renaming gives the keys of the loops, for non-empty ids |
| CircuitKeys.KeysMeanMeasurement | cirq-core/cirq/circuits/circuit_operation.py:453 | a circuit with keys measures, so ids in use do index its loops |
| CircuitKeys.IsMeasurementIff | cirq-core/cirq/circuits/circuit_operation.py:300-301 | a circuit measures exactly when some operation at some depth does |
| CircuitKeys.EmptyIdBreaksSummary | cirq-core/cirq/circuits/circuit_operation.py:409-415 | with an empty id in use the summary differs from the expansion |
| CircuitKeys.SummaryMatchesExpansion | cirq-core/cirq/circuits/circuit_operation.py:328-457 | the summary equals the keys of the expanded circuit, structurally and by text, if and only if no id in use is empty and, without ids, the count is not zero, or there are no keys |
| MeasurementKey.PrefixedText | cirq-core/cirq/value/measurement_key.py:71-76 | a path in front of a key is a text in front of its joined text |
| MeasurementKey.TextNames | cirq-core/cirq/value/measurement_key.py:46-80 | keys with one text have one name, since no name holds the separator |
| MeasurementKey.RenamedText | cirq-core/cirq/value/measurement_key.py:59-80 | keys with one text are renamed to keys with one text |
| CircuitIds.KeptApartDisjoint | cirq-core/cirq/circuits/circuit_operation.py:409-415 | ids of which neither, closed by the separator, starts the other give disjoint keys |
| CircuitIds.SplitIdCollides | cirq-core/cirq/value/measurement_key.py:59-80 | an id that continues another behind a separator gives one of its keys in some operation |
| CircuitIds.ColonCollision | cirq-core/cirq/value/measurement_key.py:59-80 | the ids a and a:b both give the key a:b:m |
| CircuitIds.IdsDisjointIff | cirq-core/cirq/circuits/circuit_operation.py:409-415 | two non-empty ids give disjoint keys in every operation carrying them if and only if neither, closed by the separator, starts the other |
| CircuitIds.PlainIdsKeptApart | cirq-core/cirq/circuits/circuit_operation.py:45-49 | ids without the separator are kept apart exactly when they differ |
| CircuitNesting.MappedDepth | cirq-core/cirq/circuits/circuit_operation.py:437-463 | expanding one level never deepens the nesting |
| CircuitNesting.MappedGood | cirq-core/cirq/circuits/circuit_operation.py:437-463 | expanding one level keeps every subcircuit below valid and consistent |
| CircuitNesting.DeepKeys | cirq-core/cirq/circuits/circuit_operation.py:458-462 | when every level passes the caller's check, the fully expanded circuit is flat and its keys are the summary of the outermost operation |
| CircuitNesting.SummariesAgreeIff | cirq-core/cirq/circuits/circuit_operation.py:437-463 | all nested operations report the keys of their full expansions if and only if every level passes the caller's check |
| CircuitOrder.MappedAt | cirq-core/cirq/circuits/circuit_operation.py:397-457 | place i n + j of the expansion holds operation j of the circuit (counted from the end for a negative count) as repetition i makes it: inverted, renamed, under the parent path and the id of i |
| CircuitOrder.SubRowAt | cirq-core/cirq/circuits/circuit_operation.py:397-457 | place i p + j of the measurements of a subcircuit is the j-th of the p keys of its circuit, in repetition i |
| CircuitOrder.MappedRow | cirq-core/cirq/circuits/circuit_operation.py:437-457 | expanding one level keeps the order of the measurement keys |
| CircuitOrder.DeepRow | cirq-core/cirq/circuits/circuit_operation.py:437-463 | expanding all levels keeps the order of the measurement keys |
| CircuitOrder.MeasurementsInOrder | cirq-core/cirq/circuits/circuit_operation.py:397-463 | the measurements of the expansion come in the order of the ids, and within one repetition in the order of the circuit, each under its parent path and id and with its new name |
| CircuitExpansion.LoopExpands | cirq-core/cirq/circuits/circuit_operation.py:437-463 | an operation that runs expands exactly when its inverted and renamed circuit does, whatever its ids and parent path |
| CircuitExpansion.RenameInverse | cirq-core/cirq/circuits/circuit_operation.py:401-404 | renaming keys commutes with inversion, success included |
| CircuitExpansion.CountsExpandAlike | cirq-core/cirq/circuits/circuit_operation.py:437-463 | two operations over one circuit and key map that both run expand alike, whatever their counts, signs and ids |
| CircuitRepeat.JoinLength | cirq-core/cirq/circuits/circuit_operation.py:52-61 | the joined list has the product of the lengths |
| CircuitRepeat.JoinDistinct | cirq-core/cirq/circuits/circuit_operation.py:52-61 | distinct lists join to a distinct list when no new id, closed by the separator, starts another |
| CircuitRepeat.JoinDistinctIff | cirq-core/cirq/circuits/circuit_operation.py:52-61 | distinct new ids join to distinct ids with every distinct list if and only if none, closed by the separator, starts another |
| CircuitRepeat.JoinNoneExtends | cirq-core/cirq/circuits/circuit_operation.py:52-61 | joined ids pass that check again if both lists do |
| CircuitRepeat.SeparatorCollides | cirq-core/cirq/circuits/circuit_operation.py:61 | two distinct lists whose join has a duplicate |
| CircuitRepeat.RepeatSucceedsIff | cirq-core/cirq/circuits/circuit_operation.py:615-681 | exactly which calls succeed, with a count, with ids, or with both |
| CircuitRepeat.RefusedRepeats | cirq-core/cirq/circuits/circuit_operation.py:640-646 | two calls that raise although the documentation promises the input ids |
| CircuitRepeat.RepeatResult | cirq-core/cirq/circuits/circuit_operation.py:615-681 | a success is a valid operation with the counts multiplied |
| CircuitRepeat.RepeatIds | cirq-core/cirq/circuits/circuit_operation.py:661-681 | with ids the result has one distinct id per repetition, and its ids pass the check on new ids if both lists do |
| CircuitRepeat.RepeatedIds | cirq-core/cirq/circuits/circuit_operation.py:661-681 | which ids the result has: those of the call, given or numbered, if the operation has none; those of the operation if the call brings none; else at position i |old| + j the text new[i] + "-" + old[j]; and whether they are in use |
| CircuitRepeat.InverseIsRepeat | cirq-core/cirq/circuits/circuit_operation.py:683-684 | inverting a subcircuit is repeating it -1 times |
| CircuitRepeat.InverseMeaning | cirq-core/cirq/circuits/circuit_operation.py:401-402 | an inverted circuit means the inverse |
| CircuitRepeat.RenameMeaning | cirq-core/cirq/circuits/circuit_operation.py:403-404 | renaming keys keeps the meaning |
| CircuitRepeat.MappedMeaning | cirq-core/cirq/circuits/circuit_operation.py:437-457 | expanding one level raises the meaning of the circuit to the signed count, with or without ids |
| CircuitRepeat.DeepMeaning | cirq-core/cirq/circuits/circuit_operation.py:437-463 | expanding all levels keeps the meaning |
| CircuitRepeat.RepeatExpands | cirq-core/cirq/circuits/circuit_operation.py:615-681 | a repeated operation expands exactly when it never runs or the operation expands |
| CircuitRepeat.RepeatUnrolls | cirq-core/cirq/circuits/circuit_operation.py:615-681 | if an operation expands, so does its repetition, and unrolling it means its unrolled meaning raised to the count, negative, zero and nested counts included |
| Prelude.ImageSize | cirq-core/cirq/circuits/circuit_operation.py:763-767 | comparing set sizes detects exactly the maps that merge elements |
| CircuitMaps.WithQubitMapping | cirq-core/cirq/circuits/circuit_operation.py:729-768 | succeeds if and only if dimensions agree and no two current qubits are merged; the new map takes every qubit where the given one takes its current target, and it unrolls to the old circuit with every gate in its place on the images of its qubits |
| CircuitMaps.MergesIffFewer | cirq-core/cirq/circuits/circuit_operation.py:813-821 | counting keys by text detects exactly the maps that merge two of them |
| CircuitMaps.RenameSucceedsIff | cirq-core/cirq/circuits/circuit_operation.py:790-822 | a valid key map succeeds if and only if it merges no two keys of different text, and then renames each |
| CircuitMaps.KeyMappingSucceedsIff | cirq-core/cirq/circuits/circuit_operation.py:790-822 | any key map succeeds if and only if every new name is free of the separator and no keys merge; only the key map changes, and it composes the old and the given one |
| Groups.PowerIntMul | cirq-core/cirq/circuits/circuit_operation.py:675-676 | powers with integer exponents multiply |
| BucketPriorityQueue.FlattenSorted | cirq-core/cirq/circuits/_bucket_priority_queue.py:74-78 | iterating the buckets yields a priority-sorted sequence |
| BucketPriorityQueue.InsertedPlace | cirq-core/cirq/circuits/_bucket_priority_queue.py:80-86 | in a sorted queue a new entry goes right after the last of priority at most its own |
| BucketPriorityQueue.AppendToBucket | cirq-core/cirq/circuits/_bucket_priority_queue.py:120-123 | appending to a bucket is inserting into the sequence |
| BucketPriorityQueue.BucketPriorityQueue.constructor | cirq-core/cirq/circuits/_bucket_priority_queue.py:42-60 | the initial entries are enqueued in order |
| BucketPriorityQueue.BuiltInOrder | cirq-core/cirq/circuits/_bucket_priority_queue.py:42-60 | a queue built from a list is sorted and holds, within each priority, the entries in the order of the list, each at its first place only if duplicates are dropped |
| BucketPriorityQueue.BucketPriorityQueue.Enqueue | cirq-core/cirq/circuits/_bucket_priority_queue.py:80-124 | inserts the entry, or drops it exactly when duplicates are dropped and it is present; length and drop set stay right |
| BucketPriorityQueue.BucketPriorityQueue.Dequeue | cirq-core/cirq/circuits/_bucket_priority_queue.py:126-156 | removes and returns the head, or raises on the empty queue |
| BucketPriorityQueue.BucketPriorityQueue.Entries | cirq-core/cirq/circuits/_bucket_priority_queue.py:74-78 | iteration yields the contents |
| BucketPriorityQueue.BucketPriorityQueue.Length | cirq-core/cirq/circuits/_bucket_priority_queue.py:70-72 | the length counter is the number of entries |
| BucketPriorityQueue.EnqueueStable | cirq-core/cirq/circuits/_bucket_priority_queue.py:80-124 | an enqueue keeps first-in first-out within each priority |
| BucketPriorityQueue.DequeueStable | cirq-core/cirq/circuits/_bucket_priority_queue.py:126-156 | a dequeue keeps it too |
| BucketPriorityQueue.RunsAreStable | cirq-core/cirq/circuits/_bucket_priority_queue.py:80-156 | over every run the queue is sorted, loses nothing, and per priority what was kept is what left followed by what remains |
| BucketPriorityQueue.EveryRequestKept | cirq-core/cirq/circuits/_bucket_priority_queue.py:80-124 | a queue that keeps duplicates keeps every request, in the order of the requests |
| BucketPriorityQueue.DequeueIsLeast | cirq-core/cirq/circuits/_bucket_priority_queue.py:126-156 | the head has the least priority |
| Text.DecimalRoundTrip | cirq-ionq/cirq_ionq/serializer.py:394 | reading a printed numeral gives the number back |
| Text.SplitJoin | cirq-ionq/cirq_ionq/job.py:188-191 | splitting undoes joining when the parts hold no separator |
| Text.ChunksRestore | cirq-ionq/cirq_ionq/serializer.py:429-433 | the chunks concatenate to the text |
| Text.ChunkAt | cirq-ionq/cirq_ionq/serializer.py:429-433 | chunk i is the text from character i size on, at most size characters |
| Text.ChunksFit | cirq-ionq/cirq_ionq/serializer.py:431-434 | there are at most m chunks exactly when the text has at most m size characters |
| Text.DecimalSteps | cirq-ionq/cirq_ionq/serializer.py:394 | a numeral is a digit, or the numeral of a tenth followed by the last digit |
| IonqCodec.UpdateMetadata | cirq-ionq/cirq_ionq/serializer.py:135-142 | the measurement entries are merged into the metadata |
| IonqCodec.MergedNew | cirq-ionq/cirq_ionq/serializer.py:135-142 | new keys are appended in order |
| IonqCodec.MergedLookup | cirq-ionq/cirq_ionq/serializer.py:135-142 | a key takes the last value given for it and otherwise keeps the one it had |
| IonqCodec.PrintedText | cirq-ionq/cirq_ionq/serializer.py:427-428 | a measurement prints as its key, chr(31) and its targets, with chr(30) between measurements |
| IonqCodec.PrintedTargets | cirq-ionq/cirq_ionq/serializer.py:394 | targets print in base ten with commas between them |
| IonqCodec.SerializerRaisesIff | cirq-ionq/cirq_ionq/serializer.py:389-439 | the serializer raises exactly for a key with chr(30) or chr(31) or a text of more than 360 characters |
| IonqCodec.SerializedEntry | cirq-ionq/cirq_ionq/serializer.py:429-439 | entry i is named `measurement` with the digit i and holds the characters of the text from 40 i on, at most 40 |
| IonqCodec.MeasurementDict | cirq-ionq/cirq_ionq/job.py:167-193 | the parsing loop computes the dictionary, or raises exactly when a record is malformed |
| IonqCodec.MeasurementRoundTrip | cirq-ionq/cirq_ionq/serializer.py:385-394 | one printed measurement reads back as itself, and does not read back at all without targets |
| IonqCodec.MetadataCarriesText | cirq-ionq/cirq_ionq/serializer.py:427-439 | whatever other metadata there is, the measurement entries carry the printed text |
| IonqCodec.ParseUndoesPrint | cirq-ionq/cirq_ionq/job.py:182-193 | whenever the serializer does not raise, the job recovers the measurements if every one has a target, and raises otherwise |
| IonqCodec.DictOfDistinct | cirq-ionq/cirq_ionq/job.py:189-191 | with distinct keys the dictionary is exactly the list of measurements |
| IonqResults.EndianInvolution | cirq-ionq/cirq_ionq/job.py:32-35 | reversing the bits twice is the identity on the register |
| IonqResults.EndianBits | cirq-ionq/cirq_ionq/job.py:32-35 | big-endian bit j of the converted value is little-endian bit j of the value |
| IonqResults.RekeyedBits | cirq-ionq/cirq_ionq/job.py:275-280 | the entry of an outcome sits under the key whose big-endian bits are the little-endian bits of the outcome |
| IonqResults.RekeyingMergesNothing | cirq-ionq/cirq_ionq/job.py:275-280 | re-keying keeps every outcome with its value and merges none |
| IonqResults.BitOfIsBit | cirq-ionq/cirq_ionq/results.py:72 | the shifted and masked value is the big-endian bit of the target |
| IonqResults.ProjectedBits | cirq-ionq/cirq_ionq/results.py:72-73 | the bits of the projected value are the bits of the targets in order |
| IonqResults.ProjectReads | cirq-ionq/cirq_ionq/results.py:72-73 | bit j of the projected value, from the left, is the bit of the value at shift n - 1 - targets[j] |
| IonqResults.ProjectAll | cirq-ionq/cirq_ionq/results.py:69-73 | without a key the projection is the identity |
| IonqResults.ShotsAreMarginal | cirq-ionq/cirq_ionq/results.py:70-76 | the listed results realise the exact marginal and conserve the repetitions |
| IonqResults.ShotAt | cirq-ionq/cirq_ionq/results.py:70-76 | the shots of an outcome fill the places from the total count of the outcomes before it on |
| IonqResults.ShotsAscend | cirq-ionq/cirq_ionq/results.py:35 | without a key the listed results do not descend |
| IonqResults.ProjectAgain | cirq-ionq/cirq_ionq/results.py:72-73 | projecting on the register first makes no difference, also for values beyond it |
| IonqResults.ShotsAgree | cirq-ionq/cirq_ionq/results.py:138-144 | entry i of every key is the projection of one underlying shot |
| IonqResults.RowsRead | cirq-ionq/cirq_ionq/results.py:138-144 | row i, column j is the bit of the i-th underlying shot at target j |
| IonqResults.SortedSorts | cirq-ionq/cirq_ionq/results.py:35 | sorting orders the histogram and keeps its entries |
| IonqResults.QPUResult.constructor | cirq-ionq/cirq_ionq/results.py:30-38 | for any outcomes and targets the histogram is sorted and its total is the number of repetitions |
| IonqResults.QPUResult.OrderedResults | cirq-ionq/cirq_ionq/results.py:48-76 | lists the shots of a key, without a key in ascending order within the register; raises exactly for an unknown key or, with any outcome, a target beyond the register |
| IonqResults.QPUResult.Counts | cirq-ionq/cirq_ionq/results.py:78-107 | exact marginal counts under a key, the histogram without one, adding up to the repetitions either way |
| IonqResults.QPUResult.ToCirqResult | cirq-ionq/cirq_ionq/results.py:113-144 | row i of every key holds the target bits of one underlying shot; raises exactly without measurements or for an unreadable target |
| IonqResults.TallyIsMarginal | cirq-ionq/cirq_ionq/results.py:98-99 | within the register the histogram is its own marginal on all qubits |
| IonqResults.TallyAt | cirq-ionq/cirq_ionq/results.py:98-99 | the histogram holds each outcome as often as it was counted |
| IonqResults.Probabilities | cirq-ionq/cirq_ionq/results.py:191-227 | without a key the stored map; under a key maps exactly the projected outcomes that occur to their exact mass; raises exactly for an unknown key or an unreadable target |
| IonqResults.AsMapAt | cirq-ionq/cirq_ionq/results.py:211-212 | the stored map gives each outcome its probability |
| IonqResults.StoredIsMarginal | cirq-ionq/cirq_ionq/results.py:211-212 | within the register the stored probabilities are their own marginal on all qubits |
| IonqResults.MassConserved | cirq-ionq/cirq_ionq/results.py:216-227 | the projected masses add up to the total probability |

## Left out

- Elimination.GaussianElimination: requires that the column range lies in one half of the matrix, as
  in both of its calls. In a range across the middle, exchanging a column also exchanges partner
  columns inside the range, which may be finished pivots, so the result need not be reduced; and a
  pivot found across the middle would index past the last column.
- The syndrome table, encoding, correction and decoding of stabilizer codes.
- Shor.FindFactorOfPrimePower: the floating-point roots and the bound on k are a parameter; the
  candidates are arbitrary, only the exact check is modelled. `Shor.RoundedRootsFindPowers` says what
  correct rounding would give.
- Shor.FindFactor: the primality decision is the mathematical one and the random draws are a
  parameter; the order finder is the naive one, and n is at least 2 as the command line demands.
- Shor.PermutesIff: exponents are not negative.
- The quantum order finder, eigenphase reading and sampling of the Shor example.
- BasicArithmetic.DecomposeAdder: at least three qubits; with fewer the source would index an empty list.
- BasicArithmetic.DecomposeMultiplier: at least five qubits, for the same reason.
- The states of BasicArithmetic are basis states; superpositions follow by linearity.
- HHL phase estimation, rotation angles (k = 0 uses the angle of N) and post-selection.
- HiddenShift.FinalAmplitude: the Hadamard gates are not normalised, so amplitudes are exact
  integers; moments and the final measurement are not modelled.
- ParallelScheduler.Scheduler.Schedule: records are appended whole and positions count records, not
  bytes; workers have distinct ids; the clock is an arbitrary real parameter.
- CircuitKeys.SummaryMatchesExpansion: stated where the expansion exists, that is where no
  nested renaming collides.
- CircuitNesting.DeepKeys: one direction, for the outermost summary alone, because an outer count of
  zero or an inner circuit without keys can hide an inconsistent level; over all levels both
  directions are `CircuitNesting.SummariesAgreeIff`.
- Sets of keys hold paths and names; where the program drops one of two keys with the same text, the
  model keeps both and compares texts. `MeasurementKey.RenamedText` and
  `MeasurementKey.PrefixedText` are why that makes no difference to the texts.
- Circuits are sequences of operations: moments, control keys, external keys, parameters, symbolic
  and floating-point counts and `repeat_until` are not modelled.
- CircuitRepeat.RepeatUnrolls: stated where every nested operation came from the constructor; a
  measurement is interpreted as an arbitrary invertible element that does not depend on its key; which
  keys are measured is the subject of `CircuitNesting.DeepKeys`.
- CircuitMaps.WithQubitMapping: for a circuit without nested subcircuits and a total function on
  qubits (a dictionary is the function that falls back to the identity); the qubit map is not part
  of the operation in `CircuitOperation`, where no proved property depends on it.
- IonqCodec.MeasurementDict: the JSON form of batch jobs is not modelled, and a numeral is a
  non-empty string of digits.
- IonqCodec.ParseUndoesPrint: other metadata must not use keys that start with "measurement".
- The rounding of repetitions times probability; conservation is claimed from the stored counts on.
- IonqResults.Probabilities: probabilities are exact reals; sampling a simulator result is not
  modelled.
- HTTP clients, job polling, JSON, printing, hashing and all other vendor modules.
