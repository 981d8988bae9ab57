# Jacobi solver: a Dafny model

This project models the core of `jacobi.c`, a program that solves a dense linear
system A x = b by the Jacobi iteration, together with its command-line option
parsing.

The model has three parts:

- **JacobiSpec** (`jacobi_spec.dfy`) is the pure specification.
  - The matrix is a flat, row-major sequence of n*n reals, as the C code stores it.
  - `JacobiRow` is one row update (jacobi.c:62-75): `(b[row] - Σ_{col≠row} A[row][col]*x[col]) / A[row][row]`.
  - `JacobiStep` is one full pass (jacobi.c:60-76), and `Iterate` is the k-th iterate.
  - `SquaredChange` is the squared distance between two successive iterates (jacobi.c:84-89).
  - `AboveThreshold` is the convergence test `sqrt(sqdiff) > threshold` without the square root (jacobi.c:92).
  - `Continues` is the condition of the do-while loop (jacobi.c:92).
  - The lemmas relate these to the system being solved: a step moves each unknown by its residual divided by the diagonal entry, and an iterate is a fixed point exactly when it solves A x = b.
- **JacobiSolver** (`jacobi_solver.dfy`) is `run` over arrays.
  - `UpdatedEntry` holds the two column loops that skip the diagonal.
  - `RowPass` fills the scratch buffer from the current one.
  - `RowPassScheduled` does the same pass over any schedule of whole rows. It stands for a parallel row loop in which each row's column loop is private to its thread. The source does not quite achieve this: see "## Left out".
  - `SquaredDifference` computes the convergence measure.
  - `Run` holds the do-while loop. It swaps the two buffer references after every pass, as the C code swaps its local pointers.
  - `WarnsNonConvergence` is the test `main` uses before it prints its warning (jacobi.c:168).
- **Options** (`options.dfy`) models `parse_int`, `parse_double` and `parse_arguments`.
  - Instead of printing and calling `exit`, parsing returns `Config(settings)`, `Help` or `Invalid(message)`. `ExitStatus` maps these to the exit status: 0 for help and 1 for an error (jacobi.c:216, 254, 259).
  - `Defaults` holds the default settings (jacobi.c:204-207).
  - `FlagOf` recognises the long and short spelling of each option (jacobi.c:211, 219, 227, 235, 243).
  - `SetOption` reads and checks one option's value (jacobi.c:213, 221, 229, 237).
  - `ParseFrom` specifies the whole argument walk (jacobi.c:209-261). `ParseArguments` is its loop, and `ParseOneArgument` is one pass of that loop.
  - `ParseInt` models `parse_int` (jacobi.c:187-192) over `StrToUL` and `ToInt32`. `ParseDouble` models `parse_double` (jacobi.c:194-199) over a `strtod` supplied by the caller.

`run` does its first iteration unconditionally. Because the two buffers only
exchange roles, the caller's `x` holds the final iterate when the iteration
count is even. When the count is odd, the final iterate is in the caller's
`xtmp`, and `x` holds the one before it. `Run`'s postcondition states this. So
the residual that `main` computes from `x` (jacobi.c:150-160) is the residual
of the last iterate only when the count is even.

Two edge cases of the program:

- The parser accepts a cap of 0, because only negative values are rejected (jacobi.c:221). `run` then still performs one iteration and returns 1.
- `main` warns whenever `itr == MAX_ITERATIONS` (jacobi.c:168). This also happens when the run converged on exactly that step (`WarningDespiteExactSolution`).

Integer widths are explicit in the parser (not in the solver's index arithmetic, see "## Left out"):

- `strtoul` is taken on a platform with a 64-bit `unsigned long`. It saturates at 2^64-1.
- The result is stored in a 32-bit `int`, so it is reduced modulo 2^32 and read in two's complement (`ToInt32`).
- So a value such as 4294967296 reads as 0 and is accepted, and 2147483648 reads as a negative number and is rejected (`ParseIntWraps`).

## Model

| member | source | states |
|---|---|---|
| JacobiSpec.Idx | jacobi.c:67 | element (row, col) is stored at `row*n + col`, which is inside the n*n buffer |
| JacobiSpec.OffDiagSumIsRowDotMinusDiag | jacobi.c:62-73 | the dot product that skips `col == row` equals the full row product minus `A[row][row]*x[row]` |
| JacobiSpec.StepIsScaledResidual | jacobi.c:75 | after one step, new `x[row]` minus old `x[row]` equals `(b[row] - (A x)[row]) / A[row][row]`: the update moves each unknown by its residual over the diagonal entry |
| JacobiSpec.FixedPointIffSolves | jacobi.c:60-76 | one Jacobi step leaves x unchanged if and only if x solves A x = b exactly |
| JacobiSpec.SumSquaresZeroIff | jacobi.c:84-89 | the accumulated `sqdiff` is never negative, and it is zero exactly when the two iterates agree on the rows summed |
| JacobiSpec.ThresholdTestMatchesNorm | jacobi.c:92 | for a norm r >= 0, `r > threshold` holds exactly when the square-free test holds of r*r, for a threshold of either sign |
| JacobiSpec.ExactStopSolves | jacobi.c:84-92 | with threshold 0, a loop that stops before the cap leaves the last two iterates equal, and the final iterate solves A x = b |
| JacobiSpec.SolutionStopsAfterOneStep | jacobi.c:55-92 | started from an exact solution, the first step does not move the iterate, and the loop stops after that step for any threshold >= 0 |
| JacobiSolver.UpdatedEntry | jacobi.c:62-75 | the two column loops around the skipped diagonal compute exactly row `row` of one Jacobi step from the old iterate |
| JacobiSolver.RowPass | jacobi.c:59-76 | after the row pass the scratch buffer holds the next iterate, and A, b and the current buffer are unchanged (only the scratch buffer is modified) |
| JacobiSolver.RowPassScheduled | jacobi.c:59-76 | rows processed in any order, possibly more than once, give the same next iterate, because each row reads only the old iterate and writes only its own slot |
| JacobiSolver.SquaredDifference | jacobi.c:84-89 | the convergence loop computes the squared distance between the previous and the new iterate |
| JacobiSolver.Run | jacobi.c:44-96 | the count is at least 1 and at most the cap when the cap is >= 1, and exactly 1 when the cap is <= 1. The loop went on after every earlier iteration and stopped after the last one. A stop before the cap means the last squared change is at most threshold². The caller's x holds iterate `itr` when `itr` is even and iterate `itr-1` when it is odd, and xtmp holds the other one |
| JacobiSolver.WarningMeaning | jacobi.c:168-169 | for any outcome Run allows with a cap >= 1, no warning means the loop stopped before the cap and the last step moved the iterate by at most the threshold |
| JacobiSolver.WarningDespiteExactSolution | jacobi.c:168-169 | for any outcome Run allows with a cap of 1 and an exact solution as the start, the run performs exactly one iteration, the iterate does not change, and the warning is still printed |
| Options.DigitRun | jacobi.c:190 | strtoul reads the longest prefix of decimal digits. Every character it reads is a digit, and the first one it leaves is not |
| Options.StrToUL | jacobi.c:190 | the value read is at most ULONG_MAX, nothing is left over exactly when the string is all digits, and an all-digit string of at most ULONG_MAX reads as its decimal value |
| Options.ToInt32 | jacobi.c:190 | storing the unsigned result in an int gives a 32-bit value congruent to it modulo 2^32, equal to it when it is below 2^31 |
| Options.ParseInt | jacobi.c:187-192 | a string that is not all digits gives -1; an all-digit string below 2^31 gives its decimal value; the empty string gives 0 |
| Options.ParseIntOfDecimal | jacobi.c:187-192 | every int value from 0 to 2^31-1 written in decimal is read back as itself |
| Options.ParseIntOfLargeDecimal | jacobi.c:187-192 | any value strtoul can return, written in decimal, is read as its 32-bit truncation, so values from 2^31 to 2^32-1 are read as negative numbers |
| Options.ParseIntWraps | jacobi.c:190 | "4294967296" is read as 0, and "2147483648" is read as -2^31 |
| Options.ParseOneArgument | jacobi.c:211-260 | one pass of the argument loop either stops with what the whole walk from that index yields, or advances the index without changing that outcome |
| Options.ParseArguments | jacobi.c:201-262 | the loop's result is the walk from the defaults, and with no arguments it is the defaults N=1000, MAX_ITERATIONS=20000, threshold 0.0001, SEED=0 |
| Options.ParsedSettingsNonNegative | jacobi.c:211-242 | every configuration the parser accepts has non-negative order, cap, threshold and seed |
| Options.ParseAppend | jacobi.c:209-261 | once a prefix of the arguments reads as a configuration, the whole list reads as the rest does when started from that configuration |
| Options.WalkIgnoresOption | jacobi.c:209-261 | two walks that start from settings differing in one parameter end alike: with the same error or help, or with configurations that differ at most in that parameter |
| Options.LaterOptionOverrides | jacobi.c:211-242 | an option given twice, in either spelling, with any complete options between the two and any arguments after, gives the same result as giving only its later occurrence |
| Options.MissingValueRejected | jacobi.c:211-242 | an option that takes a value is rejected with its own message and exit status 1 when no argument follows it |
| Options.NegativeValueRejected | jacobi.c:211-242 | an option whose value parse_int or parse_double reads as negative is rejected with that option's message and exit status 1, whatever follows |
| Options.TrailingCharactersRejected | jacobi.c:187-199 | a value with characters left after the number is rejected with the option's message: for `-c`, when strtod does not consume the whole string; for the other options, when the value is not all digits (leading white space and signs, which strtoul skips, are not modelled: see ParseInt under "## Left out") |
| Options.OptionValueAccepted | jacobi.c:211-242 | an option whose value reads as non-negative sets exactly its own parameter to that value, and parsing goes on after the value |
| Options.HelpStops | jacobi.c:243-255 | `-h` or `--help` after valid options ends parsing with Help and exit status 0, whatever follows |
| Options.UnrecognizedRejected | jacobi.c:256-260 | an unrecognised argument after valid options ends parsing with the "Unrecognized argument" message and exit status 1, whatever follows |

## Left out

- The OpenMP pragmas (jacobi.c:59, 74) are concurrency. The row pass is sequential, and `RowPassScheduled` stands for any order of whole rows. It does not model simultaneous execution or the `critical` section.
- The column index `col` is declared for the whole function (jacobi.c:48) and is not in the `private` clause (jacobi.c:59), so all threads share it. With more than one thread, the column loops (jacobi.c:65-73) race on it, and a row's dot product can skip or repeat columns. This reading of the source is not executed, and the race is not modelled: the model computes what the loop computes with `col` private to each row.
- The index and size arithmetic `row*N + col` and `N*N` (jacobi.c:67, 72, 75, 102) is 32-bit `int` in C. It overflows when N > 46340, which the parser accepts. The model indexes with unbounded `nat` (`Idx`), so this overflow is not modelled.
- Single-precision storage, double-precision accumulation and all rounding (jacobi.c:49-52, 67, 87-88) are left out. Values are `real`, so sums are exact and their order does not matter.
- `sqrt` (jacobi.c:92) is left out. The test compares the squared change against threshold², which `ThresholdTestMatchesNorm` shows is equivalent for thresholds of either sign.
- A zero diagonal entry, which in C gives infinities or NaN, is excluded by the precondition `DiagNonZero`.
- The random set-up of A, b and x in `main` (jacobi.c:116-129) is left out. It uses `srand`/`rand` and builds a diagonally dominant matrix. That the iteration converges for such matrices is a numerical result and is not proved.
- `main` itself is left out as one member: allocation, `printf` output, timing (`get_timestamp`), `free`, and the residual report (jacobi.c:149-160). Only its warning test is modelled (`WarnsNonConvergence`).
- The usage text printed for `--help` and the text of the messages' `printf` calls are left out. The error messages are kept as strings.
- ParseInt: strtoul's handling of leading white space, a `+` or `-` sign, and overflow errno is not modelled. The model reads only a leading run of decimal digits, so for example " 5" reads as -1 here but as 5 in C.
- ParseDouble: strtod is a parameter of the model (the value it reads and the rest it leaves), so nothing is assumed about the numbers it accepts. NaN and infinity results have no `real` counterpart.
