# PrimeForge in Dafny

PrimeForge searches families k*b^n+c for primes. Its fast code paths must agree
exactly with slow references, and its ledgers must survive a crash at any byte.
This project models those paths in Dafny 4.11 and proves both.

`dafny verify dfyconfig.toml` checks everything. Nothing was executed.

## What is modelled

- **Congruence compiler** (`Progressions`, `Orders`, `Compiler`, `CompiledRules`,
  `Eliminations`, `TableApplication`): the rules compiled for a prime match exactly the
  candidates the prime divides, and applying them equals the scalar reference.
- **Family sieve** (`BoundedMagnitude`, `Words`, `SieveCells`, `SieveScan`, `SieveLoops`,
  `ResidueScan`, `RuleTables`, `SievePremark`, `CrtTemplate`, `SieveWorkers`, `SieveMerge`,
  `ReferenceWords`, `SieveVerdict`, `FamilySieve`, `SieveWrap`): every option combination and
  every assignment and order of segments gives the reference's bit set and the least witnesses.
  The argument is one cell (bit and witness) at a time: whatever order the checks come in,
  a cell ends at the outcome of its first eliminating prime.
- **Proofs and tests** (`NumberTheory`, `FiniteProducts`, `Reciprocity`, `Polynomials`,
  `Proth`, `ProthText`, `JacobiProduct`, `StrongTest`): Fermat, Gauss's lemma, quadratic
  reciprocity and Proth's theorem are proved here and carry the certificate verifier, the
  Jacobi prefilter and the strong tests.
- **Sieves** (`BasePrimes`, `SegmentedSieve`, `PrimeGenerator`, `ProthSieve`).
- **Exact arithmetic and expressions** (`Limbs`, `BigIntegers`, `BigDecimal`,
  `FamilyExpressions`, `FamilySize`, `FamilyText`).
- **Work units** (`WorkUnits`): partition and exact-cover verification.
- **Ledgers**, each as a disk that a crash may leave after any byte of an append, a process
  and a restart: the native campaign (`DelimitedText`, `Campaign*`, `NativeCampaign`), the
  modular pipeline with its ledger, checkpoint and event log (`JsonText`,
  `RuntimeCheckpoint`, `EventLog`, `Modular*`), the evidence log (`EvidenceRecords`,
  `EvidenceLog`) and the search pipeline with its three files (`JsonLines`, `Search*`).

Conventions. A C++ exception is an `Err` with the kind of exception. Unsigned words are the
subset types `u32` and `u64`, so every assignment to one carries the proof that the value
fits; where the source relies on wrapping, the wrap is written out. SHA-256 is an unknown
function into hexadecimal text. Clocks, engines, stop requests and what becomes of each
durable write are fields of an `Environment` that the theorems range over.

## Where the code falls short

Each of these is stated with its exact condition, and with inputs that meet it.

- `run` of the family sieve computes `(count + 63) / 64` words and `(count + size - 1) / size`
  segments in 64 bits (src/family_sieve/family_sieve.cpp:623, 650). When the second sum wraps
  nothing is scanned and only premarked candidates are eliminated; when the first wraps as
  well there are no words. `FamilySieve.Run` says when the words are still the reference's;
  `SieveWrap.WrappingRunFails` gives a failing family for every wrapping count and size.
- The event log of the modular pipeline is opened outside the `try` and nothing trims it. A
  crash inside an event record makes every later run throw, although checkpoint and ledger
  are intact: `ModularPipeline.Run`, `ModularStuck.TornStartIsFinal`.
- The checkpoint writer escapes control characters that its reader does not know
  (src/runtime/runtime_internal.hpp:34, 98). A pipeline under an id with such a character
  runs once and is never resumed: `JsonText.ParseEscaped`, `ModularStuck.UnreadableIdRunsOnce`.
- `run_campaign` checks lanes and candidates of an answer but not its verdict and texts. An
  unknown verdict, or a residue with a tab, becomes durable and every restart refuses the log:
  `NativeCampaign.RunCampaign`, `NativeCampaign.UnreadableAnswerIsFinal`,
  `NativeCampaign.UnreadableAnswers`.
- The same append trusts the answer's line breaks. An answer that holds a row of its own with
  that row's hash in front of a line break is read as that row when a crash tears the append
  there, and whole batches nobody wrote become durable: `CampaignForgery.ForgedExactly`,
  `CampaignForgery.ForgedBatchIsTaken`, `CampaignForgery.ForgedPrime`.
- A native campaign whose identity has a control character saves a checkpoint that its reader
  refuses, so it runs once: `NativeCampaign.UnprintableRunsOnce`, `JsonText.JsonRoundTrip`. With
  a tab or newline in the campaign id no row is read back either:
  `CampaignLog.UncleanIdentityRefused`.
- The bit-size estimate of a constant saturates before its decimal length does, so it is an
  upper bound exactly for constants of moderate size: `FamilySize.ConstantSoundIff`,
  `FamilySize.LeastUnsoundConstant`.
- `restore_progress` rewrites a result file that is longer than its checkpoint through the
  atomic writer, which refuses an empty content. If the first append was durable but its
  checkpoint was not, every restart is refused. It also counts lines of the fallback engine
  that name the current certificate segment as if they were certificates, so that it keeps
  uncommitted lines or, when the file has fewer, refuses: `SearchRecovery.RestoreProgress`,
  `SearchClaims.ExactOutrunWhenClaimed`, `SearchClaims.ClaimBehindCertificate`.

## Model

| member | source | states |
|---|---|---|
| MachineArithmetic.MultiplyFullPortable | src/math/mul128.cpp:26-44 | the two result words are exactly the 128-bit product; no partial sum leaves 64 bits |
| MachineArithmetic.MultiplyModPortable | src/math/mul128.cpp:60-78 | double-and-add gives left*right mod m for every nonzero m |
| MachineArithmetic.PowerModulo | src/congruence/compiler.cpp:90-103 | the compiler's power loop gives base^exponent mod m, also for m = 1 |
| MachineArithmetic.PowerMod | src/proth/proth.cpp:19-33 | the prover's power loop gives base^exponent mod m |
| Progressions.ValueAtExact | src/congruence/compiler.cpp:448-455 | for an index below the size no intermediate wraps and `value_at` is the mathematical member |
| Progressions.IndexOfExact | src/congruence/compiler.cpp:457-466 | `contains` and `index_of` invert `value_at` |
| Progressions.AtInjective | src/congruence/compiler.cpp:448-455 | different indices of a progression are different members |
| Progressions.EvaluateModulo | src/congruence/compiler.cpp:593-606 | the residue of k*b^n+c modulo any nonzero word; of a valid family it fails only for a modulus of zero and for an index outside its range, never by overflow |
| Orders.OrderExists | src/congruence/compiler.cpp:113-135 | every residue prime to p has a least positive exponent with power 1, and it divides p-1 |
| Compiler.MultiplicativeOrder | src/congruence/compiler.cpp:113-135 | trial division of p-1 ends at the least positive e with base^e = 1 mod p |
| CompiledRules.ModularInversePrime | src/congruence/compiler.cpp:105-111 | Fermat's power is the inverse of every nonzero residue, and zero is refused |
| CompiledRules.KIndexClass | src/congruence/compiler.cpp:221-239 | the k indices whose member meets a target residue form exactly the returned class: one residue, all, or none |
| CompiledRules.IndexClassPeriod | src/congruence/compiler.cpp:319-343 | two indices in one class of the gcd-reduced period have exponents in one class of the order |
| CompiledRules.CompileDivisorOfBase | src/congruence/compiler.cpp:298-311 | for q dividing b the rules match exactly the multiples of q, with n = 0 treated apart |
| CompiledRules.CompilePrime | src/congruence/compiler.cpp:287-345 | for every valid family, prime q and period multiplier that does not overflow, some rule matches (k index, n index) if and only if q divides k*b^n+c |
| Eliminations.NormalizedPrimes | src/congruence/compiler.cpp:423-433 | the primes sorted without repetitions, refused when one is not accepted |
| Eliminations.CompileCongruences | src/congruence/compiler.cpp:468-487 | one exact table per listed prime, in ascending order; for prime moduli it fails only when a period overflows |
| Eliminations.CompiledTwice | src/congruence/compiler.cpp:468-487 | compilation is a function of family, primes and multiplier: two compiled tables of the same three are equal, so recompiling validates |
| Eliminations.FirstIsLeast | src/congruence/compiler.cpp:379-387 | the first proper factor of an ascending list is the least proper prime factor in it |
| Eliminations.ScalarReferenceEliminations | src/congruence/compiler.cpp:645-670 | exactly the eliminated candidates in order with their least listed proper factor; a length error exactly when a candidate it must evaluate is too large |
| TableApplication.EnumerateClass | src/congruence/compiler.cpp:389-421 | the strided loop lists exactly the class's indices, ascending, and never steps beyond the range |
| TableApplication.ValidateCompiledTable | src/congruence/compiler.cpp:544-577 | a table passes recompilation if and only if it was compiled, and then it is exact |
| TableApplication.ApplyCompiledTable | src/congruence/compiler.cpp:608-643 | on an exact table: the ordered eliminations of the scalar reference, the same length error, and the "does not divide" error never |
| TableApplication.CompiledEqualsScalar | src/congruence/compiler.cpp:608-670 | compile, validate and apply, with the validation run, returns what the scalar path returns |
| BoundedMagnitude.MultiplyCaps | src/family_sieve/family_sieve.cpp:147-160 | the saturated product of saturated values is the saturated product |
| BoundedMagnitude.BoundedPower | src/family_sieve/family_sieve.cpp:173-189 | saturated square-and-multiply is the saturated power |
| BoundedMagnitude.BoundedProperFactorMagnitude | src/family_sieve/family_sieve.cpp:194-211 | for nonnegative k, b and c the flag is exactly k*b^n+c > q |
| BoundedMagnitude.ProperFactorCheck | src/family_sieve/family_sieve.cpp:213-233 | the verdict of the exact comparison, without the exact value whenever the family is nonnegative |
| SieveCells.LayoutsAgree | src/family_sieve/family_sieve.cpp:87-122 | row-wise and column-wise rules match the same candidates |
| SieveCells.DecodeExact | src/family_sieve/family_sieve.cpp:69-85 | `decode_index` and the traversal position are inverse in both orientations |
| SieveCells.StepKeepsOutcome | src/family_sieve/family_sieve.cpp:235-260 | an inspection in ascending prime order keeps a cell at the outcome its first eliminating prime calls for |
| SieveCells.MergeIsDirect | src/family_sieve/family_sieve.cpp:744-779 | merging a worker's cell into a premarked one gives the cell of a direct write |
| SieveScan.Board.Record | src/family_sieve/family_sieve.cpp:235-260 | recording on the shared words sets the bit and keeps the lowest witness, and touches nothing else |
| SieveLoops.ScanPrimeMajor | src/family_sieve/family_sieve.cpp:394-402 | prime-major order brings every candidate of the segment to its outcome over all checks, nothing outside changes |
| SieveLoops.ScanCandidateMajor | src/family_sieve/family_sieve.cpp:403-411 | candidate-major order reaches the same outcome for every candidate |
| ResidueScan.FirstCongruentAtOrAfter | src/family_sieve/family_sieve.cpp:334-345 | the least index of a class at or after a bound, or the maximum word when there is none |
| ResidueScan.RulePositions | src/family_sieve/family_sieve.cpp:444-466 | residue enumeration visits exactly the positions of the segment that the rule matches, each once |
| ResidueScan.ScanByResidue | src/family_sieve/family_sieve.cpp:444-466 | residue enumeration reaches the outcome of the full scans |
| RuleTables.FlattenRules | src/family_sieve/family_sieve.cpp:268-275 | the flattened list is the tables' rules, table after table |
| RuleTables.FoundIsVerdict | src/family_sieve/family_sieve.cpp:268-275 | the first eliminating check of a complete list is the least listed proper factor |
| SievePremark.PremarkSmallPrimeUnion | src/family_sieve/family_sieve.cpp:507-539 | an unmarked candidate becomes marked exactly when one of the first primes properly divides it, with the least as witness; a length error only when a candidate needs its exact value |
| CrtTemplate.BoundedLcm | src/family_sieve/family_sieve.cpp:551-558 | the least common multiple, and 0 exactly when no common multiple fits a word |
| CrtTemplate.PremarkCrtTemplate | src/family_sieve/family_sieve.cpp:541-605 | the template is left out exactly below two primes or when its exact period does not fit the memory limit; applied, a candidate is examined for exactly the first prime with an index class over it |
| SieveWorkers.ScanSegment | src/family_sieve/family_sieve.cpp:357-481 | whatever loop the options select, the segment's cells reach their outcomes |
| SieveMerge.RunSchedule | src/family_sieve/family_sieve.cpp:672-723 | under every assignment and order of segments to workers, afterwards the segments' cells hold their outcomes in the direct words or the private outputs |
| SieveVerdict.MergeOutputs | src/family_sieve/family_sieve.cpp:744-779 | after the loop over the outputs the result holds every worker's segments |
| SieveVerdict.EverySegmentDecides | src/family_sieve/family_sieve.cpp:692-712 | scanning every segment once decides every candidate |
| FamilySieve.CheckedCandidateCount | src/family_sieve/family_sieve.cpp:497-505 | the exact product of the two sizes, or an overflow error |
| FamilySieve.SegmentsTile | src/family_sieve/family_sieve.cpp:650-651 | without the wrap in the rounded-up quotient the segments tile the candidates; with it there are none |
| FamilySieve.SegmentsOwnWords | src/family_sieve/family_sieve.cpp:655-663 | in direct-write mode two segments never share a 64-bit word |
| FamilySieve.StaticPartition | src/family_sieve/family_sieve.cpp:706-712 | the static partition is one of the schedules the theorem ranges over |
| ReferenceWords.WordsAllocated | src/family_sieve/family_sieve.cpp:623 | enough words for the candidates, and none at all exactly when the sum before the division wraps |
| ReferenceWords.ReferenceEliminatedWords | src/family_sieve/family_sieve.cpp:797-808 | the words with exactly one bit for every scalar elimination; a length error exactly for too many candidates or one too large to evaluate; no words when the word count wraps and nothing is eliminated |
| ReferenceWords.WordsAreReference | src/family_sieve/family_sieve.cpp:797-808 | words whose bits are the candidates' verdicts and that have no padding bits are the reference's words |
| FamilySieve.Finish | src/family_sieve/family_sieve.cpp:783-793 | the final count is the number of eliminations and the check that witnesses and words agree never fires |
| FamilySieve.Run | src/family_sieve/family_sieve.cpp:613-795 | for every option combination, premark and schedule: the words are those of `reference_eliminated_words` if and only if the word count does not wrap and either the segment count does not or everything is marked early; without a wrap witness i is the smallest listed proper factor of candidate i |
| FamilySieve.EarlyVerdict | src/family_sieve/family_sieve.cpp:639-651 | words of exactly the template's and the union's marks are the reference's if and only if every elimination is among them |
| SieveWrap.WrappingRunFails | src/family_sieve/family_sieve.cpp:623-651 | for every count and segment size whose sum wraps there is a family of that many candidates on which a run returns and misses eliminations |
| SieveWrap.TwoCandidates | src/family_sieve/family_sieve.cpp:650-651 | two candidates in segments of the largest size: a run misses eliminations |
| SieveWrap.MostCandidates | src/family_sieve/family_sieve.cpp:623 | 2^64-1 candidates in segments of 8192: no words are allocated, and what a run returns is not the reference |
| FiniteProducts.Fermat | src/proth/proth.cpp:100-147 | a^(p-1) = 1 modulo a prime p that does not divide a, which the proof search and the tests rest on |
| Proth.ProthTheorem | src/proth/proth.cpp:132-147 | a witness a with a^((N-1)/2) = -1 mod N proves N = k*2^n+1 prime when k is odd and below 2^n |
| Reciprocity.QuadraticReciprocity | src/proth/proth.cpp:35-50 | the reciprocity law for coprime odd positive integers that the swap step of the symbol loop uses |
| Proth.JacobiSymbol | src/proth/proth.cpp:35-50 | the loop computes the Jacobi symbol (as the Gauss sign) for every pair of words, and 0 outside its domain |
| JacobiProduct.JacobiMultiplicative | src/proth/proth.cpp:35-50 | the symbol is multiplicative in its odd denominator, common factors included |
| JacobiProduct.JacobiOfPrime | src/proth/proth.cpp:35-50 | over an odd prime it is the Legendre symbol by Euler's criterion: 0 for multiples, else the sign of a^((p-1)/2) |
| JacobiProduct.JacobiIsProduct | src/proth/proth.cpp:35-50 | so it is the textbook Jacobi symbol: the product of the Legendre symbols over the prime factors |
| Proth.EulerCriterion | src/proth/proth.cpp:112-118 | for a prime the symbol of a is -1 exactly when a is a Proth witness |
| Proth.WitnessExists | src/proth/proth.cpp:100-130 | every odd prime has a witness below it, so the search finds one |
| Proth.PrefilterExact | src/proth/proth.cpp:112-128 | the Jacobi prefilter skips no witness, and a base it lets through that is no witness shows the value composite |
| Proth.SupportedExactly | src/proth/proth.cpp:83-98 | the guards accept exactly the Proth numbers k*2^n+1 with odd k < 2^n that fit a word |
| Proth.Verify | src/proth/proth.cpp:132-147 | `verify_u64` accepts exactly the good certificates, and then the value is prime |
| Proth.TryProve | src/proth/proth.cpp:100-130 | every returned certificate verifies and holds the least witness up to the limit; a prime whose bases may all be tried is always proved; the search terminates |
| ProthText.FieldsRoundTrip | src/proth/proth.cpp:161-202 | reading back the printed fields yields the certificate |
| ProthText.ParseCanonical | src/proth/proth.cpp:161-202 | the parser accepts exactly the canonical texts of good certificates |
| ProthText.TextInjective | src/proth/proth.cpp:149-159 | different certificates have different texts |
| StrongTest.PrimesAreStrong | src/adaptive_bound/adaptive_bound.cpp:132-149 | a prime satisfies the strong condition to every base it does not divide |
| StrongTest.IsBase2StrongProbablePrime | src/adaptive_bound/adaptive_bound.cpp:132-149 | the test decides trial division and the strong condition to base 2 despite its early exits, and rejects no prime |
| StrongTest.IsPrimeU64 | src/sieve/sieve.cpp:372-413 | the test decides trial division and seven strong conditions, and rejects no prime |
| BasePrimes.IntegerSquareRoot | src/sieve/sieve.cpp:48-58 | from any starting estimate the repair loops end at the exact integer square root |
| BasePrimes.BasePrimesThrough | src/sieve/sieve.cpp:60-87 | exactly the primes up to the limit, in order |
| BasePrimes.PrimesInExact | src/sieve/sieve.cpp:182-211 | the result list is strictly increasing and holds exactly the primes of [begin, end) |
| BasePrimes.GeneratePrimesReference | src/sieve/sieve.cpp:182-211 | the reference generator returns exactly the primes of [begin, end) |
| SegmentedSieve.FirstOddMultiple | src/sieve/sieve.cpp:98-121 | the least odd multiple in [low, high) from the prime's square on, or high; no word wraps |
| SegmentedSieve.StrikeSegment | src/sieve/sieve.cpp:275-294 | the strided loop marks exactly the strikes of the prime in the segment, and `(high-1)-step` never underflows |
| SegmentedSieve.WheelRejects | src/sieve/sieve.cpp:89-96 | on odd numbers from 3 on the wheel rejects exactly proper multiples of 3 and 5 |
| SegmentedSieve.ReadSegment | src/sieve/sieve.cpp:317-331 | the flags of a finished segment read back as exactly its primes, in order |
| PrimeGenerator.FileBuckets | src/sieve/sieve.cpp:236-258 | every large prime's odd multiples from its square on are filed in the bucket of their segment, and only those; `(end-1)-step` never underflows |
| PrimeGenerator.SegmentsMeet | src/sieve/sieve.cpp:226-232 | consecutive segments meet and the last one ends the range |
| PrimeGenerator.GeneratePrimes | src/sieve/sieve.cpp:213-365 | for every span, wheel, bucket, layout and packing option and every worker order the strictly increasing list of exactly the primes of [begin, end) |
| PrimeGenerator.GeneratorsAgree | src/sieve/sieve.cpp:182-365 | both generators return the same list on every range |
| ProthSieve.ModularPower | src/discovery/proth_sieve.cpp:47-57 | on raw words below 2^32 no product leaves 64 bits and the power is exact |
| ProthSieve.InverseOfPower | src/discovery/proth_sieve.cpp:98-99 | ((q+1)/2)^n inverts 2^n modulo an odd q |
| ProthSieve.ForbiddenResidue | src/discovery/proth_sieve.cpp:98-99 | q divides k*2^n+1 exactly when k is congruent to minus that inverse |
| ProthSieve.FirstForbidden | src/discovery/proth_sieve.cpp:100-103 | the computed start is the least odd k of the class in the window, without wrap |
| ProthSieve.ApplyPrime | src/discovery/proth_sieve.cpp:105-120 | striding by 2q marks exactly the candidates the prime divides and counts each once |
| ProthSieve.SurvivorsExact | src/discovery/proth_sieve.cpp:129-136 | the survivors are exactly the odd k of the window with no odd prime factor up to the bound, increasing |
| ProthSieve.SieveProthCandidates | src/discovery/proth_sieve.cpp:77-138 | the result is the survivors, and the population-count check never fires |
| ProthSieve.EliminatedIsComposite | src/discovery/proth_sieve.cpp:59-73 | the validated domain makes every eliminated value a proper multiple of its prime |
| BigIntegers.BigInteger.constructor | src/math/big_integer.cpp:28-40 | the object denotes the signed word, including the least one |
| BigIntegers.BigInteger.Add | src/math/big_integer.cpp:136-164 | `+=` denotes the sum, also when both operands are the same object |
| BigIntegers.BigInteger.Subtract | src/math/big_integer.cpp:166-168 | `-=` denotes the difference, aliased or not |
| BigIntegers.BigInteger.Multiply | src/math/big_integer.cpp:170-204 | `*=` denotes the product, aliased or not |
| BigIntegers.BigInteger.Compare | src/math/big_integer.cpp:206-220 | the ordering of the denoted integers |
| BigIntegers.EqualByValue | include/primeforge/math/big_integer.hpp:43 | memberwise equality of normalized objects is equality of the denoted integers |
| BigIntegers.BigInteger.Modulo | src/math/big_integer.cpp:103-116 | the residue in [0, m) of the signed value |
| BigIntegers.BigInteger.ToUint64Absolute | src/math/big_integer.cpp:118-128 | the magnitude when it fits a word, else an overflow error |
| BigIntegers.AddAbsolute | src/math/big_integer.cpp:243-260 | the carry pass gives the normalized limbs of the sum; no sum leaves 64 bits |
| BigIntegers.SubtractAbsolute | src/math/big_integer.cpp:262-281 | the borrow pass gives the normalized limbs of the difference |
| BigIntegers.MultiplyAbsolute | src/math/big_integer.cpp:170-204 | the schoolbook rows give the product; every intermediate fits 64 bits |
| BigIntegers.CompareAbsolute | src/math/big_integer.cpp:231-241 | comparing normalized limbs from the top compares the magnitudes |
| BigIntegers.Power | src/math/big_integer.cpp:283-295 | squaring in place gives the power |
| BigDecimal.ToDecimalText | src/math/big_integer.cpp:80-93 | prints the canonical decimal text of the value |
| BigDecimal.FromDecimal | src/math/big_integer.cpp:42-78 | accepts exactly the canonical signed numerals, each with its value |
| BigDecimal.DecimalRoundTripOf | src/math/big_integer.cpp:42-93 | printing an object and parsing the text gives an object of the same value |
| BigDecimal.PrintedIsCanonical | src/math/big_integer.cpp:80-93 | every printed text is canonical and reads back as its integer |
| BigDecimal.CanonicalIsPrinted | src/math/big_integer.cpp:42-78 | every canonical numeral is the printed text of its value |
| FamilyExpressions.EvaluateExpressionExact | src/family/family.cpp:744-766 | the big-integer evaluation denotes the mathematical value of a validated expression |
| FamilyExpressions.EvaluateExpressionModulo | src/family/family.cpp:778-812 | the modular evaluation is the exact value reduced into [0, m) |
| FamilyExpressions.EvaluationsAgree | src/family/family.cpp:744-812 | both evaluations of a validated expression under an in-range assignment agree modulo every nonzero m |
| FamilySize.DigitsToBits | src/family/family.cpp:660-663 | a number of d decimal digits has at most d*3322/1000+1 bits |
| FamilySize.ConstantSoundIff | src/family/family.cpp:642-663 | the saturated estimate of a constant bounds it if and only if the constant has no more bits than the saturation point |
| FamilySize.LeastUnsoundConstant | src/family/family.cpp:654-663 | the power of two just beyond the saturation point is the least constant with a wrong estimate, and the estimate does not say so |
| FamilySize.EstimateSound | src/family/family.cpp:654-698 | for expressions without a constant beyond the saturation point: whenever the estimate is not saturated, |value| < 2^estimate |
| FamilySize.ValidatedEstimate | src/family/family.cpp:654-698 | the same for every such expression `validate_expression` accepts, under every in-range assignment |
| FamilyText.Decodes | src/family/family.cpp:538-570 | canonical texts of expressions are uniquely decodable: equal concatenations have equal first texts and rests |
| FamilyText.NormalKeepsValue | src/family/family.cpp:538-570 | sorting commutative operands and rewriting a-b as a+(-b) keeps the value |
| FamilyText.TextDeterminesMeaning | src/family/family.cpp:538-570 | equal canonical texts evaluate equally under every in-range assignment |
| FamilyText.CommutedTexts | src/family/family.cpp:538-570 | the text does not depend on the order of commuting operands or on writing a difference as a sum |
| WorkUnits.PartitionWorkUnits | src/work/work_unit.cpp:297-320 | the finalized units of the consecutive pieces of the domain; the exact error conditions |
| WorkUnits.CountSort | src/work/work_unit.cpp:368-373 | sorting changes no point's count, so the verdict does not depend on input order |
| WorkUnits.ChainIffCover | src/work/work_unit.cpp:374-394 | a sorted list meets end to end exactly when every point of the domain is in one interval and none outside is in any |
| WorkUnits.Sweep | src/work/work_unit.cpp:374-394 | the sweep reports no interval error if and only if the sorted intervals meet end to end |
| WorkUnits.VerifyCoverage | src/work/work_unit.cpp:322-400 | no interval error if and only if the units' intervals partition [begin, end); valid if and only if the identities agree as well |
| WorkUnits.PartitionAccepted | src/work/work_unit.cpp:297-400 | with a collision-free digest every output of the partition is accepted |
| DelimitedText.PrefixOfLines | src/discovery/native_b8_campaign.cpp:191-199 | a prefix of written lines is some whole lines and the beginning of the next |
| DelimitedText.DiscardTorn | src/discovery/native_b8_campaign.cpp:191-199 | discarding the truncated final line keeps exactly the whole lines |
| CampaignLog.SerializeResultRows | src/discovery/native_b8_campaign.cpp:332-345 | the text is the rows' lines |
| CampaignLog.ReadResults | src/discovery/native_b8_campaign.cpp:401-451 | the reader's verdict on every text: the rows, or a refusal |
| CampaignRefusal.ReadWrittenLog | src/discovery/native_b8_campaign.cpp:401-451 | a written log is read back if and only if every row's identity and verdict are accepted and its residue text has no tab or line break, whatever the engine's texts; of a forgery the hash is taken to be unique |
| CampaignRefusal.UntakenRefused | src/discovery/native_b8_campaign.cpp:401-451 | a log with one whole row that is not taken is refused whatever stands around it: of a forgery the last line carries the wrong hash |
| CampaignLog.ParseRowText | src/discovery/native_b8_campaign.cpp:332-451 | the first line of any written row is read as that row exactly when its identity and verdict are accepted and its residue text is clean, as another row exactly when its answer is a forgery, and else not at all |
| CampaignRefusal.ReadBeginning | src/discovery/native_b8_campaign.cpp:401-451 | a beginning of written rows that ends with a line reads as the rows begun, or is refused when one of them is not taken, unless what is left of the last one is itself read as rows |
| CampaignLog.AcceptedIsNoForgery | src/discovery/native_b8_campaign.cpp:332-451 | no answer with an accepted verdict is a forgery, whatever its residue text |
| CampaignForgery.ForgedExactly | src/discovery/native_b8_campaign.cpp:401-451 | some beginning of a written row is read as rows nobody wrote if and only if its answer passes the reader's tests in front of a line break of its own: six fields, a verdict, a 32-bit witness and the hash of that row |
| CampaignForgery.UnforgedIsUsable | src/discovery/native_b8_campaign.cpp:353-451 | so without such an answer no crash in an append leaves a beginning that passes for rows |
| CampaignForgery.ForgeryIsRead | src/discovery/native_b8_campaign.cpp:401-451 | of every forgery: a log torn behind its first line is read as exactly the row the engine made up |
| CampaignLog.UncleanIdentityRefused | src/discovery/native_b8_campaign.cpp:401-451 | a campaign identifier with a tab or newline is never read back |
| CampaignBatches.ValidateResultBatches | src/discovery/native_b8_campaign.cpp:484-534 | the verdict on all rows, with the state it recomputes |
| CampaignBatches.ValidateWritten | src/discovery/native_b8_campaign.cpp:473-534 | whole batches and the beginning of another are recovered exactly, and the recomputed chain hash is the one advanced batch by batch |
| JsonText.JsonRoundTrip | src/discovery/native_b8_campaign.cpp:154-178 | a text survives the checkpoint if and only if it has no control characters |
| CampaignCheckpoint.CheckpointVerdict | src/discovery/native_b8_campaign.cpp:536-650 | over the recomputed state of whole batches a checkpoint is accepted if and only if it is the one the campaign writes after some prefix of them, is resumable, and the identity is printable; so never one that is ahead |
| CampaignDisk.DiscardLeavesWholeLines | src/discovery/native_b8_campaign.cpp:191-199 | after a torn append, discarding leaves the durable batches and the whole lines of the next, also when the engine's texts break lines |
| CampaignDisk.ReadVisible | src/discovery/native_b8_campaign.cpp:401-451 | the remaining log is read as exactly the visible rows, or refused when one of them cannot be read, forgeries that are not torn included |
| CampaignRecovery.Recover | src/discovery/native_b8_campaign.cpp:968-990 | start-up on any recoverable disk ends with exactly the durable batches, and is refused exactly when a visible row cannot be read, the checkpoint is not resumable, or there is one and the identity has a control character |
| NativeCampaign.BuiltBatchIsGood | src/discovery/native_b8_campaign.cpp:1206-1227 | a batch built from matching results passes every later check |
| NativeCampaign.PersistBatch | src/discovery/native_b8_campaign.cpp:1214-1256 | append, then checkpoint: a beginning of the rows' text reaches the log whatever the engine answered, and under any crash the durable batches stay an exact prefix with the checkpoint not ahead |
| NativeCampaign.RunBatches | src/discovery/native_b8_campaign.cpp:1071-1293 | consecutive batches from the first one not durable, none after a durable PROVEN_PRIME |
| NativeCampaign.RunCampaign | src/discovery/native_b8_campaign.cpp:937-1304 | whatever engine, clock, stops and crashes do, as long as no crash leaves of an append a beginning that passes for rows: durable batches are only extended, form an exact prefix of the queue and are never behind the checkpoint; a run is refused if and only if a visible row cannot be read, the checkpoint is not resumable, or there is one and the identity has a control character; a row that cannot be read ends the campaign |
| NativeCampaign.RunRepeatedly | src/discovery/native_b8_campaign.cpp:937-1304 | the same over any number of runs; behind a row that cannot be read nothing is ever added |
| NativeCampaign.UnreadableAnswerIsFinal | src/discovery/native_b8_campaign.cpp:1203-1256 | an answer that matches its lanes but cannot be read back is made durable, and the next run is refused |
| NativeCampaign.UnreadableAnswers | src/discovery/native_b8_campaign.cpp:1203-1213 | two such answers: the verdict "UNKNOWN", and a COMPOSITE residue of 16 characters ending in a tab |
| NativeCampaign.UnprintableRunsOnce | src/discovery/native_b8_campaign.cpp:937-1070 | a new campaign runs and saves a checkpoint under any identity; the next run is refused if a text of it has a control character, and otherwise only for rows or status the first one left |
| CampaignForgery.ForgedBatchIsTaken | src/discovery/native_b8_campaign.cpp:968-1256 | for every batch the log could hold there is an answer with no accepted verdict, and a crash in its append, after which the next run takes that batch, which nobody wrote, as durable |
| CampaignForgery.ForgedPrime | src/discovery/native_b8_campaign.cpp:968-1256 | such a run from the first start on: one candidate, one answer without a verdict, one crash, and the next run finds a proven prime |
| JsonText.ParseEscaped | src/runtime/runtime_internal.hpp:18-102 | an escaped text is read back if and only if its only control characters are backspace, form feed, newline, return and tab; otherwise the reader fails |
| RuntimeCheckpoint.LoadExact | src/runtime/checkpoint_manager.cpp:95-138 | `load` accepts exactly the documents `save` writes for valid states whose texts can be read back, each as that state |
| RuntimeCheckpoint.SavedStateLoads | src/runtime/checkpoint_manager.cpp:83-138 | a saved state is loaded again, or can never be: the campaign id and payload decide |
| EventLog.DigitsBack | src/runtime/benchmark_logger.cpp:39-62 | the number of a record is found and read back whatever its campaign id and payload contain |
| EventLog.NextNumber | src/runtime/benchmark_logger.cpp:23-62 | an intact log of n records is continued with number n+1, and refused when numbers are used up |
| EventLog.ReopenVerdict | src/runtime/benchmark_logger.cpp:23-62 | a log that crashes left is reopened if and only if nothing is behind its whole records and a number is left |
| ModularLedger.LineAccepted | src/pipeline/modular_pipeline.cpp:189-226 | a ledger line is accepted for a task if and only if it is the exact record of left*right mod m |
| ModularLedger.RestoreLedger | src/pipeline/modular_pipeline.cpp:189-226 | succeeds if and only if the content is the concatenation of the exact records of the committed tasks |
| ModularCheckpoint.PayloadExact | src/pipeline/modular_pipeline.cpp:88-134 | the payload reader accepts exactly the canonical payload texts, each as its payload |
| ModularCheckpoint.DocumentReads | src/pipeline/modular_pipeline.cpp:288-298 | a saved checkpoint gives back its progress and payload, or is refused exactly when its campaign id cannot be read back |
| ModularPipeline.ReadCheckpointExact | src/pipeline/modular_pipeline.cpp:288-298 | what start-up accepts as checkpoint: exactly the documents saved for this campaign and these tasks |
| ModularDisk.LogEvent | src/runtime/benchmark_logger.cpp:116-142 | a crash in an event append leaves the log torn exactly when it keeps a proper non-empty part of the record |
| ModularPipeline.TilesAppend | src/pipeline/modular_pipeline.cpp:356-378 | a submission keeps the pending batches tiling [committed, next) |
| ModularPipeline.Process.Submit | src/pipeline/modular_pipeline.cpp:356-387 | the backend on top of the free stack takes the next batch; pending batches keep tiling and each backend is free or in exactly one of them |
| ModularPipeline.CommitFront | src/pipeline/modular_pipeline.cpp:389-419 | the front batch is verified, appended and checkpointed in order; under any crash the disk stays recoverable |
| ModularPipeline.Open | src/pipeline/modular_pipeline.cpp:288-324 | what is resumed is always the exact ledger; a recoverable ledger is refused if and only if there is a checkpoint whose campaign id cannot be read back |
| ModularPipeline.Drive | src/pipeline/modular_pipeline.cpp:355-419 | a stop drains everything in flight |
| ModularPipeline.Run | src/pipeline/modular_pipeline.cpp:266-441 | in every interleaving of submissions, completions, stops, failures and crashes the recoverable ledger only grows and the result is the exact residues of a prefix, all of them unless stopped; a recoverable disk is refused if and only if its event log is torn, the event numbers are used up, or a checkpoint exists under an id that cannot be read back |
| ModularPipeline.RunRepeatedly | src/pipeline/modular_pipeline.cpp:266-441 | over any number of runs no committed task is lost; once refused, no later run gets past its start; none is refused while crashes leave event records whole, the id can be read back and numbers suffice |
| ModularStuck.TornStartIsFinal | src/pipeline/modular_pipeline.cpp:326-332 | for every job: a crash that keeps one byte of the first event makes the next run refuse |
| ModularStuck.UnreadableIdRunsOnce | src/pipeline/modular_pipeline.cpp:288-324 | for every job with an id that cannot be read back: the first run completes and the second is refused |
| ModularStuck.OneTaskTornStart | src/pipeline/modular_pipeline.cpp:326-332 | the first of these with one task |
| ModularStuck.UnreadableIdOfOneCharacter | src/pipeline/modular_pipeline.cpp:288-324 | the second of these with the id of one character, code 1 |
| EvidenceRecords.HexDecode | src/mvp/flint_evidence_log.cpp:68-80 | accepts exactly the texts `hex_encode` writes |
| EvidenceRecords.HexEncode | src/mvp/flint_evidence_log.cpp:45-56 | the loop writes two lower-case digits per byte, the texts `HexDecode` accepts |
| EvidenceRecords.CutWritten | src/mvp/flint_evidence_log.cpp:310-326 | cutting a printed record at its markers gives back its four hexadecimal texts |
| EvidenceRecords.RecordTextInjective | src/mvp/flint_evidence_log.cpp:304-308 | on arbitrary byte strings different records have different texts |
| EvidenceRecords.ParseRecord | src/mvp/flint_evidence_log.cpp:310-330 | parsing accepts exactly the printed records, each as itself |
| EvidenceRecords.RecordIsLine | src/mvp/flint_evidence_log.cpp:304-308 | a record's only newline is its last character |
| EvidenceLog.PrefixOfRecords | src/mvp/flint_evidence_log.cpp:443-462 | records in front of a text are the first records of that text |
| EvidenceLog.RecordsInjective | src/mvp/flint_evidence_log.cpp:443-462 | a concatenation of records splits back in only one way |
| EvidenceLog.SlicesTile | src/mvp/flint_evidence_log.cpp:395-404 | the slices of successive appends tile the log |
| EvidenceLog.SliceReadsBack | src/mvp/flint_evidence_log.cpp:432-441 | every slice of the log's records reads back its own record, whatever follows |
| EvidenceLog.EvidenceLog.AppendBatch | src/mvp/flint_evidence_log.cpp:367-430 | appends exactly the records' text or, in a crash, a beginning of it; the slices; the exact refusals |
| EvidenceLog.EvidenceLog.Read | src/mvp/flint_evidence_log.cpp:432-441 | reads a slice if and only if it is one whole record at a record boundary |
| EvidenceLog.EvidenceLog.AuthenticatePrefix | src/mvp/flint_evidence_log.cpp:443-462 | accepts exactly the prefixes that are whole records, with their hash |
| EvidenceLog.EvidenceLog.ValidateContiguousPrefix | src/mvp/flint_evidence_log.cpp:464-477 | accepts exactly the slices that index a beginning of the log record by record |
| EvidenceLog.EvidenceLog.ValidateCompleteLog | src/mvp/flint_evidence_log.cpp:479-487 | accepts exactly the slices that index the whole log |
| EvidenceLog.EvidenceLog.TruncateAuthenticated | src/mvp/flint_evidence_log.cpp:489-518 | cuts back to the recorded prefix if and only if it is whole records with that hash, else changes nothing |
| EvidenceLog.TornAppendUndone | src/mvp/flint_evidence_log.cpp:367-518 | appending any records, torn in any way, and truncating to the prefix recorded before leaves the log as it was |
| EvidenceLog.OnlyExtensionsAreAuthentic | src/mvp/flint_evidence_log.cpp:489-518 | unless the log's beginning collides with the recorded prefix, truncation is accepted exactly for extensions of it |
| JsonLines.KeyOccurs | src/mvp/search_pipeline.cpp:1636-1657 | whatever the quoted texts contain, a quoted key followed by a colon occurs in a line only where a member with that key begins |
| JsonLines.EscapedValue | src/mvp/search_pipeline.cpp:112-127 | a quoted text begins with another quoted text only if they are the same |
| JsonLines.Contained | src/mvp/search_pipeline.cpp:479-514 | a line contains a key with a value if and only if one of its members has it |
| JsonLines.FoundOnly | src/mvp/search_pipeline.cpp:443-477 | a member that is alone with its key is found from both sides and only once |
| SearchScan.ContainsIsHas | src/mvp/search_pipeline.cpp:516-534 | a search of a written line finds a key and value if and only if the record has them |
| SearchDisk.LineReads | src/mvp/search_pipeline.cpp:479-534 | every line of a sound ledger is read back: its slice, its single line, its counters |
| SearchScan.SliceWritten | src/mvp/search_pipeline.cpp:458-477 | the slice read from a written line is the one the record was written with |
| SearchScan.AccountWritten | src/mvp/search_pipeline.cpp:516-534 | the counters see exactly the record's status and classification |
| SearchScan.NamesSegmentWritten | src/mvp/search_pipeline.cpp:970-984 | the segment search sees exactly the records whose certificate is in that segment and those whose engine names it as its artifact |
| SearchLines.ScanWritten | src/mvp/search_pipeline.cpp:479-514 | every written line passes the prefix checks for its own index and campaign |
| SearchPrefix.ValidateResultPrefix | src/mvp/search_pipeline.cpp:479-514 | accepts exactly the prefixes of accepted lines and collects their slices |
| SearchPrefix.AfterLinesOf | src/mvp/search_pipeline.cpp:1010-1020 | counting newlines over a segment ends behind exactly that many certificates |
| SearchCheckpoint.ProgressExact | src/mvp/search_pipeline.cpp:348-421 | the payload reader accepts exactly the texts of valid payloads, each as that payload |
| SearchDisk.IndexedIsEvidence | src/mvp/search_pipeline.cpp:921-939 | the slices recorded in the lines are those of the evidence, in order and bound to the right candidates |
| SearchSegments.TrimWritten | src/mvp/search_pipeline.cpp:986-1032 | the verdict on a certificate file of a durable search: files ahead go, the current one fails exactly when it has fewer lines than counted, and becomes exact exactly when only its certificates are counted |
| SearchSegments.TrimSegments | src/mvp/search_pipeline.cpp:986-1032 | in any directory order, and cut short anywhere, the segments stay durable; uninterrupted it fails exactly on a current file that is too short, and ends exact exactly when only certificates are counted or no file is current |
| SearchRecovery.LoadCheckpoint | src/mvp/search_pipeline.cpp:902-912 | on a recoverable disk the checkpoint is accepted with the payload of the committed outcomes |
| SearchRecovery.ReadBack | src/mvp/search_pipeline.cpp:913-939 | on a recoverable disk lines, evidence and hashes all pass and give back the committed part of both files |
| SearchRecovery.TallyLines | src/mvp/search_pipeline.cpp:963-985 | the counters of the second pass, and the partial segment's certificates and claims |
| SearchRecovery.RestoreProgress | src/mvp/search_pipeline.cpp:898-1034 | from every recoverable state: refused if and only if nothing is committed and the result file is not empty, or more lines are counted than the partial segment's file has; otherwise results and evidence become exactly those of the committed outcomes, and the segments too if and only if no outcome claims the partial one or it has no file; a crash at any write keeps the state recoverable |
| SearchRecovery.UnclaimedIsNotOutrun | src/mvp/search_pipeline.cpp:970-1032 | if no outcome claims the partial segment its file never has too few lines |
| SearchClaims.ExactOutrunWhenClaimed | src/mvp/search_pipeline.cpp:970-1032 | where every file is exact a restart is refused for its certificates if and only if an outcome claims the partial segment and that has a file |
| SearchClaims.ClaimBehindCertificate | src/mvp/search_pipeline.cpp:970-1032 | a certificate and then a claim in one segment: the restart is refused |
| SearchDocument.CheckpointLoads | src/runtime/checkpoint_manager.cpp:83-138 | every checkpoint document of a search loads as the state it was saved for: id and payload can always be read back |
| SearchBatch.ExtendedEvidence | src/mvp/search_pipeline.cpp:693-746 | a batch's evidence records extend the ledger's evidence outcome by outcome |
| SearchBatch.BatchSegments | src/mvp/search_pipeline.cpp:827-859 | a batch's certificates make the current segment hold what the ledger says |
| SearchPipeline.BatchEnd | src/mvp/search_pipeline.cpp:581-584 | no batch crosses a checkpoint boundary |
| SearchPipeline.GatherEvidence | src/mvp/search_pipeline.cpp:705-722 | exactly the evidence records of the batch's probable primes in order, refused only when an engine omitted raw output |
| SearchPipeline.GatherCertificates | src/mvp/search_pipeline.cpp:827-853 | the journal is the certificates' lines and every offset is where the certificate stands |
| SearchPipeline.AppendArtifacts | src/mvp/search_pipeline.cpp:693-869 | the two artifact appends of a batch, torn in any way, keep the state recoverable |
| SearchCommit.CommitCandidate | src/mvp/search_pipeline.cpp:1383-1531 | the line of a candidate records its outcome with the slice and offset the ledger determines |
| SearchCommit.SaveProgress | src/mvp/search_pipeline.cpp:423-436 | the checkpoint of exactly these outcomes, refused if and only if a size cannot be recorded |
| SearchCommit.WriteCheckpoint | src/mvp/search_pipeline.cpp:1537-1562 | results first, then the checkpoint: which crash leaves which commitment; always recoverable |
| SearchRuns.CommitStep | src/mvp/search_pipeline.cpp:1383-1580 | one candidate and the checkpoint when due keep files, memory and outcomes in agreement |
| SearchRuns.RunBatches | src/mvp/search_pipeline.cpp:1336-1611 | the commit loop: outcomes only grow, completion is exact, and the accounting check never fires |
| SearchRuns.StartSearch | src/mvp/search_pipeline.cpp:1244-1272 | a new campaign is resumable as soon as its first checkpoint is saved |
| SearchRuns.ResumeSearch | src/mvp/search_pipeline.cpp:1218-1243 | a restart extends the committed outcomes by outcomes of its own answers; a blocked state (empty commit with results, or a segment that claims outrun) is refused unchanged; undisturbed it completes |
| SearchRuns.RunRepeatedly | src/mvp/search_pipeline.cpp:1168-1623 | when no outcome claims its segment: over any stops, failures, crashes and restarts the committed outcomes only grow; a blocked start stays refused |
| SearchRuns.FinishedLedgersAgree | src/mvp/search_pipeline.cpp:1168-1623 | with deterministic engines any two finished runs, interrupted or not, have equal result, evidence and certificate files |
| SearchSoundness.RecordsAreTrue | src/mvp/search_pipeline.cpp:1390-1435 | every congruence-factor or base-2 record is about a composite, every certificate record about a prime |
| SearchSoundness.CertificateIsLine | src/proth/proth.cpp:149-159 | a canonical certificate is a single line |

## Left out

- FamilySieve.Run: nothing is said where the source indexes a vector without elements, which
  C++ leaves undefined: the word count wraps (a count within 63 of 2^64), no witnesses are
  retained, and something is premarked or a segment is scanned (`FamilySieve.Defined`).
- ReferenceWords.ReferenceEliminatedWords: likewise when the word count wraps and there is an
  elimination.
- FamilySieve.CheckedCandidateCount: allocations succeed up to the length limit of a vector.
- PrimeGenerator.GeneratePrimes: the segments are processed one after another in an arbitrary
  order; the source's threads share only the segment counter and disjoint outputs.
- FamilySieve.SegmentsOwnWords: thread interleaving inside a segment is not modelled; this
  lemma is why whole segments may be taken one at a time.
- Eliminations.NormalizedPrimes: that the seven-base test decides primality for the listed
  moduli is a hypothesis (`TestDecides`), a published computation.
- Eliminations.ScalarReferenceEliminations: `estimate_exact_bits` is the opaque limit of exact
  evaluation; nothing is claimed about its accuracy.
- CompiledRules.CompilePrime: the proof texts and hashes attached to rules are not modelled.
- TableApplication.ValidateCompiledTable: the comparison of canonical texts is equality of the
  recompiled table.
- CrtTemplate.PremarkCrtTemplate: the template is a two-dimensional array, in the source a flat
  vector with a computed index.
- Words.MergeWords: words are the sets of their one bits; the vector merges are word-wise union.
- BasePrimes.IntegerSquareRoot: the floating-point seed is an arbitrary starting estimate.
- ProthSieve.SieveProthCandidates: the external prime iterator is assumed to yield the primes
  in order.
- FamilySize.EstimateSound: constants beyond the saturation point are excluded. For a constant
  the exclusion is exact (`FamilySize.ConstantSoundIff`); an expression may still be bounded
  when such a constant is cancelled, as in a product with zero.
- FamilyText.TextDeterminesMeaning: parameter names are identifiers as the lexer makes them.
- The lexer and parser of family definitions, their constraints and the canonical definition
  text of a whole family.
- JacobiProduct.JacobiOfPrime: the Legendre symbol is that of Euler's criterion; that it tells
  squares apart is not proved, and nothing here rests on it.
- CampaignLog.ReadResults: the fixed header line is a parameter; lines are those of
  `std::getline`.
- CampaignCheckpoint.CheckpointVerdict: the checkpoint is a record of its fields, with the
  round trip of its texts; checkpoints of the first schema are not modelled.
- NativeCampaign.RunCampaign: an engine may answer with any verdict and texts. Left out is a
  crash that leaves of an append a beginning of a row that is read as other rows, where the
  property is false (`CampaignForgery.ForgedBatchIsTaken`); only a forgery has one
  (`CampaignForgery.UnforgedIsUsable`). Of a forgery that is appended whole the hash is taken
  to be no other text's. Campaign ids with tabs or newlines are left to
  `CampaignLog.UncleanIdentityRefused`. Telemetry, status files, attempt directories and the
  worker's own output parsing are not modelled.
- NativeCampaign.RunRepeatedly: the same.
- NativeCampaign.RunBatches: the same.
- CampaignRecovery.Recover: the same of the disk it starts from.
- CampaignRefusal.ReadWrittenLog: of a forgery the hash is taken to be no other text's.
- CampaignForgery.ForgedBatchIsTaken: what a reader makes of a torn forgery depends on the rest
  of the batch as well; a single made-up row in front of an incomplete batch is dropped again.
- ModularPipeline.Run: a backend may answer anything; an event file of a single newline counts
  as refused; writes fail only by a crash.
- EvidenceLog.EvidenceLog.AppendBatch: lengths are unbounded except for the 64-bit offset and
  the stream limit the source checks.
- SearchRuns.RunRepeatedly: certificates are taken to be single lines, as
  `SearchSoundness.CertificateIsLine` shows for the native ones, and the fallback engine not to
  name a certificate segment as its own artifact; `SearchRecovery.RestoreProgress` decides the
  restart for answers that do.
- SearchRuns.ResumeSearch: starts from the states a run can leave that a restart refuses or
  makes exact. On others `SearchRecovery.RestoreProgress` still makes results and evidence
  exact, but not the segment that the search then appends to.
- SearchCommit.CommitCandidate: certificates are single lines.
- SearchPipeline.AppendArtifacts: whether an append that keeps no byte leaves an empty file or
  none is not distinguished; the restart treats both alike.
- The single-candidate branch of the commit loop for a batch without independent results, which
  the loop never reaches; engine working directories, coverage report and manifest.
- SHA-256 itself, file-system and process calls, CUDA and external engines, prefetching, huge
  pages, CPU affinity, timing, telemetry, benchmarks and command lines.
