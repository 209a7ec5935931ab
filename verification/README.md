# Distribicom, modelled and verified

Distribicom serves private retrieval from a database that a manager splits over untrusted workers.
A client asks for an entry with two encrypted one-hot queries, one per dimension. Workers expand
the first queries, multiply database rows with them and return ciphertexts; the manager checks the
returned rows with Freivalds' test, writes each ciphertext out as plaintexts, multiplies those with
the client's second query, and the client puts the ciphertext together again and decrypts it.

The Dafny files follow that path, one module per component.

| modules | what they hold |
|---|---|
| `Arith`, `Counting`, `Algebra`, `NegacyclicRing` | integers, counting, abelian groups and sums, the ring Z_q[x]/(x^n + 1) |
| `QueryExpander` | the expansion tree, its index arithmetic and what it separates |
| `SlotLayout`, `Embedding`, `LevelBuffer`, `SplitPlaintext` | digit embedding of ciphertexts, its inverse, the flat buffer the inverse writes, and split plaintexts |
| `Matrices`, `Freivalds`, `Residues`, `RowCheck` | column-major matrices and products, both forms of Freivalds' test |
| `Concurrency`, `ThreadPool`, `ParallelProduct` | channel, latch, promise, the pool as a transition system, the parallel product |
| `WorkStream`, `WorkerTask`, `WorkerStrategy`, `WorkerRound` | the write queue, task assembly, the worker's answer, a worker's round |
| `Scheduler` | the split of the work over the workers |
| `ReplyReader` | the loop that reads a reply into a growing vector while tasks use it |
| `Ledger`, `LedgerFaults`, `LedgerAnswers`, `LedgerLabels` | a round at the manager as a transition system, what brings it down, what it stores and verifies, and what labels have to do with it |
| `Checks`, `Manager` | the checks with the numbers the manager works with, what they are worth, and the class that takes the system's steps |
| `Retrieval`, `EndToEnd`, `RoundLabels`, `ExampleScheme` | the second dimension, a whole round and what each client reads, its labels, and a scheme that meets all assumptions |
| `Base64` | the encoding of workers' credentials (section 4 of RFC 4648) and its inverse |

## How it is modelled

* **Ciphertexts** are values of an arbitrary type. The homomorphic operations are parameters, and
  what is assumed of them is a predicate that a theorem requires: `QueryExpander.Faithful` for
  expansion, `Algebra.Lawful` and `RowCheck.Linear` for sums and products, `Retrieval.Homomorphic`
  for decryption. Nothing else is assumed of SEAL, and `ExampleScheme.AssumptionsCanBeMet` exhibits
  a scheme that meets all of them at once. NTT conversion is the identity. The zero test
  (`is_transparent`) is only assumed to let through a subgroup; `RowCheck.WordEvaluator` is the
  instance in which a ciphertext is a vector of residues and the test wants a multiple of the
  prime in every one of them.
* **Machine integers** are written out where they matter: the 32-bit product in the expansion, the
  64-bit shifts and sums of the embedding, the group number that starts at the largest word, the
  output length of the encoding. The digit count of a modulus q is the least L with q <= 2^(L*b),
  which is what the floating-point logarithms stand for.
* **Challenges** are parameters. Soundness counts the challenge vectors that accept.
* **Concurrency** is a transition system whose steps are critical sections and task bodies; a run
  is any sequence of enabled steps. The classes' methods are those critical sections and are proved
  to take exactly those steps. Exceptions are `Result` values; a wait that never ends is an outcome
  of its own.
* **Builds.** The checks are compiled in by default (`FREIVALDS`, util/CMakeLists.txt:10). The round
  at the manager is modelled with them and without, `Ledger.Build` saying which; results that do not
  mention the build hold for both. What ends the process, or is undefined, is a `Fault` of the state:
  an empty promise used, a latch below zero, a read past the end of the reply or of what was prepared,
  a part without a place. Receiving a reply comes before that and has a system of its own, `ReplyReader`.

## What the model found

* The 32-bit product in the expansion overflows from n = 2^15 on (`IndexProductFits`); the index it
  yields is right all the same once it wraps (`SecondShiftIs`). Signed overflow is undefined in C++.
* The expansion separates the coefficients if and only if nothing of the input is left at or above
  x^m once scaled (`ExpansionIsExact`). `expand_query` succeeds only for one ciphertext per started
  block of n outputs (`ExpandQuery`).
* The header says that the split "assumes num workers map well". The exact condition, for any
  number of queries but zero, is `Scheduler.MapsWell` (`ExactCoverCondition`).
* The ledger compares numbers, not names. Done means that exactly the listed workers contributed, in
  every run in which only certain names may register, if and only if the checks are compiled in, or
  nobody is listed, or all those names had registered before (`DoneCondition`). The failing run of
  the build without the checks is `LateRegistrationEndsRoundEarly`. A round over an empty worker list
  is never done (`EmptyListIsNeverDone`).
* With the checks compiled in, the manager survives a list of replies it has received, whatever the
  interleaving, if and only if each is from a listed worker, no worker replies twice, every part has a
  place, and every row that a check gets to is all there, of a group that was prepared for and within
  what was prepared (`Checks.FaultCondition`). A worker that registers after the ledger was made has no
  promise, and looking it up makes an empty one; a second reply counts a latch of one down twice, outside
  the pool's try block.
* The last of these fails without any fault of a worker's: the manager prepares for the groups it counts
  and the rows there are, but a split that does not come out even makes more. No check reads past what was
  prepared if and only if the groups divide the workers and none has more members than the database rows
  (`PreparedReadsCondition`). With seven workers, three rows and two queries the seventh is alone in a
  third group of two, and its first complete row reads past the end (`SeventhWorker`).
* The loop that receives a reply grows a vector that tasks already submitted are using, with nothing
  reserved. No task uses a freed buffer if and only if all parts fit into the vector's first buffer
  (`FreedCondition`); as the loop stands, for at most one part (`NothingReserved`).
* A reply is checked by the order of its parts and stored by their labels. Parts in the right order pass
  under any labels (`OrderedWorkerIsAccepted`); the answers are right if and only if every label is that of
  the part's place (`RoundLabelCondition`), and two swapped labels give two clients each other's answer in
  a round that is done and verified (`SwappedLabels`).
* A worker's expansion of queries of one ciphertext returns if and only if rows have at least two entries
  and fewer than the ring's degree. It is undefined for row sizes of 0 or 1 modulo the degree, where the
  count of levels less one wraps around; for the rest it never returns, because the task counts its latch
  down itself after the call that throws (`ExpansionReturns`).
* A setter of a promise that has passed its check and not yet assigned can change a value that was
  already fetched; exactly without such setters the value is stable (`StableExactlyWhenUnarmed`).
  For setters that are tasks on the promise's own latch there are none (`CountedSettersAreNeverLate`).
* `compose_to_ctx` composes with the first level's layout into a ciphertext of the last level. That
  keeps the result if and only if both levels have the same moduli (`LevelRoundTrip`); `ComposeInto` is
  the loop on the flat buffer, with the exact condition for its writes to stay inside.
* A pool with no thread, which a processor count of zero gives, completes nothing (`DrainCondition`).
* Splitting a plaintext keeps the halves below SEAL's threshold if and only if the plaintext modulus
  is odd (`HalvesFit`, `CentredHalvesAddUp`). A comment in the source calls the threshold even; for
  t = 17 it is 9, and nothing depends on it.
* `randomise_scalar_vec` builds a 64-bit distribution and then does not draw from it, taking the
  generator's own words; its comment speaks of 60 bits. `WordsAreDistinct` says exactly for which
  word sizes all scalars stay distinct modulo p, which is what the scalar form needs.

## Model

| member | source | states |
|---|---|---|
| QueryExpander.SieveLow | src/math_utils/query_expander.cpp:96-96 | adding the rotated slot keeps the coefficients at every second position of the stride, doubled |
| QueryExpander.SieveHigh | src/math_utils/query_expander.cpp:97-110 | the two shifted terms add up to the other half of the coefficients, doubled and divided by x^(2^i), wrap-around and sign included |
| QueryExpander.GaloisElementIs | src/math_utils/query_expander.cpp:69-72 | for n a power of two the integer division is exact: n/2^i + 1 |
| QueryExpander.IndexProductIs | src/math_utils/query_expander.cpp:85-86 | the product is 2n^2/2^i + n - 2^i |
| QueryExpander.IndexProductFits | src/math_utils/query_expander.cpp:85-86 | no level's product overflows 32 bits if and only if n <= 2^14 |
| QueryExpander.SecondShiftIs | src/math_utils/query_expander.cpp:123-124 | wrapped or not, the second shift is by n - 2^i, so by -x^(-2^i) |
| QueryExpander.GaloisElements | src/math_utils/query_expander.cpp:69-72 | one element for every level the ring has, each the floor of (n + 2^i)/2^i, for any n; that it is exact for a power of two is GaloisElementIs |
| QueryExpander.GaloisElementIsFloor | src/math_utils/query_expander.cpp:69-72 | for any n and level, the element is the quotient rounded down and no other number |
| QueryExpander.SplitSlot | src/math_utils/query_expander.cpp:90-110 | from one slot, the two slots of the next level, for any encrypted polynomial |
| QueryExpander.SplitLevel | src/math_utils/query_expander.cpp:81-112 | level invariant: 2^i entries, entry a encrypts 2^i times the coefficients congruent to a modulo 2^i, divided by x^a |
| QueryExpander.LastLevel | src/math_utils/query_expander.cpp:121-139 | every output below m is right, the plainly doubled corner slots included, and no unwritten slot is among them |
| QueryExpander.ExpandPart | src/math_utils/query_expander.cpp:54-146 | fails exactly when m > n, is undefined exactly when m < 2; otherwise m outputs, each what ExpandedPart says, for any input |
| QueryExpander.ExpandQuery | src/math_utils/query_expander.cpp:19-51 | undefined exactly when a ciphertext is left fewer than two outputs; else succeeds exactly when there is one ciphertext per started block of n outputs, and then every block is that ciphertext's expansion |
| QueryExpander.SingleOutcome | src/math_utils/query_expander.cpp:19-51 | for one ciphertext: succeeds if and only if 2 <= outputs < n, undefined if and only if outputs mod n < 2 |
| QueryExpander.ExpansionIsExact | src/math_utils/query_expander.cpp:54-146 | all outputs are the constants 2^L * p_k if and only if no scaled coefficient is left from x^m on |
| QueryExpander.OneHotQuery | test/math_utils/query_expander_test.cpp:58-89 | a client's query for item c expands to one at c and zero elsewhere |
| QueryExpander.OneHotBlocks | src/math_utils/query_expander.cpp:19-51 | the same for a query of several ciphertexts, each block with its own scale: one at the item's place, zero everywhere else |
| Embedding.DigitCountIsLeast | src/math_utils/evaluator_wrapper.cpp:44-45 | the digit count is the least that holds every residue of the modulus |
| Embedding.ShiftIsLegal | src/math_utils/evaluator_wrapper.cpp:46-57 | no 64-bit residue is shifted by 60 bits or more |
| Embedding.DigitsGiveResidue | src/math_utils/evaluator_wrapper.cpp:47-57 | a residue below its modulus is the sum of its digits in their places |
| Embedding.DecomposeRow | src/math_utils/evaluator_wrapper.cpp:40-58 | the cursor fills exactly the slots of this polynomial and modulus, each with its digit |
| Embedding.DecomposeToPlaintexts | src/math_utils/evaluator_wrapper.cpp:30-61 | every one of the ratio * size slots holds the digits that belong there, and the cursor ends at the end |
| SlotLayout.SlotIsUnique | src/math_utils/evaluator_wrapper.cpp:38-57 | polynomial, modulus and digit determine a slot in range and are recovered from it |
| SlotLayout.SlotExists | src/math_utils/evaluator_wrapper.cpp:9-17 | every slot belongs to some polynomial, modulus and digit |
| Embedding.ComposeRow | src/math_utils/evaluator_wrapper.cpp:74-91 | one row of residues, built from its plaintexts by 64-bit shifts and sums, also when plaintexts are short |
| Embedding.ComposeToCiphertext | src/math_utils/evaluator_wrapper.cpp:63-100 | what composing any list of plaintexts gives, word for word with wrap-around |
| Embedding.WordRebuilds | src/math_utils/evaluator_wrapper.cpp:81-87 | for the digits of a 64-bit residue no shift or partial sum wraps and the sum of the first k stays at most the residue |
| Embedding.WordIsLowBits | src/math_utils/evaluator_wrapper.cpp:81-87 | of any plaintexts, whatever they hold, the lowest 64 bits of the shifted sum are kept |
| Embedding.RoundTrip | src/math_utils/evaluator_wrapper.cpp:30-101 | composing what decomposition gave is the ciphertext again, for all ciphertexts, even when leading zero coefficients were dropped |
| LevelBuffer.LevelCondition | src/math_utils/evaluator_wrapper.cpp:76-97 | some buffer laid out for other moduli than those composed keeps every word at its place if and only if there are at least as many, or nothing to keep |
| LevelBuffer.ComposeInto | src/math_utils/evaluator_wrapper.cpp:63-97 | the loop's own writes into the flat buffer stay inside if and only if every non-empty plaintext has room there; when the level has the moduli they do, and leave the composition word for word |
| LevelBuffer.LevelRoundTrip | src/math_utils/evaluator_wrapper.cpp:261-266 | decomposing at the first level and composing into a ciphertext of the last gives the ciphertext back exactly when both have the same moduli |
| SplitPlaintext.HalvesFit | src/math_utils/evaluator_wrapper.cpp:152-165 | the halves add up to the coefficient, and stay below the threshold for all coefficients if and only if t is odd |
| SplitPlaintext.CentredHalvesAddUp | src/math_utils/evaluator_wrapper.cpp:152-165 | after SEAL's centring the halves still add up for every coefficient if and only if t is odd |
| SplitPlaintext.SplitPlaintext | src/math_utils/evaluator_wrapper.cpp:144-165 | every coefficient is split into its two halves, which add up to it: a small one and zero, or two that differ by at most one, the first the larger |
| SplitPlaintext.MultSplit | src/math_utils/evaluator_wrapper.cpp:181-197 | two centred products and a sum multiply by the coefficients as they stand: at every power s the result is the sum of a[k] * b[t] over all k and t whose powers make x^s, negated where x^n = -1 says so, modulo q |
| NegacyclicRing.ProductIsConvolution | src/math_utils/evaluator_wrapper.cpp:181-207 | the product of any plaintext and any ring element is their negacyclic convolution over the integers, reduced modulo q |
| NegacyclicRing.ProductOfMonomial | src/math_utils/evaluator_wrapper.cpp:181-207 | multiplying by the monomial x^e is the shift by e |
| NegacyclicRing.ProductOfMonomials | src/math_utils/evaluator_wrapper.cpp:181-207 | x^e * x^t is x^(e + t) below n, and -x^(e + t - n) from n on |
| SplitPlaintext.Mult | src/math_utils/evaluator_wrapper.cpp:199-207 | for odd t and every plaintext the whole operation is that convolution with the un-centred plaintext |
| SplitPlaintext.ProductDistributesInAnyOrder | src/math_utils/evaluator_wrapper.cpp:181-197 | multiplying the summands and adding the products in any order multiplies the sum |
| SplitPlaintext.AddPlainInPlace | src/math_utils/evaluator_wrapper.cpp:123-133 | coefficients are added in place modulo t with a single subtraction |
| Matrices.PosIsBijective | src/math_utils/matrix.h:39-39 | a cell's position is in range and gives its row and column back |
| Matrices.EveryPosIsACell | src/math_utils/matrix.h:39-39 | every position of the data vector is the position of a cell |
| Matrices.Matrix.Resize | src/math_utils/matrix.h:32-37 | new shape; the data vector keeps its common prefix, so cells move unless the row count stays |
| Matrices.Matrix.Set | src/math_utils/matrix.h:49-54 | writing a cell changes that cell and no other |
| Matrices.MultRow | src/math_utils/matrix_operations.tpp:26-57 | the accumulated sum is the row times the column |
| Matrices.MatMult | src/math_utils/matrix_operations.tpp:59-81 | rejects mismatched and empty matrices, else the result is the product |
| Matrices.RightMultiply | src/math_utils/matrix_operations.cpp:91-145 | the flat product with a vector gives the same cells as the matrix product and leaves the rest alone |
| Matrices.LeftMultiply | src/math_utils/matrix_operations.cpp:56-76 | each entry is the sum of the selected entries of its column |
| Matrices.WeighColumns | src/math_utils/matrix_operations.tpp:232-253 | entry k is the weighted sum of column k |
| Matrices.WeighRows | src/math_utils/matrix_operations.tpp:200-230 | entry k is the weighted sum of row k |
| Freivalds.LeftFrievalds | src/math_utils/matrix_operations.cpp:211-218 | computes (v*a)*b, or reports the mismatch |
| Freivalds.DifferencePasses | src/math_utils/matrix_operations.cpp:236-244 | the in-place subtraction with early return accepts exactly when every difference passes the zero test |
| Freivalds.Frievalds | src/math_utils/matrix_operations.cpp:220-245 | false on wrong shapes, else whether the challenge accepts |
| Freivalds.DiscrepancyIsSum | src/math_utils/matrix_operations.cpp:220-245 | (v*a)*b - v*c is the selected sum of the errors a*b - c |
| Freivalds.FrievaldsIsSound | src/math_utils/matrix_operations.cpp:201-245 | if any cell of c is wrong, at most 2^(n-1) of the 2^n challenge vectors accept |
| Freivalds.FrievaldsIsExact | src/math_utils/matrix_operations.cpp:220-245 | all challenges accept if and only if every cell of c is right |
| Freivalds.ExchangeWeights | src/services/manager.cpp:430-456 | weighing commutes with additive maps and the sum over them: the double-sum exchange |
| Freivalds.FewSurvive | src/services/manager.cpp:549-567 | a non-zero entry survives at most one in |S| of the challenge vectors, whatever the other entries |
| Residues.ResiduesScale | src/services/manager.cpp:340-349 | scalars distinct modulo a prime satisfy what the check asks of scalars |
| Residues.WordsAreDistinct | src/services/manager.cpp:343-348 | all words below a bound are distinct modulo p if and only if p is at least the bound |
| RowCheck.GroupMatrix | src/services/manager.cpp:433-444 | column j is the expansion of the group's j-th query |
| RowCheck.FreivaldPreprocess | src/services/manager.cpp:427-456 | for every group, the query matrix times the random vector |
| RowCheck.PrepareLedger | src/services/manager.cpp:107-113 | for every group and row, the database row times the weighed queries |
| RowCheck.VerifyRow | src/services/manager.cpp:549-567 | accepts exactly when the weighed reply minus the prepared value passes the zero test |
| RowCheck.VerifyWorker | src/services/manager.cpp:549-611 | for any reply, rows and prepared vector: true exactly when every row, read by position, is accepted; reads past the reply, or past what was prepared, each exactly when that is what the first row not accepted lacks |
| RowCheck.ExpectedIsHonest | src/services/manager.cpp:430-456 | row * (Q * r) equals (row * Q) * r |
| RowCheck.HonestRowIsAccepted | src/services/manager.cpp:549-567 | whatever the database, the queries and the challenge, an honest row is accepted |
| RowCheck.WrongRowIsCaught | src/services/manager.cpp:549-567 | a row wrong in any entry is accepted for at most |S|^(k-1) of the |S|^k challenges |
| RowCheck.WordsAreLinear | src/math_utils/evaluator_wrapper.cpp:284-302 | ciphertexts as vectors of residues, scaled and tested word by word, satisfy every law the check relies on |
| RowCheck.WrongWordIsCaught | src/services/manager.cpp:549-567 | the same bound in whole ciphertexts, for a reply wrong modulo a prime in any word that the zero test reads, with scalars distinct modulo it |
| RowCheck.WrongResidueIsCaught | src/services/manager.cpp:549-567 | and so for vectors of residues: wrong at one residue of one entry is enough |
| Scheduler.PlanIs | src/services/manager.cpp:255-267 | groups, workers in a group, queries and rows each are the ones planned if and only if G is the number of full sets of one worker per row but one at least, and each share is what it should be, stated without division |
| Scheduler.ResponsibilityIs | src/services/manager.cpp:276-305 | worker k of group g gets the g-th stretch of queries and the k-th stretch of rows, the last of a group the surplus row too |
| Scheduler.MakeResponsibility | src/services/manager.cpp:276-305 | one worker's entry: its query range and its rows, the surplus row included |
| Scheduler.MapWorkersToResponsibilities | src/services/manager.cpp:253-317 | every worker gets the entry of its place in map order, although the group number wraps at the first |
| Scheduler.ExactCoverCondition | src/services/manager.hpp:180-182 | each cell goes to exactly one worker and none is out of range if and only if Q = 0 or G divides W and Q, P <= R and R mod P <= 1 |
| Scheduler.ExactCoverInNumbers | src/services/manager.hpp:180-182 | the same with G and P described by W and R alone |
| Scheduler.WorkIsConserved | src/services/manager.cpp:253-317 | under the condition the workers' cells number R * Q |
| Scheduler.ResponsibilityFits | src/services/manager.cpp:278-305 | under the condition every worker's rows and queries lie within the database and the query list |
| Scheduler.PreparedCondition | src/services/manager.cpp:253-321 | every worker's group is one the manager counts and its rows are the database's if and only if the groups divide the workers and are no larger than the database has rows |
| Concurrency.Pop | src/concurrency/channel.hpp:31-42 | the front of the queue, and closed only once drained |
| Concurrency.Channel.Write | src/concurrency/channel.hpp:60-67 | appends, or fails on a closed channel and changes nothing |
| Concurrency.Channel.PopChan | src/concurrency/channel.hpp:31-42 | pops, reports closed, or fails in an unexpected state |
| Concurrency.Channel.Read | src/concurrency/channel.hpp:73-79 | once the wait is over it never meets the unexpected state |
| Concurrency.Channel.Close | src/concurrency/channel.hpp:84-88 | closes and keeps what is queued |
| Concurrency.SafeLatch.CountDown | src/concurrency/safelatch.cpp:4-11 | counts down, and reports exactly a count that had reached zero |
| Concurrency.Promise.Get | src/concurrency/promise.hpp:24-31 | returns the value, which stays, and leaves the promise done |
| Concurrency.DoneFromGet | src/concurrency/promise.hpp:24-45 | in every run a promise is done from its first get on and not before, and a check of a setter then changes nothing |
| Concurrency.Promise.CheckSet | src/concurrency/promise.hpp:37-44 | whether to go on and assign: not if done, and then silently; an error if the latch opened before any get |
| Concurrency.Promise.AssignSet | src/concurrency/promise.hpp:44-44 | the assignment, whatever happened since the check |
| Concurrency.Promise.Set | src/concurrency/promise.hpp:37-45 | both with nothing in between: sets unless done, which keeps the value and succeeds, and fails if the latch opened before any get |
| Concurrency.PromiseIsStable | src/concurrency/promise.hpp:24-45 | once open with no setter between check and assignment, every getter sees the same value, whatever is set later |
| Concurrency.StableExactlyWhenUnarmed | src/concurrency/promise.hpp:37-45 | an open promise keeps its value in all runs if and only if there is no such setter |
| Concurrency.CountedSettersAreNeverLate | src/concurrency/threadpool.cpp:19-27 | in every run of setters that are tasks on the promise's latch, none is between check and assignment once the promise is open |
| Concurrency.PoolPromiseIsStable | src/concurrency/promise.hpp:24-45 | so every getter of such a promise sees the same value |
| ThreadPool.RunsKeepInv | src/concurrency/threadpool.cpp:9-31 | in every run, whatever memory tasks share, a submitted task is queued, in one thread's hands or completed, once; latches are their initial counts less the completed tasks that have them |
| ThreadPool.RunsKeepCell | src/concurrency/threadpool.cpp:19-23 | a cell whose writers agree on its value keeps its initial value until one of them ran, and has theirs from then on, in every run |
| ThreadPool.ExactlyOnce | src/concurrency/threadpool.cpp:13-28 | no task runs or is counted twice, and none that was not submitted |
| ThreadPool.LatchIsSafe | src/concurrency/safelatch.cpp:4-11 | a latch with room for its tasks never goes below zero and is positive whenever it is counted down |
| ThreadPool.LatchCondition | src/concurrency/safelatch.cpp:4-11 | no run counts a latch below zero if and only if it was made for at least as many tasks as use it, or there is no thread |
| ThreadPool.LatchOpens | src/concurrency/threadpool.cpp:19-27 | when a latch made for exactly its tasks opens, each of them has run and been counted once |
| ThreadPool.ThreadStepsEnd | src/concurrency/threadpool.cpp:12-28 | a measure falls with every thread step |
| ThreadPool.StuckIsDrained | src/concurrency/threadpool.cpp:33-38 | threads that cannot move have completed all submitted tasks, and left if the channel is closed |
| ThreadPool.JoinedIsDrained | src/concurrency/threadpool.cpp:33-38 | when the destructor has joined its threads nothing submitted is undone |
| ThreadPool.ClosedForGood | src/concurrency/threadpool.cpp:33-34 | the channel is closed from the destructor's step on and by nothing else, and nothing is submitted after it |
| ThreadPool.JoinCondition | src/concurrency/threadpool.cpp:33-38 | in every run that cannot go on, all threads have left, so that the joins return, if and only if the pool was closed or has no thread; with a thread, everything submitted is completed |
| ThreadPool.DrainCondition | src/concurrency/threadpool.cpp:5-12 | a run that cannot go on has completed everything if and only if there is a thread or nothing was submitted |
| ThreadPool.ThreadPool.Submit | src/concurrency/channel.hpp:60-67 | the submission step, or a failure on a closed pool |
| ThreadPool.ThreadPool.ReadTask | src/concurrency/threadpool.cpp:14-17 | a thread reads a task or leaves a drained, closed channel |
| ThreadPool.ThreadPool.RunTask | src/concurrency/threadpool.cpp:19-23 | the body writes the task's cell |
| ThreadPool.ThreadPool.FinishTask | src/concurrency/threadpool.cpp:25-27 | counts the task's latch down |
| ThreadPool.ThreadPool.Close | src/concurrency/threadpool.cpp:33-34 | the channel is closed and keeps its queue |
| ParallelProduct.SubmitProduct | src/math_utils/matrix_operations.tpp:63-79 | the checks, then one task for every cell in row-major order |
| ParallelProduct.ProductCellsAreDistinct | src/math_utils/matrix_operations.tpp:68-76 | distinct tasks of a product write distinct cells |
| ParallelProduct.JobIsDone | src/math_utils/matrix_operations.tpp:67-80 | once the job's latch opened, in any run among any other tasks that store nothing else in the job's cells, each of its cells holds its value |
| ParallelProduct.AnyScheduleIsSequential | src/math_utils/matrix_operations.tpp:59-81 | under every schedule, among such tasks, the result is the sequential product matrix |
| ParallelProduct.ProductIsUnique | src/math_utils/matrix_operations.tpp:126-154 | the parallel and the sequential product are the same matrix |
| WorkStream.OneWriteInFlight | src/services/manager_workstream.cpp:10-31 | in every run, written tasks and queue are the added tasks in order; at most one write is in flight and it is the front; a waiting idle queue has a caller that will still write |
| WorkStream.StreamDrains | src/services/manager_workstream.cpp:10-31 | once nobody adds, only so many steps are left, and at the end everything added was written in order |
| WorkStream.Stream.AddTaskToWrite | src/services/manager_workstream.cpp:4-8 | the add step |
| WorkStream.Stream.WriteNext | src/services/manager_workstream.cpp:10-17 | the write step: starts the front unless a write is under way |
| WorkStream.Stream.OnWriteDone | src/services/manager_workstream.cpp:19-31 | its two critical sections, taken one after the other |
| WorkerTask.Worker.UpdateCurrentTask | src/services/worker.cpp:76-99 | a part is stored under its column narrowed to int; too large a column or an empty part is refused, the started row staying; a column that narrows below zero is not refused but is a write outside the row |
| WorkerTask.Worker.OnReadDone | src/services/worker.cpp:102-156 | the message is handled as Receive says, its errors swallowed (what that comes to: PartIsStored, KeysAreLastSent, CompletionForwards, QueriesAreAssembled); a failed read, an empty or an unknown message changes nothing; reading goes on unless the read failed |
| WorkerTask.PartIsStored | src/services/worker.cpp:76-89 | a part of a row starts that row in any case, and sets its own entry and no other exactly when its column is one of the row's |
| WorkerTask.CompletionForwards | src/services/worker.cpp:130-141 | the word of completion forwards what was gathered and starts a new task if and only if a part has come since the task was started; otherwise it changes nothing |
| WorkerTask.KeysAreLastSent | src/services/worker.cpp:112-118 | after any messages, a position's key is the last one sent for that position, and the earlier one if none was |
| WorkerTask.KeysAreDelivered | src/services/manager.cpp:222-251 | the keys of a range put each client's key at its position and change no other and nothing else |
| WorkerTask.RowsAreAssembled | src/services/worker.cpp:102-141 | however the parts of some rows are ordered or repeated, exactly those rows are forwarded, once |
| WorkerTask.QueriesAreAssembled | src/services/worker.cpp:95-141 | the queries sent for a range are forwarded under their clients' numbers |
| WorkerStrategy.RangeIsSorted | src/services/worker_strategy.cpp:31-34 | a contiguous range of keys is walked from its start |
| WorkerStrategy.RowMultiplicationStrategy.StoreGaloisKey | src/services/worker_strategy.hpp:57-61 | the key is stored at its query's position |
| WorkerStrategy.RowMultiplicationStrategy.ExpandInto | src/services/worker_strategy.cpp:51-95 | undefined exactly when a query before the first missing key is; else throws exactly when a key is missing, never returns exactly when some query is refused; else column j is the expansion of the j-th query |
| WorkerStrategy.ExpansionReturns | src/services/worker_strategy.cpp:68-91 | from what expand_query does with one ciphertext: with their keys, all queries expand if and only if 2 <= row size < n or there are none, and some is undefined if and only if there is one and row size mod n < 2 |
| WorkerStrategy.FateBySize | src/services/worker_strategy.cpp:51-95 | with or without all keys: undefined if and only if the first query has a key and row size mod n < 2; else throws if and only if a key is missing; else returns for 2 <= row size < n, and hangs for the rest |
| WorkerStrategy.RowMultiplicationStrategy.ExpandQueries | src/services/worker_strategy.cpp:22-49 | the same outcomes; on success query matrix and column index for the task's queries; a task without queries changes nothing |
| WorkerStrategy.RowMultiplicationStrategy.MultiplyRows | src/services/worker_strategy.cpp:97-123 | cell (i, j) is the i-th row times column j; fails exactly on the wrong shape |
| WorkerStrategy.RowMultiplicationStrategy.SendResponse | src/services/worker_strategy.cpp:133-192 | the parts go out row by row, labelled with their row and query |
| WorkerStrategy.RowMultiplicationStrategy.ProcessTask | src/services/worker_strategy.hpp:94-108 | exactly when it is undefined or hangs, exactly when it otherwise replies, and that the reply is the products of the rows with the current query matrix |
| WorkerRound.ReplyIsAligned | src/services/worker_strategy.cpp:154-192 | part j + i*len of a reply is row first + i times the expanded query start + j |
| WorkerRound.Deliver | src/services/manager.cpp:133-251 | what the manager sends a worker becomes its clients' keys at their positions, one task of queries and one of rows, in any order of the parts |
| WorkerRound.PrepareQueries | src/services/worker.cpp:48-56 | returns exactly when all its queries expand, and then holds them expanded; else hangs or is undefined as ExpandInto says |
| WorkerRound.AnswerRows | src/services/worker.cpp:48-56 | in the first and every later round the reply is aligned and the expanded queries stay |
| WorkerRound.OrderedReplyIsAccepted | src/services/manager.cpp:588-611 | every row of a reply with the right parts in that order, whatever their labels, passes the manager's check |
| Manager.Manager.NewLedger | src/services/manager.cpp:102-130 | lists the workers registered by now, each with a promise of its own and a latch of one; nothing contributed |
| Manager.Manager.AsyncVerifyWorker | src/services/manager.cpp:569-621 | with the checks, queues one on the worker's latch, or uses an empty promise if the worker is not listed; without, goes on |
| Manager.Manager.RunCheck | src/services/manager.cpp:574-615 | runs the check on the reply with the worker's own responsibility and its group's prepared products; the verdict is set unless the latch has opened, and a read past either end is a fault |
| Manager.Manager.CountDown | src/concurrency/safelatch.cpp:4-11 | the pool counts the promise's latch down, and below zero is a fault |
| Manager.Manager.WaitOnVerification | src/services/manager.cpp:461-470 | once all promises are kept, an error exactly when one of them does not say true |
| Manager.Manager.PutRow | src/services/manager.cpp:502-506 | entry j is written to position row + j * rows and nothing else is, for any row; undefined exactly when a position is out of the data |
| Ledger.WithRowIs | src/services/manager.cpp:502-506 | for a row that exists and as many entries as columns, that is: this row becomes the entries and no other changes |
| Manager.Manager.PutInResultMatrix | src/services/manager.cpp:472-514 | all parts are stored in turn, up to the first whose client or place does not exist |
| Manager.Manager.ReturnLocalWork | src/services/manager.cpp:9-85 | refused exactly for an unknown worker; otherwise the reply is read in part by part and the steps of a handler that runs alone are taken, to its end or to a fault |
| ReplyReader.Reader.ReadPart | src/services/manager.cpp:31-59 | one turn of the loop: the part is appended, a full vector moving to a new buffer, and its task submitted |
| ReplyReader.Reader.ReadAll | src/services/manager.cpp:31-60 | the parts end up in the vector in order, by as many append steps |
| ReplyReader.FreedCondition | src/services/manager.cpp:31-60 | in no interleaving of loop and tasks is a freed buffer used if and only if the parts fit into the vector's first buffer |
| ReplyReader.NothingReserved | src/services/manager.cpp:29-60 | with nothing reserved and doubling, that is at most one part |
| Manager.HandlerIsRun | src/services/manager.cpp:9-85 | those steps are a run of the round, which stops early only for a fault |
| Ledger.DoneMeansAllContributed | src/services/manager.cpp:66-79 | with the checks, or with no late registration: done implies exactly the listed workers contributed, and conversely once no comparison is pending and the list is not empty |
| Ledger.EmptyListIsNeverDone | src/services/manager.cpp:75-79 | in both builds, with an empty worker list no run is ever done |
| Ledger.DoneCondition | src/services/manager.cpp:66-79 | for any names that may register late: done implies exactly the listed workers contributed, in all such runs, if and only if the checks are compiled in, the list is empty or all those names had registered before |
| Ledger.LateRegistrationEndsRoundEarly | src/services/manager.cpp:66-79 | without the checks: a run in which a worker registered after the ledger ends the round without the listed one |
| Ledger.KeptVerdictStays | src/concurrency/promise.hpp:37-45 | in every run, from the moment a worker's promise has opened its verdict stays what it is, whatever is checked after that |
| Checks.FaultCondition | src/services/manager.cpp:62-79 | in both builds: once received, no run that brings in a given list of replies has a fault if and only if the replies are safe, in terms of the list, the groups prepared for, the rows prepared and the rows accepted so far |
| Checks.SurvivalCondition | src/services/manager.cpp:28-79 | and with receiving them: if and only if they are safe and none has more than one part |
| Checks.PreparedReadsCondition | src/services/manager.cpp:557-557 | no check reads past what was prepared, for any worker and reply, if and only if the groups divide the workers and are no larger than the database has rows |
| Checks.SeventhWorker | src/services/manager.cpp:557-557 | seven workers, three rows, two queries: the seventh worker's complete reply reads past what was prepared |
| Checks.NothingToCheck | src/services/manager.cpp:574-575 | a worker without a responsibility passes the check with any reply |
| Checks.CompleteRepliesAreReadable | src/services/manager.cpp:574-611 | when the workers map well, a reply with a part for each of the worker's cells is read to the end |
| LedgerFaults.PoolLatchesAreSafe | src/services/manager.cpp:616-616 | in the pool's own schedules: with a latch of one per listed worker and a task per reply, none goes below zero if and only if nobody replied twice |
| LedgerAnswers.DoneCellCondition | src/services/manager.cpp:494-509 | in every run with honest replies, resubmitted, interleaved or cut short, in both builds: once done, a row of a client's partial answer is the right embedding if and only if some reply brought it or it was right before |
| LedgerAnswers.QuietRoundIsDone | src/services/manager.cpp:60-79 | when all listed workers have sent safe, honest replies and nothing can move, there was no fault once they were received and the round is done; with the checks, every promise shows its reply's verdict |
| LedgerAnswers.HonestRepliesAreSafe | src/services/manager.cpp:60-79 | honest replies, at most one from each worker, are safe |
| LedgerAnswers.VerificationCondition | src/services/manager.cpp:461-470 | with the checks, for safe replies right or wrong: at the end all promises are kept, and all say true if and only if every reply passed its check |
| Checks.DishonestRoundIsCaught | src/services/manager.cpp:461-470 | if entry j of row i of some reply is wrong, at most |S|^(k-1) of the |S|^k challenges let any run end with every promise true |
| Checks.DishonestWordIsCaught | src/services/manager.cpp:461-470 | the same for a reply wrong modulo a prime in any word that the zero test reads |
| LedgerLabels.LabelCondition | src/services/manager.cpp:494-509 | in every run with replies right in order, once done: all cells are right if and only if every part is labelled with its place |
| LedgerLabels.SwappedLabels | src/services/manager.cpp:494-509 | a reply of two parts with their labels swapped, in a round that is done and verified, gives each of two clients the other's answer |
| Retrieval.DotSelects | src/math_utils/matrix_operations.tpp:26-57 | a row of plaintexts times an encrypted one-hot vector decrypts to the selected entry |
| Retrieval.AskedIsOneHot | src/math_utils/query_expander.cpp:19-51 | the expansion of a client's query, of one ciphertext or several, is one-hot |
| Retrieval.DecomposedIsPlanes | src/math_utils/evaluator_wrapper.cpp:254-259 | the embedding is determined by the ciphertext |
| Retrieval.CalculateFinalAnswer | src/services/manager.cpp:516-547 | each client's final answer is its second query times its partial answer |
| Retrieval.FinalAnswerIsEntry | src/services/manager.cpp:516-547 | from a right partial answer the client composes and decrypts the entry at its row and column |
| EndToEnd.CellIsReplied | src/services/manager.cpp:253-317 | under the scheduler's condition every row of every client's answer is in some worker's reply |
| EndToEnd.RoundRetrievesEntry | src/services/manager.cpp:472-547 | the retrieval theorem: in both builds, a done round of honest workers in any order, whoever else registered, gives each client the database entry it asked for |
| EndToEnd.OrderedWorkerIsAccepted | src/services/manager.cpp:569-619 | with the group number, rows and lengths the manager uses for it, a worker that sends the right parts in order passes its check, under any labels and challenge |
| EndToEnd.EveryHonestWorkerIsAccepted | src/services/manager.cpp:569-619 | so every worker of an honest round passes the check |
| EndToEnd.HonestRoundIsVerified | src/services/manager.cpp:461-470 | with the checks: when every worker of an honest round has replied once and nothing can move, there was no fault once the replies were received, the round is done and every promise says true |
| RoundLabels.RoundLabelCondition | src/services/manager.cpp:494-509 | in a whole round of such workers, once done: the partial answers are right if and only if part j + i*len of every reply is labelled with row first + i and query start + j |
| Base64.RoundTrip | src/services/utils.cpp:113-153 | decoding inverts encoding on every byte string |
| Base64.EncodeIsInjective | src/services/utils.cpp:113-153 | different keys give different credentials |
| Base64.LetterIs | src/services/utils.cpp:102-103 | the table in character codes: A to Z, a to z, 0 to 9, plus and slash |
| Base64.BlockIsNumber | src/services/utils.cpp:131-136 | three bytes and their four characters spell the same 24-bit number, highest first, and no other four characters do |
| Base64.ShortBlocksArePadded | src/services/utils.cpp:139-150 | a short block is encoded as if filled up with zero bytes, with = where only they would show |
| Base64.Encode | src/services/utils.cpp:119-119 | the output has 4 * ceil(len/3) characters |
| Base64.OverflowIsFound | src/services/utils.cpp:119-122 | the overflow check finds exactly the lengths whose output does not fit a 64-bit word |
| Base64.Base64Encode | src/services/utils.cpp:113-153 | the buffer written by the loop is the encoding, or empty on overflow |

## Left out

- SEAL's own arithmetic: encryption, noise, NTT, key switching and the meaning of the zero test. Sums, products, rotations and shifts are assumed exact.
- gRPC, metadata, marshalling, file loading, timing, printing, configuration and the mains: input and output without algorithm.
- Probability and the generators: challenges are quantified over and counted.
- QueryExpander.ExpandPart: a 32-bit product beyond 2^31 is modelled as wrapping, although C++ leaves it undefined; and multiply_power_of_X is one multiplication in the ring, not a loop over moduli.
- Embedding.DecomposeToPlaintexts: asks for plaintext moduli of at most 30 whole bits, since the source computes the mask by shifting a 32-bit one, and for coefficient moduli of at most 60 bits, as SEAL does.
- SplitPlaintext.Mult: for odd plaintext moduli, which is what the source's own comment assumes; CentredHalvesAddUp says what goes wrong otherwise.
- Freivalds.Frievalds: asks for a non-empty second factor and a first factor with columns, since the source looks at their first entries before any check.
- RowCheck.PrepareLedger: asks for a database with cells; for an empty one the product throws, as MatMult says.
- RowCheck.VerifyWorker: that unmarshalling a part may throw, after which its promise is opened without a value, is not modelled. For a group that was not prepared for, the lookup's insertion of an empty matrix is the empty vector here.
- ThreadPool.RunsKeepInv: tasks do not throw. The pool swallows a task's exception and counts its latch down all the same.
- Matrices.MatMult: computes the cells in turn; ParallelProduct shows that every schedule of the pool gives the same matrix. The other parallel loops (unmarshalling, expansions, embeddings, sums) write distinct cells in the same way and are modelled in sequence.
- WorkerStrategy.RowMultiplicationStrategy.ExpandInto: asks that an expansion that succeeds has as many entries as asked for, as QueryExpander.ExpandQuery ensures. After a missing key, or when it hangs or is undefined, the columns of the query matrix are unspecified; expansions already submitted when a key is missing then use a latch that no longer exists.
- Manager.Manager.NewLedger: one ledger at a time; a reply that arrives after the next round's ledger was made is not modelled. The prepared products of the ledger are RowCheck.PrepareLedger.
- Manager.Manager.AsyncVerifyWorker: a worker without a responsibility is given an empty one, as in the source, but the insertion itself, without a lock, is not modelled. The length of the worker's query range and of the random vector are one number, since both come from the same count of groups; a registration between the two counts in `new_epoch` is not modelled.
- ReplyReader.FreedCondition: a task's finding the buffer and using it are one step each; the unsynchronised read of the vector's own pointer while the loop replaces it is not told apart from reading it before or after.
- Checks.SurvivalCondition: growth by doubling from nothing to one, as the usual libraries have it; FreedCondition is for any growth.
- Manager.Manager.PutInResultMatrix: rows and clients are natural numbers. Two handlers that write the same cell at once are two steps here. The parts' own promises and the counter of a client's answers are left out.
- Manager.Manager.WaitOnVerification: runs once all promises are kept and visits them in any order; the source waits for them one by one, by name, and throws at the first that is false, perhaps before a later one is kept.
- LedgerAnswers.DoneCellCondition: a worker that replies more than once sends the same reply, complete or cut short at the same place.
- EndToEnd.RoundRetrievesEntry: workers are honest; a round that is not is Checks.DishonestRoundIsCaught. First queries are of one ciphertext, as the workers send and expand them; second queries are of any number.
- RoundLabels.RoundLabelCondition: asks that products of different cells have different embeddings and that none is in the answers beforehand; otherwise a wrong label could do no harm.
- WorkerTask.Worker.UpdateCurrentTask: rows are natural numbers used as keys; one of 2^31 or more narrows to a negative key, which changes only the order in which rows are walked. So are the positions of Galois keys, clients' numbers that the source narrows to int. Databases have at most 2^31 columns.
- Scheduler.MapWorkersToResponsibilities: counts below 2^64, no product of them overflowing; without workers, or with an empty database, the source divides by zero.
- `send_db(epoch, 0)` passes its two numbers in the opposite order of the parameters' names; the numbers only travel along with the task, and the model does not say which is which.
- `mult_slow`, `trivial_ciphertext`, `add_plain_trivial`, the inside of `scalar_multiply`: decided inside SEAL.
- `ClientListener`, the unimplemented parts of `FullServer`, the locking of `DB`, `Counter`, `extract_ip`, `url_decode`, `factory.cpp`: empty or easy.
