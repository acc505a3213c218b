# CobaltC: programs, standard library and tools, modelled and proved

A Dafny model of the algorithms that CobaltC's guide, benchmarks, standard library and tools rest on, and proofs of what
they are for. `dafny verify dfyconfig.toml` checks all of it.

**Threads.** The guide's concurrent programs are transition systems for any number of threads, jobs, permits, rounds and
capacities (`Rounds`, `RoundsRuns` and `RoundsLeftOver`, `WorkerPool`, `CasMaximum`, `Latch`, `LostUpdate`). A step is
one atomic operation, one channel operation or one locking, as the language's concurrency rules order them; a run is any
interleaving (`Transitions`).
`Barrier`, `Semaphore`, `Once` and `Atomic::wait` are not taken as given: threads step through their bodies over the wake
counts of the waiting rules. The documentation has a barrier release its parties together and be ready for the next
round; the code, which the model follows, can release more threads than its parties at once and forget that they came.

**Graphs and containers.** Dijkstra's and the breadth-first search run over the standard library's own
`PriorityQueue` (a heap in two parallel vectors) and `Queue` (two stacks), modelled with their fields and loops and proved
against a stable sort (`Draining`) and a plain row, the queue also with its promise of amortised constant time.
`HashMaps` is the standard hash map: linear probing with masked indices, growth, and deletion by moving later entries
back, proved to be a map that keeps its entries' order.

**Arithmetic.** xoshiro256** with splitmix64 on 64-bit words (`Words`, `Generator`), the rejection that makes bounded
draws unbiased (`UnbiasedDraw`), the shuffle built on them (`Shuffle`), FxHash (`FxHash`), the sieve in both forms with its
exact overflow bound (`Sieve`), the bouncing particles with their exact period (`Particles`), and the in-place search tree
(`SearchTree`). `Division` and `Counting` hold the arithmetic they share.

**Text.** The guide's highlighter (`Tokenizer`, `Highlighter`), the reference's Markdown splitter (`Markdown`) and item
grouping (`Grouping`), and the conformance runner's argument decoder (`CaseArgs`); `Strings` splits and joins.

A computation that may stop with one of the language's checked faults gives a `Result` (`Wrappers`). Where a promise holds
only under a condition, the condition is proved exact: the pool and the rounds deadlock exactly when a channel is too small,
there are no permits or the barrier is made neither for exactly the threads there are nor for one at a time; the
searches, the sieve, the particles' energy and the tree's sum overflow exactly when stated.

## Model

| member | source | states |
|---|---|---|
| `Transitions.RunsAreBounded` | htmlguide/generator/content_c.py:1262 | a schedule of a system whose every step lowers a two-part measure is no longer than the measure's budget at the start |
| `Transitions.RunsToAStop` | htmlguide/generator/content_c.py:1262 | any run of such a system can be carried on to a state in which no thread can step |
| `Transitions.InvariantHolds` | htmlguide/generator/content_c.py:1262 | what holds at the start and is kept by every enabled step holds after every interleaving of whole steps |
| `RoundsRuns.SafeAtEveryMoment` | htmlguide/generator/content_c.py:1039-1074 | in every interleaving, for any threads, permits and rounds and a barrier for no fewer: nobody is inside before the one-time reset has run to its end, once; `inside` is the number of threads inside and at most the permits; at most one thread has a line to print; the lines are rounds 0, 1, 2, … in order |
| `RoundsRuns.BoundedAtEveryMoment` | htmlguide/generator/content_c.py:1039-1053 | and whatever number the barrier is made for: nobody is inside before the reset is over, it runs once, and at most the permits are inside |
| `RoundsRuns.StuckMeansFinished` | htmlguide/generator/content_c.py:1051-1072 | a state in which nothing can move is the program's end: all joined, all permits back, nobody inside, the peak within the permits and exactly the most there were inside after any prefix of the schedule; and, with no thread left over, every round's line printed once in order |
| `RoundsRuns.PeakIsTheMost` | htmlguide/generator/content_c.py:1042-1072 | at the end of any schedule the peak is the most threads there were inside at once: no prefix leaves more inside, and one leaves as many |
| `RoundsRuns.ThreadsHaveSeen` | htmlguide/generator/content_c.py:1042-1054 | every thread answers the most it saw inside just after it entered, itself included |
| `RoundsRuns.EveryScheduleEnds` | htmlguide/generator/content_c.py:1028-1074 | for any threads, parties, permits and rounds no schedule goes on for ever: each is bounded and leads to a state in which nothing can move |
| `RoundsRuns.EveryScheduleFinishes` | htmlguide/generator/content_c.py:1028-1037 | with at least one permit and a barrier for exactly the threads there are or for one at a time (or with no rounds), every schedule is bounded and can be carried on to the end, with the true peak: no deadlock, lost wake-up or endless retry |
| `RoundsRuns.DeadlockFreeIff` | htmlguide/generator/content_c.py:1076-1078 | for any threads, parties, permits and rounds, the program can deadlock exactly when there are rounds to run, and no permits, or a barrier for more than one thread but not for exactly the threads there are |
| `RoundsRuns.AllWaitForEver` | impl/std/sync.cb:899-917 | a barrier for more threads than there are: every schedule is bounded and ends with every thread asleep at the first meeting point, nothing joined or printed |
| `RoundsLeftOver.AnArrivalCanBeForgotten` | impl/std/sync.cb:904-917 | a barrier for fewer threads than there are: a state can be reached in which one thread more than its parties waits for the release on its way, and no arrival is on record |
| `RoundsLeftOver.AThreadCanBeLeftBehind` | impl/std/sync.cb:904-917 | and, made for more than one thread, it can leave one behind for ever while all others end their rounds, also where the parties divide the threads |
| `RoundsRuns.ForOneStep` | impl/std/sync.cb:904-917 | made for one thread, with any number of them: each step keeps an arrival on record exactly while its thread is about to wipe it out, and a waiter only while some thread is about to end the round |
| `Rounds.NeverStuck` | spec/19-concurrency.md:416-450 | with the wake-count rules for waiting, no reachable state but the end is stuck: no sleeper is left without the notification it needs |
| `Rounds.OnceStep` | impl/std/sync.cb:1106-1131 | each step of `Once::call` keeps the claim: one runner while the state is 1, nobody past it before it is 2, one run of the setup |
| `Rounds.PermitStep` | impl/std/sync.cb:977-1018 | permits are taken and given back by the compare-exchange loops, never made or lost |
| `Rounds.BarrierBumpStep` | impl/std/sync.cb:904-917 | advancing the generation ends exactly one round: all arrivals belong to it, one thread leads, nobody is in the next |
| `WorkerPool.NothingLostOrRepeated` | htmlguide/generator/content_c.py:1093-1126 | at every moment the squares of the jobs sent are, each once, waiting, held, or received; both channels within capacity |
| `WorkerPool.PoolFinishes` | htmlguide/generator/content_c.py:1093-1126 | with room for every result, every schedule is bounded, can be carried on to the end, and the received results are exactly the squares, the total their sum |
| `WorkerPool.EveryScheduleDeadlocks` | htmlguide/generator/content_c.py:1106-1124 | with fewer places for results than jobs, every schedule is bounded and ends stuck with nothing received: `main` joins first, or is still sending exactly when the jobs are more than both channels and the workers hold |
| `WorkerPool.DeadlockFreeIff` | htmlguide/generator/content_c.py:1080-1091 | the pool is free of deadlock exactly when the results channel has room for every job |
| `CasMaximum.StepRaises` | htmlguide/generator/content_c.py:939-951 | `best` never falls; a successful exchange raises it strictly; a failed one was overtaken by a strict rise |
| `CasMaximum.FailuresArePaidFor` | htmlguide/generator/content_c.py:939-951 | at every moment each thread's failures are at most the other threads' successes, and fewer than the threads; each thread succeeds at most once; `best` stays within its start and the maximum |
| `CasMaximum.EveryScheduleFindsTheMaximum` | htmlguide/generator/content_c.py:939-962 | every schedule has at most n(n + 1) steps and ends with `best` the maximum of its start and all values |
| `Latch.PastTheLatch` | htmlguide/generator/content_c.py:982-1014 | the main thread leaves its loop only when every worker has added its square; the total is then the full sum |
| `Latch.NoLostWakeUp` | htmlguide/generator/content_c.py:973-979 | no reachable state has every worker gone and the main thread asleep un-notified |
| `Latch.EveryScheduleFinishes` | htmlguide/generator/content_c.py:982-1014 | every schedule is bounded and can be carried on to the end with all joined and the full total |
| `LostUpdate.TotalIsBounded` | htmlguide/generator/content_c.py:1483-1503 | for n threads the final total of every schedule lies in 1..n |
| `LostUpdate.TotalsAreExactly` | htmlguide/generator/content_c.py:1483-1503 | a total is the end of some schedule exactly when it lies in 1..n |
| `LostUpdate.EveryScheduleFinishes` | htmlguide/generator/content_c.py:1483-1503 | every schedule has at most six steps a thread and can be carried on until all threads are gone |
| `PriorityQueues.LeqMeansLeastThenEarliest` | impl/std/collections.cb:1953-1988 | the heap's comparison is least first, then first come; distinct arrivals leave no ties |
| `PriorityQueues.RiseMakesHeap` | impl/std/collections.cb:2001-2048 | moving one element up past the ancestors it precedes makes a heap of the same elements |
| `PriorityQueues.SinkKeepsHeap` | impl/std/collections.cb:2067-2124 | sinking the hole to a leaf keeps the heap around it and the elements |
| `PriorityQueues.WithoutRootIsHeap` | impl/std/collections.cb:2067-2124 | what is left when the root has gone is a heap of the other elements |
| `PriorityQueues.PriorityQueue.SiftUp` | impl/std/collections.cb:2001-2048 | the two loops in place (find the place, then move) do the same as rising level by level |
| `PriorityQueues.PriorityQueue.Push` | impl/std/collections.cb:2051-2064 | adds the element with the next arrival number and keeps the heap |
| `PriorityQueues.PriorityQueue.SinkHole` | impl/std/collections.cb:2067-2124 | the loop in place sinks the hole along the earlier child to a leaf |
| `PriorityQueues.PriorityQueue.Pop` | impl/std/collections.cb:2067-2124 | takes the entry nothing held comes out before (least, then earliest) and leaves the rest; none exactly when empty |
| `PriorityQueues.PriorityQueue.Peek` | impl/std/collections.cb:2129-2140 | the element `pop` would take |
| `Draining.FirstOutIsUnique` | htmlguide/generator/content_c.py:4907-4911 | which element comes out is settled by what is held, not by how the heap lies |
| `Draining.DrainIsStableSort` | htmlguide/generator/content_c.py:4910-4911 | what successive pops give is a stable sort of what was held: everything once, in order, equals as they were pushed |
| `Draining.DrainIsUnique` | htmlguide/generator/content_c.py:4910-4911 | and the order of leaving is unique |
| `Draining.DrainAll` | htmlguide/generator/content_c.py:5060-5063 | the popping loop ends with the queue empty and gives what successive pops give |
| `Draining.LeastFirst` | htmlguide/generator/content_c.py:5053-5064 | pushing a row to a new queue and popping until nothing is left gives the row in a stable order: each place once, sorted, ties in arrival order |
| `Graphs.AddRoadKeepsMap` | htmlguide/generator/content_c.py:4995-5000 | adding a road at both ends keeps the map well formed and two-way and loses no road |
| `Graphs.BuiltMap` | htmlguide/generator/content_c.py:5002-5014 | any `road` calls on places there are, and no others, build a map; it is well formed and two-way, with exactly the roads called for |
| `Graphs.ExactIsUnique` | htmlguide/generator/content_c.py:5015-5030 | there is only one exact table of distances for a map |
| `Dijkstra.FirstVisitIsShortest` | htmlguide/generator/content_c.py:5019-5025 | the nearest visit to an unsettled place is at its shortest distance |
| `Dijkstra.EmptyMeansExact` | htmlguide/generator/content_c.py:5015-5030 | with the queue empty every settled distance is shortest, every other place unreached below the sentinel, and no road overflowed |
| `Dijkstra.FollowRoads` | htmlguide/generator/content_c.py:5026-5029 | a visit is queued for every road of the place settled, in order, exactly when no sum is past the `u32` maximum |
| `Dijkstra.SettleTurn` | htmlguide/generator/content_c.py:5021-5029 | settling the nearest place and following its roads keeps the invariant and the record of the run, when every sum fits |
| `Dijkstra.SettleOverflows` | htmlguide/generator/content_c.py:5021-5029 | and when one does not, its road overflows from a shortest distance |
| `Dijkstra.TakeNearest` | htmlguide/generator/content_c.py:5019-5030 | one turn takes a visit nothing held comes out before, no nearer than any taken so far, keeps the invariant, the order of settling and the account of every visit queued, and lowers unsettled places or the queue |
| `Dijkstra.ShortestRoutes` | htmlguide/generator/content_c.py:5015-5030 | for any map: every distance is the least walk length from 0 (the sentinel when there is none below it), places settle once each in non-decreasing distance, every visit queued is popped once, and popped distances never fall; it faults exactly when a road leads from a shortest distance past the `u32` maximum, or there is no place 0; when as many of the longest roads as there are places fit, it does not fault, and the sentinel marks exactly the unreachable places |
| `Dijkstra.ShortRoadsDoNotOverflow` | htmlguide/generator/content_c.py:5026-5029 | a map as many of whose longest roads as it has places fit below the `u32` maximum overflows no sum |
| `Dijkstra.SentinelMeansUnreachable` | htmlguide/generator/content_c.py:5015-5016 | and in it the sentinel marks exactly the places no walk leads to |
| `Queues.Queue.Shift` | impl/std/collections.cb:1744-1780 | the elements nearest the empty side cross over reversed, all or half rounding up, the rest stay in order |
| `Queues.Queue.RefillHead` | impl/std/collections.cb:1795-1807 | turning the tail over keeps the row of elements, moves each element of the tail once, and that is already provided for |
| `Queues.Queue.PushBack` | impl/std/collections.cb:1783-1786 | appends at the back of the row |
| `Queues.Queue.PushFront` | impl/std/collections.cb:1789-1792 | puts in front of the row |
| `Queues.Queue.PopFront` | impl/std/collections.cb:1795-1807 | takes the first of the row, or none when it is empty |
| `Queues.Queue.PopBack` | impl/std/collections.cb:1810-1822 | takes the last of the row, or none when it is empty |
| `Queues.Replay` | impl/std/collections.cb:1704-1717 | over any run of operations at both ends the queue answers as a plain row would, and has moved elements at most twice for each operation (amortised constant time) |
| `BreadthFirst.LinkIsUnitRoad` | htmlguide/generator/content_c.py:4929-4934 | linking is adding a road of length one |
| `BreadthFirst.TakeNext` | htmlguide/generator/content_c.py:4953-4963 | one turn takes the front of everything queued so far and keeps: labels exact, never falling along all that was ever queued, those waiting at most one apart, only nodes at the sentinel queued twice; and lowers what is left to do |
| `BreadthFirst.FewestSteps` | htmlguide/generator/content_c.py:4949-4964 | for any graph every label is the fewest edges from 0, the sentinel when there are none fewer; along everything ever queued labels never fall, whenever a node was taken those waiting spanned at most one, every node reached was queued, and none twice but at the sentinel; up to 2^32 - 1 nodes none twice at all, and the sentinel exactly where no walk leads; it faults exactly when a node at the sentinel's distance leads to one no nearer, or there is no node 0 |
| `BreadthFirst.SentinelMeansUnreachable` | htmlguide/generator/content_c.py:4965-4975 | in a graph of at most 2^32 - 1 nodes an exact label is the sentinel exactly for the nodes that cannot be reached |
| `BreadthFirst.QueuedAtMostOnce` | htmlguide/generator/content_c.py:4953-4962 | in a graph of at most 2^32 - 1 nodes no node is ever queued twice, not even after it has left the queue |
| `BreadthFirst.NoOverflowUpToSentinelNodes` | htmlguide/generator/content_c.py:4949-4964 | a graph of at most 2^32 - 1 nodes never overflows the count |
| `Generator.MixIsABijection` | bench/rng.rs:16-22 | the output mix of `splitmix` is a bijection on 64-bit words |
| `Generator.NextIsABijection` | bench/rng.rs:34-44 | the state update is a bijection on four words, and only zero goes to zero |
| `Generator.OutputTellsTheWord` | bench/rng.rs:35 | the drawn word is a bijection of the state's second word: whatever the other three, each word is drawn from exactly one |
| `Generator.SeededWordsDiffer` | bench/rng.rs:25-32 | the four words of a fresh generator are all different |
| `Generator.SeedsDiffer` | bench/rng.rs:25-32 | different seeds give different generators |
| `Generator.NeverZero` | bench/rng.rs:25-44 | from every seed, after any number of draws, the state is not zero |
| `Generator.AfterIsInjective` | bench/rng.rs:34-44 | no two states ever run together |
| `Generator.CheckValues` | spec/21-standard-library-semantics.md:3947-3948 | the words drawn first from the seeds 42 and 0 are the normative check values |
| `Generator.BoundedWords` | spec/21-standard-library-semantics.md:3949 | and these words, accepted for the bounds of the bounded check values, give those values |
| `Generator.FirstWords` | spec/21-standard-library-semantics.md:3947 | and as numbers the first four words from 42 |
| `Generator.WordsAreNumbered` | impl/std/random.cb:67-75 | as numbers the words go from 0 to 2^64 - 1 |
| `Words.RotatedBy5` | impl/src/fxhash.rs:19-21 | a rotation by five in numbers: times 2^5, with what is carried out brought in below |
| `Words.RotatedBy7` | impl/std/random.cb:20-23 | and by seven |
| `Words.RotatedBy45` | impl/std/random.cb:20-23 | and by forty-five |
| `Generator.RepeatsFromTheStart` | bench/rng.rs:34-44 | a run of states that repeats comes back to its own start |
| `Generator.Rng.constructor` | bench/rng.rs:25-32 | a generator with the seed's state, which is not zero |
| `Generator.Rng.NextU64` | bench/rng.rs:34-44 | the in-place updates make the next state and give this state's output |
| `Generator.Rng.Below` | bench/rng.rs:46-53 | the first draw not rejected, modulo n, below n; division fault for 0; the state is as many draws on as were made |
| `UnbiasedDraw.RejectsTheRemainder` | bench/rng.rs:47 | `reject_under` is 2^64 mod n, the accepted words are a whole number of rounds of n and more than half of all words |
| `UnbiasedDraw.EveryRemainderEquallyLikely` | bench/rng.rs:46-53 | every remainder below n is given by exactly (2^64 - reject_under) / n accepted words |
| `Shuffle.ShuffledKeepsElements` | impl/std/random.cb:161-177 | the shuffle changes nothing but the order |
| `Shuffle.RowIsTold` | impl/std/random.cb:161-177 | of distinct elements, different rows of draws give different orders |
| `Shuffle.EveryOrderHasARow` | impl/std/random.cb:161-177 | and every order is given by some row: the orders are as likely as the rows |
| `Shuffle.Shuffle` | impl/std/random.cb:169-177 | the loop over the array in place is the exchange row the generator gives: from its state on, the first accepted word below each of i, i - 1, …, 2; and the generator is left right behind that row |
| `Shuffle.RowFromIsUnique` | impl/std/random.cb:161-168 | the row, and with it the order and the state left behind, is determined by the generator's state, so equal seeds shuffle alike |
| `SearchTree.PlacedAfterTheLastUpTo` | bench/tree.rs:11-23 | one insertion changes the row of keys only by putting k at one point |
| `SearchTree.UpToSplits` | bench/tree.rs:11-23 | that point is after the last key up to k and before every larger one |
| `SearchTree.PlacedIsSorted` | bench/tree.rs:11-23 | an insertion keeps the row sorted |
| `SearchTree.KeysOfARound` | bench/tree.rs:36-46 | after a run of insertions the row is the sorted permutation of the root's key and the inserted ones |
| `SearchTree.Node.Insert` | bench/tree.rs:11-23 | the recursive insertion in place keeps disjoint subtrees with left keys < key <= right keys, adds exactly one node, a fresh leaf with k, keeps every other node and every link but one absent one, and places k in the row |
| `SearchTree.Node.Gather` | bench/tree.rs:5-9 | a node over two valid, disjoint, ordered subtrees is a valid tree of their keys around its own |
| `SearchTree.Node.Sum` | bench/tree.rs:25-34 | the recursive sum is that of all keys when no addition overflows; for non-negative keys it overflows exactly when the sum is over the maximum |
| `SearchTree.Round` | bench/tree.rs:39-45 | a round's sum is the root's key plus all inserted keys, with the exact overflow condition for non-negative keys |
| `Particles.StaysNear` | bench/records.rs:9-18 | whatever the speed, a coordinate that starts inside is always inside or one step from it, at the same speed |
| `Particles.NeverFarOutside` | bench/records.rs:9-18 | so it is never more than one step outside, and no sum or negation leaves the 64-bit range for speeds up to the box's width below its end |
| `Particles.BeforeTheFirstTurn` | bench/records.rs:9-18 | up to its first turning point a coordinate moves uniformly, and there it turns |
| `Particles.FirstTurn` | bench/records.rs:9-18 | the first turn is at the first place beyond the wall ahead |
| `Particles.RepeatsWithItsPeriod` | bench/records.rs:9-18 | from the first turn on, for any non-zero speed, the motion repeats after exactly 2(top - bottom)/|v| steps and no sooner |
| `Particles.AtRest` | bench/records.rs:9-18 | a coordinate with no speed stays |
| `Particles.EnergyIsKept` | bench/records.rs:20-26 | a body's energy is the same after any number of steps |
| `Particles.Particle.Step` | bench/records.rs:9-18 | the update in place moves both coordinates by their own motion |
| `Particles.Energy` | bench/records.rs:20-26 | the accumulating loop gives the total energy of the particles, and overflows exactly when that does not fit 64 bits |
| `Particles.StepAll` | bench/records.rs:33-35 | one round moves every particle exactly one step |
| `Particles.Run` | bench/records.rs:32-37 | after any rounds each particle is where its own motion takes it and the energy is the initial one, checked |
| `Particles.AllMadeHave` | bench/records.rs:20-32 | the energy of the first n particles in closed form: the squared speeds come round every seven and every five |
| `Particles.Program` | bench/records.rs:28-38 | the whole program for any number of particles and rounds: the energy it prints does not depend on the rounds, is that closed form (11995 for the program's 2000) for up to (2^63 - 1) / 13 particles, and the first particle is where its motion takes it |
| `Sieve.SmallMultiple` | bench/sieve.rs:10 | a multiple of p below its square has a smaller factor: marking may begin at the square |
| `Sieve.SkipComposite` | bench/sieve.rs:9 | a number already crossed out brings nothing new |
| `Sieve.SievedFarEnough` | bench/sieve.rs:8 | once p squared is past the end exactly the primes are left |
| `Sieve.SieveCount` | bench/sieve.rs:3-25 | the count is the number of primes below the limit; it succeeds exactly for 2 <= limit <= (2^32 - 1)^2, else the index faults (below 2) or the 64-bit square or sum overflows |
| `Sieve.Flags.Fill` | bench/sieve_fn.rs:3-7 | pushes one flag per number, true from two on |
| `Sieve.Flags.Mark` | bench/sieve_fn.rs:9-21 | for any flags and limit: clears below the limit exactly the multiples, from their squares on, of the numbers whose flags stay set; it succeeds exactly when the limit is at most (2^32 - 1)^2 and, of the flags as they were, no number to be tried and no multiple to be cleared is past the end |
| `Sieve.MarkedCandidates` | bench/sieve_fn.rs:9-21 | from flags set from two on, exactly the primes' flags are left |
| `Sieve.Flags.Count` | bench/sieve_fn.rs:23-31 | counts the flags set, whatever they are, and so the primes when the flags are exactly theirs |
| `Sieve.BothForms` | bench/sieve_fn.rs:33-39 | the two forms agree exactly on limits from 2 on; below, only the single function faults |
| `FxHash.MixedIsABijection` | impl/src/fxhash.rs:20-24 | adding a word is a bijection of the hash for each word and of the word for each hash |
| `FxHash.OneChunkTells` | impl/src/fxhash.rs:29-33 | two strings alike but for one eight-byte chunk, anywhere, never hash alike from the same state |
| `FxHash.WordIs` | impl/src/fxhash.rs:31-32 | a chunk's word is its eight bytes to the base 256, the first the lowest |
| `FxHash.CheckValue` | impl/src/fxhash.rs:19-21 | nine bytes written into a new hasher, in numbers |
| `FxHash.TailIsTold` | impl/src/fxhash.rs:34-39 | a tail of up to seven bytes is determined by its tagged word, its length included |
| `FxHash.TailsTell` | impl/src/fxhash.rs:34-39 | two strings alike up to their incomplete last chunks never hash alike, whatever the tails' lengths |
| `FxHash.WritesJoin` | impl/src/fxhash.rs:28-40 | writing a then b is writing a + b when a is whole words |
| `FxHash.StateIsTold` | impl/src/fxhash.rs:28-40 | writing any string loses nothing of the state |
| `FxHash.OneChunkForEveryHash` | impl/src/fxhash.rs:28-33 | between any whole words before and anything after, exactly one chunk leads to a given hash |
| `FxHash.FxHasher.Write` | impl/src/fxhash.rs:28-40 | the loop over chunks and the tagged remainder absorb the whole string |
| `FxHash.FxHasher.AddRemainder` | impl/src/fxhash.rs:34-39 | the remainder is copied into a cleared buffer and marked with its length |
| `Tokenizer.MatchAtIsFirstLongest` | htmlguide/generator/gen.py:62-69 | the token at any place is the first alternative that matches there, as long as it can be |
| `Tokenizer.IdentCharsAre` | htmlguide/generator/gen.py:65-66 | the characters a name begins and goes on with, and those of a suffix |
| `Tokenizer.TokensSpellTheSource` | htmlguide/generator/gen.py:78-82 | the tokens put together are the source, nothing lost or repeated |
| `Highlighter.SeenEscaped` | htmlguide/generator/gen.py:72 | escaped text is seen as itself, in the spans around it |
| `Highlighter.RewritingIsLocal` | htmlguide/generator/gen.py:71-76 | the three rewritings of an escaped comment act on single characters and whole `diag.` names of the source |
| `Highlighter.SeenComment` | htmlguide/generator/gen.py:71-76 | a rewritten comment is seen as the comment, one character or one name at a time |
| `Highlighter.CommentIsColoured` | htmlguide/generator/gen.py:71-76 | each character of it in class c, a tick also in ok, a cross in bad, and a diagnostic's name, found from left to right, in dg |
| `Highlighter.DiagCharIs` | htmlguide/generator/gen.py:75 | a name goes on over small letters, digits and hyphens |
| `Highlighter.TokenIsSeen` | htmlguide/generator/gen.py:81-99 | every token's markup is seen as the token, with its spans closed, each character in the token's class: c, s, n, none, or k, t, p by the vocabulary in that order; names need no escaping |
| `Highlighter.Highlight` | htmlguide/generator/gen.py:78-100 | for every source the page's spans are closed in turn and it shows exactly the source, each character in the classes of the token it belongs to, where the tokens are the first alternatives' longest matches one after the other |
| `Markdown.OneReading` | htmlguide/generator/std_reference.py:51-93 | the lines decide the blocks: two readings of the same lines are equal |
| `Markdown.EveryLineOnce` | htmlguide/generator/std_reference.py:51-93 | every line that is not blank lies in exactly one block |
| `Markdown.BlockShowsItsLines` | htmlguide/generator/std_reference.py:63-92 | a block shows, in order, exactly the non-space characters of its lines, but for fences and item marks |
| `Markdown.PageShowsItsLines` | htmlguide/generator/std_reference.py:51-92 | all blocks in order show exactly the ink of all lines in order, but for fences and item marks |
| `Markdown.BlockReadsItsLines` | htmlguide/generator/std_reference.py:62-92 | read off the lines alone: fenced code splits at line ends into the lines between the fences; indented code into its lines without the empty ones at the end; a paragraph is its lines stripped, a space apart, with their words in turn and no space at either end; and so is each entry, except that it begins or ends with space exactly when its first or last of several lines is blank |
| `Markdown.EntriesAreListed` | htmlguide/generator/std_reference.py:76-83 | an entry for each item, made of the item's line without its mark and the lines up to the next item |
| `Markdown.EntryEndsWithSpace` | htmlguide/generator/std_reference.py:81-82 | so an entry can end with a space: an item with a line of two spaces under it |
| `Strings.SplitOfJoined` | htmlguide/generator/std_reference.py:55-73 | parts without the character come apart again where they were joined with it |
| `Strings.JoinedOfSplit` | htmlguide/generator/std_reference.py:55 | and any text is its parts, which do not hold the character, joined with it |
| `Markdown.FencedAt` | htmlguide/generator/std_reference.py:62-68 | a fenced block runs to the next fence or the end |
| `Markdown.IndentedAt` | htmlguide/generator/std_reference.py:69-75 | an indented block goes on over indented and blank lines, as far as it can |
| `Markdown.ListedAt` | htmlguide/generator/std_reference.py:76-85 | a list goes on over items and lines indented under them; each item's lines are one entry |
| `Markdown.ParagraphAt` | htmlguide/generator/std_reference.py:86-92 | a paragraph goes on to the next line that begins something else |
| `Markdown.Markdown` | htmlguide/generator/std_reference.py:55-93 | the text is split into its lines, and the loop ends with a reading of all of them, each block showing its lines as above |
| `Grouping.FunctionsUnderTheirType` | htmlguide/generator/std_reference.py:128-134 | the first type of a name has under it all functions it owns, in source order; a second of the same name none |
| `Grouping.OthersAfterThem` | htmlguide/generator/std_reference.py:135-137 | then come the functions whose owner is no type here, owner by owner, each once |
| `Grouping.OthersInOrder` | htmlguide/generator/std_reference.py:128-137 | in the order in which their owners first appear |
| `Grouping.EveryItemOnce` | htmlguide/generator/std_reference.py:123-141 | every item of a known kind is shown in one place, as often as listed; others not at all |
| `Grouping.BelongsIff` | htmlguide/generator/std_reference.py:130-131 | a function's owner is what stands before the first `::` of its name |
| `Grouping.EntriesAreArranged` | htmlguide/generator/std_reference.py:123-137 | in names and kinds alone: the types in source order, each with exactly the functions whose names are its own, the first `::` and more (a second type of the name with none); then the owners no type names, each once with its functions, as they are first seen |
| `Grouping.Order` | htmlguide/generator/std_reference.py:123-141 | the loops over the list and the dictionary build this arrangement, and the free functions, constants and externs by kind and the absence of `::`, in source order |
| `CaseArgs.ReadIff` | impl/conformance/run.py:117-126 | bytes spell a string in UTF-8, as section 4 of RFC 3629 reads them, exactly when they are its encoding; an ASCII character is its own byte |
| `CaseArgs.DecodedIff` | impl/conformance/run.py:119-128 | a word is decoded to exactly the bytes it spells: from left to right an escape's two hexadecimal digits, of either case, for a byte, and any other character for its UTF-8 bytes |
| `CaseArgs.ArgumentsIff` | impl/conformance/run.py:109-129 | the words are read one by one: `""` as nothing, one with `$TMP` as the UTF-8 of its parts with the directory between, any other as what it spells |
| `CaseArgs.RoundTrip` | impl/conformance/run.py:109-129 | any arguments, written as `""` or as words that spell them, with spaces between, are read back exactly |
| `CaseArgs.SpelledSpells` | impl/conformance/run.py:122-124 | and all arguments can be written so, in escapes alone |
| `CaseArgs.RefusedIff` | impl/conformance/run.py:121-124 | a word is refused, with a value error, exactly when reading it comes to an escape whose two characters are no hexadecimal number or a negative one |
| `CaseArgs.ArgumentsRefusedIff` | impl/conformance/run.py:109-129 | a case's arguments are refused exactly when some word that is neither `""` nor holds `$TMP` comes to such an escape |
| `CaseArgs.PassesThrough` | impl/conformance/run.py:125-127 | a word without an escape passes through as its UTF-8 encoding, which `ReadIff` reads back |
| `CaseArgs.ReplacedInPlace` | impl/conformance/run.py:116-118 | every `$TMP` is replaced where it stands and nothing else is: the parts between them are kept |
| `CaseArgs.PartsOf` | impl/conformance/run.py:116-118 | and every word is such parts, none of which holds `$TMP`, with it in between |
| `Strings.WordsApart` | impl/conformance/run.py:112 | white space separates words: those before it, then those after it |
| `Strings.JoinedComeApart` | impl/conformance/run.py:112 | words without spaces come apart again where they were joined |
| `CaseArgs.Decode` | impl/conformance/run.py:109-129 | the loops decode every word to what it is read as above, or fail exactly when some word is refused |
| `HashMaps.FoundTells` | impl/std/collections.cb:1163-1185 | a search that ends at an empty slot means the key has no entry |
| `HashMaps.PlacedInTable` | impl/std/collections.cb:1245-1250 | an entry put in the slot found for it is reached there and hides no other |
| `HashMaps.StaysMeansHomeBetween` | impl/std/collections.cb:1346-1353 | the deletion's test is whether the entry's home lies between the hole and its slot, going round |
| `HashMaps.MovedBack` | impl/std/collections.cb:1354-1358 | moving an entry back into the hole keeps every other entry reachable but for the new hole |
| `HashMaps.HoleEmptied` | impl/std/collections.cb:1338-1363 | at the first empty slot the hole may be emptied: every entry is reachable again |
| `Division.MaskIsRemainder` | impl/std/collections.cb:1165-1166 | masking with one less than a power of two takes the remainder, so the masked indices go round the table |
| `HashMaps.HashMap.Find` | impl/std/collections.cb:1163-1185 | ends at the key's slot, or at an empty one with only other keys on the way to it |
| `HashMaps.HashMap.Reslot` | impl/std/collections.cb:1195-1218 | every entry is in the larger table again |
| `HashMaps.HashMap.Insert` | impl/std/collections.cb:1236-1250 | the map with k going to v, the old value given back; a new key comes last, a present one keeps its place; a quarter of the slots stay empty |
| `HashMaps.HashMap.Get` | impl/std/collections.cb:1300-1308 | the value of the key in the map, or none |
| `HashMaps.HashMap.Unslot` | impl/std/collections.cb:1330-1364 | backward-shift deletion: afterwards the table holds exactly the other entries, each reachable from its home with no empty slot in the way |
| `HashMaps.HashMap.SwapRemove` | impl/std/collections.cb:1373-1402 | the map without k, its value given back, the last entry in its place |
| `HashMaps.HashMap.Remove` | impl/std/collections.cb:1410-1455 | the map without k, its value given back, the others in their order |
| `HashMaps.HashMap.MoveDown` | impl/std/collections.cb:1444-1453 | the indices after the removed entry move down and the table stays right |

## Left out

- The language itself (typing, ownership, the abstract machine), the interpreter, the compiler and the proofs about them.
- Everything in `std` but the parts named above: text, files, network, cryptography, compression, formats, sorting.
- A waiter woken although nothing notified its atomic (the tools share wake counts between atomics): it checks and sleeps again; the model has no such steps.
- `notify_one` follows the waiting rules, where the count moves and every waiter may go on; waking fewer threads is not modelled.
- Which schedules deadlock, and what is printed, in a program with more threads than its barrier's parties: only that some schedule deadlocks, and when none does.
- A setup that faults inside `Once::call`, and the wrap-around of the barrier's generation and of wake counts, which take 2^64 rounds.
- The overflow of `n * n` and of the totals in the worker pool and the latch: numbers there are unbounded.
- The threads of the worker pool are modelled from the start of the program; none can step before a job is sent.
- `PriorityQueue`'s second vector for keys compared as integers gives the same order and is not modelled; arrival numbers are unbounded.
- `Queue` and `HashMap` memory management (raw copies, destructors, capacities); a copy of one element counts as one move.
- `HashMap`'s `entry`, `get_mut`, `clone` and iteration are not modelled.
- Generator.Rng.Below: the promise that some later draw is accepted is a parameter, because the loop's end depends on the words drawn.
- Shuffle.Shuffle: takes the same promise, that each of the draws it comes to is followed by an accepted one, so that its loop ends; lengths are below 2^64.
- `Rng::unit_f64`, `Rng::from_os` and the statistical quality of the generator.
- Particles and the tree's `Rust` twins wrap on 64-bit overflow in a release build; the model follows the checked CobaltC twins, and positions are unbounded integers, with the speeds for which no sum leaves 64 bits proved.
- The tree's drawn keys are parameters; ten rounds are one round each.
- Memory exhaustion in the sieve: a vector of any length below 2^64 can be made.
- FxHash's `write_u8`, `write_u32`, `write_usize`, which add one word each.
- `html.escape` is taken as one replacement for each character, and the pattern's Unicode digits and word characters are parameters.
- The Markdown splitter's inline forms and page markup; a block keeps the text its markup is made from.
- `strip` and `split` use a white-space class that is a parameter, which a space belongs to; `int(…, 16)` is modelled for the two characters it is given, with other scripts' digits as a parameter; strings with unpaired surrogates are not modelled.
- Reading case headers, running programs, timeouts and reports in the conformance runner.
- The guide's other examples and pages, and the benchmarks of strings, hash counting and the Collatz sequence.
